/// `window::get_aspect_ratio_height`: the window height that goes with a
/// width under one of the supported aspect ratios. The rest of the window
/// code creates GLFW windows and is not modelled.
module Window {

  // The values of the enum `as_ratio_t`, in declaration order.
  const AspectRatio16x9: int := 0  // HD video
  const AspectRatio4x3: int := 1   // standard monitor
  const AspectRatio3x2: int := 2   // classic film
  const AspectRatio21x9: int := 3  // cinemascope
  const AspectRatio1x1: int := 4   // quadratic window

  predicate IsAspectRatio(aspect: int) {
    AspectRatio16x9 <= aspect <= AspectRatio1x1
  }

  /// The width and height components of a ratio, e.g. (16, 9) for 16:9.
  function Components(aspect: int): (wh: (int, int))
    requires IsAspectRatio(aspect)
    ensures 1 <= wh.1 <= wh.0
  {
    if aspect == AspectRatio16x9 then (16, 9)
    else if aspect == AspectRatio4x3 then (4, 3)
    else if aspect == AspectRatio3x2 then (3, 2)
    else if aspect == AspectRatio21x9 then (21, 9)
    else (1, 1)
  }

  /// C++ integer division, which truncates toward zero (Dafny's `/` is
  /// Euclidean, which differs for a negative dividend): the remainder
  /// `a - q * b` has the sign of `a` and is smaller than `b` in size.
  function Quot(a: int, b: int): (q: int)
    requires 0 < b
    ensures 0 <= a ==> 0 <= a - q * b < b
    ensures a < 0 ==> -b < a - q * b <= 0
  {
    if a >= 0 then a / b else -((-a) / b)
  }

  /// The height for `width`: the width is cut into whole units of the ratio's
  /// first component (dividing before multiplying) and each unit contributes
  /// the second component. A value outside the enum yields 0.
  function AspectRatioHeight(width: int, aspect: int): (height: int)
    ensures !IsAspectRatio(aspect) ==> height == 0
    ensures aspect == AspectRatio1x1 ==> height == width
    ensures 0 <= width ==> 0 <= height <= width
    ensures width <= 0 ==> width <= height <= 0
  {
    if aspect == AspectRatio16x9 then Quot(width, 16) * 9
    else if aspect == AspectRatio21x9 then Quot(width, 21) * 9
    else if aspect == AspectRatio3x2 then Quot(width, 3) * 2
    else if aspect == AspectRatio4x3 then Quot(width, 4) * 3
    else if aspect == AspectRatio1x1 then width
    else 0
  }

  /// Every listed ratio computes `(width / w) * h` for its components w:h.
  lemma AspectRatioHeightByComponents(width: int, aspect: int)
    requires IsAspectRatio(aspect)
    ensures AspectRatioHeight(width, aspect) == Quot(width, Components(aspect).0) * Components(aspect).1
  {
  }

  /// The height is a whole number of the ratio's height units, and those
  /// units' widths fit into `width` with less than one unit to spare: the
  /// division truncates.
  lemma AspectRatioHeightWholeUnits(width: int, aspect: int)
    requires IsAspectRatio(aspect) && 0 <= width
    ensures var (w, h) := Components(aspect);
            var height := AspectRatioHeight(width, aspect);
            && height % h == 0
            && (height / h) * w <= width < (height / h + 1) * w
  {
    var (w, h) := Components(aspect);
    var units := width / w;
    AspectRatioHeightByComponents(width, aspect);
    assert AspectRatioHeight(width, aspect) == units * h;
    assert (units * h) / h == units && (units * h) % h == 0;
    assert units * w <= width < (units + 1) * w;
  }

  /// Truncation toward zero makes the height an odd function of the width.
  lemma AspectRatioHeightOdd(width: int, aspect: int)
    ensures AspectRatioHeight(-width, aspect) == -AspectRatioHeight(width, aspect)
  {
  }
}
