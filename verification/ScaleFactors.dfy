/** Screen scale factors in quarter steps, over the reals. */
module ScaleFactors {

  const STEP := 0.25
  const MAX_DIALOG_HEIGHT := 810.0
  const BASE_DPI := 96.0
  const BASE_WIDTH := 1920.0
  const BASE_HEIGHT := 1080.0
  const CORRECTION := 0.75

  function Min(x: real, y: real): real { if x < y then x else y }
  function Max(x: real, y: real): real { if x < y then y else x }

  /** `qRound`: to the nearest integer, halves upwards. */
  function Round(x: real): int { (x + 0.5).Floor }

  /** The nearest quarter to the clamped scale, or the largest quarter below the maximum if
      that is less. */
  function Adjust(scale: real, maxScale: real): real {
    if maxScale <= 1.0 then Min(scale, maxScale)
    else
      var nearest, largest := Round(Min(scale, maxScale) / STEP), (maxScale / STEP).Floor;
      (if nearest < largest then nearest else largest) as real * STEP
  }

  method AdjustScaleValueToSuitableIncrement(given: real, maxScale: real) returns (scale: real)
    ensures scale == Adjust(given, maxScale)
  {
    scale := Min(given, maxScale);
    if maxScale > 1.0 {
      var quarters := Round(scale / STEP);
      ghost var nearest, largest := quarters, (maxScale / STEP).Floor;
      scale := quarters as real * STEP;
      ghost var q := quarters;
      while scale > maxScale
        invariant scale == q as real * STEP && q <= nearest
        invariant q == nearest || q >= largest
        invariant nearest <= largest ==> q == nearest
        decreases q - largest
      {
        assert q as real > maxScale / STEP;
        scale := scale - STEP;
        q := q - 1;
      }
      assert q as real <= maxScale / STEP;
      assert q <= largest;
    }
  }

  predicate IsQuarter(x: real) { x == (x / 0.25).Floor as real * 0.25 }

  function Distance(x: real, y: real): real { if x < y then y - x else x - y }

  /** The integer chosen in units of a quarter. */
  function Choice(t: real, top: int): int { if Round(t) < top then Round(t) else top }

  lemma ChoiceClose(t: real, top: int)
    requires t < (top + 1) as real
    ensures Choice(t, top) <= top && Distance(Choice(t, top) as real, t) < 1.0
  {
    assert Round(t) as real <= t + 0.5 < (Round(t) + 1) as real;
  }

  lemma AdjustInQuarters(scale: real, maxScale: real)
    requires maxScale > 1.0
    ensures var t, top := Min(scale, maxScale) / STEP, (maxScale / STEP).Floor;
      && Adjust(scale, maxScale) == Choice(t, top) as real * STEP
      && t < (top + 1) as real && top as real * STEP <= maxScale
  {
  }

  lemma QuarterOf(k: int)
    ensures IsQuarter(k as real * STEP)
  {
    assert k as real * STEP / STEP == k as real;
  }

  /** The adjusted scale respects the maximum, lies on a quarter, and is less than a
      quarter away from the clamped input. */
  lemma AdjustClose(scale: real, maxScale: real)
    ensures var a := Adjust(scale, maxScale);
      && a <= maxScale
      && (maxScale > 1.0 ==> IsQuarter(a))
      && Distance(a, Min(scale, maxScale)) < 0.25
      && (maxScale <= 1.0 ==> a == if scale < maxScale then scale else maxScale)
  {
    if maxScale > 1.0 {
      var s := Min(scale, maxScale);
      var t, top := s / STEP, (maxScale / STEP).Floor;
      AdjustInQuarters(scale, maxScale);
      hide Adjust, Choice, Min, IsQuarter;
      var n := Choice(t, top);
      ChoiceClose(t, top);
      QuarterOf(n);
      assert Distance(n as real * STEP, s) == Distance(n as real, t) * STEP;
    }
  }

  lemma ChoiceNearest(t: real, top: int, k: int)
    requires t < (top + 1) as real && k <= top
    ensures Distance(Choice(t, top) as real, t) <= Distance(k as real, t)
  {
    var n := Round(t);
    assert n as real <= t + 0.5 < (n + 1) as real;
    if n < top {
      assert k == n || k <= n - 1 || k >= n + 1;
    } else {
      assert k == top || k <= top - 1;
    }
  }

  /** It is the closest quarter that the maximum allows: no admissible quarter is nearer. */
  lemma AdjustNearest(scale: real, maxScale: real, k: int)
    requires maxScale > 1.0 && k as real * 0.25 <= maxScale
    ensures var s := Min(scale, maxScale);
      Distance(Adjust(scale, maxScale), s) <= Distance(k as real * 0.25, s)
  {
    var s := Min(scale, maxScale);
    var t, top := s / STEP, (maxScale / STEP).Floor;
    AdjustInQuarters(scale, maxScale);
    ChoiceNearest(t, top, k);
    hide Adjust, Choice, Min;
    var n := Choice(t, top);
    assert Distance(n as real * STEP, s) == Distance(n as real, t) * STEP;
    assert Distance(k as real * STEP, s) == Distance(k as real, t) * STEP;
  }

  /** A quarter within the maximum stays as it is. */
  lemma AdjustQuarter(scale: real, k: int, maxScale: real)
    requires maxScale > 1.0 && scale == k as real * 0.25 && scale <= maxScale
    ensures Adjust(scale, maxScale) == scale
  {
    assert Min(scale, maxScale) / STEP == k as real && Round(k as real) == k;
    assert k as real <= maxScale / STEP;
    assert (maxScale / STEP).Floor >= k;
  }

  /** Half-way between two quarters the larger one is taken, if the maximum allows it. */
  lemma AdjustHalfway(k: int, maxScale: real)
    requires maxScale > 1.0 && (k + 1) as real * 0.25 <= maxScale
    ensures Adjust(k as real * 0.25 + 0.125, maxScale) == (k + 1) as real * 0.25
  {
    var s := k as real * 0.25 + 0.125;
    assert Min(s, maxScale) == s && s / STEP == k as real + 0.5;
    assert Round(k as real + 0.5) == k + 1;
    assert (k + 1) as real <= maxScale / STEP;
  }

  lemma AdjustIdempotent(scale: real, maxScale: real)
    ensures Adjust(Adjust(scale, maxScale), maxScale) == Adjust(scale, maxScale)
  {
    if maxScale > 1.0 {
      var nearest, largest := Round(Min(scale, maxScale) / STEP), (maxScale / STEP).Floor;
      var k := if nearest < largest then nearest else largest;
      var a := Adjust(scale, maxScale);
      assert a == k as real * STEP;
      AdjustClose(scale, maxScale);
      assert Min(a, maxScale) == a && a / STEP == k as real;
      assert Round(k as real) == k;
    }
  }

  lemma AdjustMonotone(s: real, t: real, maxScale: real)
    requires s <= t
    ensures Adjust(s, maxScale) <= Adjust(t, maxScale)
  {
    if maxScale > 1.0 {
      var m, n := Round(Min(s, maxScale) / STEP), Round(Min(t, maxScale) / STEP);
      assert Min(s, maxScale) / STEP <= Min(t, maxScale) / STEP;
      assert m <= n;
    }
  }

  // ----- All screens -----

  datatype Screen = Screen(devicePixelRatio: real, dotsPerInch: real, availableWidth: real, availableHeight: real)

  function MaxScale(s: Screen, multiScreen: bool): real {
    s.availableHeight * (if multiScreen then s.devicePixelRatio else 1.0) / MAX_DIALOG_HEIGHT
  }

  function ScaleLinux(s: Screen): real {
    if s.devicePixelRatio > 1.0 then 1.0
    else if s.dotsPerInch > BASE_DPI then Min(s.dotsPerInch / BASE_DPI, 3.0)
    else Min(Max(Min(s.availableWidth / BASE_WIDTH, s.availableHeight / BASE_HEIGHT) * CORRECTION, 1.0), 3.0)
  }

  /** The scale of one screen. */
  function ScaleOf(s: Screen, multiScreen: bool, linux: bool): real {
    var wanted := if linux then ScaleLinux(s) else if multiScreen then s.devicePixelRatio else 1.0;
    var scale := Adjust(wanted, MaxScale(s, multiScreen));
    if scale < 1.0 && !(s.devicePixelRatio > 1.0) then 1.0 else scale
  }

  /** The scale is not the one that the screen has anyway. */
  predicate Unlike(scale: real, s: Screen, multiScreen: bool) {
    scale != if multiScreen then s.devicePixelRatio else 1.0
  }

  class ScaleFactorManager {
    const linux: bool
    var screensInfo: seq<Screen>
    var calculatedScales: seq<real>

    /** Appends one scale per screen, and asks for rescaling iff some screen gets a scale
        that it does not have anyway. Without high-dpi support a scale is at least 1 and
        above 1 only within the maximum. */
    method ComputeScales() returns (needsRescaling: bool)
      modifies this`calculatedScales
      ensures |calculatedScales| == |old(calculatedScales)| + |screensInfo|
      ensures old(calculatedScales) <= calculatedScales
      ensures forall i :: 0 <= i < |screensInfo| ==>
        calculatedScales[|old(calculatedScales)| + i] == ScaleOf(screensInfo[i], |screensInfo| > 1, linux)
      ensures needsRescaling <==>
        (exists i :: 0 <= i < |screensInfo|
          && Unlike(calculatedScales[|old(calculatedScales)| + i], screensInfo[i], |screensInfo| > 1))
    {
      hide Adjust, ScaleLinux, MaxScale;
      needsRescaling := false;
      var multiScreen := |screensInfo| > 1;
      ghost var n := |calculatedScales|;
      for i := 0 to |screensInfo|
        invariant |calculatedScales| == n + i && old(calculatedScales) <= calculatedScales
        invariant forall k :: 0 <= k < i ==> calculatedScales[n + k] == ScaleOf(screensInfo[k], multiScreen, linux)
        invariant needsRescaling <==>
          exists k :: 0 <= k < i && Unlike(calculatedScales[n + k], screensInfo[k], multiScreen)
      {
        var screenInfo := screensInfo[i];
        var scale := if multiScreen then screenInfo.devicePixelRatio else 1.0;
        if linux { scale := ScaleLinux(screenInfo); }
        scale := AdjustScaleValueToSuitableIncrement(scale, MaxScale(screenInfo, multiScreen));
        var hdpiAutoEnabled := screenInfo.devicePixelRatio > 1.0;
        if scale < 1.0 && !hdpiAutoEnabled { scale := 1.0; }
        if (!multiScreen && scale != 1.0) || (multiScreen && scale != screenInfo.devicePixelRatio) {
          needsRescaling := true;
        }
        ghost var before := calculatedScales;
        calculatedScales := calculatedScales + [scale];
        assert calculatedScales[n + i] == scale && calculatedScales[..n + i] == before;
      }
    }
  }

  /** Without high-dpi support a screen's scale lies between 1 and the larger of 1 and its
      maximum; with it, the scale only respects the maximum. */
  lemma ScaleInRange(s: Screen, multiScreen: bool, linux: bool)
    ensures var scale, top := ScaleOf(s, multiScreen, linux), MaxScale(s, multiScreen);
      if s.devicePixelRatio <= 1.0 then 1.0 <= scale <= Max(1.0, top) else scale <= top
  {
    var wanted := if linux then ScaleLinux(s) else if multiScreen then s.devicePixelRatio else 1.0;
    AdjustClose(wanted, MaxScale(s, multiScreen));
    hide Adjust, ScaleLinux, MaxScale;
  }

  // ----- Scales in numbers -----

  /** The scale wanted on Linux: from the resolution if that is high, else three quarters of
      the smaller ratio to full HD, and always between 1 and 3. */
  lemma LinuxScale(s: Screen)
    ensures var width, height := s.availableWidth / 1920.0 * 0.75, s.availableHeight / 1080.0 * 0.75;
      var r := ScaleLinux(s);
      && (s.devicePixelRatio > 1.0 ==> r == 1.0)
      && (s.devicePixelRatio <= 1.0 && s.dotsPerInch > 288.0 ==> r == 3.0)
      && (s.devicePixelRatio <= 1.0 && 96.0 < s.dotsPerInch <= 288.0 ==> r * 96.0 == s.dotsPerInch)
      && (s.devicePixelRatio <= 1.0 && s.dotsPerInch <= 96.0 ==>
           && 1.0 <= r <= 3.0
           && (r < 3.0 ==> width <= r || height <= r)
           && (r > 1.0 ==> r <= width && r <= height))
  {
  }

  /** Elsewhere a single screen is not scaled, except that one with high-dpi support and too
      low for the largest dialog is scaled down to fit it. */
  lemma SingleScreenScale(s: Screen)
    ensures ScaleOf(s, false, false)
         == if s.availableHeight < 810.0 && s.devicePixelRatio > 1.0 then s.availableHeight / 810.0 else 1.0
    ensures Unlike(ScaleOf(s, false, false), s, false) <==> s.availableHeight < 810.0 && s.devicePixelRatio > 1.0
  {
    var top := s.availableHeight / 810.0;
    assert MaxScale(s, false) == top;
    if top > 1.0 {
      assert Min(1.0, top) / STEP == 4.0 && Round(4.0) == 4;
      assert (top / STEP).Floor >= 4;
    }
    hide MaxScale;
  }

  /** With several screens each keeps a pixel ratio that is a quarter and fits its maximum,
      and no rescaling is asked for. */
  lemma ManyScreensScale(s: Screen, k: int)
    requires s.devicePixelRatio == k as real * 0.25 && s.devicePixelRatio >= 1.0
    requires s.availableHeight >= 810.0
    ensures ScaleOf(s, true, false) == s.devicePixelRatio && !Unlike(ScaleOf(s, true, false), s, true)
  {
    var r, top := s.devicePixelRatio, s.availableHeight * s.devicePixelRatio / 810.0;
    assert MaxScale(s, true) == top;
    FitsRatio(s.availableHeight, r);
    hide MaxScale;
    if top > 1.0 { AdjustQuarter(r, k, top); }
  }

  /** On Linux a wanted scale that is a quarter and fits the screen is taken, with one screen or
      several. */
  lemma LinuxScreenScale(s: Screen, multiScreen: bool, k: int)
    requires ScaleLinux(s) == k as real * 0.25 && ScaleLinux(s) >= 1.0
    requires var top := s.availableHeight * (if multiScreen then s.devicePixelRatio else 1.0) / 810.0;
      top > 1.0 && top >= ScaleLinux(s)
    ensures ScaleOf(s, multiScreen, true) == ScaleLinux(s)
  {
    var r, top := ScaleLinux(s), s.availableHeight * (if multiScreen then s.devicePixelRatio else 1.0) / 810.0;
    assert MaxScale(s, multiScreen) == top;
    hide ScaleLinux, MaxScale, Adjust;
    AdjustQuarter(r, k, top);
  }

  lemma FitsRatio(height: real, r: real)
    requires height >= 810.0 && r >= 1.0
    ensures height * r / 810.0 >= r
  {
    assert height * r >= 810.0 * r;
  }
}
