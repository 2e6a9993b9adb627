/**
 * The VIVE Pro Eye device description of Assets/Scripts/ViveProEye.cs: the
 * luminance range of the display in cd/m² and the conversion of a
 * luminance into the alpha value Unity draws a stimulus with. Doubles are
 * modelled as reals; a division by zero, which gives an infinity or NaN in
 * the source, is the `None` result.
 */
module ViveProEye {
  import opened Options

  datatype Device = Device(minStimulus: real, maxStimulus: real, verticalResolution: real, horizontalResolution: real)

  /** The property initialisers: 10 to 143 cd/m² on a 1600 × 1440 display. */
  const Default := Device(10.0, 143.0, 1440.0, 1600.0)

  /**
   * `ToAlpha`: the luminance is raised to the minimum, then lowered to the
   * maximum (in that order), and given as a fraction of the maximum.
   */
  function ToAlpha(d: Device, cd: real): (alpha: Option<real>)
    ensures alpha.None? <==> d.maxStimulus == 0.0
  {
    var raised := if cd < d.minStimulus then d.minStimulus else cd;
    var clamped := if raised > d.maxStimulus then d.maxStimulus else raised;
    if d.maxStimulus == 0.0 then None else Some(clamped / d.maxStimulus)
  }

  /** The luminance an alpha value stands for on the device. */
  function FromAlpha(d: Device, alpha: real): real {
    alpha * d.maxStimulus
  }

  /**
   * With a sensible range, a luminance inside it becomes its fraction of the
   * maximum, one below it the fraction of the minimum, and one above it 1.
   */
  lemma ToAlphaClamps(d: Device, cd: real)
    requires 0.0 < d.maxStimulus && d.minStimulus <= d.maxStimulus
    ensures d.minStimulus <= cd <= d.maxStimulus ==> ToAlpha(d, cd) == Some(cd / d.maxStimulus)
    ensures cd < d.minStimulus ==> ToAlpha(d, cd) == Some(d.minStimulus / d.maxStimulus)
    ensures cd > d.maxStimulus ==> ToAlpha(d, cd) == Some(1.0)
    ensures ToAlpha(d, cd).Some? && d.minStimulus / d.maxStimulus <= ToAlpha(d, cd).value <= 1.0
  {
    var clamped := if cd < d.minStimulus then d.minStimulus else if cd > d.maxStimulus then d.maxStimulus else cd;
    DivMonotone(d.minStimulus, clamped, d.maxStimulus);
    DivMonotone(clamped, d.maxStimulus, d.maxStimulus);
    assert ToAlpha(d, cd) == Some(clamped / d.maxStimulus);
    assert d.maxStimulus / d.maxStimulus == 1.0;
  }

  /** A luminance inside the range survives the conversion to alpha and back. */
  lemma ToAlphaRoundTrip(d: Device, cd: real)
    requires 0.0 < d.maxStimulus && d.minStimulus <= cd <= d.maxStimulus
    ensures ToAlpha(d, cd).Some? && FromAlpha(d, ToAlpha(d, cd).value) == cd
  {
  }

  /** A brighter stimulus never gets a smaller alpha. */
  lemma ToAlphaMonotone(d: Device, cd1: real, cd2: real)
    requires 0.0 < d.maxStimulus && cd1 <= cd2
    ensures ToAlpha(d, cd1).value <= ToAlpha(d, cd2).value
  {
    var r1 := if cd1 < d.minStimulus then d.minStimulus else cd1;
    var r2 := if cd2 < d.minStimulus then d.minStimulus else cd2;
    var c1 := if r1 > d.maxStimulus then d.maxStimulus else r1;
    var c2 := if r2 > d.maxStimulus then d.maxStimulus else r2;
    DivMonotone(c1, c2, d.maxStimulus);
  }

  /**
   * The maximum is applied last: when the bounds cross, every luminance
   * is drawn fully opaque.
   */
  lemma ToAlphaCrossedBounds(d: Device, cd: real)
    requires 0.0 < d.maxStimulus < d.minStimulus
    ensures ToAlpha(d, cd) == Some(1.0)
  {
    assert ToAlpha(d, cd) == Some(d.maxStimulus / d.maxStimulus);
    assert d.maxStimulus / d.maxStimulus == 1.0;
  }

  /** On the device as configured, every alpha lies between 10/143 and 1. */
  lemma DefaultAlphaRange(cd: real)
    ensures ToAlpha(Default, cd).Some?
    ensures 10.0 / 143.0 <= ToAlpha(Default, cd).value <= 1.0
  {
    assert Default.minStimulus == 10.0 && Default.maxStimulus == 143.0;
    ToAlphaClamps(Default, cd);
  }

  lemma DivMonotone(a: real, b: real, c: real)
    requires a <= b && c > 0.0
    ensures a / c <= b / c
  {
    assert b / c - a / c == (b - a) / c;
  }
}
