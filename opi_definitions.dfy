/**
 * The OPI value types the handlers pass around (Assets/Scripts/OPI
 * Definitions), and the parsers that build them. The handlers take the
 * parsers as a `Parsers` value, so every property of the handlers holds
 * whatever the parsers decide; `ToColorAsWritten` is the one conversion
 * written out, because its rule decides what the handlers reply.
 */
module OpiDefinitions {
  import opened Options
  import opened Wire

  datatype Eye = Left | Right | Both

  /** A UnityEngine.Color: four float channels. */
  datatype Color = Color(r: real, g: real, b: real, a: real)

  datatype FixationPoint = FixationPoint(x: real, y: real, sizeX: real, sizeY: real, color: Color, alpha: real)

  /** A single motionless stimulus; duration and response window are whole milliseconds. */
  datatype StaticStimulus = StaticStimulus(
    eye: Eye, x: real, y: real, level: real, size: real, color: Color,
    duration: int32, responseWindow: int32)

  /** A subject's answer to one presentation; `time` is in milliseconds and 0 when not seen. */
  datatype Response = Response(seen: bool, time: int32)

  /** `new Response(false)`: the time parameter defaults to 0. */
  const NotSeen: Response := Response(false, 0)

  /** What a `TryParse`-style conversion returns: a success flag and the value it produced. */
  datatype Parsed<T> = Parsed(ok: bool, value: T)

  /** What a `Create...` factory returns: an error text (empty on success) and the record. */
  datatype Checked<T> = Checked(error: string, value: T)

  /**
   * The conversions `Conversions.ToAlpha`, `Conversions.ToColor`,
   * `Conversions.ToEye`, `FixationPoint.CreateFixationPoint` and
   * `StaticStimulus.CreateStaticStimulus`.
   */
  datatype Parsers = Parsers(
    fixation: seq<string> -> Checked<FixationPoint>,
    alpha: string -> Parsed<real>,
    color: seq<string> -> Parsed<Color>,
    eye: string -> Parsed<Eye>,
    stimulus: seq<string> -> Checked<StaticStimulus>)

  /** `Color.white`. */
  const White: Color := Color(1.0, 1.0, 1.0, 1.0)

  /**
   * `Conversions.ToColor(string[])`: one string is a colour name (`named`
   * looks it up among Unity's colours), three strings are RGB values from 0
   * to 255 (`rgb` converts one to a channel); any other length fails, with
   * white as the colour.
   */
  function ToColorAsWritten(value: seq<string>, named: string -> Option<Color>, rgb: string -> Option<real>): (r: Parsed<Color>)
    ensures r.ok ==> |value| == 1 || |value| == 3
    ensures !r.ok ==> r.value == White
  {
    if |value| == 1 then
      match named(value[0])
      case Some(c) => Parsed(true, c)
      case None => Parsed(false, White)
    else if |value| == 3 then
      match (rgb(value[0]), rgb(value[1]), rgb(value[2]))
      case (Some(red), Some(green), Some(blue)) => Parsed(true, Color(red, green, blue, 1.0))
      case _ => Parsed(false, White)
    else Parsed(false, White)
  }
}
