/** The validation rules of the three prompt loops. Each rule decides, for one
    answer, whether the loop returns it, alerts and asks again, or aborts the
    operation. The dialogs themselves belong to the host. */
module Prompts {
  import opened Extents

  /** What a prompt loop does with one answer. */
  datatype Reply<T> = Accepted(value: T) | Reprompt | Abort

  /** A numeric answer as `+input` reads it: `Blank` is the empty answer of a
      cancelled prompt (`!input`), `NotANumber` an answer that converts to
      `NaN`. */
  datatype NumberEntry = Blank | NotANumber | Number(value: int)

  /** The direction the direction prompt offers first. */
  function DefaultDirection(imageWidth: nat, imageHeight: nat): (d: Direction)
    ensures d == Right <==> imageWidth >= imageHeight
  {
    if imageWidth >= imageHeight then Right else Down
  }

  /** The letter the extension uses for a direction. */
  function DirectionLetter(d: Direction): string {
    match d
    case Right => "r"
    case Down => "d"
  }

  /** `toLowerCase` on one character, for the ASCII letters. */
  function ToLower(c: char): char {
    if 'A' <= c <= 'Z' then (c as int + 32) as char else c
  }

  /** The direction prompt: an empty answer aborts; otherwise the answer is
      taken when its first character, lowercased, is `r` or `d`, and asked
      again when it is anything else. */
  function DirectionRule(answer: string): (r: Reply<Direction>)
    ensures r == Abort <==> answer == ""
    ensures r == Accepted(Right) <==> answer != "" && answer[0] in {'r', 'R'}
    ensures r == Accepted(Down) <==> answer != "" && answer[0] in {'d', 'D'}
    ensures r == Reprompt <==> answer != "" && answer[0] !in {'r', 'R', 'd', 'D'}
  {
    if answer == "" then Abort
    else
      var first := ToLower(answer[0]);
      if first == 'r' then Accepted(Right)
      else if first == 'd' then Accepted(Down)
      else Reprompt
  }

  /** Accepting the offered default returns the default direction, and every
      direction is accepted from its own letter. */
  lemma DefaultDirectionAccepted(imageWidth: nat, imageHeight: nat, d: Direction)
    ensures DirectionRule(DirectionLetter(DefaultDirection(imageWidth, imageHeight)))
            == Accepted(DefaultDirection(imageWidth, imageHeight))
    ensures DirectionRule(DirectionLetter(d)) == Accepted(d)
  {
  }

  /** The frame-count prompt: an empty answer aborts; `NaN`, a negative count
      and a count above the bound are asked again, never clamped; `0` stands
      for the bound itself. */
  function FramesRule(answer: NumberEntry, maxFrames: int): (r: Reply<int>)
    ensures r == Abort <==> answer == Blank
    ensures r.Accepted? <==>
      answer.Number? && answer.value >= 0 && (answer.value == 0 || answer.value <= maxFrames)
    ensures r.Accepted? && answer.value == 0 ==> r.value == maxFrames
    ensures r.Accepted? && answer.value != 0 ==> r.value == answer.value
  {
    match answer
    case Blank => Abort
    case NotANumber => Reprompt
    case Number(frames) =>
      if frames < 0 then Reprompt
      else if frames != 0 && frames > maxFrames then Reprompt
      else Accepted(if frames == 0 then maxFrames else frames)
  }

  /** With a bound of at least one, an accepted frame count lies between one
      and the bound. */
  lemma AcceptedFramesWithinBound(answer: NumberEntry, maxFrames: int)
    requires maxFrames >= 1 && FramesRule(answer, maxFrames).Accepted?
    ensures 1 <= FramesRule(answer, maxFrames).value <= maxFrames
  {
  }

  /** The duration prompt: an empty answer aborts; `NaN` and a duration that
      is not positive are asked again. */
  function DurationRule(answer: NumberEntry): (r: Reply<int>)
    ensures r == Abort <==> answer == Blank
    ensures r.Accepted? <==> answer.Number? && answer.value > 0
    ensures r.Accepted? ==> r.value == answer.value
  {
    match answer
    case Blank => Abort
    case NotANumber => Reprompt
    case Number(duration) => if duration <= 0 then Reprompt else Accepted(duration)
  }
}
