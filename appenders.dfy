/**
 * Appenders: the units of output a compiled pattern is made of.
 *
 * An appender extends a byte buffer with the text it produces for a
 * timestamp. `Verbatim` produces fixed text whatever the timestamp; every
 * other appender (weekday names, padded numbers, time zones, caller-supplied
 * directives) is a `Derived` rule, a function of the timestamp whose
 * definition lies outside this model.
 */
module Appenders {

  /** The timestamp handed to every render; its structure is never inspected here. */
  type Time

  /** A unit of output: fixed text, or a rule computing text from the timestamp. */
  datatype Appender =
    | Verbatim(text: string)
    | Derived(rule: Time -> string)

  /** The text `a` appends to the buffer when rendering `t`. */
  function Render(a: Appender, t: Time): string
  {
    match a
    case Verbatim(text) => text
    case Derived(rule) => rule(t)
  }

  /** What `a.Append(b, t)` leaves in the buffer: `b` followed by `a`'s text. */
  function Append(a: Appender, b: string, t: Time): (r: string)
    ensures |r| >= |b| && r[..|b|] == b
    ensures a.Verbatim? ==> r == b + a.text
  {
    b + Render(a, t)
  }

  /** The output of a sequence of appenders, each appending after the ones before. */
  function RenderAll(appenders: seq<Appender>, t: Time): string
  {
    if appenders == [] then [] else Render(appenders[0], t) + RenderAll(appenders[1..], t)
  }

  /** Rendering one more appender extends the output of the ones before it. */
  lemma {:induction false} RenderAllSnoc(appenders: seq<Appender>, a: Appender, t: Time)
    ensures RenderAll(appenders + [a], t) == RenderAll(appenders, t) + Render(a, t)
  {
    if appenders != [] {
      assert (appenders + [a])[1..] == appenders[1..] + [a];
      RenderAllSnoc(appenders[1..], a, t);
    }
  }

}
