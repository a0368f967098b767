/** The outcome shapes the lint code works with: the crate's validation value,
    reduced to a success and an already-joined failure message, and the
    `Result` that the lint entry point hands back to its caller. */
module Validation {

  datatype Option<+T> = None | Some(value: T) {
    /** `unwrap_or`: the held value, or the fallback when there is none. */
    function GetOr(default: T): T
    {
      match this
      case Some(v) => v
      case None => default
    }
  }

  /** A rule's verdict: the (possibly rewritten) configuration, or one message. */
  datatype Valid<+T> = Succeed(value: T) | Fail(message: string)

  /** The verdict of the whole lint pass. */
  datatype Result<+T> = Ok(value: T) | Err(error: string)

  /** `to_result`: a success stays a success, a failure becomes an error with
      the same message. */
  function ToResult<T>(v: Valid<T>): (r: Result<T>)
    ensures r.Ok? <==> v.Succeed?
    ensures v.Succeed? ==> r.value == v.value
    ensures v.Fail? ==> r.error == v.message
  {
    match v
    case Succeed(x) => Ok(x)
    case Fail(m) => Err(m)
  }

  /** `join(sep)` on a vector of strings: the lines with `sep` between
      consecutive ones and nothing before the first or after the last. */
  function Join(lines: seq<string>, sep: string): (r: string)
    decreases |lines|
  {
    if |lines| == 0 then ""
    else if |lines| == 1 then lines[0]
    else lines[0] + sep + Join(lines[1..], sep)
  }

  /** Cuts a text at every newline; the partner of joining with "\n". */
  function SplitLines(s: string): (r: seq<string>)
    ensures |r| > 0
  {
    if |s| == 0 then [""]
    else
      var rest := SplitLines(s[1..]);
      if s[0] == '\n' then [""] + rest
      else [[s[0]] + rest[0]] + rest[1..]
  }

  /** A newline-free prefix is glued onto the first line of what follows. */
  lemma {:induction false} SplitLinesPrefix(a: string, t: string)
    requires '\n' !in a
    ensures SplitLines(a + t) == [a + SplitLines(t)[0]] + SplitLines(t)[1..]
  {
    if |a| == 0 {
      assert a + t == t;
      assert a + SplitLines(t)[0] == SplitLines(t)[0];
      assert [SplitLines(t)[0]] + SplitLines(t)[1..] == SplitLines(t);
    } else {
      assert (a + t)[1..] == a[1..] + t;
      SplitLinesPrefix(a[1..], t);
      assert [a[0]] + (a[1..] + SplitLines(t)[0]) == a + SplitLines(t)[0];
    }
  }

  /** A message joined from newline-free lines splits back into exactly those
      lines, in the same order: one line per diagnostic, none merged or lost. */
  lemma {:induction false} SplitJoin(lines: seq<string>)
    requires |lines| > 0
    requires forall i :: 0 <= i < |lines| ==> '\n' !in lines[i]
    ensures SplitLines(Join(lines, "\n")) == lines
  {
    if |lines| == 1 {
      SplitLinesPrefix(lines[0], "");
      assert lines[0] + "" == lines[0];
    } else {
      var tail := Join(lines[1..], "\n");
      SplitJoin(lines[1..]);
      SplitLinesPrefix(lines[0], "\n" + tail);
      assert lines[0] + "\n" + tail == lines[0] + ("\n" + tail);
      assert ("\n" + tail)[0] == '\n' && ("\n" + tail)[1..] == tail;
      assert SplitLines("\n" + tail) == [""] + SplitLines(tail);
      assert lines[0] + "" == lines[0];
      assert lines == [lines[0]] + lines[1..];
    }
  }
}
