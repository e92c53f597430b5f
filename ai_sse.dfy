/** The Server-Sent Events framing of crates/ai/src/lib.rs: cutting a byte buffer at the
    first blank line ("\n\n" or "\r\n\r\n"), draining every complete event from the buffer,
    and collecting the `data:` payloads of one event. This is a simplified form of the
    event-stream parsing of section 9.2.5 of the WHATWG HTML Living Standard. */
module AiSse {
  import opened Wrappers
  import opened RustStr

  newtype byte = x: int | 0 <= x < 256

  const LF: byte := 10
  const CR: byte := 13

  /** "\n\n" starts at `i`. */
  predicate LfLfAt(buf: seq<byte>, i: nat)
  {
    i + 1 < |buf| && buf[i] == LF && buf[i + 1] == LF
  }

  /** "\r\n\r\n" starts at `i`. */
  predicate CrLfCrLfAt(buf: seq<byte>, i: nat)
  {
    i + 3 < |buf| && buf[i] == CR && buf[i + 1] == LF && buf[i + 2] == CR && buf[i + 3] == LF
  }

  /** An event separator starts at `i`. */
  predicate SeparatorAt(buf: seq<byte>, i: nat)
  {
    LfLfAt(buf, i) || CrLfCrLfAt(buf, i)
  }

  /** Some event separator occurs in `buf`. */
  predicate HasSeparator(buf: seq<byte>)
  {
    exists i: nat :: i < |buf| && SeparatorAt(buf, i)
  }

  /** The separator starting at `i`: "\n\n" when there is one there, else "\r\n\r\n". */
  function SeparatorBytes(buf: seq<byte>, i: nat): (sep: seq<byte>)
    requires SeparatorAt(buf, i)
    ensures i + |sep| <= |buf| && buf[i..i + |sep|] == sep
  {
    if LfLfAt(buf, i) then [LF, LF] else [CR, LF, CR, LF]
  }

  /** The two separators never start at the same byte, so the order in which the source
      tests them does not change where an event ends. */
  lemma SeparatorKindsExclusive(buf: seq<byte>, i: nat)
    ensures !(LfLfAt(buf, i) && CrLfCrLfAt(buf, i))
  {
  }

  /** The first separator at or after `from`, or `|buf|` when there is none. */
  function FirstSeparator(buf: seq<byte>, from: nat): (i: nat)
    requires from <= |buf|
    ensures from <= i <= |buf|
    ensures i < |buf| ==> SeparatorAt(buf, i)
    ensures forall j: nat :: from <= j < i ==> !SeparatorAt(buf, j)
    decreases |buf| - from
  {
    if from == |buf| then |buf|
    else if SeparatorAt(buf, from) then from
    else FirstSeparator(buf, from + 1)
  }

  /** The event before the first separator and the bytes after it, or nothing. */
  function Split(buf: seq<byte>): Option<(seq<byte>, seq<byte>)>
  {
    var i := FirstSeparator(buf, 0);
    if i == |buf| then Option.None
    else Some((buf[..i], buf[i + |SeparatorBytes(buf, i)|..]))
  }

  /** `split_sse_event` cuts at the earliest separator, preferring "\n\n" there, finds
      nothing exactly when there is no separator, and always leaves less than it got. */
  lemma SplitProperties(buf: seq<byte>)
    ensures Split(buf).None? <==> !HasSeparator(buf)
    ensures Split(buf).Some? ==>
      (var ev := Split(buf).value.0; var rest := Split(buf).value.1;
       SeparatorAt(buf, |ev|) &&
       (forall j: nat :: j < |ev| ==> !SeparatorAt(buf, j)) &&
       (LfLfAt(buf, |ev|) ==> SeparatorBytes(buf, |ev|) == [LF, LF]) &&
       buf == ev + SeparatorBytes(buf, |ev|) + rest &&
       |rest| < |buf|)
  {
    var i := FirstSeparator(buf, 0);
    if i < |buf| {
      var sep := SeparatorBytes(buf, i);
      assert buf == buf[..i] + buf[i..i + |sep|] + buf[i + |sep|..];
    }
  }

  /** The event cut off contains no separator of its own. */
  lemma EventHasNoSeparator(buf: seq<byte>)
    requires Split(buf).Some?
    ensures !HasSeparator(Split(buf).value.0)
  {
    var ev := Split(buf).value.0;
    if HasSeparator(ev) {
      var j: nat :| j < |ev| && SeparatorAt(ev, j);
      assert SeparatorAt(buf, j);
      assert false;
    }
  }

  /** `split_sse_event`: the index loop over the buffer. */
  method SplitSseEvent(buf: seq<byte>) returns (r: Option<(seq<byte>, seq<byte>)>)
    ensures r == Split(buf)
  {
    var i := 0;
    while i < |buf|
      invariant i <= |buf|
      invariant FirstSeparator(buf, 0) == FirstSeparator(buf, i)
    {
      if i + 1 < |buf| && buf[i] == LF && buf[i + 1] == LF {
        return Some((buf[..i], buf[i + 2..]));
      }
      if i + 3 < |buf| && buf[i] == CR && buf[i + 1] == LF && buf[i + 2] == CR && buf[i + 3] == LF {
        return Some((buf[..i], buf[i + 4..]));
      }
      i := i + 1;
    }
    return Option.None;
  }

  /** Every complete event of `buf`, in order, and the incomplete tail that is kept. */
  function Frames(buf: seq<byte>): (r: (seq<seq<byte>>, seq<byte>))
    decreases |buf|
  {
    match Split(buf)
    case None => ([], buf)
    case Some((ev, rest)) =>
      SplitProperties(buf);
      var tail := Frames(rest);
      ([ev] + tail.0, tail.1)
  }

  /** The kept tail is a suffix of the buffer with no separator in it, and no drained
      event holds a separator. */
  lemma {:induction false} FramesProperties(buf: seq<byte>)
    ensures |Frames(buf).1| <= |buf| && Frames(buf).1 == buf[|buf| - |Frames(buf).1|..]
    ensures !HasSeparator(Frames(buf).1)
    ensures forall k :: 0 <= k < |Frames(buf).0| ==> !HasSeparator(Frames(buf).0[k])
    decreases |buf|
  {
    SplitProperties(buf);
    match Split(buf)
    case None =>
    case Some((ev, rest)) =>
      FramesProperties(rest);
      EventHasNoSeparator(buf);
      assert buf[|buf| - |rest|..] == rest;
      assert Frames(buf).0 == [ev] + Frames(rest).0;
  }

  /** A buffer with no separator yields no event and is kept whole. */
  lemma NoSeparatorNoFrames(buf: seq<byte>)
    requires !HasSeparator(buf)
    ensures Frames(buf) == ([], buf)
  {
    SplitProperties(buf);
  }

  /** The draining loop of the streaming task: cut events off the front of the buffer
      until no separator is left. */
  method DrainEvents(buf: seq<byte>) returns (events: seq<seq<byte>>, rest: seq<byte>)
    ensures (events, rest) == Frames(buf)
  {
    events := [];
    rest := buf;
    var r := SplitSseEvent(rest);
    assert events + Frames(rest).0 == Frames(rest).0;
    while r.Some?
      invariant r == Split(rest)
      invariant Frames(buf) == (events + Frames(rest).0, Frames(rest).1)
      decreases |rest|
    {
      var ev := r.value.0;
      var next := r.value.1;
      FramesStep(rest, ev, next);
      assert events + ([ev] + Frames(next).0) == (events + [ev]) + Frames(next).0;
      events := events + [ev];
      rest := next;
      r := SplitSseEvent(rest);
    }
    assert events + [] == events;
  }

  /** One event further into the buffer. */
  lemma FramesStep(buf: seq<byte>, ev: seq<byte>, rest: seq<byte>)
    requires Split(buf) == Some((ev, rest))
    ensures |rest| < |buf|
    ensures Frames(buf) == ([ev] + Frames(rest).0, Frames(rest).1)
  {
    SplitProperties(buf);
  }

  /** Two events separated the two ways, then a partial one. */
  lemma DrainExample()
    ensures Frames([97, LF, LF, 98, CR, LF, CR, LF, 99]) == ([[97], [98]], [99])
  {
    var buf: seq<byte> := [97, LF, LF, 98, CR, LF, CR, LF, 99];
    assert !SeparatorAt(buf, 0) && SeparatorAt(buf, 1) && LfLfAt(buf, 1);
    assert FirstSeparator(buf, 0) == 1;
    var b2: seq<byte> := [98, CR, LF, CR, LF, 99];
    assert buf[..1] == [97] && buf[3..] == b2;
    FramesStep(buf, [97], b2);
    assert !SeparatorAt(b2, 0) && SeparatorAt(b2, 1) && !LfLfAt(b2, 1);
    assert FirstSeparator(b2, 0) == 1;
    assert b2[..1] == [98] && b2[5..] == [99];
    FramesStep(b2, [98], [99]);
    assert !HasSeparator([99]) by { assert !SeparatorAt([99], 0); }
    NoSeparatorNoFrames([99]);
    assert [[97]] + ([[98]] + []) == [[97], [98]];
  }

  // ----- the payload of one event -----

  /** The payload of one line of an event: with trailing whitespace trimmed, the text
      after "data:", with leading whitespace trimmed; nothing for any other line. */
  function DataPayload(line: seq<char>): Option<seq<char>>
  {
    var l := TrimEnd(line);
    if StartsWith(l, "data:") then Some(TrimStart(l[5..])) else Option.None
  }

  /** The payloads of the data lines, in order. */
  function DataLines(lines: seq<seq<char>>): (r: seq<seq<char>>)
    ensures |r| <= |lines|
  {
    if lines == [] then []
    else
      var init := DataLines(lines[..|lines| - 1]);
      match DataPayload(lines[|lines| - 1])
      case Some(p) => init + [p]
      case None => init
  }

  /** One more line adds its payload, if it has one, at the end: the data lines keep
      their order. */
  lemma DataLinesSnoc(lines: seq<seq<char>>, line: seq<char>)
    ensures DataLines(lines + [line]) ==
      match DataPayload(line)
      case Some(p) => DataLines(lines) + [p]
      case None => DataLines(lines)
  {
    assert (lines + [line])[..|lines|] == lines;
  }

  /** Every payload is trimmed at both ends. */
  lemma {:induction false} PayloadsTrimmed(lines: seq<seq<char>>)
    ensures forall k :: 0 <= k < |DataLines(lines)| ==>
      DataLines(lines)[k] == [] ||
      (!IsWhitespace(DataLines(lines)[k][0]) && !IsWhitespace(DataLines(lines)[k][|DataLines(lines)[k]| - 1]))
  {
    if lines != [] {
      PayloadsTrimmed(lines[..|lines| - 1]);
      var l := TrimEnd(lines[|lines| - 1]);
      if StartsWith(l, "data:") {
        var p := TrimStart(l[5..]);
        assert p != [] ==> p[|p| - 1] == l[|l| - 1];
      }
    }
  }

  /** "data:", any blanks, a payload without surrounding whitespace, and any blanks,
      gives that payload. */
  lemma DataLineRoundTrip(pre: seq<char>, x: seq<char>, post: seq<char>)
    requires forall i :: 0 <= i < |pre| ==> IsWhitespace(pre[i])
    requires forall i :: 0 <= i < |post| ==> IsWhitespace(post[i])
    requires x == [] || (!IsWhitespace(x[0]) && !IsWhitespace(x[|x| - 1]))
    ensures DataPayload("data:" + pre + x + post) == Some(x)
  {
    var t := "data:" + pre + x + post;
    var n := if x == [] then 5 else 5 + |pre| + |x|;
    assert t[n - 1] == if x == [] then ':' else x[|x| - 1];
    forall i | n <= i < |t| ensures IsWhitespace(t[i]) {
      if i < 5 + |pre| { assert t[i] == pre[i - 5]; } else { assert t[i] == post[i - 5 - |pre| - |x|]; }
    }
    TrimEndAt(t, n);
    var l := t[..n];
    assert l[..5] == "data:";
    if x == [] {
      assert l[5..] == [];
    } else {
      assert l[5..] == pre + x;
      TrimStartAt(pre + x, |pre|);
      assert (pre + x)[|pre|..] == x;
    }
  }

  /** Trimming the end stops at the last non-blank character. */
  lemma {:induction false} TrimEndAt(t: seq<char>, n: nat)
    requires 0 < n <= |t| && !IsWhitespace(t[n - 1])
    requires forall i :: n <= i < |t| ==> IsWhitespace(t[i])
    ensures TrimEnd(t) == t[..n]
    decreases |t|
  {
    if n < |t| {
      var t' := t[..|t| - 1];
      assert IsWhitespace(t[|t| - 1]);
      TrimEndAt(t', n);
      assert t'[..n] == t[..n];
    } else {
      assert t[..n] == t;
    }
  }

  /** Trimming the start stops at the first non-blank character. */
  lemma {:induction false} TrimStartAt(u: seq<char>, k: nat)
    requires k < |u| && !IsWhitespace(u[k])
    requires forall i :: 0 <= i < k ==> IsWhitespace(u[i])
    ensures TrimStart(u) == u[k..]
    decreases k
  {
    if 0 < k {
      assert IsWhitespace(u[0]);
      var u' := u[1..];
      assert forall i :: 0 <= i < k - 1 ==> u'[i] == u[i + 1];
      TrimStartAt(u', k - 1);
      assert u'[k - 1..] == u[k..];
    }
  }

  /** A line that does not start with "data:" adds nothing. */
  lemma OtherLineIgnored(line: seq<char>)
    requires !StartsWith(line, "data:")
    ensures DataPayload(line) == Option.None
  {
    var l := TrimEnd(line);
    if 5 <= |l| {
      assert l[..5] == line[..5];
    }
  }

  /** One loop step of `SseExtractData`: the next line's payload, if any, goes last. */
  lemma DataLinesStep(lines: seq<seq<char>>, i: nat)
    requires i < |lines|
    ensures DataLines(lines[..i + 1]) ==
      if StartsWith(TrimEnd(lines[i]), "data:") then DataLines(lines[..i]) + [TrimStart(TrimEnd(lines[i])[5..])]
      else DataLines(lines[..i])
  {
    assert lines[..i + 1] == lines[..i] + [lines[i]];
    DataLinesSnoc(lines[..i], lines[i]);
  }

  /** `sse_extract_data`: the payloads of the event's data lines joined with '\n'. The
      event is taken already decoded to text; it never fails. */
  method SseExtractData(text: seq<char>) returns (r: Result<seq<char>, seq<char>>)
    ensures r == Success(Join(DataLines(Lines(text)), "\n"))
  {
    var lines := Lines(text);
    var dataLines: seq<seq<char>> := [];
    for i := 0 to |lines|
      invariant dataLines == DataLines(lines[..i])
    {
      var line := TrimEnd(lines[i]);
      DataLinesStep(lines, i);
      if StartsWith(line, "data:") {
        dataLines := dataLines + [TrimStart(line[5..])];
      }
    }
    assert lines[..|lines|] == lines;
    return Success(Join(dataLines, "\n"));
  }

  /** Two data lines, one with surrounding blanks and a '\r', around a comment line. */
  lemma ExtractExample(lines: seq<seq<char>>)
    requires lines == ["data: hello\r", ": note", "data:  world  "]
    ensures Join(DataLines(lines), "\n") == "hello" + "\n" + "world"
  {
    HelloLine();
    CommentLine();
    WorldLine();
    DataLinesExample(lines[0], lines[1], lines[2], "hello", "world");
    JoinTwo("hello", "world", "\n");
  }

  lemma JoinTwo(a: seq<char>, b: seq<char>, sep: seq<char>)
    ensures Join([a, b], sep) == a + sep + b
  {
    assert [a, b][1..] == [b];
  }

  lemma HelloLine()
    ensures DataPayload("data: hello\r") == Some("hello")
  {
    assert "data: hello\r" == "data:" + " " + "hello" + "\r";
    DataLineRoundTrip(" ", "hello", "\r");
  }

  lemma CommentLine()
    ensures DataPayload(": note") == Option.None
  {
    var l := ": note";
    assert l[..5][0] != "data:"[0];
    OtherLineIgnored(l);
  }

  lemma WorldLine()
    ensures DataPayload("data:  world  ") == Some("world")
  {
    assert "data:  world  " == "data:" + "  " + "world" + "  ";
    DataLineRoundTrip("  ", "world", "  ");
  }

  /** The payloads of a data line, another line and a data line. */
  lemma DataLinesExample(l0: seq<char>, l1: seq<char>, l2: seq<char>, p0: seq<char>, p2: seq<char>)
    requires DataPayload(l0) == Some(p0) && DataPayload(l1) == Option.None && DataPayload(l2) == Some(p2)
    ensures DataLines([l0, l1, l2]) == [p0, p2]
  {
    var a := [l0];
    assert a[..0] == [];
    assert DataLines(a) == [p0];
    var b := [l0, l1];
    assert b[..1] == a;
    assert DataLines(b) == [p0];
    var c := [l0, l1, l2];
    assert c[..2] == b;
  }
}
