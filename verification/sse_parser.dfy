/** The incremental parser of the server-sent event stream. */
module SseParsing {
  import opened Options

  newtype Byte = x: int | 0 <= x < 256

  const LF: Byte := 10

  datatype SseEvent = SseEvent(event: string, data: string)

  /** The fields accumulated for the event under way. */
  datatype Fields = Fields(event: string, data: string)

  /** The parser between two chunks. */
  datatype State = State(buf: seq<Byte>, fields: Fields)

  datatype Step = Step(fields: Fields, events: seq<SseEvent>)

  datatype Outcome = Outcome(state: State, events: seq<SseEvent>)

  function TrimCr(line: string): string {
    if line != "" && line[|line| - 1] == '\r' then TrimCr(line[..|line| - 1]) else line
  }

  function FirstIndex(s: string, c: char): (r: Option<nat>)
    ensures r.Some? ==> r.value < |s| && s[r.value] == c && c !in s[..r.value]
    ensures r.None? ==> c !in s
  {
    if s == "" then None
    else if s[0] == c then Some(0)
    else
      match FirstIndex(s[1..], c)
      case None => None
      case Some(k) => assert s[..k + 1] == [s[0]] + s[1..][..k]; Some(k + 1)
  }

  function FieldName(line: string): string {
    match FirstIndex(line, ':')
    case None => line
    case Some(k) => line[..k]
  }

  /** Exactly one leading space of the value belongs to the framing. */
  function FieldValue(line: string): string {
    match FirstIndex(line, ':')
    case None => ""
    case Some(k) => if k + 1 < |line| && line[k + 1] == ' ' then line[k + 2..] else line[k + 1..]
  }

  function AppendData(data: string, value: string): string {
    (if data != "" then data + "\n" else data) + value
  }

  function OnLine(f: Fields, line: string): Step {
    if line == "" then
      if f.event != "" || f.data != "" then Step(Fields("", ""), [SseEvent(f.event, f.data)]) else Step(f, [])
    else if line[0] == ':' then Step(f, [])
    else if FieldName(line) == "event" then Step(f.(event := FieldValue(line)), [])
    else if FieldName(line) == "data" then Step(f.(data := AppendData(f.data, FieldValue(line))), [])
    else Step(f, [])
  }

  /** Length of the first line, if it is complete. */
  function FirstLine(bytes: seq<Byte>): (r: Option<nat>)
    ensures r.Some? ==> r.value < |bytes| && bytes[r.value] == LF && LF !in bytes[..r.value]
    ensures r.None? ==> LF !in bytes
  {
    if bytes == [] then None
    else if bytes[0] == LF then Some(0)
    else
      match FirstLine(bytes[1..])
      case None => None
      case Some(k) => assert bytes[..k + 1] == [bytes[0]] + bytes[1..][..k]; Some(k + 1)
  }

  /** All complete lines of `bytes`, one after the other; the rest stays in the buffer. */
  function Drain(decode: seq<Byte> -> string, f: Fields, bytes: seq<Byte>): Outcome
    decreases |bytes|
  {
    match FirstLine(bytes)
    case None => Outcome(State(bytes, f), [])
    case Some(k) =>
      var step := OnLine(f, TrimCr(decode(bytes[..k])));
      var rest := Drain(decode, step.fields, bytes[k + 1..]);
      Outcome(rest.state, step.events + rest.events)
  }

  function Pushed(decode: seq<Byte> -> string, s: State, chunk: seq<Byte>): Outcome {
    Drain(decode, s.fields, s.buf + chunk)
  }

  function PushedAll(decode: seq<Byte> -> string, s: State, chunks: seq<seq<Byte>>): Outcome
    decreases |chunks|
  {
    if chunks == [] then Outcome(s, [])
    else
      var first := Pushed(decode, s, chunks[0]);
      var rest := PushedAll(decode, first.state, chunks[1..]);
      Outcome(rest.state, first.events + rest.events)
  }

  function Joined(chunks: seq<seq<Byte>>): seq<Byte> {
    if chunks == [] then [] else chunks[0] + Joined(chunks[1..])
  }

  // ----- Framing independence ---------------------------------------------------------------

  lemma {:induction false} FirstLineIs(bytes: seq<Byte>, k: nat)
    requires k < |bytes| && bytes[k] == LF && LF !in bytes[..k]
    ensures FirstLine(bytes) == Some(k)
  {
    if k > 0 {
      assert bytes[..k][0] == bytes[0];
      assert bytes[1..][..k - 1] == bytes[..k][1..];
      FirstLineIs(bytes[1..], k - 1);
    }
  }

  lemma LineStays(a: seq<Byte>, b: seq<Byte>)
    requires FirstLine(a).Some?
    ensures FirstLine(a + b) == FirstLine(a)
  {
    var k := FirstLine(a).value;
    assert (a + b)[..k] == a[..k];
    FirstLineIs(a + b, k);
  }

  lemma {:induction false} NoFirstLine(bytes: seq<Byte>)
    requires LF !in bytes
    ensures FirstLine(bytes) == None
  {
    if bytes != [] {
      assert bytes[0] in bytes;
      NoFirstLine(bytes[1..]);
    }
  }

  function After(events: seq<SseEvent>, o: Outcome): Outcome {
    Outcome(o.state, events + o.events)
  }

  lemma AfterBoth(a: seq<SseEvent>, b: seq<SseEvent>, o: Outcome)
    ensures After(a, After(b, o)) == After(a + b, o)
  {
    assert a + (b + o.events) == (a + b) + o.events;
  }

  lemma DrainOne(decode: seq<Byte> -> string, f: Fields, bytes: seq<Byte>)
    ensures FirstLine(bytes).None? ==> Drain(decode, f, bytes) == Outcome(State(bytes, f), [])
    ensures FirstLine(bytes).Some? ==>
      var k := FirstLine(bytes).value;
      var step := OnLine(f, TrimCr(decode(bytes[..k])));
      Drain(decode, f, bytes) == After(step.events, Drain(decode, step.fields, bytes[k + 1..]))
  {
    hide OnLine, TrimCr, FirstLine;
  }

  lemma {:induction false} DrainSplits(decode: seq<Byte> -> string, f: Fields, a: seq<Byte>, b: seq<Byte>)
    ensures var first := Drain(decode, f, a);
            Drain(decode, f, a + b) == After(first.events, Drain(decode, first.state.fields, first.state.buf + b))
    decreases |a|
  {
    hide OnLine, TrimCr, FirstLine, Drain;
    DrainOne(decode, f, a);
    if FirstLine(a).None? {
      assert [] + Drain(decode, f, a + b).events == Drain(decode, f, a + b).events;
    } else {
      var k := FirstLine(a).value;
      LineStays(a, b);
      DrainOne(decode, f, a + b);
      assert (a + b)[..k] == a[..k] && (a + b)[k + 1..] == a[k + 1..] + b;
      var step := OnLine(f, TrimCr(decode(a[..k])));
      var rest := Drain(decode, step.fields, a[k + 1..]);
      DrainSplits(decode, step.fields, a[k + 1..], b);
      AfterBoth(step.events, rest.events, Drain(decode, rest.state.fields, rest.state.buf + b));
    }
  }

  lemma {:induction false} BufferHasNoNewline(decode: seq<Byte> -> string, f: Fields, bytes: seq<Byte>)
    ensures LF !in Drain(decode, f, bytes).state.buf
    decreases |bytes|
  {
    match FirstLine(bytes)
    case None =>
    case Some(k) => BufferHasNoNewline(decode, OnLine(f, TrimCr(decode(bytes[..k]))).fields, bytes[k + 1..]);
  }

  /** Two chunks are as good as one: same events, same parser afterwards. */
  lemma PushTwice(decode: seq<Byte> -> string, s: State, a: seq<Byte>, b: seq<Byte>)
    ensures var first := Pushed(decode, s, a);
            var second := Pushed(decode, first.state, b);
            Pushed(decode, s, a + b) == Outcome(second.state, first.events + second.events)
  {
    assert s.buf + (a + b) == (s.buf + a) + b;
    DrainSplits(decode, s.fields, s.buf + a, b);
  }

  lemma NothingMore(decode: seq<Byte> -> string, f: Fields, bytes: seq<Byte>)
    requires LF !in bytes
    ensures Drain(decode, f, bytes) == Outcome(State(bytes, f), [])
  {
    NoFirstLine(bytes);
  }

  /** However the transport cuts a stream into chunks, the parser delivers the events of the whole stream. */
  lemma {:induction false} FramingIndependent(decode: seq<Byte> -> string, s: State, chunks: seq<seq<Byte>>)
    requires LF !in s.buf
    ensures PushedAll(decode, s, chunks) == Pushed(decode, s, Joined(chunks))
    decreases |chunks|
  {
    if chunks == [] {
      assert s.buf + [] == s.buf;
      NothingMore(decode, s.fields, s.buf);
    } else {
      PushTwice(decode, s, chunks[0], Joined(chunks[1..]));
      BufferHasNoNewline(decode, s.fields, s.buf + chunks[0]);
      FramingIndependent(decode, Pushed(decode, s, chunks[0]).state, chunks[1..]);
    }
  }

  // ----- The parser ---------------------------------------------------------------------------

  class SseParser {
    const decode: seq<Byte> -> string
    var buf: seq<Byte>
    var scanned: nat
    var event: string
    var data: string

    ghost function Current(): State
      reads this
    {
      State(buf, Fields(event, data))
    }

    /** No newline before the scanned offset; between two chunks the whole buffer has been scanned. */
    ghost predicate Valid()
      reads this
    {
      scanned == |buf| && LF !in buf
    }

    constructor (lossy: seq<Byte> -> string)
      ensures Valid() && decode == lossy && Current() == State([], Fields("", ""))
    {
      decode, buf, scanned, event, data := lossy, [], 0, "", "";
    }

    method FindNewline(start: nat) returns (r: Option<nat>)
      requires start <= |buf|
      ensures r.Some? ==> start <= r.value < |buf| && buf[r.value] == LF && LF !in buf[start..r.value]
      ensures r.None? ==> LF !in buf[start..]
    {
      var k := start;
      while k < |buf|
        invariant start <= k <= |buf| && LF !in buf[start..k]
      {
        if buf[k] == LF { return Some(k); }
        assert buf[start..k + 1] == buf[start..k] + [buf[k]];
        k := k + 1;
      }
      assert buf[start..] == buf[start..k];
      r := None;
    }

    method Handle(line: string) returns (events: seq<SseEvent>)
      modifies this`event, this`data
      ensures OnLine(old(Current()).fields, line) == Step(Fields(event, data), events)
    {
      events := [];
      if line == "" {
        if event != "" || data != "" {
          events := [SseEvent(event, data)];
          event, data := "", "";
        }
        return;
      }
      if line[0] == ':' { return; }
      var field, value := FieldName(line), FieldValue(line);
      if field == "event" {
        event := value;
      } else if field == "data" {
        if data != "" { data := data + "\n"; }
        data := data + value;
      }
    }

    method Push(chunk: seq<Byte>) returns (events: seq<SseEvent>)
      requires Valid()
      modifies this
      ensures Valid() && Outcome(Current(), events) == Pushed(decode, old(Current()), chunk)
    {
      hide OnLine, TrimCr, FirstLine, Drain;
      buf := buf + chunk;
      events := [];
      var consumed: nat := 0;
      ghost var whole := Pushed(decode, old(Current()), chunk);
      assert buf[0..] == buf && LF !in buf[0..scanned];
      var newline := FindNewline(scanned);
      while newline.Some?
        invariant consumed <= scanned <= |buf| && buf == old(buf) + chunk
        invariant LF !in buf[consumed..scanned]
        invariant newline.Some? ==>
          && scanned <= newline.value < |buf| && buf[newline.value] == LF
          && LF !in buf[scanned..newline.value]
        invariant newline.None? ==> LF !in buf[scanned..]
        invariant whole == After(events, Drain(decode, Fields(event, data), buf[consumed..]))
        decreases |buf| - scanned, newline.Some?
      {
        var end := newline.value;
        NextLine(decode, Fields(event, data), buf, consumed, scanned, end);
        ghost var f, before := Fields(event, data), events;
        var line := TrimCr(decode(buf[consumed..end]));
        consumed := end + 1;
        scanned := consumed;
        var more := Handle(line);
        AfterBoth(before, more, Drain(decode, Fields(event, data), buf[consumed..]));
        events := events + more;
        newline := FindNewline(scanned);
      }
      assert buf[consumed..] == buf[consumed..scanned] + buf[scanned..];
      NothingMore(decode, Fields(event, data), buf[consumed..]);
      assert events + [] == events;
      buf := buf[consumed..];
      scanned := |buf|;
    }
  }

  lemma NextLine(decode: seq<Byte> -> string, f: Fields, buf: seq<Byte>, consumed: nat, scanned: nat, end: nat)
    requires consumed <= scanned <= end < |buf| && buf[end] == LF && LF !in buf[consumed..scanned]
        && LF !in buf[scanned..end]
    ensures var step := OnLine(f, TrimCr(decode(buf[consumed..end])));
            Drain(decode, f, buf[consumed..]) == After(step.events, Drain(decode, step.fields, buf[end + 1..]))
  {
    hide OnLine, TrimCr, FirstLine, Drain;
    assert buf[consumed..end] == buf[consumed..scanned] + buf[scanned..end];
    assert buf[consumed..][..end - consumed] == buf[consumed..end];
    assert buf[consumed..][end - consumed + 1..] == buf[end + 1..];
    FirstLineIs(buf[consumed..], end - consumed);
    DrainOne(decode, f, buf[consumed..]);
  }

  // ----- The standard -------------------------------------------------------------------------

  const CR: Byte := 13

  /** What decoding does around a carriage return: it passes a last one through and makes up none. */
  ghost predicate KeepsCr(decode: seq<Byte> -> string) {
    forall a :: CR !in a ==> '\r' !in decode(a) && decode(a + [CR]) == decode(a) + "\r"
  }

  /** The lines of this parser: up to a line feed, without the carriage returns before it. */
  function ParserLines(decode: seq<Byte> -> string, bytes: seq<Byte>): seq<string>
    decreases |bytes|
  {
    match FirstLine(bytes)
    case None => []
    case Some(k) => [TrimCr(decode(bytes[..k]))] + ParserLines(decode, bytes[k + 1..])
  }

  lemma ParserLinesOne(decode: seq<Byte> -> string, bytes: seq<Byte>)
    ensures ParserLines(decode, bytes)
         == match FirstLine(bytes)
            case None => []
            case Some(k) => [TrimCr(decode(bytes[..k]))] + ParserLines(decode, bytes[k + 1..])
  {
    hide FirstLine, TrimCr;
  }

  function FirstBreak(bytes: seq<Byte>): (r: Option<nat>)
    ensures r.Some? ==> && r.value < |bytes| && (bytes[r.value] == LF || bytes[r.value] == CR)
                        && LF !in bytes[..r.value] && CR !in bytes[..r.value]
    ensures r.None? ==> LF !in bytes && CR !in bytes
  {
    if bytes == [] then None
    else if bytes[0] == LF || bytes[0] == CR then Some(0)
    else
      match FirstBreak(bytes[1..])
      case None => None
      case Some(k) => assert bytes[..k + 1] == [bytes[0]] + bytes[1..][..k]; Some(k + 1)
  }

  /** The lines of section 9.2.6 of the HTML Living Standard: they end with a carriage return and a line feed,
      with a line feed alone, or with a carriage return alone. */
  function StandardLines(decode: seq<Byte> -> string, bytes: seq<Byte>): seq<string>
    decreases |bytes|
  {
    match FirstBreak(bytes)
    case None => []
    case Some(k) =>
      [decode(bytes[..k])] + StandardLines(decode, bytes[NextStart(bytes, k)..])
  }

  /** The event type buffer and the data buffer of the standard. */
  datatype Buffers = Buffers(kind: string, data: string)

  /** The characters before and after the first colon of a line. */
  function BeforeColon(line: string): string {
    if line == "" || line[0] == ':' then "" else [line[0]] + BeforeColon(line[1..])
  }

  function AfterColon(line: string): string {
    if line == "" then "" else if line[0] == ':' then line[1..] else AfterColon(line[1..])
  }

  /** The value of a field by the standard: without the one space that may follow the colon. */
  function StandardValue(line: string): string {
    if AfterColon(line) != "" && AfterColon(line)[0] == ' ' then AfterColon(line)[1..] else AfterColon(line)
  }

  lemma {:induction false} ColonIs(line: string)
    ensures FirstIndex(line, ':').None? ==> BeforeColon(line) == line && AfterColon(line) == ""
    ensures FirstIndex(line, ':').Some? ==>
      var k := FirstIndex(line, ':').value; BeforeColon(line) == line[..k] && AfterColon(line) == line[k + 1..]
  {
    if line != "" && line[0] != ':' {
      ColonIs(line[1..]);
      if FirstIndex(line, ':').Some? {
        var k := FirstIndex(line[1..], ':').value;
        assert line[..k + 1] == [line[0]] + line[1..][..k] && line[k + 2..] == line[1..][k + 1..];
      }
    }
  }

  /** Parser and standard split a line into the same field name and the same value. */
  lemma FieldsAgree(line: string)
    ensures FieldName(line) == BeforeColon(line) && FieldValue(line) == StandardValue(line)
  {
    ColonIs(line);
  }

  /** One line by the standard: every data value is followed by a line feed; a blank line dispatches nothing
      without data, drops the last line feed, and fills in the default type. */
  function StandardOnLine(b: Buffers, line: string): (Buffers, seq<SseEvent>) {
    if line == "" then
      (Buffers("", ""),
       if b.data == "" then [] else [SseEvent(if b.kind == "" then "message" else b.kind, b.data[..|b.data| - 1])])
    else if line[0] == ':' then (b, [])
    else if BeforeColon(line) == "event" then (b.(kind := StandardValue(line)), [])
    else if BeforeColon(line) == "data" then (b.(data := b.data + StandardValue(line) + "\n"), [])
    else (b, [])
  }

  /** What each line dispatches. */
  function Trace(f: Fields, lines: seq<string>): seq<seq<SseEvent>>
    decreases |lines|
  {
    if lines == [] then []
    else [OnLine(f, lines[0]).events] + Trace(OnLine(f, lines[0]).fields, lines[1..])
  }

  function StandardTrace(b: Buffers, lines: seq<string>): seq<seq<SseEvent>>
    decreases |lines|
  {
    if lines == [] then []
    else [StandardOnLine(b, lines[0]).1] + StandardTrace(StandardOnLine(b, lines[0]).0, lines[1..])
  }

  function Flat(trace: seq<seq<SseEvent>>): seq<SseEvent> {
    if trace == [] then [] else trace[0] + Flat(trace[1..])
  }

  // ----- Where the lines agree ------------------------------------------------------------------

  predicate NoLoneCr(bytes: seq<Byte>) {
    forall k :: 0 <= k < |bytes| && bytes[k] == CR ==> k + 1 < |bytes| && bytes[k + 1] == LF
  }

  lemma {:induction false} TrimOne(line: string)
    requires '\r' !in line
    ensures TrimCr(line) == line && TrimCr(line + "\r") == line
  {
    assert (line + "\r")[..|line|] == line;
  }

  /** A line feed that comes after `k` bytes without one is found in the rest. */
  lemma LinesAfter(decode: seq<Byte> -> string, bytes: seq<Byte>, k: nat)
    requires k <= |bytes| && LF !in bytes[..k]
    ensures |ParserLines(decode, bytes)| == |ParserLines(decode, bytes[k..])|
  {
    hide FirstLine, TrimCr, ParserLines;
    BreakAfter(bytes, k);
    ParserLinesOne(decode, bytes);
    ParserLinesOne(decode, bytes[k..]);
    if FirstLine(bytes[k..]).Some? { DropTwice(bytes, k, FirstLine(bytes[k..]).value + 1); }
  }

  lemma DropTwice(bytes: seq<Byte>, k: nat, j: nat)
    requires k + j <= |bytes|
    ensures bytes[k..][j..] == bytes[k + j..]
  {
  }

  lemma {:induction false} BreakAfter(bytes: seq<Byte>, k: nat)
    requires k <= |bytes| && LF !in bytes[..k]
    ensures FirstLine(bytes[k..]).None? ==> FirstLine(bytes).None?
    ensures FirstLine(bytes[k..]).Some? ==> FirstLine(bytes) == Some(k + FirstLine(bytes[k..]).value)
  {
    if k == 0 {
      assert bytes[0..] == bytes;
    } else {
      assert bytes[..k][0] == bytes[0] && bytes[1..][..k - 1] == bytes[..k][1..];
      assert bytes[1..][k - 1..] == bytes[k..];
      BreakAfter(bytes[1..], k - 1);
    }
  }

  lemma SuffixHasNoLoneCr(bytes: seq<Byte>, k: nat)
    requires k <= |bytes| && NoLoneCr(bytes)
    ensures NoLoneCr(bytes[k..])
  {
    forall j | 0 <= j < |bytes[k..]| && bytes[k..][j] == CR
      ensures j + 1 < |bytes[k..]| && bytes[k..][j + 1] == LF
    {
      assert bytes[k + j] == CR;
    }
  }

  lemma PrefixHasNoLoneCr(bytes: seq<Byte>, k: nat)
    requires k <= |bytes| && NoLoneCr(bytes[k..])
    requires forall j :: 0 <= j < k && bytes[j] == CR ==> j + 1 < k && bytes[j + 1] == LF
    ensures NoLoneCr(bytes)
  {
    forall j | 0 <= j < |bytes| && bytes[j] == CR ensures j + 1 < |bytes| && bytes[j + 1] == LF {
      if j >= k { assert bytes[k..][j - k] == CR; }
    }
  }

  /** Where the line ends that has its first break at `k`. */
  function NextStart(bytes: seq<Byte>, k: nat): (r: nat)
    requires k < |bytes|
    ensures k < r <= |bytes|
  {
    if bytes[k] == CR && k + 1 < |bytes| && bytes[k + 1] == LF then k + 2 else k + 1
  }

  lemma ParserLine(decode: seq<Byte> -> string, bytes: seq<Byte>, k: nat, next: nat)
    requires KeepsCr(decode) && k < next <= |bytes| && LF !in bytes[..k] && CR !in bytes[..k]
    requires bytes[next - 1] == LF && (next == k + 1 || (next == k + 2 && bytes[k] == CR))
    ensures ParserLines(decode, bytes) == [decode(bytes[..k])] + ParserLines(decode, bytes[next..])
  {
    hide FirstLine, TrimCr, ParserLines, KeepsCr;
    LineEnd(bytes, k, next);
    TrimmedLine(decode, bytes[..k]);
    ParserLinesOne(decode, bytes);
  }

  lemma LineEnd(bytes: seq<Byte>, k: nat, next: nat)
    requires k < next <= |bytes| && LF !in bytes[..k]
    requires bytes[next - 1] == LF && (next == k + 1 || (next == k + 2 && bytes[k] == CR))
    ensures FirstLine(bytes) == Some(next - 1)
    ensures bytes[..next - 1] == bytes[..k] || bytes[..next - 1] == bytes[..k] + [CR]
  {
    hide FirstLine;
    if next == k + 2 { assert bytes[..k + 1] == bytes[..k] + [CR]; }
    FirstLineIs(bytes, next - 1);
  }

  lemma TrimmedLine(decode: seq<Byte> -> string, line: seq<Byte>)
    requires KeepsCr(decode) && CR !in line
    ensures TrimCr(decode(line)) == decode(line) == TrimCr(decode(line + [CR]))
  {
    hide TrimCr;
    TrimOne(decode(line));
  }

  lemma LoneCrLater(bytes: seq<Byte>, k: nat, next: nat)
    requires k < next <= |bytes| && CR !in bytes[..k]
    requires bytes[next - 1] == LF && (next == k + 1 || (next == k + 2 && bytes[k] == CR))
    ensures NoLoneCr(bytes) <==> NoLoneCr(bytes[next..])
  {
    assert forall j :: 0 <= j < k ==> bytes[j] in bytes[..k];
    if NoLoneCr(bytes) { SuffixHasNoLoneCr(bytes, next); }
    if NoLoneCr(bytes[next..]) { PrefixHasNoLoneCr(bytes, next); }
  }

  /** A stream has the same lines for both exactly when no carriage return stands alone; otherwise the standard
      sees more lines. */
  lemma {:induction false} LinesAgreeIff(decode: seq<Byte> -> string, bytes: seq<Byte>)
    requires KeepsCr(decode)
    ensures |StandardLines(decode, bytes)| >= |ParserLines(decode, bytes)|
    ensures |StandardLines(decode, bytes)| == |ParserLines(decode, bytes)| <==> NoLoneCr(bytes)
    ensures NoLoneCr(bytes) ==> StandardLines(decode, bytes) == ParserLines(decode, bytes)
    decreases |bytes|
  {
    match FirstBreak(bytes)
    case None => NoFirstLine(bytes);
    case Some(k) =>
      hide FirstBreak, FirstLine, KeepsCr, ParserLines;
      var next := NextStart(bytes, k);
      if bytes[next - 1] == LF {
        ParserLine(decode, bytes, k, next);
        LoneCrLater(bytes, k, next);
        LinesAgreeIff(decode, bytes[next..]);
      } else {
        assert bytes[..k + 1] == bytes[..k] + [CR];
        LinesAfter(decode, bytes, k + 1);
        LinesAgreeIff(decode, bytes[k + 1..]);
      }
  }

  // ----- Where the events agree ------------------------------------------------------------------

  function StandardBuffer(values: seq<string>): string {
    if values == [] then "" else StandardBuffer(values[..|values| - 1]) + values[|values| - 1] + "\n"
  }

  function DataAfter(values: seq<string>): string {
    if values == [] then "" else AppendData(DataAfter(values[..|values| - 1]), values[|values| - 1])
  }

  lemma {:induction false} BufferIs(values: seq<string>)
    ensures values == [] <==> StandardBuffer(values) == ""
    ensures values != [] && values[0] != "" ==>
      StandardBuffer(values) == DataAfter(values) + "\n" && DataAfter(values) != ""
    ensures |values| > 1 && values[0] == "" ==> |StandardBuffer(values)| > |DataAfter(values)| + 1
    ensures |values| == 1 ==> StandardBuffer(values) == values[0] + "\n" && DataAfter(values) == values[0]
  {
    if values != [] {
      var front := values[..|values| - 1];
      BufferIs(front);
      if |values| == 1 {
        assert front == [];
      }
    }
  }

  /** An event with this name and these data values is the same for both: it has neither, or it has both, and
      an empty first value is the only one. */
  predicate BlockAgrees(event: string, values: seq<string>) {
    if values == [] then event == "" else event != "" && (values[0] != "" || |values| == 1)
  }

  lemma BlockAgreesIff(event: string, values: seq<string>)
    ensures OnLine(Fields(event, DataAfter(values)), "").events
              == StandardOnLine(Buffers(event, StandardBuffer(values)), "").1
       <==> BlockAgrees(event, values)
    ensures OnLine(Fields(event, DataAfter(values)), "").fields == Fields("", "")
  {
    BufferIs(values);
    hide StandardBuffer, DataAfter;
    if values == [] {
      assert DataAfter(values) == "" by { NoData(); }
    } else if values[0] != "" {
      assert (DataAfter(values) + "\n")[..|DataAfter(values)|] == DataAfter(values);
    } else if |values| == 1 {
      assert (values[0] + "\n")[..|values[0]|] == values[0];
    }
  }

  lemma NoData()
    ensures DataAfter([]) == "" && StandardBuffer([]) == ""
  {
  }

  /** Every event that a blank line of `lines` ends agrees, the first being under way with `event` and `values`. */
  predicate BlocksAgree(event: string, values: seq<string>, lines: seq<string>)
    decreases |lines|
  {
    if lines == [] then true
    else if lines[0] == "" then BlockAgrees(event, values) && BlocksAgree("", [], lines[1..])
    else if lines[0][0] == ':' then BlocksAgree(event, values, lines[1..])
    else if FieldName(lines[0]) == "event" then BlocksAgree(FieldValue(lines[0]), values, lines[1..])
    else if FieldName(lines[0]) == "data" then BlocksAgree(event, values + [FieldValue(lines[0])], lines[1..])
    else BlocksAgree(event, values, lines[1..])
  }

  /** A line that is not blank keeps the two in step. */
  lemma FieldLine(event: string, values: seq<string>, line: string)
    requires line != ""
    ensures var f, b := Fields(event, DataAfter(values)), Buffers(event, StandardBuffer(values));
            var kind := if line[0] != ':' && FieldName(line) == "event" then FieldValue(line) else event;
            var more := if line[0] != ':' && FieldName(line) == "data" then values + [FieldValue(line)] else values;
            && OnLine(f, line) == Step(Fields(kind, DataAfter(more)), [])
            && StandardOnLine(b, line) == (Buffers(kind, StandardBuffer(more)), [])
  {
    FieldsAgree(line);
    hide BeforeColon, StandardValue, FieldName, FieldValue;
    var v := FieldValue(line);
    assert (values + [v])[..|values|] == values;
    hide AppendData;
  }

  lemma SameHead(a: seq<SseEvent>, s: seq<seq<SseEvent>>, b: seq<SseEvent>, t: seq<seq<SseEvent>>)
    ensures [a] + s == [b] + t <==> a == b && s == t
  {
    assert ([a] + s)[0] == a && ([a] + s)[1..] == s && ([b] + t)[0] == b && ([b] + t)[1..] == t;
  }

  lemma {:induction false} TraceAgreesIff(event: string, values: seq<string>, lines: seq<string>)
    ensures Trace(Fields(event, DataAfter(values)), lines)
              == StandardTrace(Buffers(event, StandardBuffer(values)), lines)
       <==> BlocksAgree(event, values, lines)
    ensures |Trace(Fields(event, DataAfter(values)), lines)| == |lines|
    ensures |StandardTrace(Buffers(event, StandardBuffer(values)), lines)| == |lines|
    decreases |lines|
  {
    if lines != [] {
      var f, b := Fields(event, DataAfter(values)), Buffers(event, StandardBuffer(values));
      var line := lines[0];
      NoData();
      SameHead(OnLine(f, line).events, Trace(OnLine(f, line).fields, lines[1..]),
               StandardOnLine(b, line).1, StandardTrace(StandardOnLine(b, line).0, lines[1..]));
      if line == "" {
        BlockAgreesIff(event, values);
        TraceAgreesIff("", [], lines[1..]);
      } else {
        FieldLine(event, values, line);
        var kind := if line[0] != ':' && FieldName(line) == "event" then FieldValue(line) else event;
        var more := if line[0] != ':' && FieldName(line) == "data" then values + [FieldValue(line)] else values;
        TraceAgreesIff(kind, more, lines[1..]);
      }
      hide FieldName, FieldValue, OnLine, StandardOnLine, DataAfter, StandardBuffer, BlockAgrees;
    }
  }

  /** The events that this parser delivers for a stream are those of its lines, in order. */
  lemma {:induction false} DrainTraces(decode: seq<Byte> -> string, f: Fields, bytes: seq<Byte>)
    ensures Drain(decode, f, bytes).events == Flat(Trace(f, ParserLines(decode, bytes)))
    decreases |bytes|
  {
    hide OnLine, TrimCr, FirstLine;
    match FirstLine(bytes)
    case None =>
    case Some(k) =>
      var line := TrimCr(decode(bytes[..k]));
      var step := OnLine(f, line);
      var rest := ParserLines(decode, bytes[k + 1..]);
      DrainTraces(decode, step.fields, bytes[k + 1..]);
      assert ([line] + rest)[1..] == rest;
      assert ([step.events] + Trace(step.fields, rest))[1..] == Trace(step.fields, rest);
  }

  function ParserTrace(decode: seq<Byte> -> string, bytes: seq<Byte>): seq<seq<SseEvent>> {
    Trace(Fields("", ""), ParserLines(decode, bytes))
  }

  function StandardTraceOf(decode: seq<Byte> -> string, bytes: seq<Byte>): seq<seq<SseEvent>> {
    StandardTrace(Buffers("", ""), StandardLines(decode, bytes))
  }

  /** For every stream of bytes, however it is cut into chunks: line by line the parser dispatches what the
      standard dispatches, exactly when no carriage return stands alone and every event has both a name and
      data, or neither, and starts with a data value that is not empty unless it is the only one.  Then the
      events are those of the standard. */
  lemma AgreesWithStandardIff(decode: seq<Byte> -> string, chunks: seq<seq<Byte>>)
    requires KeepsCr(decode)
    ensures var bytes := Joined(chunks);
            var events := PushedAll(decode, State([], Fields("", "")), chunks).events;
            var agree := NoLoneCr(bytes) && BlocksAgree("", [], ParserLines(decode, bytes));
            && (ParserTrace(decode, bytes) == StandardTraceOf(decode, bytes) <==> agree)
            && events == Flat(ParserTrace(decode, bytes))
            && (agree ==> events == Flat(StandardTraceOf(decode, bytes)))
  {
    var bytes := Joined(chunks);
    FramingIndependent(decode, State([], Fields("", "")), chunks);
    assert [] + bytes == bytes;
    DrainTraces(decode, Fields("", ""), bytes);
    LinesAgreeIff(decode, bytes);
    NoData();
    TraceAgreesIff("", [], ParserLines(decode, bytes));
    TraceAgreesIff("", [], StandardLines(decode, bytes));
    hide ParserLines, StandardLines, Trace, StandardTrace, NoLoneCr, BlocksAgree, Flat, Drain;
  }

  lemma NameOnly(name: string)
    requires ':' !in name
    ensures FieldName(name) == name && FieldValue(name) == ""
  {
  }

  lemma NameAndValue(name: string, value: string)
    requires ':' !in name
    ensures FieldName(name + ": " + value) == name && FieldValue(name + ": " + value) == value
  {
    var line := name + ": " + value;
    assert line[..|name|] == name && line[|name|] == ':' && line[|name| + 2..] == value;
    FirstIndexIs(line, ':', |name|);
  }

  lemma {:induction false} FirstIndexIs(s: string, c: char, k: nat)
    requires k < |s| && s[k] == c && c !in s[..k]
    ensures FirstIndex(s, c) == Some(k)
  {
    if k > 0 {
      assert s[..k][0] == s[0] && s[1..][..k - 1] == s[..k][1..];
      FirstIndexIs(s[1..], c, k - 1);
    }
  }

  lemma TraceCons(f: Fields, b: Buffers, line: string, rest: seq<string>)
    ensures Trace(f, [line] + rest) == [OnLine(f, line).events] + Trace(OnLine(f, line).fields, rest)
    ensures StandardTrace(b, [line] + rest)
         == [StandardOnLine(b, line).1] + StandardTrace(StandardOnLine(b, line).0, rest)
  {
    assert ([line] + rest)[1..] == rest;
    hide OnLine, StandardOnLine;
  }

  lemma FlatCons(events: seq<SseEvent>, rest: seq<seq<SseEvent>>)
    ensures Flat([events] + rest) == events + Flat(rest)
  {
    assert ([events] + rest)[1..] == rest;
  }

  /** A value may also follow the colon directly, and then it is whole. */
  lemma ValueWithoutSpace(name: string, value: string)
    requires ':' !in name && (value == "" || value[0] != ' ')
    ensures FieldName(name + ":" + value) == name && FieldValue(name + ":" + value) == value
  {
    var line := name + ":" + value;
    assert line[..|name|] == name && line[|name|] == ':' && line[|name| + 1..] == value;
    FirstIndexIs(line, ':', |name|);
  }

  /** Two disagreements can cancel out: an event with a name and no data is dropped by the standard, one with
      empty data and no name is dropped by this parser.  That is why the comparison goes line by line. */
  lemma DisagreementsCancelOut()
    ensures var lines := ["event: message", "", "data", ""];
            var mine, theirs := Trace(Fields("", ""), lines), StandardTrace(Buffers("", ""), lines);
            mine != theirs && Flat(mine) == Flat(theirs) == [SseEvent("message", "")]
  {
    var lines := ["event: message", "", "data", ""];
    var e, none := SseEvent("message", ""), Fields("", "");
    hide FieldName, FieldValue, OnLine, StandardOnLine, Trace, StandardTrace, Flat;
    FourLines();
    NoLines();
    assert ["event: message"] + (["", "data", ""]) == lines && [""] + ["data", ""] == ["", "data", ""];
    assert ["data"] + [""] == ["data", ""] && [""] + [] == [""];
    TraceCons(none, Buffers("", "\n"), "", []);
    TraceCons(none, Buffers("", ""), "data", [""]);
    TraceCons(Fields("message", ""), Buffers("message", ""), "", ["data", ""]);
    TraceCons(none, Buffers("", ""), "event: message", ["", "data", ""]);
    CancelledOut(e);
  }

  lemma FourLines()
    ensures OnLine(Fields("", ""), "event: message") == Step(Fields("message", ""), [])
    ensures OnLine(Fields("message", ""), "") == Step(Fields("", ""), [SseEvent("message", "")])
    ensures OnLine(Fields("", ""), "data") == Step(Fields("", ""), []) == OnLine(Fields("", ""), "")
    ensures StandardOnLine(Buffers("", ""), "event: message") == (Buffers("message", ""), [])
    ensures StandardOnLine(Buffers("message", ""), "") == (Buffers("", ""), [])
    ensures StandardOnLine(Buffers("", ""), "data") == (Buffers("", "\n"), [])
    ensures StandardOnLine(Buffers("", "\n"), "") == (Buffers("", ""), [SseEvent("message", "")])
  {
    NameAndValue("event", "message");
    assert "event" + ": " + "message" == "event: message";
    NameOnly("data");
    FieldsAgree("event: message");
    FieldsAgree("data");
    assert "" + "" + "\n" == "\n" && "\n"[..0] == "";
    hide FieldName, FieldValue, BeforeColon, StandardValue;
  }

  lemma NoLines()
    ensures forall f :: Trace(f, []) == []
    ensures forall b :: StandardTrace(b, []) == []
  {
  }

  lemma CancelledOut(e: SseEvent)
    ensures var none: seq<SseEvent>, end: seq<seq<SseEvent>> := [], [];
            var a, b := [none] + ([[e]] + ([none] + ([none] + end))), [none] + ([none] + ([none] + ([[e]] + end)));
            a != b && Flat(a) == [e] && Flat(b) == [e]
  {
    var none: seq<SseEvent>, end: seq<seq<SseEvent>> := [], [];
    FlatCons(none, end);
    FlatCons(none, [none] + end);
    FlatCons([e], [none] + ([none] + end));
    FlatCons(none, [[e]] + ([none] + ([none] + end)));
    FlatCons([e], end);
    FlatCons(none, [[e]] + end);
    FlatCons(none, [none] + ([[e]] + end));
    FlatCons(none, [none] + ([none] + ([[e]] + end)));
    assert ([none] + ([[e]] + ([none] + ([none] + end))))[1] == [e];
    assert ([none] + ([none] + ([none] + ([[e]] + end))))[1] == none;
  }
}
