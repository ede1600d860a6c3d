/**
 * The line assembly of the debug UART: an interrupt handler collects bytes up to a carriage
 * return or line feed and freezes the line for a reader, cut to 128 bytes. What it does is
 * compared with splitting the whole byte stream at its line ends.
 */
module LineAssembler {
  import opened Bytes

  const MAX_LINE: nat := 128
  const CR: Byte := 0x0D
  const LF: Byte := 0x0A

  predicate IsEol(b: Byte) {
    b == CR || b == LF
  }

  /* ---- splitting a stream ---- */

  /** What has come since the last line end. */
  function Tail(rx: seq<Byte>): seq<Byte> {
    if rx == [] || IsEol(rx[|rx| - 1]) then [] else Tail(rx[..|rx| - 1]) + [rx[|rx| - 1]]
  }

  /** The completed lines that are not empty, in full. */
  function Lines(rx: seq<Byte>): seq<seq<Byte>> {
    if rx == [] then [] else
    var before := rx[..|rx| - 1];
    Lines(before) + if IsEol(rx[|rx| - 1]) && Tail(before) != [] then [Tail(before)] else []
  }

  ghost predicate NoEol(s: seq<Byte>) {
    forall i :: 0 <= i < |s| ==> !IsEol(s[i])
  }

  lemma {:induction false} TailOfText(x: seq<Byte>)
    requires NoEol(x)
    ensures Tail(x) == x && Lines(x) == []
  {
    if x != [] {
      TailOfText(x[..|x| - 1]);
    }
  }

  /** Text up to a line end is one line, unless it is empty. */
  lemma OneLine(x: seq<Byte>, e: Byte)
    requires NoEol(x) && IsEol(e)
    ensures Lines(x + [e]) == (if x == [] then [] else [x]) && Tail(x + [e]) == []
  {
    TailOfText(x);
    assert (x + [e])[..|x + [e]| - 1] == x;
  }

  lemma OneMoreByte(s: seq<Byte>, e: Byte)
    ensures Lines(s + [e]) == Lines(s) + if IsEol(e) && Tail(s) != [] then [Tail(s)] else []
    ensures Tail(s + [e]) == if IsEol(e) then [] else Tail(s) + [e]
  {
    assert (s + [e])[..|s + [e]| - 1] == s;
  }

  lemma NothingYet()
    ensures Lines([]) == [] && Tail([]) == []
  {
  }

  lemma AfterEol(a: seq<Byte>)
    requires a == [] || IsEol(a[|a| - 1])
    ensures Tail(a) == []
  {
  }

  /** A stream splits at every line end. With OneLine this determines Lines and Tail. */
  lemma {:induction false} SplitsAtEol(a: seq<Byte>, b: seq<Byte>)
    requires a == [] || IsEol(a[|a| - 1])
    ensures Lines(a + b) == Lines(a) + Lines(b) && Tail(a + b) == Tail(b)
    decreases |b|
  {
    hide Lines, Tail, IsEol;
    if b == [] {
      assert a + b == a;
      NothingYet();
      AfterEol(a);
    } else {
      var init, e := b[..|b| - 1], b[|b| - 1];
      assert b == init + [e];
      assert a + b == (a + init) + [e];
      SplitsAtEol(a, init);
      OneMoreByte(init, e);
      OneMoreByte(a + init, e);
      var more := if IsEol(e) && Tail(init) != [] then [Tail(init)] else [];
      assert (Lines(a) + Lines(init)) + more == Lines(a) + (Lines(init) + more);
    }
  }

  /* ---- the driver on values ---- */

  datatype Line = Line(text: seq<Byte>, truncated: bool)

  datatype Uart = Uart(accum: seq<Byte>, overflow: bool, ready: Option<Line>)

  const IDLE: Uart := Uart([], false, None)

  function Receive(u: Uart, b: Byte): Uart {
    if IsEol(b) then
      if u.accum == [] then u else Uart([], false, Some(Line(u.accum, u.overflow)))
    else if |u.accum| < MAX_LINE then u.(accum := u.accum + [b])
    else u.(overflow := true)
  }

  /** A good byte, a byte dropped for a line error, or a call of the reader. */
  datatype Event = Good(b: Byte) | Dropped | Collect

  function Step(u: Uart, e: Event): Uart {
    match e
    case Good(b) => Receive(u, b)
    case Dropped => u
    case Collect => u.(ready := None)
  }

  function Run(es: seq<Event>): Uart {
    if es == [] then IDLE else Step(Run(es[..|es| - 1]), es[|es| - 1])
  }

  /** The lines the reader was given. */
  function Given(es: seq<Event>): seq<Line> {
    if es == [] then [] else
    var before := es[..|es| - 1];
    Given(before) + if es[|es| - 1].Collect? && Run(before).ready.Some? then [Run(before).ready.value] else []
  }

  /* ---- against the stream ---- */

  /** The bytes received. */
  function Stream(es: seq<Event>): seq<Byte> {
    if es == [] then [] else
    Stream(es[..|es| - 1]) + if es[|es| - 1].Good? then [es[|es| - 1].b] else []
  }

  /** A line as a reader may see it. */
  function Shown(line: seq<Byte>): Line {
    if |line| <= MAX_LINE then Line(line, false) else Line(line[..MAX_LINE], true)
  }

  /** There is a completed line after the last one taken. */
  predicate HasNews(rx: seq<Byte>, taken: seq<nat>) {
    |Lines(rx)| > 0 && (taken == [] || taken[|taken| - 1] < |Lines(rx)| - 1)
  }

  /** Which lines a reader should get: at each call the last one completed, unless it had it already. */
  function Taken(es: seq<Event>): seq<nat> {
    if es == [] then [] else
    var before := es[..|es| - 1];
    Taken(before) + if es[|es| - 1].Collect? && HasNews(Stream(before), Taken(before)) then [|Lines(Stream(before))| - 1] else []
  }

  /** The driver's state told from the stream and the lines taken. */
  ghost predicate Agrees(u: Uart, rx: seq<Byte>, taken: seq<nat>) {
    && Line(u.accum, u.overflow) == Shown(Tail(rx))
    && u.ready == if HasNews(rx, taken) then Some(Shown(Lines(rx)[|Lines(rx)| - 1])) else None
  }

  /** Line numbers in order, without repetition, of lines completed so far. */
  ghost predicate Ordered(taken: seq<nat>, n: nat) {
    && (forall i, j :: 0 <= i < j < |taken| ==> taken[i] < taken[j])
    && (forall i :: 0 <= i < |taken| ==> taken[i] < n)
  }

  lemma ReceiveAgrees(u: Uart, rx: seq<Byte>, taken: seq<nat>, b: Byte)
    requires Agrees(u, rx, taken) && Ordered(taken, |Lines(rx)|)
    ensures Agrees(Receive(u, b), rx + [b], taken) && Ordered(taken, |Lines(rx + [b])|)
  {
    assert (rx + [b])[..|rx + [b]| - 1] == rx;
    if !IsEol(b) {
      AppendShown(Tail(rx), b);
    }
  }

  lemma AppendShown(t: seq<Byte>, b: Byte)
    ensures Shown(t + [b]) ==
            if |Shown(t).text| < MAX_LINE then Line(Shown(t).text + [b], Shown(t).truncated) else Line(Shown(t).text, true)
  {
    if |t| == MAX_LINE {
      assert (t + [b])[..MAX_LINE] == t;
    } else if |t| > MAX_LINE {
      assert (t + [b])[..MAX_LINE] == t[..MAX_LINE];
    }
  }

  lemma LinesGrow(rx: seq<Byte>, b: Byte)
    ensures Lines(rx) <= Lines(rx + [b])
  {
    assert (rx + [b])[..|rx + [b]| - 1] == rx;
  }

  lemma CollectAgrees(u: Uart, rx: seq<Byte>, taken: seq<nat>)
    requires Agrees(u, rx, taken) && Ordered(taken, |Lines(rx)|)
    ensures HasNews(rx, taken) ==> |Lines(rx)| > 0
    ensures var after := if HasNews(rx, taken) then taken + [|Lines(rx)| - 1] else taken;
            && Agrees(u.(ready := None), rx, after) && Ordered(after, |Lines(rx)|)
            && (u.ready.Some? <==> HasNews(rx, taken))
            && (u.ready.Some? ==> u.ready.value == Shown(Lines(rx)[|Lines(rx)| - 1]))
  {
    hide Lines, Tail, Shown;
  }

  /** Each line given is the line taken, as a reader may see it. */
  ghost predicate Delivered(given: seq<Line>, lines: seq<seq<Byte>>, taken: seq<nat>) {
    && |given| == |taken|
    && forall i :: 0 <= i < |taken| ==> taken[i] < |lines| && given[i] == Shown(lines[taken[i]])
  }

  lemma LastEvent(es: seq<Event>)
    requires es != []
    ensures var before, e := es[..|es| - 1], es[|es| - 1];
            && Run(es) == Step(Run(before), e)
            && Stream(es) == (if e.Good? then Stream(before) + [e.b] else Stream(before))
            && Taken(es) == (if e.Collect? && HasNews(Stream(before), Taken(before))
                             then Taken(before) + [|Lines(Stream(before))| - 1] else Taken(before))
            && Given(es) == (if e.Collect? && Run(before).ready.Some?
                             then Given(before) + [Run(before).ready.value] else Given(before))
  {
    hide HasNews, Lines, Step;
    var before := es[..|es| - 1];
    assert Stream(before) + [] == Stream(before);
    assert Taken(before) + [] == Taken(before);
    assert Given(before) + [] == Given(before);
  }

  /** What holds between the driver, the stream and the reader after some events. */
  ghost predicate Matched(u: Uart, rx: seq<Byte>, taken: seq<nat>, given: seq<Line>) {
    && Agrees(u, rx, taken) && Ordered(taken, |Lines(rx)|) && Delivered(given, Lines(rx), taken)
  }

  lemma GoodMatches(u: Uart, rx: seq<Byte>, taken: seq<nat>, given: seq<Line>, b: Byte)
    requires Matched(u, rx, taken, given)
    ensures Matched(Receive(u, b), rx + [b], taken, given)
  {
    hide Agrees, Lines, Receive, Shown;
    ReceiveAgrees(u, rx, taken, b);
    LinesGrow(rx, b);
  }

  lemma CollectMatches(u: Uart, rx: seq<Byte>, taken: seq<nat>, given: seq<Line>)
    requires Matched(u, rx, taken, given)
    ensures HasNews(rx, taken) ==> |Lines(rx)| > 0 && u.ready.Some?
    ensures u.ready.Some? ==> HasNews(rx, taken)
    ensures Matched(u.(ready := None), rx, if HasNews(rx, taken) then taken + [|Lines(rx)| - 1] else taken,
                    if u.ready.Some? then given + [u.ready.value] else given)
  {
    hide Agrees, Lines, Shown, HasNews, Ordered;
    CollectAgrees(u, rx, taken);
  }

  /**
   * For every interleaving of bytes and reads: the accumulator is the open segment of the
   * stream, the frozen line the last completed one unless it was read, and the lines read are
   * completed lines of the stream, in order and none twice, each cut to 128 bytes and flagged
   * exactly when it was longer.
   */
  lemma {:induction false} AssemblerIsSplit(es: seq<Event>)
    ensures Agrees(Run(es), Stream(es), Taken(es))
    ensures Ordered(Taken(es), |Lines(Stream(es))|)
    ensures Delivered(Given(es), Lines(Stream(es)), Taken(es))
  {
    MatchedThroughout(es);
    hide Agrees, Ordered, Delivered, Lines, Run, Stream, Taken, Given;
  }

  /** What one event does to the stream, the lines taken and the lines given. */
  lemma EventMatches(u: Uart, rx: seq<Byte>, taken: seq<nat>, given: seq<Line>, e: Event)
    requires Matched(u, rx, taken, given)
    ensures HasNews(rx, taken) ==> |Lines(rx)| > 0
    ensures Matched(Step(u, e), if e.Good? then rx + [e.b] else rx,
                    if e.Collect? && HasNews(rx, taken) then taken + [|Lines(rx)| - 1] else taken,
                    if e.Collect? && u.ready.Some? then given + [u.ready.value] else given)
  {
    hide Matched, Lines, Receive, HasNews;
    NewsHasLines(rx, taken);
    match e {
      case Good(b) => GoodMatches(u, rx, taken, given, b);
      case Dropped =>
      case Collect => CollectMatches(u, rx, taken, given);
    }
  }

  lemma NewsHasLines(rx: seq<Byte>, taken: seq<nat>)
    ensures HasNews(rx, taken) ==> |Lines(rx)| > 0
  {
  }

  lemma NoEventsMatch()
    ensures Matched(Run([]), Stream([]), Taken([]), Given([]))
  {
    assert Shown([]) == Line([], false);
  }

  lemma {:induction false} MatchedThroughout(es: seq<Event>)
    ensures Matched(Run(es), Stream(es), Taken(es), Given(es))
  {
    hide Matched, Lines, Step, Run, Stream, Taken, Given, HasNews;
    if es == [] {
      NoEventsMatch();
    } else {
      var before, e := es[..|es| - 1], es[|es| - 1];
      MatchedThroughout(before);
      LastEvent(es);
      EventMatches(Run(before), Stream(before), Taken(before), Given(before), e);
    }
  }

  /* ---- one line on the wire ---- */

  /** Good bytes, one interrupt each. */
  function Sent(s: seq<Byte>): (es: seq<Event>)
    ensures |es| == |s| && forall i :: 0 <= i < |s| ==> es[i] == Good(s[i])
  {
    seq<Event>(|s|, i requires 0 <= i < |s| => Good(s[i]))
  }

  lemma {:induction false} SentIsStream(s: seq<Byte>)
    ensures Stream(Sent(s)) == s && Taken(Sent(s)) == []
  {
    if s != [] {
      SentIsStream(s[..|s| - 1]);
      assert Sent(s)[..|s| - 1] == Sent(s[..|s| - 1]);
    }
  }

  /**
   * From the wire to the reader: text without bytes 10 and 13, closed by either of them, is what
   * the reader gets, in full up to 128 bytes, and its first 128 bytes flagged as cut beyond.
   */
  lemma LineIsDelivered(x: seq<Byte>, e: Byte)
    requires x != [] && (forall i :: 0 <= i < |x| ==> x[i] != 10 && x[i] != 13) && (e == 10 || e == 13)
    ensures var es := Sent(x + [e]);
            && Run(es).ready == Some(if |x| <= 128 then Line(x, false) else Line(x[..128], true))
            && Run(es).accum == [] && !Run(es).overflow
            && Given(es + [Collect]) == [Run(es).ready.value]
  {
    var es := Sent(x + [e]);
    OneLine(x, e);
    SentIsStream(x + [e]);
    AssemblerIsSplit(es);
    hide Stream, Taken, Lines, Tail, Run, Given, IsEol, Sent;
    CollectGives(es);
  }

  /** The first collect gives the line that is ready. */
  lemma CollectGives(es: seq<Event>)
    requires Run(es).ready.Some? && Given(es) == []
    ensures Given(es + [Collect]) == [Run(es).ready.value]
  {
    var longer := es + [Collect];
    assert longer[..|longer| - 1] == es;
    hide Run;
    assert Given(longer) == Given(es) + [Run(es).ready.value];
  }

  /** Line ends on their own are no lines. */
  lemma {:induction false} BareLineEnds(n: nat, e: Byte)
    requires e == 10 || e == 13
    ensures Run(Sent(seq(n, _ => e))) == IDLE
  {
    if n > 0 {
      BareLineEnds(n - 1, e);
      var s := seq<Byte>(n, _ => e);
      assert Sent(s)[..n - 1] == Sent(seq<Byte>(n - 1, _ => e));
    }
  }

  /* ---- the driver ---- */

  datatype Error = Ok | NotInitialised | NullPointer | AlreadyAttached | InvalidParam | NoLineAvailable

  class Driver {
    var initialised: bool
    var attached: bool
    const accumBuf: array<Byte>
    var accumLen: nat
    var overflow: bool
    const readyBuf: array<Byte>
    var readyLen: nat
    var readyTruncated: bool
    var readyFlag: bool

    ghost predicate Valid()
      reads this
    {
      && accumBuf.Length == MAX_LINE && readyBuf.Length == MAX_LINE + 1 && accumBuf != readyBuf
      && accumLen <= MAX_LINE && readyLen <= MAX_LINE
      && (overflow ==> accumLen == MAX_LINE)
    }

    ghost function State(): Uart
      reads this, accumBuf, readyBuf
      requires Valid()
    {
      Uart(accumBuf[..accumLen], overflow, if readyFlag then Some(Line(readyBuf[..readyLen], readyTruncated)) else None)
    }

    constructor ()
      ensures Valid() && State() == IDLE && !initialised && !attached && fresh(accumBuf) && fresh(readyBuf)
    {
      initialised, attached, accumLen, overflow := false, false, 0, false;
      readyLen, readyTruncated, readyFlag := 0, false, false;
      accumBuf := new Byte[MAX_LINE](i => 0);
      readyBuf := new Byte[MAX_LINE + 1](i => 0);
    }

    method Init() returns (e: Error)
      requires Valid()
      modifies this
      ensures Valid() && initialised && attached == old(attached) && State() == old(State()) && e == Ok
    {
      initialised := true;
      return Ok;
    }

    /** Start receiving: once, with a callback. */
    method AttachRx(hasCallback: bool) returns (e: Error)
      requires Valid()
      modifies this
      ensures Valid() && initialised == old(initialised)
      ensures e == if !initialised then NotInitialised else if !hasCallback then NullPointer
                   else if old(attached) then AlreadyAttached else Ok
      ensures attached == (old(attached) || e == Ok)
      ensures State() == if e == Ok then IDLE else old(State())
    {
      if !initialised {
        return NotInitialised;
      }
      if !hasCallback {
        return NullPointer;
      }
      if attached {
        return AlreadyAttached;
      }
      accumLen, overflow, readyFlag, attached := 0, false, false, true;
      return Ok;
    }

    /** The interrupt: a line error or a spurious vector drops out; notified tells whether the callback ran. */
    method Interrupt(lineError: bool, received: bool, b: Byte) returns (notified: bool)
      requires Valid()
      modifies this, accumBuf, readyBuf
      ensures Valid() && initialised == old(initialised) && attached == old(attached)
      ensures State() == Step(old(State()), if lineError || !received then Dropped else Good(b))
      ensures notified <==> !lineError && received && IsEol(b) && old(State()).accum != []
    {
      if lineError || !received {
        return false;
      }
      if IsEol(b) {
        if accumLen == 0 {
          return false;
        }
        CopyBytes(accumBuf, readyBuf, accumLen);
        readyLen, readyTruncated, readyFlag := accumLen, overflow, true;
        accumLen, overflow := 0, false;
        return true;
      }
      if accumLen < MAX_LINE {
        accumBuf[accumLen] := b;
        accumLen := accumLen + 1;
      } else {
        overflow := true;
      }
      return false;
    }

    static method CopyBytes(from: array<Byte>, to: array<Byte>, n: nat)
      requires n <= from.Length && n <= to.Length && from != to
      modifies to
      ensures to[..n] == from[..n]
      ensures to[n..] == old(to[n..])
    {
      for i := 0 to n
        invariant to[..i] == from[..i] && to[n..] == old(to[n..])
      {
        to[i] := from[i];
      }
    }

    /** Copy out the frozen line, null-terminated, and release it. */
    method ReadLine(out: array?<Byte>, hasResults: bool) returns (e: Error, length: nat, truncated: bool)
      requires Valid() && out != accumBuf && out != readyBuf
      modifies this, out
      ensures Valid() && initialised == old(initialised) && attached == old(attached)
      ensures e == if !initialised then NotInitialised
                   else if out == null || !hasResults then NullPointer
                   else if out.Length < MAX_LINE + 1 then InvalidParam
                   else if old(State()).ready == None then NoLineAvailable else Ok
      ensures e == Ok ==>
                && out != null && length < out.Length && out[length] == 0
                && old(State()).ready == Some(Line(out[..length], truncated))
                && State() == Step(old(State()), Collect)
      ensures e != Ok ==> State() == old(State())
    {
      length, truncated := 0, false;
      if !initialised {
        return NotInitialised, 0, false;
      }
      if out == null || !hasResults {
        return NullPointer, 0, false;
      }
      if out.Length < MAX_LINE + 1 {
        return InvalidParam, 0, false;
      }
      if !readyFlag {
        return NoLineAvailable, 0, false;
      }
      CopyBytes(readyBuf, out, readyLen);
      out[readyLen] := 0;
      length, truncated := readyLen, readyTruncated;
      assert out[..length] == readyBuf[..length];
      readyFlag, readyTruncated := false, false;
      e := Ok;
    }
  }
}
