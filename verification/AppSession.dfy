/**
 * The application's record writes. The application reads the record in force once, when its
 * firmware store is created, and takes target and generation of every later write from what it
 * remembers; it updates that only when a write reports success.
 */
module AppSession {
  import opened Bytes
  import opened FlashModel
  import opened BootRecord
  import opened TornRecord
  import Crc32

  /** What a write is asked to record. */
  datatype Request = Request(active: Byte, state: Byte, previous: Byte, count: U32)

  predicate IsLegal(q: Request) {
    BankIsLegal(q.active) && BankIsLegal(q.previous) && CONFIRMED <= q.state <= ROLLED_BACK
  }

  /** The flash, and the record the application remembers. */
  datatype App = App(d: Device, cache: Current)

  /** Creating the store reads both copies; it fails when one cannot be read. */
  function Open(d: Device): Option<App> {
    var s := SelectOp(d);
    if s.read then Some(App(s.d, s.cur)) else None
  }

  function Requested(cache: Current, q: Request): Meta {
    Successor(cache, q.active, q.state, q.previous, q.count)
  }

  /** One write: one attempt, to the copy the application believes is not in force. */
  function Update(a: App, q: Request): (bool, App) {
    var r := Requested(a.cache, q);
    var (written, d) := WriteOnce(a.d, Target(a.cache), r);
    var ok := written && IsValid(r);
    (ok, App(d, if ok then InForce(Target(a.cache), r) else a.cache))
  }

  method MetaWrite(fl: InternalFlash, cache: Current, q: Request) returns (ok: bool, now: Current)
    modifies fl
    ensures (ok, App(fl.State(), now)) == Update(App(old(fl.State()), cache), q)
  {
    var r := Requested(cache, q);
    ok := RecordWriteOnce(fl, Target(cache), Encode(r));
    ok := ok && IsValid(r);
    now := if ok then InForce(Target(cache), r) else cache;
  }

  /* ---- what a session knows ---- */

  function NextGeneration(cache: Current): int {
    if cache.InForce? then cache.rec.generation + 1 else 1
  }

  /** A write took effect although it was reported as failed: the record in force is newer than the remembered one. */
  ghost predicate Ahead(sel: Current, cache: Current) {
    sel.InForce? && sel.copy == Target(cache) && sel.rec.generation == NextGeneration(cache)
  }

  /** The remembered record is still stored (or there is none), and at most one newer one is in force. */
  ghost predicate Remembers(valid: Meta -> bool, a: Meta, b: Meta, cache: Current) {
    var kept := if Target(cache) == 0 then b else a;
    && (if cache.InForce? then valid(kept) && kept == cache.rec else !valid(kept))
    && (Prefer(valid, a, b) == cache || Ahead(Prefer(valid, a, b), cache))
  }

  ghost predicate SessionOk(mem: Memory, cache: Current) {
    Remembers(IsValid, CopyAt(mem, 0), CopyAt(mem, 1), cache)
  }

  /** The record in force was lost, or gave way to an older one. */
  ghost predicate Fell(before: Current, after: Current) {
    before.InForce? && (after == NoRecord || after.rec.generation < before.rec.generation)
  }

  /** A valid record stays in force, and is only ever replaced by one of a higher generation. */
  ghost predicate NotOlder(before: Current, after: Current) {
    before.InForce? ==> after == before || (after.InForce? && after.rec.generation > before.rec.generation)
  }

  lemma PreferAfterUpdate(valid: Meta -> bool, a: Meta, b: Meta, cache: Current, x: Meta, r: Meta)
    requires Remembers(valid, a, b, cache) && valid(r) && r.generation == NextGeneration(cache)
    requires valid(x) ==> x == (if Target(cache) == 0 then a else b) || x == r
    ensures var a', b' := if Target(cache) == 0 then x else a, if Target(cache) == 0 then b else x;
            var before, after := Prefer(valid, a, b), Prefer(valid, a', b');
            && Remembers(valid, a', b', cache)
            && (after == before || after == cache || after == InForce(Target(cache), r))
            && (Fell(before, after) <==> before != cache && !valid(x))
            && (x == r ==> after == InForce(Target(cache), r) && Remembers(valid, a', b', InForce(Target(cache), r)))
            && (before == cache ==> (after != cache <==> x == r))
  {
  }

  lemma OpenedIsOk(d: Device)
    requires Open(d).Some?
    ensures var a := Open(d).value; a.d.mem == d.mem && a.cache == Select(d.mem) && SessionOk(a.d.mem, a.cache)
  {
    hide SelectOp, IsValid, Decode;
    SelectOpSelects(d);
  }

  /** The assumptions on one write: a legal request, room in the counter, torn contents show. */
  ghost predicate UpdateFits(a: App, q: Request) {
    && IsLegal(q) && (a.cache.InForce? ==> a.cache.rec.generation < 0xFFFF_FFFF)
    && TearsShowOnce(IsValidRecord, a.d, Target(a.cache), Encode(Requested(a.cache, q)))
  }

  lemma SealedFields(active: Byte, state: Byte, previous: Byte, count: U32, generation: U32)
    ensures Sealed(active, state, previous, count, generation).generation == generation
  {
    hide Encode;
  }

  lemma RequestedIsValid(cache: Current, q: Request)
    requires IsLegal(q) && (cache.InForce? ==> cache.rec.generation < 0xFFFF_FFFF)
    ensures IsValid(Requested(cache, q)) && Requested(cache, q).generation == NextGeneration(cache)
  {
    hide IsValid, Sealed;
    SealedFields(q.active, q.state, q.previous, q.count, NextGeneration(cache));
    SealedIsValid(q.active, q.state, q.previous, q.count, NextGeneration(cache));
  }

  lemma RequestedFields(cache: Current, q: Request)
    ensures var r := Requested(cache, q);
            && r.active == q.active && r.state == q.state && r.previous == q.previous && r.count == q.count
            && (IsValid(r) ==> IsLegal(q))
  {
    hide Encode, Crc32.Of;
  }

  lemma PreferAfterOne(valid: Meta -> bool, a: Meta, b: Meta, x: Meta)
    ensures var cur := Prefer(valid, a, b);
            var after := if Target(cur) == 0 then Prefer(valid, x, b) else Prefer(valid, a, x);
            && (!valid(x) ==> after == cur)
            && (valid(x) && x.generation == NextGeneration(cur) ==> after == InForce(Target(cur), x))
  {
  }

  /**
   * On working flash, in step, a write is accepted exactly for a legal request: the record then in
   * force, remembered and stored, is what was asked for, one generation on. Any other request
   * leaves the record in force.
   */
  lemma RequestIsRecorded(a: App, q: Request)
    requires Works(a.d) && a.cache == Select(a.d.mem) && (a.cache.InForce? ==> a.cache.rec.generation < 0xFFFF_FFFF)
    ensures var (ok, now) := Update(a, q);
            && (ok <==> (q.active == 0x0A || q.active == 0x0B) && (q.previous == 0x0A || q.previous == 0x0B) && 1 <= q.state <= 4)
            && now.cache == Select(now.d.mem) && (!ok ==> now.cache == a.cache)
            && (ok ==>
                  && now.cache.InForce?
                  && now.cache.rec.active == q.active && now.cache.rec.state == q.state
                  && now.cache.rec.previous == q.previous && now.cache.rec.count == q.count
                  && now.cache.rec.generation == NextGeneration(a.cache))
  {
    var t, r := Target(a.cache), Requested(a.cache, q);
    RequestedFields(a.cache, q);
    if IsLegal(q) {
      RequestedIsValid(a.cache, q);
    }
    hide IsValid, Requested, Decode, Encode, Works;
    WorkingBytes(a.d, t, Encode(r));
    WriteOnceStores(a.d, t, r);
    WriteBytesKeepsOthers(a.d, t, Encode(r));
    var d := WriteOnce(a.d, t, r).1;
    SelectAfterWrite(a.d.mem, d.mem, t);
    PreferAfterOne(IsValid, CopyAt(a.d.mem, 0), CopyAt(a.d.mem, 1), r);
    hide WriteOnce, CopyAt, OnlyPage;
  }

  lemma WrittenCopy(d: Device, cache: Current, r: Meta)
    requires TearsShowOnce(IsValidRecord, d, Target(cache), Encode(r))
    ensures var (ok, d') := WriteOnce(d, Target(cache), r);
            var t := Target(cache);
            && (IsValid(CopyAt(d'.mem, t)) ==> CopyAt(d'.mem, t) == CopyAt(d.mem, t) || CopyAt(d'.mem, t) == r)
            && (ok ==> CopyAt(d'.mem, t) == r)
            && CopyAt(d'.mem, Other(t)) == CopyAt(d.mem, Other(t))
  {
    hide IsValid, Decode, TearsShowOnce, Encode;
    var t := Target(cache);
    var (ok, d') := WriteOnce(d, t, r);
    WriteBytesOldOrNew(IsValidRecord, d, t, Encode(r));
    WriteBytesKeepsOthers(d, t, Encode(r));
    DecodeEncode(r);
    if ok {
      WriteOnceStores(d, t, r);
    }
    hide WriteBytes;
    ReadsElsewhere(d.mem, d'.mem, MetaAddr(t), PAGE_SIZE, MetaAddr(Other(t)), RECORD);
  }

  /**
   * One write of a session, whatever fails. The generation falls, or the record is lost,
   * exactly when the write started while the remembered record was not the one in force and
   * left nothing valid in the copy it wrote. A session falls out of step exactly when a write
   * reported failure and yet left the whole record.
   */
  lemma UpdateStep(a: App, q: Request)
    requires SessionOk(a.d.mem, a.cache) && UpdateFits(a, q)
    ensures var (ok, a') := Update(a, q);
            var before, after := Select(a.d.mem), Select(a'.d.mem);
            var x := CopyAt(a'.d.mem, Target(a.cache));
            && SessionOk(a'.d.mem, a'.cache)
            && (after == before || after == a.cache || after == InForce(Target(a.cache), Requested(a.cache, q)))
            && (x == Requested(a.cache, q) ==> after == InForce(Target(a.cache), x))
            && (Fell(before, after) <==> before != a.cache && !IsValid(x))
            && (before == a.cache ==> NotOlder(before, after))
            && (ok ==> after == a'.cache)
            && (before == a.cache ==> (after != a'.cache <==> !ok && x == Requested(a.cache, q)))
  {
    hide IsValid, CopyAt, TearsShowOnce, Encode, WriteOnce, Successor;
    var r := Requested(a.cache, q);
    RequestedIsValid(a.cache, q);
    WrittenCopy(a.d, a.cache, r);
    var d' := WriteOnce(a.d, Target(a.cache), r).1;
    PreferAfterUpdate(IsValid, CopyAt(a.d.mem, 0), CopyAt(a.d.mem, 1), a.cache, CopyAt(d'.mem, Target(a.cache)), r);
  }

  /* ---- when the generation can fall ---- */

  const DONE: Verdict := Verdict(true, false, None)
  const FAILED: Verdict := Verdict(false, false, None)
  const CUT: Verdict := Verdict(false, true, None)

  /** A write under this script meets the assumptions and makes the generation fall. */
  ghost predicate FallsUnder(mem: Memory, cache: Current, q: Request, script: seq<Verdict>) {
    var a := App(Device(mem, script, false, []), cache);
    UpdateFits(a, q) && Fell(Select(mem), Select(Update(a, q).1.d.mem))
  }

  /** An erase that succeeds, then power lost at the first programming: the copy is blank. */
  lemma ErasedThenCut(d: Device, c: Copy, bytes: Record)
    requires !d.dead && d.script == [DONE, CUT]
    ensures !WriteBytes(d, c, bytes).0 && IsErased(RecordBytes(WriteBytes(d, c, bytes).1.mem, c))
  {
    hide ErasedDoubleWords;
    GoodErase(d, c);
    var d1 := EraseOp(d, MetaAddr(c)).1;
    assert Later(d)[0] == CUT && Fate(d1) == CUT;
    var before := BytesAt(d1.mem, MetaAddr(c), HEAD);
    assert Splice(d1.mem, MetaAddr(c), before) == d1.mem;
    assert IsErased(ERASED_PAGE[..RECORD]);
  }

  /**
   * The next write can make the generation fall, under some pattern of failures that meets the
   * assumptions, exactly when the remembered record is not the one in force.
   */
  lemma CanFallIff(mem: Memory, cache: Current, q: Request)
    requires SessionOk(mem, cache) && IsLegal(q) && (cache.InForce? ==> cache.rec.generation < 0xFFFF_FFFF)
    ensures (exists script: seq<Verdict> :: FallsUnder(mem, cache, q, script)) <==> Select(mem) != cache
  {
    hide Select, SessionOk, UpdateFits;
    forall script: seq<Verdict> | FallsUnder(mem, cache, q, script) ensures Select(mem) != cache {
      UpdateStep(App(Device(mem, script, false, []), cache), q);
    }
    if Select(mem) != cache {
      CutFalls(mem, cache, q);
    }
  }

  lemma CutFalls(mem: Memory, cache: Current, q: Request)
    requires SessionOk(mem, cache) && IsLegal(q) && (cache.InForce? ==> cache.rec.generation < 0xFFFF_FFFF)
    requires Select(mem) != cache
    ensures FallsUnder(mem, cache, q, [DONE, CUT])
  {
    hide Select, SessionOk, Encode, WriteBytes, TearsShowOnce, IsValid, Successor, Fell;
    var a := App(Device(mem, [DONE, CUT], false, []), cache);
    var r := Requested(cache, q);
    UntornFits(a, q);
    ErasedThenCut(a.d, Target(cache), Encode(r));
    BlankIsInvalid(RecordBytes(WriteOnce(a.d, Target(cache), r).1.mem, Target(cache)));
    UpdateStep(a, q);
  }

  /** Without torn contents the assumptions on a write hold for every legal request. */
  lemma UntornFits(a: App, q: Request)
    requires Untorn(a.d) && IsLegal(q) && (a.cache.InForce? ==> a.cache.rec.generation < 0xFFFF_FFFF)
    ensures UpdateFits(a, q)
  {
    hide Untorn, CleanAttempt, TearsShowOnce, IsBuilt;
    UntornAttempt(a.d, Target(a.cache), Encode(Requested(a.cache, q)));
    SuccessorIsBuilt(a.cache, q.active, q.state, q.previous, q.count);
    CleanAttemptShows(a.d, Target(a.cache), Requested(a.cache, q));
  }

  /** Everything written, the read-back refused. */
  lemma WrittenNotReported(d: Device, c: Copy, bytes: Record)
    requires !d.dead && d.script == [DONE, DONE, DONE, FAILED, DONE, CUT]
    ensures var (ok, d') := WriteBytes(d, c, bytes);
            !ok && RecordBytes(d'.mem, c) == bytes && !d'.dead && d'.script == [DONE, CUT]
  {
    hide WriteBytes, EraseOp, ProgramOp, RecordBytes;
    GoodStarts(d, c, bytes);
    var d3 := GoodBytes(d, c, bytes);
    assert d3.script == [FAILED, DONE, CUT];
  }

  lemma GoodStarts(d: Device, c: Copy, bytes: Record)
    requires !d.dead && d.script == [DONE, DONE, DONE, FAILED, DONE, CUT]
    ensures var d1 := EraseOp(d, MetaAddr(c)).1;
            var d2 := ProgramOp(d1, MetaAddr(c), bytes[..HEAD]).1;
            Good(d) && Good(d1) && Good(d2) && d2.script == [DONE, FAILED, DONE, CUT]
  {
    hide Splice, ErasedDoubleWords, IsErased, BytesAt;
    var d1 := EraseOp(d, MetaAddr(c)).1;
    assert d1.script == [DONE, DONE, FAILED, DONE, CUT];
  }

  /**
   * The run that fails, from any record in force: a write takes effect but its read-back is
   * refused, and the next write of the same session is cut after its erase. The record in
   * force goes from generation g to g + 1 and back to g.
   */
  lemma FailedWriteIsLost(mem: Memory, q1: Request, q2: Request)
    requires IsLegal(q1) && IsLegal(q2) && (Select(mem).InForce? ==> Select(mem).rec.generation < 0xFFFF_FFFF)
    ensures var cache := Select(mem);
            var (ok1, a1) := Update(App(Device(mem, [DONE, DONE, DONE, FAILED, DONE, CUT], false, []), cache), q1);
            var (ok2, a2) := Update(a1, q2);
            && !ok1 && a1.cache == cache && Select(a1.d.mem) == InForce(Target(cache), Requested(cache, q1))
            && !ok2 && Select(a2.d.mem) == cache && Fell(Select(a1.d.mem), Select(a2.d.mem))
  {
    hide Select, Encode, WriteBytes, TearsShowOnce, IsValid, Successor, UpdateFits, SessionOk, Untorn;
    var cache := Select(mem);
    var a0 := App(Device(mem, [DONE, DONE, DONE, FAILED, DONE, CUT], false, []), cache);
    SelectedIsOk(mem);
    UntornScript(a0.d);
    UntornFits(a0, q1);
    WrittenNotReported(a0.d, Target(cache), Encode(Requested(cache, q1)));
    DecodeEncode(Requested(cache, q1));
    UpdateStep(a0, q1);
    var a1 := Update(a0, q1).1;
    RequestedIsValid(cache, q1);
    UntornScript(a1.d);
    UntornFits(a1, q2);
    ErasedThenCut(a1.d, Target(cache), Encode(Requested(cache, q2)));
    var x := RecordBytes(WriteOnce(a1.d, Target(cache), Requested(cache, q2)).1.mem, Target(cache));
    BlankIsInvalid(x);
    UpdateStep(a1, q2);
    RequestedIsValid(cache, q2);
  }

  lemma UntornScript(d: Device)
    requires d.script == [DONE, DONE, DONE, FAILED, DONE, CUT] || d.script == [DONE, CUT]
    ensures Untorn(d)
  {
  }

  lemma SelectedIsOk(mem: Memory)
    ensures SessionOk(mem, Select(mem))
  {
    hide IsValid, Decode;
  }

  /* ---- whole sessions ---- */

  function Updates(a: App, qs: seq<Request>): App
    decreases |qs|
  {
    if qs == [] then a else Updates(Update(a, qs[0]).1, qs[1..])
  }

  ghost predicate UpdatesFit(a: App, qs: seq<Request>)
    decreases |qs|
  {
    qs == [] || (UpdateFits(a, qs[0]) && UpdatesFit(Update(a, qs[0]).1, qs[1..]))
  }

  /** Every write of the session starts with the record in force remembered. */
  predicate InStep(a: App, qs: seq<Request>)
    decreases |qs|
  {
    qs == [] || (Select(a.d.mem) == a.cache && InStep(Update(a, qs[0]).1, qs[1..]))
  }

  /** No write follows a refused one: the session reloads, or ends, at the first refusal. */
  predicate StopsAtRefusal(a: App, qs: seq<Request>)
    decreases |qs|
  {
    |qs| <= 1 || (Update(a, qs[0]).0 && StopsAtRefusal(Update(a, qs[0]).1, qs[1..]))
  }

  /** What a caller can do: a session that reloads after a refused write stays in step. */
  lemma {:induction false} StoppingStaysInStep(a: App, qs: seq<Request>)
    requires SessionOk(a.d.mem, a.cache) && Select(a.d.mem) == a.cache && UpdatesFit(a, qs) && StopsAtRefusal(a, qs)
    ensures InStep(a, qs)
    decreases |qs|
  {
    hide SessionOk, Select, Update, UpdateFits;
    if qs != [] {
      UpdateStep(a, qs[0]);
      if |qs| > 1 {
        StoppingStaysInStep(Update(a, qs[0]).1, qs[1..]);
      }
    }
  }

  lemma NotOlderTwice(x: Current, y: Current, z: Current)
    requires NotOlder(x, y) && NotOlder(y, z)
    ensures NotOlder(x, z)
  {
  }

  /** A session in step never loses the record in force or goes back to an older one. */
  lemma {:induction false} SessionKeepsOrder(a: App, qs: seq<Request>)
    requires SessionOk(a.d.mem, a.cache) && UpdatesFit(a, qs) && InStep(a, qs)
    ensures NotOlder(Select(a.d.mem), Select(Updates(a, qs).d.mem))
    decreases |qs|
  {
    hide SessionOk, Select, Update, UpdateFits, NotOlder;
    if qs == [] {
      assert NotOlder(Select(a.d.mem), Select(a.d.mem)) by { SameIsNotOlder(Select(a.d.mem)); }
    } else {
      var a1 := Update(a, qs[0]).1;
      UpdateStep(a, qs[0]);
      SessionKeepsOrder(a1, qs[1..]);
      NotOlderTwice(Select(a.d.mem), Select(a1.d.mem), Select(Updates(a1, qs[1..]).d.mem));
    }
  }

  lemma SameIsNotOlder(x: Current)
    ensures NotOlder(x, x)
  {
  }
}
