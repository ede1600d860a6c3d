/**
 * The on-chip flash behind its three-operation interface: pages, page erase, programming
 * of an erased target and plain reads. What each operation does is decided by a script, one
 * verdict an operation, so a theorem for every script is a theorem for every pattern of
 * failures, torn contents and power cuts. An operation can spoil its own target only: the
 * page it erases, or the double words it programs.
 */
module FlashModel {
  import opened Bytes

  const BASE: nat := 0x0800_0000
  const PAGE_SIZE: nat := 0x800
  const SIZE: nat := 0x10_0000
  const WRITABLE_FROM: nat := 0x0800_4000

  function Repeat<T>(x: T, n: nat): (s: seq<T>)
    ensures |s| == n
    ensures forall i :: 0 <= i < n ==> s[i] == x
  {
    if n == 0 then [] else Repeat(x, n - 1) + [x]
  }

  type Memory = m: seq<Byte> | |m| == 0x10_0000 witness Repeat(0xFF, 0x10_0000)

  /**
   * The fate of one operation: the status it reports, whether power is lost at it, and,
   * when it left something else than its nominal result, what its target then holds (a
   * content of another length than the target counts as none).
   */
  datatype Verdict = Verdict(ok: bool, cut: bool, torn: Option<seq<Byte>>)

  datatype Access =
    | EraseAt(addr: nat)
    | ProgramAt(addr: nat, len: nat)
    | ReadAt(addr: nat, len: nat)

  /** Memory, the verdicts still to come (all good once exhausted), power, and the operations so far. */
  datatype Device = Device(mem: Memory, script: seq<Verdict>, dead: bool, log: seq<Access>)

  const ERASED_PAGE: seq<Byte> := Repeat(ERASED, PAGE_SIZE)

  predicate InFlash(addr: int, len: nat) {
    BASE <= addr && addr + len <= BASE + SIZE
  }

  lemma SliceOfSlice<T>(s: seq<T>, lo: nat, hi: nat, off: nat, n: nat)
    requires lo <= hi <= |s| && off + n <= hi - lo
    ensures s[lo..hi][off..off + n] == s[lo + off..lo + off + n]
  {
    var a, b := s[lo..hi], s[lo + off..lo + off + n];
    forall i | 0 <= i < n ensures a[off..off + n][i] == b[i] {
      assert a[off + i] == s[lo + off + i];
    }
  }

  /** The bytes mapped at an address range. */
  function BytesAt(mem: Memory, addr: nat, len: nat): (s: seq<Byte>)
    requires InFlash(addr, len)
    ensures |s| == len
  {
    mem[addr - BASE..addr - BASE + len]
  }

  /** The memory with the bytes at addr replaced. */
  function Splice(mem: Memory, addr: nat, data: seq<Byte>): Memory
    requires InFlash(addr, |data|)
  {
    mem[..addr - BASE] + data + mem[addr - BASE + |data|..]
  }

  /** Every byte outside an address range is as it was. */
  ghost predicate OnlyRange(before: Memory, after: Memory, addr: nat, len: nat)
    requires InFlash(addr, len)
  {
    before[..addr - BASE] == after[..addr - BASE] && before[addr - BASE + len..] == after[addr - BASE + len..]
  }

  lemma SpliceStores(mem: Memory, addr: nat, data: seq<Byte>)
    requires InFlash(addr, |data|)
    ensures BytesAt(Splice(mem, addr, data), addr, |data|) == data
    ensures OnlyRange(mem, Splice(mem, addr, data), addr, |data|)
  {
  }

  /** A splice seen through a wider window. */
  lemma SpliceSeenWithin(mem: Memory, addr: nat, len: nat, off: nat, data: seq<Byte>)
    requires InFlash(addr, len) && off + |data| <= len
    ensures var window := BytesAt(mem, addr, len);
            BytesAt(Splice(mem, addr + off, data), addr, len) == window[..off] + data + window[off + |data|..]
  {
    SpliceWindow(mem, addr - BASE, addr - BASE + len, off, data);
  }

  lemma SpliceWindow<T>(s: seq<T>, lo: nat, hi: nat, off: nat, data: seq<T>)
    requires lo <= hi <= |s| && off + |data| <= hi - lo
    ensures (s[..lo + off] + data + s[lo + off + |data|..])[lo..hi] == s[lo..hi][..off] + data + s[lo..hi][off + |data|..]
  {
    var w, n := s[..lo + off] + data + s[lo + off + |data|..], |data|;
    assert w[lo..hi] == w[lo..lo + off] + w[lo + off..lo + off + n] + w[lo + off + n..hi];
    assert w[lo..lo + off] == s[lo..lo + off] == s[lo..hi][..off];
    assert w[lo + off..lo + off + n] == data;
    assert w[lo + off + n..hi] == s[lo + off + n..hi] == s[lo..hi][off + n..];
  }

  lemma BytesWithin(mem: Memory, addr: nat, len: nat, off: nat, n: nat)
    requires InFlash(addr, len) && off + n <= len
    ensures BytesAt(mem, addr + off, n) == BytesAt(mem, addr, len)[off..off + n]
  {
    SliceOfSlice(mem, addr - BASE, addr - BASE + len, off, n);
  }

  lemma BytesConcat(mem: Memory, addr: nat, m: nat, n: nat)
    requires InFlash(addr, m + n)
    ensures BytesAt(mem, addr, m) + BytesAt(mem, addr + m, n) == BytesAt(mem, addr, m + n)
  {
  }

  /** What lies outside the range that changed reads as before. */
  lemma ReadsElsewhere(before: Memory, after: Memory, at: nat, n: nat, addr: nat, len: nat)
    requires InFlash(at, n) && OnlyRange(before, after, at, n)
    requires InFlash(addr, len) && (addr + len <= at || at + n <= addr)
    ensures BytesAt(after, addr, len) == BytesAt(before, addr, len)
  {
    var lo, end := addr - BASE, at - BASE + n;
    if addr + len <= at {
      SliceOfSlice(before, 0, at - BASE, lo, len);
      SliceOfSlice(after, 0, at - BASE, lo, len);
    } else {
      SliceOfSlice(before, end, SIZE, lo - end, len);
      SliceOfSlice(after, end, SIZE, lo - end, len);
    }
  }

  /** A change within a range is a change within any wider one. */
  lemma WidenRange(before: Memory, after: Memory, at: nat, n: nat, addr: nat, len: nat)
    requires InFlash(at, n) && OnlyRange(before, after, at, n)
    requires InFlash(addr, len) && addr <= at && at + n <= addr + len
    ensures OnlyRange(before, after, addr, len)
  {
    var lo, hi, end := addr - BASE, addr - BASE + len, at - BASE + n;
    SliceOfSlice(before, 0, at - BASE, 0, lo);
    SliceOfSlice(after, 0, at - BASE, 0, lo);
    SliceOfSlice(before, end, SIZE, hi - end, SIZE - hi);
    SliceOfSlice(after, end, SIZE, hi - end, SIZE - hi);
  }

  function Fate(d: Device): Verdict {
    if d.script == [] then Verdict(true, false, None) else d.script[0]
  }

  /** One operation consumed; a cut leaves the device without power. */
  function Spent(d: Device, a: Access): Device {
    d.(script := Later(d), dead := Fate(d).cut, log := d.log + [a])
  }

  predicate Succeeds(v: Verdict) {
    v.ok && !v.cut
  }

  /** What the target holds after an operation whose nominal result is given. */
  function Outcome(v: Verdict, before: seq<Byte>, nominal: seq<Byte>): (after: seq<Byte>)
    requires |before| == |nominal|
    ensures |after| == |nominal|
  {
    if v.torn.Some? && |v.torn.value| == |nominal| then v.torn.value
    else if Succeeds(v) then nominal
    else before
  }

  predicate IsErased(s: seq<Byte>) {
    forall i :: 0 <= i < |s| ==> s[i] == ERASED
  }

  function EraseOp(d: Device, addr: nat): (bool, Device) {
    if d.dead || addr % PAGE_SIZE != 0 || addr < WRITABLE_FROM || !InFlash(addr, PAGE_SIZE) then (false, d)
    else
      var v, before := Fate(d), BytesAt(d.mem, addr, PAGE_SIZE);
      (Succeeds(v),
       Spent(d, EraseAt(addr)).(mem := Splice(d.mem, addr, Outcome(v, before, ERASED_PAGE))))
  }

  /** How many double words at the start of a target are erased. */
  function ErasedDoubleWords(s: seq<Byte>): (k: nat)
    ensures 8 * k <= |s|
    ensures IsErased(s[..8 * k])
    ensures IsErased(s) && |s| % 8 == 0 ==> 8 * k == |s|
    ensures 8 * k == |s| ==> IsErased(s)
    decreases |s|
  {
    if |s| < 8 || !IsErased(s[..8]) then 0 else
    var rest := ErasedDoubleWords(s[8..]);
    assert s[..8 * (1 + rest)] == s[..8] + s[8..][..8 * rest];
    assert 8 * (1 + rest) == |s| ==> s == s[..8] + s[8..];
    1 + rest
  }

  /** What programming leaves when nothing else goes wrong: it stops at the first double word that is not erased. */
  function Programmed(before: seq<Byte>, data: seq<Byte>): (after: seq<Byte>)
    requires |before| == |data|
    ensures |after| == |data|
    ensures IsErased(before) && |data| % 8 == 0 ==> after == data
    ensures exists k: nat :: 8 * k <= |data| && after == data[..8 * k] + before[8 * k..]
  {
    var k := ErasedDoubleWords(before);
    data[..8 * k] + before[8 * k..]
  }

  /** Programming fails on a target that is not erased, after the double words before the first that is not. */
  function ProgramOp(d: Device, addr: nat, data: seq<Byte>): (bool, Device) {
    if d.dead || addr % 8 != 0 || |data| % 8 != 0 || data == [] || addr < WRITABLE_FROM || !InFlash(addr, |data|)
    then (false, d)
    else
      var v, before := Fate(d), BytesAt(d.mem, addr, |data|);
      (Succeeds(v) && IsErased(before),
       Spent(d, ProgramAt(addr, |data|)).(mem := Splice(d.mem, addr, Outcome(v, before, Programmed(before, data)))))
  }

  /** A read reports an error or returns what the memory holds; it never changes it. */
  function ReadOp(d: Device, addr: nat, len: nat): (Option<seq<Byte>>, Device) {
    if d.dead || len == 0 || !InFlash(addr, len) then (None, d)
    else
      (if Succeeds(Fate(d)) then Some(BytesAt(d.mem, addr, len)) else None, Spent(d, ReadAt(addr, len)))
  }

  /** A device with power on which every further operation succeeds. */
  predicate Works(d: Device) {
    !d.dead && d.script == []
  }

  /** The next operation has its nominal effect and says so. */
  predicate Good(d: Device) {
    !d.dead && Fate(d) == Verdict(true, false, None)
  }

  /* ---- what the operations promise ---- */

  /**
   * An erase that nothing disturbs succeeds exactly on a page from 0x08004000 up: the page is then
   * blank and every other byte as it was. Without power nothing happens at all.
   */
  lemma EraseIff(d: Device, addr: nat)
    ensures var (ok, d') := EraseOp(d, addr);
            && (d.dead ==> !ok && d' == d)
            && (Good(d) ==> (ok <==> addr % 2048 == 0 && 0x0800_4000 <= addr && addr + 2048 <= 0x0810_0000))
            && (ok ==> addr % 2048 == 0 && 0x0800_4000 <= addr && addr + 2048 <= 0x0810_0000)
            && (Good(d) && ok ==> OnlyRange(d.mem, d'.mem, addr, 2048) && IsErased(BytesAt(d'.mem, addr, 2048)))
            && (Good(d) && !ok ==> d' == d)
  {
    if addr % 2048 == 0 && 0x0800_4000 <= addr && InFlash(addr, 2048) {
      SpliceStores(d.mem, addr, ERASED_PAGE);
      hide Splice, OnlyRange, BytesAt;
    }
  }

  /**
   * A programming that nothing disturbs succeeds exactly on whole, erased double words from
   * 0x08004000 up: the data then stands there and every other byte is as it was.
   */
  lemma ProgramIff(d: Device, addr: nat, data: seq<Byte>)
    requires InFlash(addr, |data|)
    ensures var (ok, d') := ProgramOp(d, addr, data);
            && (d.dead ==> !ok && d' == d)
            && (ok ==> IsErased(BytesAt(d.mem, addr, |data|)))
            && (Good(d) ==>
                  (ok <==> && addr % 8 == 0 && |data| % 8 == 0 && data != [] && 0x0800_4000 <= addr
                           && IsErased(BytesAt(d.mem, addr, |data|))))
            && (Good(d) && ok ==> OnlyRange(d.mem, d'.mem, addr, |data|) && BytesAt(d'.mem, addr, |data|) == data)
  {
    SpliceStores(d.mem, addr, Programmed(BytesAt(d.mem, addr, |data|), data));
    hide Splice, OnlyRange, BytesAt, ErasedDoubleWords, Programmed;
  }

  /** The verdicts after the next one. */
  function Later(d: Device): seq<Verdict> {
    if d.script == [] then [] else d.script[1..]
  }

  /** The flash as the bootloader holds it: one object, updated in place by each operation. */
  class InternalFlash {
    var mem: Memory
    var script: seq<Verdict>
    var dead: bool
    var log: seq<Access>

    ghost function State(): Device
      reads this
    {
      Device(mem, script, dead, log)
    }

    constructor (d: Device)
      ensures State() == d
    {
      mem, script, dead, log := d.mem, d.script, d.dead, d.log;
    }

    /** Take the next verdict. */
    method Spend(a: Access) returns (v: Verdict)
      modifies this
      ensures v == Fate(old(State())) && State() == Spent(old(State()), a)
    {
      v := Verdict(true, false, None);
      if script != [] {
        v, script := script[0], script[1..];
      }
      dead, log := v.cut, log + [a];
    }

    method ErasePage(addr: nat) returns (ok: bool)
      modifies this
      ensures (ok, State()) == EraseOp(old(State()), addr)
    {
      if dead || addr % PAGE_SIZE != 0 || addr < WRITABLE_FROM || !InFlash(addr, PAGE_SIZE) {
        return false;
      }
      var v := Spend(EraseAt(addr));
      mem := Splice(mem, addr, Outcome(v, BytesAt(mem, addr, PAGE_SIZE), ERASED_PAGE));
      ok := Succeeds(v);
    }

    method Program(addr: nat, data: seq<Byte>) returns (ok: bool)
      modifies this
      ensures (ok, State()) == ProgramOp(old(State()), addr, data)
    {
      if dead || addr % 8 != 0 || |data| % 8 != 0 || data == [] || addr < WRITABLE_FROM || !InFlash(addr, |data|) {
        return false;
      }
      var v := Spend(ProgramAt(addr, |data|));
      var before := BytesAt(mem, addr, |data|);
      mem := Splice(mem, addr, Outcome(v, before, Programmed(before, data)));
      ok := Succeeds(v) && IsErased(before);
    }

    method Read(addr: nat, len: nat) returns (data: Option<seq<Byte>>)
      modifies this
      ensures (data, State()) == ReadOp(old(State()), addr, len)
    {
      if dead || len == 0 || !InFlash(addr, len) {
        return None;
      }
      var v := Spend(ReadAt(addr, len));
      data := if Succeeds(v) then Some(BytesAt(mem, addr, len)) else None;
    }
  }
}
