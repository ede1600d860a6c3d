/**
 * The Modbus CRC-16 and the burst splitter of the two-board monitor: what the check
 * accepts, which damage it always notices, and why a burst of two frames never
 * passes for one.
 */
module Crc16 {
  import opened Bytes
  import opened Bits
  import opened ShiftRegister

  const POLY: nat := 0xA001
  const INIT: nat := 0xFFFF

  /** The CRC of a message. */
  function Of(data: seq<Byte>): nat {
    Feed(POLY, INIT, data)
  }

  /** The two CRC bytes on the wire, low byte first. */
  function Trailer(crc: nat): seq<Byte>
    requires crc < 0x1_0000
  {
    [crc % 0x100, crc / 0x100]
  }

  /** The 16-bit word at offset i, low byte first. */
  function WordAt(s: seq<Byte>, i: nat): nat
    requires i + 2 <= |s|
  {
    s[i] as int + 0x100 * (s[i + 1] as int)
  }

  /** A frame carries at least two bytes and ends in the CRC of what precedes. */
  predicate CrcOk(frame: seq<Byte>) {
    |frame| >= 4 && Of(frame[..|frame| - 2]) == WordAt(frame, |frame| - 2)
  }

  function AddCrc(frame: seq<Byte>): seq<Byte> {
    OfIsWord(frame);
    frame + Trailer(Of(frame))
  }

  /** The burst is two frames that meet at cut. */
  predicate Splits(buf: seq<Byte>, cut: nat) {
    cut <= |buf| && CrcOk(buf[..cut]) && CrcOk(buf[cut..])
  }

  lemma OfIsWord(s: seq<Byte>)
    ensures Polynomial(POLY, 16) && Pow2(16) == 0x1_0000 && Of(s) < 0x1_0000
  {
    PowersOfTwo();
    FeedWidth(POLY, 16, INIT, s);
  }

  method ComputeCrc16(data: seq<Byte>) returns (crc: nat)
    ensures crc == Of(data)
  {
    crc := 0xFFFF;
    for i := 0 to |data|
      invariant crc == Feed(POLY, INIT, data[..i])
    {
      ghost var before := crc;
      crc := Xor(crc, data[i]);
      for j := 0 to 8
        invariant crc == Steps(POLY, Xor(before, data[i]), j)
      {
        crc := if crc % 2 == 1 then Xor(crc / 2, 0xA001) else crc / 2;
      }
      assert data[..i + 1][..i] == data[..i];
    }
    assert data[..|data|] == data;
  }

  /** Two bytes enter the register as one 16-bit word. */
  lemma TwoBytes(c: nat, s: seq<Byte>)
    requires |s| == 2
    ensures Feed(POLY, c, s) == Steps(POLY, Xor(c, WordAt(s, 0)), 16)
  {
    var x: nat, y: nat := s[0], s[1];
    assert s[..1] == [x] && s[..1][..0] == [];
    assert Feed(POLY, c, s[..1]) == ByteStep(POLY, c, x);
    PowersOfTwo();
    var r := Xor(c, x);
    StepsShift(POLY, y, 8);
    StepsAdditive(POLY, r, y * 0x100, 8);
    assert Xor(r, y * 0x100) == Xor(c, WordAt(s, 0)) by {
      XorDisjoint(y, x, 8);
      XorComm(y * 0x100, x);
      XorAssoc(c, x, y * 0x100);
    }
    StepsSplit(POLY, Xor(c, WordAt(s, 0)), 8, 8);
  }

  lemma {:induction false} StepsOfZero(k: nat)
    ensures Steps(POLY, 0, k) == 0
  {
    if k > 0 {
      StepsOfZero(k - 1);
    }
  }

  /** The check accepts exactly the frames whose register runs out to zero. */
  lemma CrcOkMeansZeroRegister(frame: seq<Byte>)
    ensures CrcOk(frame) <==> |frame| >= 4 && Of(frame) == 0
  {
    if |frame| >= 4 {
      var n := |frame| - 2;
      var body, tail := frame[..n], frame[n..];
      assert frame == body + tail && WordAt(tail, 0) == WordAt(frame, n);
      var c, w := Of(body), WordAt(frame, n);
      FeedConcat(POLY, INIT, body, tail);
      TwoBytes(c, tail);
      OfIsWord(body);
      StepsOfZero(16);
      if c == w {
        XorSelf(c);
      }
      if Of(frame) == 0 {
        XorWidth(c, w, 16);
        StepsInjective(POLY, 16, Xor(c, w), 0, 16);
        XorSelf(w);
        XorInjective(c, w, w);
      }
    }
  }

  /** A frame closed with its CRC passes the check, unless it was too short to be one. */
  lemma AddCrcIsAccepted(frame: seq<Byte>)
    ensures CrcOk(AddCrc(frame)) <==> |frame| >= 2
  {
    OfIsWord(frame);
    var f := AddCrc(frame);
    assert f[..|f| - 2] == frame;
  }

  lemma ThreePieces(s: seq<Byte>, i: nat, j: nat)
    requires i <= j <= |s|
    ensures Of(s) == Feed(POLY, Feed(POLY, Of(s[..i]), s[i..j]), s[j..])
  {
    assert s == (s[..i] + s[i..j]) + s[j..];
    FeedConcat(POLY, INIT, s[..i] + s[i..j], s[j..]);
    FeedConcat(POLY, INIT, s[..i], s[i..j]);
  }

  /** Damage confined to one stretch shows unless the stretch itself leaves the register alike. */
  lemma DamageShows(f: seq<Byte>, g: seq<Byte>, i: nat, j: nat)
    requires i <= j <= |f| == |g|
    requires f[..i] == g[..i] && f[j..] == g[j..]
    requires CrcOk(f) && CrcOk(g)
    ensures Feed(POLY, Of(f[..i]), f[i..j]) == Feed(POLY, Of(f[..i]), g[i..j])
  {
    CrcOkMeansZeroRegister(f);
    CrcOkMeansZeroRegister(g);
    ThreePieces(f, i, j);
    ThreePieces(g, i, j);
    var c := Of(f[..i]);
    OfIsWord(f[..i]);
    FeedWidth(POLY, 16, c, f[i..j]);
    FeedWidth(POLY, 16, c, g[i..j]);
    FeedKeepsDistinct(POLY, 16, Feed(POLY, c, f[i..j]), Feed(POLY, c, g[i..j]), f[j..]);
  }

  /** Sequences that agree around a word and in the word are equal. */
  lemma SameWordSameFrame(f: seq<Byte>, g: seq<Byte>, i: nat)
    requires i + 2 <= |f| == |g|
    requires f[..i] == g[..i] && f[i + 2..] == g[i + 2..] && WordAt(f, i) == WordAt(g, i)
    ensures f == g
  {
    assert f[i] == g[i] && f[i + 1] == g[i + 1];
    assert f == f[..i] + [f[i], f[i + 1]] + f[i + 2..];
    assert g == g[..i] + [g[i], g[i + 1]] + g[i + 2..];
  }

  /** Words that leave the register alike are equal. */
  lemma WordsLeaveMarks(c: nat, u: nat, w: nat)
    requires c < 0x1_0000 && u < 0x1_0000 && w < 0x1_0000
    requires Steps(POLY, Xor(c, u), 16) == Steps(POLY, Xor(c, w), 16)
    ensures u == w
  {
    OfIsWord([]);
    XorWidth(c, u, 16);
    XorWidth(c, w, 16);
    StepsInjective(POLY, 16, Xor(c, u), Xor(c, w), 16);
    XorComm(c, u);
    XorComm(c, w);
    XorInjective(u, w, c);
  }

  lemma WindowUnchanged(f: seq<Byte>, g: seq<Byte>, i: nat, c: nat)
    requires i + 2 <= |f| == |g| && c < 0x1_0000
    requires f[..i] == g[..i] && f[i + 2..] == g[i + 2..]
    requires Feed(POLY, c, f[i..i + 2]) == Feed(POLY, c, g[i..i + 2])
    ensures f == g
  {
    TwoBytes(c, f[i..i + 2]);
    TwoBytes(c, g[i..i + 2]);
    WordsLeaveMarks(c, WordAt(f, i), WordAt(g, i));
    SameWordSameFrame(f, g, i);
  }

  /** Changing any bits of two neighbouring bytes of a valid frame is always detected. */
  lemma TwoByteChangeDetected(f: seq<Byte>, g: seq<Byte>, i: nat)
    requires i + 2 <= |f| == |g|
    requires f[..i] == g[..i] && f[i + 2..] == g[i + 2..]
    requires f != g && CrcOk(f)
    ensures !CrcOk(g)
  {
    if CrcOk(g) {
      DamageShows(f, g, i, i + 2);
      OfIsWord(f[..i]);
      WindowUnchanged(f, g, i, Of(f[..i]));
    }
  }

  /** Changing any one byte of a valid frame, of any length, is always detected. */
  lemma OneByteChangeDetected(f: seq<Byte>, i: nat, b: Byte)
    requires i < |f| && CrcOk(f) && b != f[i]
    ensures !CrcOk(f[i := b])
  {
    var g, k := f[i := b], if i + 2 <= |f| then i else i - 1;
    assert f[..k] == g[..k] && f[k + 2..] == g[k + 2..];
    TwoByteChangeDetected(f, g, k);
  }

  /** The 24-bit word at offset i. */
  function ThreeByteWord(s: seq<Byte>, i: nat): nat
    requires i + 3 <= |s|
  {
    WordAt(s, i) + 0x1_0000 * (s[i + 2] as int)
  }

  lemma ThreeBytes(c: nat, s: seq<Byte>)
    requires |s| == 3
    ensures Feed(POLY, c, s) == Steps(POLY, Xor(c, ThreeByteWord(s, 0)), 24)
  {
    var t, z: nat := s[..2], s[2];
    PowersOfTwo();
    TwoBytes(c, t);
    var w := WordAt(t, 0);
    StepsShift(POLY, z, 16);
    StepsAdditive(POLY, Xor(c, w), z * 0x1_0000, 16);
    assert Xor(Xor(c, w), z * 0x1_0000) == Xor(c, ThreeByteWord(s, 0)) by {
      XorDisjoint(z, w, 16);
      XorComm(z * 0x1_0000, w);
      XorAssoc(c, w, z * 0x1_0000);
    }
    StepsSplit(POLY, Xor(c, ThreeByteWord(s, 0)), 16, 8);
  }

  /** Equal registers after different words mean the difference itself runs out to zero. */
  lemma DifferenceRunsOut(c: nat, u: nat, w: nat, k: nat)
    requires Steps(POLY, Xor(c, u), k) == Steps(POLY, Xor(c, w), k)
    ensures Steps(POLY, Xor(u, w), k) == 0
  {
    StepsAdditive(POLY, Xor(c, u), Xor(c, w), k);
    XorSelf(Steps(POLY, Xor(c, u), k));
    XorComm(c, u);
    XorAssoc(u, c, Xor(c, w));
    XorAssoc(c, c, w);
    XorSelf(c);
    XorComm(0, w);
    XorZero(w);
  }

  /** A non-zero burst of at most 16 bits never runs out of the register. */
  lemma ShortBurstStays(e: nat, k: nat)
    requires k <= 8 && 0 < e < 0x1_0000
    ensures Steps(POLY, e * Pow2(k), 24) != 0
  {
    StepsSplit(POLY, e * Pow2(k), k, 24 - k);
    StepsShift(POLY, e, k);
    if Steps(POLY, e, 24 - k) == 0 {
      StepsOfZero(24 - k);
      OfIsWord([]);
      StepsInjective(POLY, 16, e, 0, 24 - k);
    }
  }

  lemma BurstLeavesMark(f: seq<Byte>, g: seq<Byte>, i: nat, e: nat, k: nat, c: nat)
    requires i + 3 <= |f| == |g| && k <= 8 && 0 < e < 0x1_0000
    requires Xor(ThreeByteWord(f, i), ThreeByteWord(g, i)) == e * Pow2(k)
    ensures Feed(POLY, c, f[i..i + 3]) != Feed(POLY, c, g[i..i + 3])
  {
    ThreeBytes(c, f[i..i + 3]);
    ThreeBytes(c, g[i..i + 3]);
    ShortBurstStays(e, k);
    if Feed(POLY, c, f[i..i + 3]) == Feed(POLY, c, g[i..i + 3]) {
      DifferenceRunsOut(c, ThreeByteWord(f, i), ThreeByteWord(g, i), 24);
    }
  }

  /**
   * A burst of flipped bits no longer than 16 bits, at any bit position, is always
   * detected: the pattern e (at most 16 bits, not zero) starts at bit k of byte i.
   */
  lemma BurstDetected(f: seq<Byte>, g: seq<Byte>, i: nat, e: nat, k: nat)
    requires i + 3 <= |f| == |g| && k <= 8 && 0 < e < 0x1_0000
    requires f[..i] == g[..i] && f[i + 3..] == g[i + 3..]
    requires Xor(ThreeByteWord(f, i), ThreeByteWord(g, i)) == e * Pow2(k)
    requires CrcOk(f)
    ensures !CrcOk(g)
  {
    if CrcOk(g) {
      DamageShows(f, g, i, i + 3);
      BurstLeavesMark(f, g, i, e, k, Of(f[..i]));
    }
  }

  /** Two valid frames joined never pass as one valid frame. */
  lemma JoinedFramesRejected(f: seq<Byte>, g: seq<Byte>)
    requires CrcOk(f) && CrcOk(g)
    ensures !CrcOk(f + g)
  {
    CrcOkMeansZeroRegister(f);
    CrcOkMeansZeroRegister(g);
    CrcOkMeansZeroRegister(f + g);
    FeedConcat(POLY, INIT, f, g);
    if Of(f + g) == 0 {
      OfIsWord(f);
      FeedKeepsDistinct(POLY, 16, 0, INIT, g);
    }
  }

  /** A cut leaves room for a frame on either side, and no frame splits. */
  lemma CutIsInside(buf: seq<Byte>, cut: nat)
    requires Splits(buf, cut)
    ensures 4 <= cut <= |buf| - 4 && !CrcOk(buf)
  {
    assert buf == buf[..cut] + buf[cut..];
    JoinedFramesRejected(buf[..cut], buf[cut..]);
  }

  /**
   * Split a burst into CRC-valid frames. The pieces always join to the burst; there
   * are two of them exactly when the burst splits at some cut, and then both are
   * valid and the cut is the first that works.
   */
  method SplitFrames(buf: seq<Byte>) returns (frames: seq<seq<Byte>>)
    ensures |frames| == 1 ==> frames[0] == buf
    ensures |frames| == 1 || |frames| == 2
    ensures |frames| == 2 <==> exists cut: nat :: Splits(buf, cut)
    ensures |frames| == 2 ==>
              && frames[0] + frames[1] == buf && CrcOk(frames[0]) && CrcOk(frames[1])
              && forall cut: nat :: Splits(buf, cut) ==> |frames[0]| <= cut
  {
    forall cut: nat | Splits(buf, cut) ensures 4 <= cut <= |buf| - 4 && !CrcOk(buf) {
      CutIsInside(buf, cut);
    }
    if CrcOk(buf) {
      return [buf];
    }
    var cut := 4;
    while cut < |buf| - 3
      invariant cut >= 4
      invariant forall c: nat :: Splits(buf, c) ==> cut <= c
    {
      if Splits(buf, cut) {
        return [buf[..cut], buf[cut..]];
      }
      cut := cut + 1;
    }
    return [buf];
  }

  /** A request and its reply that arrive as one burst always come back as two valid frames. */
  lemma BurstOfTwoSplits(f: seq<Byte>, g: seq<Byte>)
    requires CrcOk(f) && CrcOk(g)
    ensures Splits(f + g, |f|) && !CrcOk(f + g)
  {
    assert (f + g)[..|f|] == f && (f + g)[|f|..] == g;
    JoinedFramesRejected(f, g);
  }
}
