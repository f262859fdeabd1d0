/** What the END byte and the CRC catch: which corruptions of CODE..CRC the decoder rejects. */
module CrcDetection {
  import opened Crc
  import opened ShiftRegister
  import opened UcPack

  /** The window with every bit of `e` flipped. */
  function Flip(w: seq<u8>, e: seq<u8>): (r: seq<u8>)
    requires |w| == |e|
    ensures |r| == |w| && forall k :: 0 <= k < |w| ==> r[k] == w[k] ^ e[k]
  {
    seq(|w|, k requires 0 <= k < |w| => w[k] ^ e[k])
  }

  /** How many wire bits `e` flips. */
  function FlipCount(e: seq<u8>): nat { Weight(WireBits(e)) }

  /** The bytes the CRC binds together: everything but the END byte. */
  function Codeword(w: seq<u8>): seq<u8>
    requires |w| >= 2
  {
    w[..|w| - 2] + [w[|w| - 1]]
  }

  // ---- flipping bytes adds registers -------------------------------

  lemma BitOfXor(a: u8, b: u8, mask: u8)
    requires mask & (mask - 1) == 0
    ensures ((a ^ b) & mask != 0) == ((a & mask != 0) != (b & mask != 0))
  {
    var x, y := a & mask, b & mask;
    assert (a ^ b) & mask == x ^ y;
    assert (x == 0 || x == mask) && (y == 0 || y == mask);
  }

  lemma LoadFromBits(a: u8, b: u8, c: u8)
    requires (c & 1 != 0) == ((a & 1 != 0) != (b & 1 != 0))
    requires (c & 2 != 0) == ((a & 2 != 0) != (b & 2 != 0))
    requires (c & 4 != 0) == ((a & 4 != 0) != (b & 4 != 0))
    requires (c & 8 != 0) == ((a & 8 != 0) != (b & 8 != 0))
    requires (c & 16 != 0) == ((a & 16 != 0) != (b & 16 != 0))
    requires (c & 32 != 0) == ((a & 32 != 0) != (b & 32 != 0))
    requires (c & 64 != 0) == ((a & 64 != 0) != (b & 64 != 0))
    requires (c & 128 != 0) == ((a & 128 != 0) != (b & 128 != 0))
    ensures Load(c) == Plus(Load(a), Load(b))
  {
  }

  lemma LoadOfXor(a: u8, b: u8)
    ensures Load(a ^ b) == Plus(Load(a), Load(b))
  {
    BitOfXor(a, b, 1);
    BitOfXor(a, b, 2);
    BitOfXor(a, b, 4);
    BitOfXor(a, b, 8);
    BitOfXor(a, b, 16);
    BitOfXor(a, b, 32);
    BitOfXor(a, b, 64);
    BitOfXor(a, b, 128);
    LoadFromBits(a, b, a ^ b);
  }

  lemma ShiftLinear(r: Reg, q: Reg)
    ensures Shift(Plus(r, q)) == Plus(Shift(r), Shift(q))
  {
  }

  lemma {:induction false} ShiftNLinear(r: Reg, q: Reg, n: nat)
    ensures ShiftN(Plus(r, q), n) == Plus(ShiftN(r, n), ShiftN(q, n))
    decreases n
  {
    if n != 0 {
      ShiftLinear(r, q);
      ShiftNLinear(Shift(r), Shift(q), n - 1);
    }
  }

  lemma PlusSwap(r: Reg, q: Reg, x: Reg, y: Reg)
    ensures Plus(Plus(r, q), Plus(x, y)) == Plus(Plus(r, x), Plus(q, y))
  {
  }

  lemma {:induction false} FeedByte(r: Reg, c: u8)
    ensures Feed(r, ByteBits(c)) == ShiftN(Plus(r, Load(c)), 8)
  {
    var w := ByteBits(c);
    FeedSpelled(r, w);
    SpelledCells(Load(c));
  }

  lemma {:induction false} FeedByteLinear(r: Reg, q: Reg, a: u8, b: u8)
    ensures Feed(Plus(r, q), ByteBits(a ^ b)) == Plus(Feed(r, ByteBits(a)), Feed(q, ByteBits(b)))
  {
    FeedByte(Plus(r, q), a ^ b);
    FeedByte(r, a);
    FeedByte(q, b);
    LoadOfXor(a, b);
    PlusSwap(r, q, Load(a), Load(b));
    ShiftNLinear(Plus(r, Load(a)), Plus(q, Load(b)), 8);
  }

  lemma FirstByteFirst(r: Reg, b: u8, rest: seq<u8>) returns (next: Reg)
    ensures next == Feed(r, ByteBits(b)) && Feed(r, WireBits([b] + rest)) == Feed(next, WireBits(rest))
  {
    next := Feed(r, ByteBits(b));
    assert ([b] + rest)[1..] == rest;
    FeedConcat(r, ByteBits(b), WireBits(rest));
  }

  lemma LinearStep(r: Reg, q: Reg, a: u8, b: u8, w: seq<u8>, e: seq<u8>, f: seq<u8>) returns (y: Reg, z: Reg)
    ensures Feed(r, WireBits([a] + w)) == Feed(y, WireBits(w))
    ensures Feed(q, WireBits([b] + e)) == Feed(z, WireBits(e))
    ensures Feed(Plus(r, q), WireBits([a ^ b] + f)) == Feed(Plus(y, z), WireBits(f))
  {
    var x := FirstByteFirst(Plus(r, q), a ^ b, f);
    y := FirstByteFirst(r, a, w);
    z := FirstByteFirst(q, b, e);
    FeedByteLinear(r, q, a, b);
  }

  lemma FlipTail(w: seq<u8>, e: seq<u8>)
    requires |w| == |e| && w != []
    ensures Flip(w, e) == [w[0] ^ e[0]] + Flip(w[1..], e[1..])
  {
  }

  lemma {:induction false} NothingFed(r: Reg)
    ensures Feed(r, WireBits([])) == r
  {
  }

  /** The register is linear: feeding a flipped message adds what the message and the flips leave. */
  lemma {:induction false} FeedLinear(r: Reg, q: Reg, w: seq<u8>, e: seq<u8>)
    requires |w| == |e|
    ensures Feed(Plus(r, q), WireBits(Flip(w, e))) == Plus(Feed(r, WireBits(w)), Feed(q, WireBits(e)))
    decreases |w|
  {
    hide WireBits, Feed, Plus;
    if w == [] {
      assert Flip(w, e) == [] && e == [];
      NothingFed(r);
      NothingFed(q);
      NothingFed(Plus(r, q));
    } else {
      var a, b, w', e' := w[0], e[0], w[1..], e[1..];
      var f := Flip(w', e');
      FlipTail(w, e);
      var y, z := LinearStep(r, q, a, b, w', e', f);
      FeedLinear(y, z, w', e');
      assert [a] + w' == w && [b] + e' == e;
    }
  }

  // ---- a good trailer leaves the register empty ---------------------------

  lemma EmptyOnlyByItself(r: Reg, q: Reg)
    ensures ShiftN(Plus(r, q), 8) == ZERO <==> r == q
  {
    ShiftNZero(8);
    ShiftNInjective(Plus(r, q), ZERO, 8);
  }

  /** Data followed by one byte is invisible to the register exactly when the byte is its checksum. */
  lemma {:induction false} ChecksumClosesTheRegister(data: seq<u8>, c: u8)
    ensures Invisible(WireBits(data + [c])) <==> c == Checksum(data)
  {
    var r := Feed(ZERO, WireBits(data));
    WireBitsConcat(data, [c]);
    assert WireBits([c]) == ByteBits(c) + WireBits([c][1..]) == ByteBits(c);
    FeedConcat(ZERO, WireBits(data), ByteBits(c));
    FeedByte(r, c);
    EmptyOnlyByItself(r, Load(c));
    StoreThenLoad(r);
    LoadThenStore(c);
  }

  lemma TrailerIsInvisible(w: seq<u8>)
    requires |w| >= 2
    ensures TrailerOk(w) <==> w[|w| - 2] == END && Invisible(WireBits(Codeword(w)))
  {
    ChecksumClosesTheRegister(w[..|w| - 2], w[|w| - 1]);
  }

  /** The exact set of corruptions that slip through: END intact and an error the register cannot see. */
  lemma UndetectedExactly(w: seq<u8>, e: seq<u8>)
    requires |w| == |e| >= 2 && TrailerOk(w)
    ensures TrailerOk(Flip(w, e)) <==> e[|e| - 2] == 0 && Invisible(WireBits(Codeword(e)))
  {
    var c, d := Codeword(w), Codeword(e);
    TrailerIsInvisible(w);
    FlippedCodeword(w, e);
    FlippedIsInvisible(c, d);
    TrailerIsInvisible(Flip(w, e));
    SameOnlyIfZero(END, e[|e| - 2]);
  }

  lemma FlippedCodeword(w: seq<u8>, e: seq<u8>)
    requires |w| == |e| >= 2
    ensures Codeword(Flip(w, e)) == Flip(Codeword(w), Codeword(e))
  {
  }

  lemma {:induction false} FlippedIsInvisible(c: seq<u8>, d: seq<u8>)
    requires |c| == |d| && Invisible(WireBits(c))
    ensures Invisible(WireBits(Flip(c, d))) <==> Invisible(WireBits(d))
  {
    FeedLinear(ZERO, ZERO, c, d);
    var r := Feed(ZERO, WireBits(d));
    assert Plus(ZERO, r) == r && Plus(ZERO, ZERO) == ZERO;
  }

  lemma SameOnlyIfZero(a: u8, e: u8)
    ensures a ^ e == a <==> e == 0
  {
  }

  // ---- counting flips -----------------------------------------------------

  lemma {:induction false} WeightConcat(a: seq<bool>, b: seq<bool>)
    ensures Weight(a + b) == Weight(a) + Weight(b)
  {
    if a == [] {
      assert a + b == b;
    } else {
      assert (a + b)[1..] == a[1..] + b;
      WeightConcat(a[1..], b);
    }
  }

  lemma ZeroByteBits()
    ensures ByteBits(0) == Zeros(8) && Weight(Zeros(8)) == 0
  {
    WeightOfZeros(8);
  }

  /** Bits before END, of END, and of the CRC byte. */
  lemma SplitBits(e: seq<u8>) returns (a: seq<bool>, z: seq<bool>, c: seq<bool>)
    requires |e| >= 2
    ensures WireBits(e) == a + z + c && WireBits(Codeword(e)) == a + c
    ensures |a| == 8 * (|e| - 2) && |z| == |c| == 8 && z == ByteBits(e[|e| - 2])
  {
    var n := |e| - 2;
    a, z, c := WireBits(e[..n]), ByteBits(e[n]), ByteBits(e[n + 1]);
    WireBitsConcat(e[..n], [e[n + 1]]);
    assert e == e[..n] + [e[n]] + [e[n + 1]];
    WireBitsConcat(e[..n] + [e[n]], [e[n + 1]]);
    WireBitsConcat(e[..n], [e[n]]);
    OneByte(e[n]);
    OneByte(e[n + 1]);
  }

  lemma OneByte(b: u8)
    ensures WireBits([b]) == ByteBits(b)
  {
    assert WireBits([b]) == ByteBits(b) + WireBits([b][1..]);
  }

  lemma FlipsOutsideEnd(e: seq<u8>)
    requires |e| >= 2 && e[|e| - 2] == 0
    ensures FlipCount(e) == Weight(WireBits(Codeword(e)))
  {
    var a, z, c := SplitBits(e);
    ZeroByteBits();
    WeightConcat(a + z, c);
    WeightConcat(a, z);
    WeightConcat(a, c);
  }

  // ---- what is always caught ----------------------------------------------

  /** An odd number of flips is always caught, at any payload length. */
  lemma OddFlipsAreCaught(w: seq<u8>, e: seq<u8>)
    requires |w| == |e| >= 2 && TrailerOk(w) && Odd(FlipCount(e))
    ensures !TrailerOk(Flip(w, e))
  {
    UndetectedExactly(w, e);
    if e[|e| - 2] == 0 {
      FlipsOutsideEnd(e);
      OddIsSeen(WireBits(Codeword(e)));
    }
  }

  lemma BurstSurvivesCut(a: seq<bool>, c: seq<bool>)
    requires Burst(a + Zeros(8) + c)
    ensures Burst(a + c)
  {
    var bits := a + Zeros(8) + c;
    var at: nat :| BurstAt(bits, at);
    if k :| 0 <= k < |a| && a[k] {
      assert bits[k];
      assert forall i :: |a| <= i < |a + c| ==> bits[i + 8] == (a + c)[i];
      assert forall i :: 0 <= i < |a| ==> bits[i] == (a + c)[i];
      assert BurstAt(a + c, at);
    } else {
      var from: nat := if at >= 8 then at - 8 else 0;
      forall i | 0 <= i < |a + c| && (a + c)[i] ensures from <= i < from + 8 {
        assert bits[i + 8];
      }
      assert BurstAt(a + c, from);
    }
  }

  /** Any error confined to eight consecutive wire bits is caught, at any payload length. */
  lemma {:induction false} BurstsAreCaught(w: seq<u8>, e: seq<u8>)
    requires |w| == |e| >= 2 && TrailerOk(w) && Burst(WireBits(e)) && FlipCount(e) != 0
    ensures !TrailerOk(Flip(w, e))
  {
    UndetectedExactly(w, e);
    if e[|e| - 2] == 0 {
      FlipsOutsideEnd(e);
      var a, z, c := SplitBits(e);
      ZeroByteBits();
      BurstSurvivesCut(a, c);
      BurstsAreSeen(WireBits(Codeword(e)));
    }
  }

  /** Two flips slip through exactly when they miss END and lie a multiple of 127 codeword bits apart. */
  lemma DoubleFlips(w: seq<u8>, e: seq<u8>, i: nat, j: nat)
    requires |w| == |e| >= 2 && TrailerOk(w) && TwoOnes(WireBits(Codeword(e)), i, j)
    ensures TrailerOk(Flip(w, e)) <==> e[|e| - 2] == 0 && (j - i) % 127 == 0
  {
    UndetectedExactly(w, e);
    TwoOnesInvisible(WireBits(Codeword(e)), i, j);
  }

  // ---- Hamming distance ---------------------------------------------------

  /** Frames with this payload length survive no corruption of one, two or three bits of CODE..CRC. */
  ghost predicate CatchesThreeFlips(payloadLen: nat) {
    forall w, e :: |w| == |e| == payloadLen + 3 && TrailerOk(w) && FlipCount(e) in {1, 2, 3} ==> !TrailerOk(Flip(w, e))
  }

  lemma ShortFramesCatchThreeFlips(w: seq<u8>, e: seq<u8>)
    requires |w| == |e| && 2 <= |w| <= 16 && TrailerOk(w) && FlipCount(e) in {1, 2, 3}
    ensures !TrailerOk(Flip(w, e))
  {
    UndetectedExactly(w, e);
    if e[|e| - 2] == 0 {
      FlipsOutsideEnd(e);
      ShortPatternsAreSeen(WireBits(Codeword(e)));
    }
  }

  function ZeroBytes(n: nat): (s: seq<u8>)
    ensures |s| == n
  {
    seq(n, _ => 0)
  }

  lemma {:induction false} WireBitsOfZeroBytes(n: nat)
    ensures WireBits(ZeroBytes(n)) == Zeros(8 * n)
  {
    if n != 0 {
      assert ZeroBytes(n)[1..] == ZeroBytes(n - 1);
      WireBitsOfZeroBytes(n - 1);
      ZeroByteBits();
    }
  }

  lemma EndBits()
    ensures ByteBits(1) == [true] + Zeros(7) && ByteBits(0x80) == Zeros(7) + [true]
  {
  }

  /** A codeword error with ones at bits 0 and 127. */
  lemma FarPair(n: nat) returns (d: seq<u8>)
    requires n >= 15
    ensures |d| == n + 1 && TwoOnes(WireBits(d), 0, 127) && Weight(WireBits(d)) == 2
  {
    hide ByteBits, WireBits, Zeros, ZeroBytes, Weight;
    var tail := ZeroBytes(n - 15);
    d := [1] + (ZeroBytes(14) + ([0x80] + tail));
    WireBitsConcat([1], ZeroBytes(14) + ([0x80] + tail));
    WireBitsConcat(ZeroBytes(14), [0x80] + tail);
    WireBitsConcat([0x80], tail);
    OneByte(1);
    OneByte(0x80);
    WireBitsOfZeroBytes(14);
    WireBitsOfZeroBytes(n - 15);
    var bits := WireBits(d);
    EndBits();
    assert bits == [true] + (Zeros(126) + ([true] + Zeros(8 * (n - 15))));
    TwoOnesWeigh(126, 8 * (n - 15));
  }

  lemma TwoOnesWeigh(m: nat, n: nat)
    ensures Weight([true] + (Zeros(m) + ([true] + Zeros(n)))) == 2
  {
    WeightConcat([true], Zeros(m) + ([true] + Zeros(n)));
    WeightConcat(Zeros(m), [true] + Zeros(n));
    WeightConcat([true], Zeros(n));
    WeightOfZeros(m);
    WeightOfZeros(n);
    assert Weight([true]) == 1;
  }

  lemma LongFramesMissAPair(payloadLen: nat) returns (w: seq<u8>, e: seq<u8>)
    requires payloadLen >= 14
    ensures |w| == |e| == payloadLen + 3 && TrailerOk(w) && FlipCount(e) == 2 && TrailerOk(Flip(w, e))
  {
    var n := payloadLen + 1;
    w := ZeroBytes(n) + [END, Checksum(ZeroBytes(n))];
    assert w[..n] == ZeroBytes(n);
    var d := FarPair(n);
    e := d[..n] + [0, d[n]];
    assert Codeword(e) == d;
    DoubleFlips(w, e, 0, 127);
    FlipsOutsideEnd(e);
  }

  /** The CRC gives Hamming distance four exactly up to 13 payload bytes. */
  lemma HammingDistance(payloadLen: nat)
    ensures CatchesThreeFlips(payloadLen) <==> payloadLen <= 13
  {
    if payloadLen <= 13 {
      forall w, e | |w| == |e| == payloadLen + 3 && TrailerOk(w) && FlipCount(e) in {1, 2, 3}
        ensures !TrailerOk(Flip(w, e))
      {
        ShortFramesCatchThreeFlips(w, e);
      }
    } else {
      var w, e := LongFramesMissAPair(payloadLen);
    }
  }

  // ---- in the decoder's buffer --------------------------------------------

  /** A frame whose CODE..CRC bytes were corrupted: START and LEN intact, then the flipped window. */
  function Corrupted(code: u8, payload: seq<u8>, e: seq<u8>): seq<u8>
    requires |payload| <= PAYLOAD_MAX && |e| == |payload| + 3
  {
    EncodeFrame(code, payload)[..2] + Flip(EncodeFrame(code, payload)[2..], e)
  }

  /** The decoder pops a corrupted frame at its START, or drops that START, by the trailer alone. */
  lemma CorruptedVerdict(code: u8, payload: seq<u8>, e: seq<u8>, after: seq<u8>)
    requires |payload| <= PAYLOAD_MAX && |e| == |payload| + 3
    ensures var w := EncodeFrame(code, payload)[2..];
            TrailerOk(w) && (Head(Corrupted(code, payload, e) + after) == Drop <==> !TrailerOk(Flip(w, e)))
  {
    EncodedFields(code, payload);
    CorruptedHead(EncodeFrame(code, payload), e, after, Corrupted(code, payload, e) + after);
  }

  lemma CorruptedHead(frame: seq<u8>, e: seq<u8>, after: seq<u8>, s: seq<u8>)
    requires 6 <= |frame| + 1 && |frame| == |e| + 2 && frame[0] == START
    requires 1 <= Value(frame[1]) <= PAYLOAD_MAX + 1 && Value(frame[1]) + 4 == |frame|
    requires s == frame[..2] + Flip(frame[2..], e) + after
    ensures Head(s) == Drop <==> !TrailerOk(Flip(frame[2..], e))
  {
    CorruptedShape(frame, e, after, s);
    HeadByTrailer(s, Value(frame[1]));
  }

  lemma CorruptedShape(frame: seq<u8>, e: seq<u8>, after: seq<u8>, s: seq<u8>)
    requires |frame| == |e| + 2 && s == frame[..2] + Flip(frame[2..], e) + after
    ensures s[2..|e| + 2] == Flip(frame[2..], e) && s[0] == frame[0] && s[1] == frame[1]
  {
  }

  lemma HeadByTrailer(s: seq<u8>, length: nat)
    requires 1 <= length <= PAYLOAD_MAX + 1 && length + 4 <= |s| && s[0] == START && Value(s[1]) == length
    ensures Head(s) == Drop <==> !TrailerOk(s[2..length + 4])
  {
  }

  /** Every command frame has distance four: flip one, two or three bits of CODE..CRC and its
      START is dropped. Longer frames keep odd flips and bursts. */
  lemma {:induction false} CorruptedFrameIsDropped(code: u8, payload: seq<u8>, e: seq<u8>, after: seq<u8>)
    requires |payload| <= PAYLOAD_MAX && |e| == |payload| + 3
    requires || (|payload| <= 13 && FlipCount(e) in {1, 2, 3})
             || Odd(FlipCount(e))
             || (Burst(WireBits(e)) && FlipCount(e) != 0)
    ensures Head(Corrupted(code, payload, e) + after) == Drop
  {
    var w := EncodeFrame(code, payload)[2..];
    CorruptedVerdict(code, payload, e, after);
    if Odd(FlipCount(e)) {
      OddFlipsAreCaught(w, e);
    } else if Burst(WireBits(e)) && FlipCount(e) != 0 {
      BurstsAreCaught(w, e);
    } else {
      ShortFramesCatchThreeFlips(w, e);
    }
  }
}
