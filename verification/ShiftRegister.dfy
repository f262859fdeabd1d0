/** Algebra of the CRC register: linearity over xor, the parity law, the order of
    the zero-bit clock, and what they say about bit strings the register cannot see. */
module ShiftRegister {
  import opened Crc

  function ShiftN(r: Reg, n: nat): Reg
    decreases n
  {
    if n == 0 then r else ShiftN(Shift(r), n - 1)
  }

  const ONE: Reg := ZERO.(b0 := true)
  const TOP: Reg := ZERO.(b7 := true)

  /** Cell by cell exclusive or. */
  function Plus(r: Reg, q: Reg): Reg {
    Reg(r.b0 != q.b0, r.b1 != q.b1, r.b2 != q.b2, r.b3 != q.b3,
        r.b4 != q.b4, r.b5 != q.b5, r.b6 != q.b6, r.b7 != q.b7)
  }

  function Zeros(n: nat): (bits: seq<bool>)
    ensures |bits| == n && forall k :: 0 <= k < n ==> !bits[k]
  {
    seq(n, _ => false)
  }

  /** How many bits of the string are set. */
  function Weight(bits: seq<bool>): (w: nat)
    ensures w <= |bits|
  {
    if bits == [] then 0 else (if bits[0] then 1 else 0) + Weight(bits[1..])
  }

  ghost predicate Odd(n: nat) { n % 2 == 1 }

  /** True when an odd number of cells are set. */
  function Parity(r: Reg): bool {
    r.b0 != (r.b1 != (r.b2 != (r.b3 != (r.b4 != (r.b5 != (r.b6 != r.b7))))))
  }

  // ---- parity -------------------------------------------------------------

  lemma BitInParity(r: Reg, bit: bool)
    ensures Parity(BitIn(r, bit)) == (Parity(r) != bit)
  {
  }

  lemma {:induction false} FeedParity(r: Reg, bits: seq<bool>)
    ensures Parity(Feed(r, bits)) == (Parity(r) != Odd(Weight(bits)))
    decreases |bits|
  {
    if bits != [] {
      var next := BitIn(r, bits[0]);
      BitInParity(r, bits[0]);
      FeedParity(next, bits[1..]);
    }
  }

  // ---- the zero-bit clock -------------------------------------------------

  lemma ShiftInjective(r: Reg, q: Reg)
    ensures Shift(r) == Shift(q) ==> r == q
  {
  }

  lemma {:induction false} ShiftNInjective(r: Reg, q: Reg, n: nat)
    ensures ShiftN(r, n) == ShiftN(q, n) ==> r == q
    decreases n
  {
    if n != 0 {
      ShiftInjective(r, q);
      ShiftNInjective(Shift(r), Shift(q), n - 1);
    }
  }

  lemma {:induction false} ShiftNZero(n: nat)
    ensures ShiftN(ZERO, n) == ZERO
  {
    if n != 0 { ShiftNZero(n - 1); }
  }

  lemma {:induction false} ShiftNAdd(r: Reg, m: nat, n: nat)
    ensures ShiftN(r, m + n) == ShiftN(ShiftN(r, m), n)
    decreases m
  {
    if m != 0 { ShiftNAdd(Shift(r), m - 1, n); }
  }

  lemma {:induction false} FeedZeros(r: Reg, n: nat)
    ensures Feed(r, Zeros(n)) == ShiftN(r, n)
    decreases n
  {
    if n != 0 {
      assert Zeros(n)[1..] == Zeros(n - 1);
      FeedZeros(Shift(r), n - 1);
    }
  }

  /** What eight zero bits do, in closed form. */
  function Shift8(r: Reg): Reg {
    Shift(Shift(Shift(Shift(Shift(Shift(Shift(Shift(r))))))))
  }

  lemma {:induction false} EightShifts(from: u8, to: u8, n: nat)
    requires Shift8(Load(from)) == Load(to)
    ensures ShiftN(Load(from), n + 8) == ShiftN(Load(to), n)
  {
    var r := Load(from);
    ShiftNAdd(r, 4, n + 4);
    FourShifts(r);
    ShiftNAdd(ShiftN(r, 4), 4, n);
    FourShifts(ShiftN(r, 4));
  }

  lemma {:induction false} FourShifts(r: Reg)
    ensures ShiftN(r, 4) == Shift(Shift(Shift(Shift(r))))
  {
    ShiftNAdd(r, 2, 2);
  }

  lemma {:induction false} FortyShifts(n: nat)
    ensures ShiftN(Load(1), n + 40) == ShiftN(Load(0xcd), n)
  {
    EightShifts(0x01, 0x5e, n + 32);
    EightShifts(0x5e, 0xc4, n + 24);
    EightShifts(0xc4, 0xab, n + 16);
    EightShifts(0xab, 0x8f, n + 8);
    EightShifts(0x8f, 0xcd, n);
  }

  lemma {:induction false} FortyMoreShifts(n: nat)
    ensures ShiftN(Load(0xcd), n + 40) == ShiftN(Load(0xce), n)
  {
    EightShifts(0xcd, 0x37, n + 32);
    EightShifts(0x37, 0x3d, n + 24);
    EightShifts(0x3d, 0x43, n + 16);
    EightShifts(0x43, 0xa4, n + 8);
    EightShifts(0xa4, 0xce, n);
  }

  lemma {:induction false} LastFortyShifts(n: nat)
    ensures ShiftN(Load(0xce), n + 40) == ShiftN(Load(0x80), n)
  {
    EightShifts(0xce, 0xd5, n + 32);
    EightShifts(0xd5, 0x68, n + 24);
    EightShifts(0x68, 0xa7, n + 16);
    EightShifts(0xa7, 0x2c, n + 8);
    EightShifts(0x2c, 0x80, n);
  }

  /** 120 zero bits carry a lone 1 up to the top of the register. */
  lemma {:induction false} OneAfter120(n: nat)
    ensures ShiftN(ONE, n + 120) == ShiftN(TOP, n)
  {
    FortyShifts(n + 80);
    FortyMoreShifts(n + 40);
    LastFortyShifts(n);
    assert Load(1) == ONE && Load(0x80) == TOP;
  }

  /** 127 zero bits bring a lone 1 back to where it started. */
  lemma OneAfter127()
    ensures ShiftN(ONE, 127) == ONE
  {
    OneAfter120(7);
    ShiftNAdd(TOP, 4, 3);
    FourShifts(TOP);
  }

  lemma {:induction false} ManyTurns(turns: nat)
    ensures ShiftN(ONE, 127 * turns) == ONE
  {
    if turns != 0 {
      ShiftNAdd(ONE, 127, 127 * (turns - 1));
      OneAfter127();
      ManyTurns(turns - 1);
    }
  }

  lemma {:induction false} MultiplesReturn(g: nat, k: nat)
    requires ShiftN(ONE, g) == ONE
    ensures ShiftN(ONE, k * g) == ONE
    decreases k
  {
    if k != 0 {
      MultiplesReturn(g, k - 1);
      ShiftNAdd(ONE, (k - 1) * g, g);
      assert k * g == (k - 1) * g + g;
    } else {
      assert k * g == 0;
    }
  }

  lemma Prime127(k: nat, g: nat)
    requires 1 < g < 127
    ensures k * g != 127
  {
    if g >= 12 && k >= 12 {
      MulAtLeast(k, g);
    } else if g >= 12 {
      assert k == 0 || k == 1 || k == 2 || k == 3 || k == 4 || k == 5
          || k == 6 || k == 7 || k == 8 || k == 9 || k == 10 || k == 11;
    } else {
      assert g == 2 || g == 3 || g == 4 || g == 5 || g == 6 || g == 7 || g == 8 || g == 9 || g == 10 || g == 11;
    }
  }

  lemma MulAtLeast(k: nat, g: nat)
    requires k >= 12 && g >= 12
    ensures k * g >= 144
  {
    assert k * g == 12 * g + (k - 12) * g;
    assert (k - 12) * g >= 0;
  }

  /** Euclid on the return times: a shorter turn would have to divide the prime 127. */
  lemma {:induction false} NoShorterTurn(g: nat)
    requires 0 < g < 127
    ensures ShiftN(ONE, g) != ONE
  {
    assert ShiftN(ONE, 1) == Shift(ONE) != ONE;
    if 1 < g {
      var k, rest := 127 / g, 127 % g;
      Prime127(k, g);
      assert k * g + rest == 127 && 0 < rest < g;
      NoShorterTurn(rest);
      OneAfter127();
      ShiftNAdd(ONE, k * g, rest);
      if ShiftN(ONE, g) == ONE {
        MultiplesReturn(g, k);
      }
    }
  }

  /** The clock has order 127 on a lone 1, so two flips hide each other only 127 bits apart. */
  lemma {:induction false} OrderOfTheClock(g: nat)
    ensures ShiftN(ONE, g) == ONE <==> g % 127 == 0
  {
    var turns, rest := g / 127, g % 127;
    ManyTurns(turns);
    ShiftNAdd(ONE, 127 * turns, rest);
    if rest != 0 {
      NoShorterTurn(rest);
    }
  }

  // ---- bit strings the register cannot see --------------------------------

  /** The register starts empty and ends empty. */
  ghost predicate Invisible(e: seq<bool>) { Feed(ZERO, e) == ZERO }

  /** Ones at exactly the positions `i` and `j`. */
  ghost predicate TwoOnes(e: seq<bool>, i: nat, j: nat) {
    i < j < |e| && forall k :: 0 <= k < |e| ==> (e[k] <==> k == i || k == j)
  }

  lemma {:induction false} OddIsSeen(e: seq<bool>)
    requires Odd(Weight(e))
    ensures !Invisible(e)
  {
    FeedParity(ZERO, e);
  }

  lemma {:induction false} NoOnes(e: seq<bool>)
    requires forall k :: 0 <= k < |e| ==> !e[k]
    ensures forall r: Reg :: Feed(r, e) == ShiftN(r, |e|)
  {
    assert e == Zeros(|e|);
    forall r ensures Feed(r, e) == ShiftN(r, |e|) {
      FeedZeros(r, |e|);
    }
  }

  lemma {:induction false} TwoOnesResidue(e: seq<bool>, i: nat, j: nat)
    requires TwoOnes(e, i, j)
    ensures Feed(ZERO, e) == ShiftN(Plus(ShiftN(ONE, j - i), ONE), |e| - j)
  {
    var before, between, after := e[..i], e[i + 1..j], e[j + 1..];
    assert e == before + ([true] + (between + ([true] + after)));
    NoOnes(before);
    NoOnes(between);
    NoOnes(after);
    FeedConcat(ZERO, before, [true] + (between + ([true] + after)));
    ShiftNZero(i);
    FeedFirst(ZERO, true, between + ([true] + after));
    FeedConcat(Shift(ONE), between, [true] + after);
    FeedFirst(ShiftN(ONE, j - i), true, after);
  }

  lemma {:induction false} FeedFirst(r: Reg, bit: bool, rest: seq<bool>)
    ensures Feed(r, [bit] + rest) == Feed(BitIn(r, bit), rest)
  {
    assert ([bit] + rest)[1..] == rest;
  }

  /** Two flips are invisible exactly when they are a multiple of 127 bits apart. */
  lemma TwoOnesInvisible(e: seq<bool>, i: nat, j: nat)
    requires TwoOnes(e, i, j)
    ensures Invisible(e) <==> (j - i) % 127 == 0
  {
    TwoOnesResidue(e, i, j);
    OrderOfTheClock(j - i);
    ShiftNZero(|e| - j);
    ShiftNInjective(Plus(ShiftN(ONE, j - i), ONE), ZERO, |e| - j);
  }

  lemma {:induction false} FindNone(e: seq<bool>)
    requires Weight(e) == 0
    ensures forall k :: 0 <= k < |e| ==> !e[k]
  {
    if e != [] {
      FindNone(e[1..]);
      forall k | 0 <= k < |e| ensures !e[k] {
        if k != 0 { assert e[k] == e[1..][k - 1]; }
      }
    }
  }

  lemma {:induction false} FindOne(e: seq<bool>) returns (i: nat)
    requires Weight(e) == 1
    ensures i < |e| && forall k :: 0 <= k < |e| ==> (e[k] <==> k == i)
  {
    if e[0] {
      FindNone(e[1..]);
      i := 0;
    } else {
      var rest := FindOne(e[1..]);
      i := rest + 1;
    }
    assert forall k :: 1 <= k < |e| ==> e[k] == e[1..][k - 1];
  }

  lemma {:induction false} FindTwo(e: seq<bool>) returns (i: nat, j: nat)
    requires Weight(e) == 2
    ensures TwoOnes(e, i, j)
  {
    if e[0] {
      var rest := FindOne(e[1..]);
      i, j := 0, rest + 1;
    } else {
      var a, b := FindTwo(e[1..]);
      i, j := a + 1, b + 1;
    }
    assert forall k :: 1 <= k < |e| ==> e[k] == e[1..][k - 1];
  }

  lemma CloseOnesAreSeen(e: seq<bool>, i: nat, j: nat)
    requires TwoOnes(e, i, j) && |e| <= 127
    ensures !Invisible(e)
  {
    TwoOnesInvisible(e, i, j);
  }

  /** Up to 127 bits, no pattern of one, two or three ones is invisible. */
  lemma {:induction false} ShortPatternsAreSeen(e: seq<bool>)
    requires |e| <= 127 && Weight(e) in {1, 2, 3}
    ensures !Invisible(e)
  {
    var w := Weight(e);
    if w == 2 {
      var i, j := FindTwo(e);
      CloseOnesAreSeen(e, i, j);
    } else {
      assert Odd(w);
      OddIsSeen(e);
    }
  }

  // ---- bursts -------------------------------------------------------------

  /** The cells an at most 8 bit string fills, first bit lowest. */
  function Spelled(w: seq<bool>): Reg
    requires |w| <= 8
  {
    var pad := w + Zeros(8 - |w|);
    Reg(pad[0], pad[1], pad[2], pad[3], pad[4], pad[5], pad[6], pad[7])
  }

  ghost predicate TailCells(s: Reg, t: Reg) {
    t == Reg(s.b1, s.b2, s.b3, s.b4, s.b5, s.b6, s.b7, false)
  }

  lemma SpelledTail(w: seq<bool>)
    requires 0 < |w| <= 8
    ensures Spelled(w).b0 == w[0] && TailCells(Spelled(w), Spelled(w[1..]))
  {
    var pad, tail := w + Zeros(8 - |w|), w[1..] + Zeros(9 - |w|);
    assert forall k :: 0 <= k < 7 ==> tail[k] == pad[k + 1];
  }

  lemma BitInThenTail(r: Reg, s: Reg, t: Reg)
    requires TailCells(s, t)
    ensures Plus(BitIn(r, s.b0), t) == Shift(Plus(r, s))
  {
  }

  /** Feeding at most eight bits is adding them all at once and then clocking. */
  lemma {:induction false} FeedSpelled(r: Reg, w: seq<bool>)
    requires |w| <= 8
    ensures Feed(r, w) == ShiftN(Plus(r, Spelled(w)), |w|)
    decreases |w|
  {
    if w != [] {
      SpelledTail(w);
      BitInThenTail(r, Spelled(w), Spelled(w[1..]));
      FeedSpelled(BitIn(r, w[0]), w[1..]);
    }
  }

  lemma {:induction false} ShiftNParity(r: Reg, n: nat)
    ensures Parity(ShiftN(r, n)) == Parity(r)
    decreases n
  {
    if n != 0 {
      BitInParity(r, false);
      ShiftNParity(Shift(r), n - 1);
    }
  }

  lemma FeedCells(r: Reg) returns (w: seq<bool>)
    ensures w == Cells(r) && Feed(ZERO, w) == ShiftN(r, 8)
  {
    w := Cells(r);
    SpelledCells(r);
    FeedSpelled(ZERO, w);
    assert Plus(ZERO, r) == r;
  }

  lemma SpelledCells(r: Reg)
    ensures Spelled(Cells(r)) == r
  {
    var w := Cells(r);
    assert w + Zeros(0) == w;
  }

  /** `Parity` counts: it is the oddness of the number of set cells. */
  lemma ParityCounts(r: Reg)
    ensures Parity(r) == Odd(Weight(Cells(r)))
  {
    var w := FeedCells(r);
    FeedParity(ZERO, w);
    var n := 8;
    ShiftNParity(r, n);
  }

  /** The parity law: a checksum has as many set bits as its data, modulo two. */
  lemma {:induction false} ChecksumKeepsParity(data: seq<u8>)
    ensures Odd(Weight(ByteBits(Checksum(data)))) == Odd(Weight(WireBits(data)))
  {
    var r := Feed(ZERO, WireBits(data));
    StoreThenLoad(r);
    ParityCounts(r);
    FeedParity(ZERO, WireBits(data));
  }

  /** All ones of `e` lie among eight consecutive bits. */
  ghost predicate Burst(e: seq<bool>) {
    exists a: nat :: BurstAt(e, a)
  }

  ghost predicate BurstAt(e: seq<bool>, a: nat) {
    forall k :: 0 <= k < |e| && e[k] ==> a <= k < a + 8
  }

  lemma {:induction false} PaddedResidue(before: nat, burst: seq<bool>, after: nat)
    requires |burst| <= 8
    ensures Feed(ZERO, Zeros(before) + (burst + Zeros(after))) == ShiftN(ShiftN(Spelled(burst), |burst|), after)
  {
    FeedConcat(ZERO, Zeros(before), burst + Zeros(after));
    FeedZeros(ZERO, before);
    ShiftNZero(before);
    FeedConcat(ZERO, burst, Zeros(after));
    FeedSpelled(ZERO, burst);
    assert Plus(ZERO, Spelled(burst)) == Spelled(burst);
    FeedZeros(Feed(ZERO, burst), after);
  }

  lemma {:induction false} OnlyZeroFadesOut(r: Reg, m: nat, n: nat)
    requires ShiftN(ShiftN(r, m), n) == ZERO
    ensures r == ZERO
  {
    ShiftNZero(m);
    ShiftNZero(n);
    ShiftNInjective(ShiftN(r, m), ZERO, n);
    ShiftNInjective(r, ZERO, m);
  }

  /** A burst of at most eight bits is never invisible, however long the string. */
  lemma {:induction false} BurstsAreSeen(e: seq<bool>)
    requires Burst(e) && Weight(e) != 0
    ensures !Invisible(e)
  {
    var a: nat :| BurstAt(e, a);
    var from := if a < |e| then a else |e|;
    var to := if a + 8 < |e| then a + 8 else |e|;
    var burst := e[from..to];
    assert e == Zeros(from) + (burst + Zeros(|e| - to));
    PaddedResidue(from, burst, |e| - to);
    if Invisible(e) {
      OnlyZeroFadesOut(Spelled(burst), |burst|, |e| - to);
      SpellsNothing(burst);
      AllZero(e, burst, from, to);
    }
  }

  lemma {:induction false} AllZero(e: seq<bool>, burst: seq<bool>, from: nat, to: nat)
    requires from <= to <= |e| && burst == e[from..to]
    requires forall k :: 0 <= k < |burst| ==> !burst[k]
    requires forall k :: 0 <= k < |e| && !(from <= k < to) ==> !e[k]
    ensures Weight(e) == 0
  {
    forall k | from <= k < to ensures !e[k] {
      assert e[k] == burst[k - from];
    }
    assert e == Zeros(|e|);
    WeightOfZeros(|e|);
  }

  lemma SpellsNothing(w: seq<bool>)
    requires |w| <= 8 && Spelled(w) == ZERO
    ensures forall k :: 0 <= k < |w| ==> !w[k]
  {
    var pad := w + Zeros(8 - |w|);
    forall k | 0 <= k < |w| ensures !w[k] {
      assert w[k] == pad[k];
    }
  }

  lemma {:induction false} WeightOfZeros(n: nat)
    ensures Weight(Zeros(n)) == 0
  {
    if n != 0 {
      assert Zeros(n)[1..] == Zeros(n - 1);
      WeightOfZeros(n - 1);
    }
  }
}
