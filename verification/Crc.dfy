/** The CRC8-MAXIM checksum ucPack puts behind every frame: the nested-loop
    computation of the firmware, proved against a bit-serial shift register. */
module Crc {
  type u8 = bv8

  /** The eight cells of the register, `b0` at the low end. Bit `k` of a byte is cell `bk`. */
  datatype Reg = Reg(b0: bool, b1: bool, b2: bool, b3: bool, b4: bool, b5: bool, b6: bool, b7: bool)

  const ZERO: Reg := Reg(false, false, false, false, false, false, false, false)

  function Load(b: u8): Reg {
    Reg(b & 1 != 0, b & 2 != 0, b & 4 != 0, b & 8 != 0,
        b & 16 != 0, b & 32 != 0, b & 64 != 0, b & 128 != 0)
  }

  function Store(r: Reg): u8 {
    (if r.b0 then 1 else 0) | (if r.b1 then 2 else 0) | (if r.b2 then 4 else 0) | (if r.b3 then 8 else 0) |
    (if r.b4 then 16 else 0) | (if r.b5 then 32 else 0) | (if r.b6 then 64 else 0) | (if r.b7 then 128 else 0)
  }

  lemma StoreThenLoad(r: Reg)
    ensures Load(Store(r)) == r
  {
  }

  lemma LoadThenStore(b: u8)
    ensures Store(Load(b)) == b
  {
  }

  /** One clock of the register when the incoming bit is zero: the polynomial 0x8C, reflected. */
  function Shift(r: Reg): Reg {
    Reg(r.b1, r.b2, r.b3 != r.b0, r.b4 != r.b0, r.b5, r.b6, r.b7, r.b0)
  }

  /** One clock of the register: the incoming bit is added to the low end first. */
  function BitIn(r: Reg, bit: bool): Reg {
    Shift(r.(b0 := r.b0 != bit))
  }

  /** The register after a whole bit string went in. */
  function Feed(r: Reg, bits: seq<bool>): Reg
    decreases |bits|
  {
    if bits == [] then r else Feed(BitIn(r, bits[0]), bits[1..])
  }

  function Cells(r: Reg): (bits: seq<bool>)
    ensures |bits| == 8
  {
    [r.b0, r.b1, r.b2, r.b3, r.b4, r.b5, r.b6, r.b7]
  }

  /** A byte in wire order, least significant bit first. */
  function ByteBits(b: u8): (bits: seq<bool>)
    ensures |bits| == 8
  {
    Cells(Load(b))
  }

  function WireBits(data: seq<u8>): (bits: seq<bool>)
    ensures |bits| == 8 * |data|
  {
    if data == [] then [] else ByteBits(data[0]) + WireBits(data[1..])
  }

  /** The checksum of `data`: the register left behind by its wire bits. */
  function Checksum(data: seq<u8>): u8 {
    Store(Feed(ZERO, WireBits(data)))
  }

  lemma {:induction false} FeedConcat(r: Reg, a: seq<bool>, b: seq<bool>)
    ensures Feed(r, a + b) == Feed(Feed(r, a), b)
    decreases |a|
  {
    if a == [] {
      assert a + b == b;
    } else {
      assert (a + b)[1..] == a[1..] + b;
      FeedConcat(BitIn(r, a[0]), a[1..], b);
    }
  }

  lemma {:induction false} WireBitsConcat(a: seq<u8>, b: seq<u8>)
    ensures WireBits(a + b) == WireBits(a) + WireBits(b)
  {
    if a == [] {
      assert a + b == b;
    } else {
      assert (a + b)[1..] == a[1..] + b;
      WireBitsConcat(a[1..], b);
    }
  }

  lemma {:induction false} FeedUnfold(r: Reg, bits: seq<bool>)
    requires bits != []
    ensures Feed(r, bits) == Feed(BitIn(r, bits[0]), bits[1..])
  {
  }

  lemma CellsTail(r: Reg, q: Reg, n: nat)
    requires 0 < n <= 8 && q == Reg(r.b1, r.b2, r.b3, r.b4, r.b5, r.b6, r.b7, false)
    ensures Cells(r)[..n][1..] == Cells(q)[..n - 1]
  {
  }

  /** What the three statements of the firmware's inner loop do to `crc` and `bits`. */
  function Clock(crc: u8, bits: u8): u8 {
    if (crc ^ bits) & 1 != 0 then (crc >> 1) ^ 0x8C else crc >> 1
  }

  lemma ClockIsBitIn(crc: u8, bits: u8)
    ensures Load(Clock(crc, bits)) == BitIn(Load(crc), Load(bits).b0)
  {
  }

  lemma HalvedCells(b: u8)
    ensures Load(b >> 1) == var r := Load(b); Reg(r.b1, r.b2, r.b3, r.b4, r.b5, r.b6, r.b7, false)
  {
  }

  function ClockN(crc: u8, bits: u8, n: nat): u8
    decreases n
  {
    if n == 0 then crc else ClockN(Clock(crc, bits), bits >> 1, n - 1)
  }

  /** Clocking `n` times feeds the register the lowest `n` bits. */
  lemma {:induction false} ClockNFeeds(crc: u8, bits: u8, n: nat)
    requires n <= 8
    ensures Load(ClockN(crc, bits, n)) == Feed(Load(crc), ByteBits(bits)[..n])
    decreases n
  {
    if n != 0 {
      ClockNFeeds(Clock(crc, bits), bits >> 1, n - 1);
      ClockIsBitIn(crc, bits);
      HalvedCells(bits);
      CellsTail(Load(bits), Load(bits >> 1), n);
      FeedUnfold(Load(crc), ByteBits(bits)[..n]);
    }
  }

  /** One more byte at the far end is eight more clocks. */
  lemma {:induction false} ChecksumOfOneMore(data: seq<u8>, b: u8)
    ensures Checksum(data + [b]) == ClockN(Checksum(data), b, 8)
  {
    var r := Feed(ZERO, WireBits(data));
    WireBitsConcat(data, [b]);
    assert WireBits([b]) == ByteBits(b) + WireBits([b][1..]) == ByteBits(b);
    FeedConcat(ZERO, WireBits(data), ByteBits(b));
    assert Load(Checksum(data)) == r by { StoreThenLoad(r); }
    assert ByteBits(b)[..8] == ByteBits(b);
    ClockNFeeds(Checksum(data), b, 8);
    LoadThenStore(ClockN(Checksum(data), b, 8));
  }

  lemma ChecksumOfNothing()
    ensures Checksum([]) == 0
  {
  }

  method Crc8(data: seq<u8>) returns (crc: u8)
    ensures crc == Checksum(data)
  {
    crc := 0;
    ChecksumOfNothing();
    for n := 0 to |data|
      invariant crc == Checksum(data[..n])
    {
      ghost var start := crc;
      var bits := data[n];
      for i := 0 to 8
        invariant ClockN(crc, bits, 8 - i) == ClockN(start, data[n], 8)
      {
        var mix := (crc ^ bits) & 1;
        crc := crc >> 1;
        if mix != 0 {
          crc := crc ^ 0x8C;
        }
        bits := bits >> 1;
      }
      ChecksumOfOneMore(data[..n], data[n]);
      assert data[..n + 1] == data[..n] + [data[n]];
    }
    assert data[..|data|] == data;
  }
}
