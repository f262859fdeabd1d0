/** The ucPack frame codec: the scratch-buffer encoder, the streaming decoder, and
    the pure scanner the decoder is proved to compute. */
module UcPack {
  import opened Wrappers
  import opened Crc

  const START: u8 := 0x41
  const END: u8 := 0x23

  const PAYLOAD_MAX: nat := 24
  const FRAME_MAX: nat := PAYLOAD_MAX + 5
  const CAP: nat := 256

  /** A float as the wire carries it: four bytes, little endian. */
  datatype F32 = F32(b0: u8, b1: u8, b2: u8, b3: u8)
  {
    function Bytes(): (s: seq<u8>)
      ensures |s| == 4
    {
      [b0, b1, b2, b3]
    }
  }

  /** A signed 16-bit count as the wire carries it. */
  datatype I16 = I16(lo: u8, hi: u8)

  /** A decoded frame. The payload array always has PAYLOAD_MAX bytes, zero beyond `len`. */
  datatype Frame = Frame(code: u8, payload: seq<u8>, len: nat)
  {
    ghost predicate Valid() {
      |payload| == PAYLOAD_MAX && len <= PAYLOAD_MAX && payload[len..] == seq(PAYLOAD_MAX - len, _ => 0)
    }

    function Payload(): seq<u8>
      requires len <= |payload|
    {
      payload[..len]
    }

    function U8(offset: nat): u8
      requires offset < |payload|
    {
      payload[offset]
    }

    function Int16(offset: nat): I16
      requires offset + 1 < |payload|
    {
      I16(payload[offset], payload[offset + 1])
    }

    function Float(offset: nat): F32
      requires offset + 3 < |payload|
    {
      F32(payload[offset], payload[offset + 1], payload[offset + 2], payload[offset + 3])
    }
  }

  function MakeFrame(code: u8, payload: seq<u8>): (f: Frame)
    requires |payload| <= PAYLOAD_MAX
    ensures f.Valid() && f.code == code && f.Payload() == payload
  {
    Frame(code, payload + seq(PAYLOAD_MAX - |payload|, _ => 0), |payload|)
  }

  // ---- the wire format ----------------------------------------------------

  function EncodeFrame(code: u8, payload: seq<u8>): seq<u8>
    requires |payload| <= PAYLOAD_MAX
  {
    [START, (1 + |payload|) as u8, code] + payload + [END, Checksum([code] + payload)]
  }

  lemma EncodedBytes(code: u8, payload: seq<u8>, frame: seq<u8>)
    requires |payload| <= PAYLOAD_MAX && |frame| == |payload| + 5
    requires frame[0] == START && frame[1] == (1 + |payload|) as u8 && frame[2] == code
    requires frame[3..3 + |payload|] == payload
    requires frame[3 + |payload|] == END && frame[4 + |payload|] == Checksum([code] + payload)
    ensures frame == EncodeFrame(code, payload)
  {
    assert frame == frame[..3] + frame[3..3 + |payload|] + frame[3 + |payload|..];
  }

  /** The END byte and the checksum of a window CODE, payload, END, CRC. */
  predicate TrailerOk(window: seq<u8>)
    requires |window| >= 2
  {
    var n := |window| - 2;
    window[n] == END && window[n + 1] == Checksum(window[..n])
  }

  /** The value of a byte, bit by bit: the solver is slow on the conversion itself. */
  function Value(b: u8): (n: nat)
    ensures n < 256
  {
    (if b & 1 != 0 then 1 else 0) + (if b & 2 != 0 then 2 else 0) + (if b & 4 != 0 then 4 else 0)
    + (if b & 8 != 0 then 8 else 0) + (if b & 16 != 0 then 16 else 0) + (if b & 32 != 0 then 32 else 0)
    + (if b & 64 != 0 then 64 else 0) + (if b & 128 != 0 then 128 else 0)
  }

  lemma ValueIsTheNumber(b: u8)
    ensures Value(b) == b as nat
  {
  }

  lemma LengthByte(n: nat)
    requires n < 32
    ensures Value(n as u8) == n
  {
    ValueIsTheNumber(n as u8);
    if n < 16 {
      if n < 8 {} else {}
    } else {
      if n < 24 {} else {}
    }
  }

  lemma LengthByteBack(b: u8, n: nat)
    requires Value(b) == n < 32
    ensures n as u8 == b
  {
    ValueIsTheNumber(b);
  }

  lemma TrailerOfParts(covered: seq<u8>, crc: u8)
    ensures (covered + [END, crc])[..|covered|] == covered
    ensures TrailerOk(covered + [END, crc]) <==> crc == Checksum(covered)
  {
    var window := covered + [END, crc];
    assert window[..|covered|] == covered;
    assert |window| - 2 == |covered| && window[|covered|] == END && window[|covered| + 1] == crc;
  }

  /** The fields of an encoded frame, by position. */
  lemma EncodedFields(code: u8, payload: seq<u8>)
    requires |payload| <= PAYLOAD_MAX
    ensures var f := EncodeFrame(code, payload);
            && |f| == |payload| + 5 && f[0] == START && Value(f[1]) == 1 + |payload|
            && f[2..3 + |payload|] == [code] + payload && TrailerOk(f[2..])
  {
    hide Checksum, Value;
    LengthByte(1 + |payload|);
    var f, covered := EncodeFrame(code, payload), [code] + payload;
    assert f[2..] == covered + [END, Checksum(covered)];
    TrailerOfParts(covered, Checksum(covered));
    assert f[2..3 + |payload|] == f[2..][..|covered|];
  }

  /** What the decoder decides about the front of its buffer. */
  datatype Verdict = Wait | Drop | Emit(frame: Frame, total: nat)

  function Head(s: seq<u8>): (v: Verdict)
    ensures v.Emit? ==> 6 <= v.total + 1 <= |s| + 1 && v.total <= FRAME_MAX
    ensures v == Drop ==> s != []
    ensures v == Wait ==> |s| < FRAME_MAX
  {
    if |s| == 0 then Wait
    else if s[0] != START then Drop
    else if |s| < 2 then Wait
    else
      var length := Value(s[1]);
      if length == 0 || length - 1 > PAYLOAD_MAX then Drop
      else if |s| < length + 4 then Wait
      else if !TrailerOk(s[2..length + 4]) then Drop
      else Emit(MakeFrame(s[2], s[3..2 + length]), length + 4)
  }

  /** Scan to the next frame: it, or None, and the bytes left over. */
  function Next(s: seq<u8>): (r: (Option<Frame>, seq<u8>))
    ensures r.0.Some? ==> |r.1| < |s|
    decreases |s|
  {
    match Head(s)
    case Wait => (None, s)
    case Drop => Next(s[1..])
    case Emit(frame, total) => (Some(frame), s[total..])
  }

  /** All frames of a byte stream in order, and the residue still waiting for more bytes. */
  function Scan(s: seq<u8>): (r: (seq<Frame>, seq<u8>))
    ensures |r.1| <= |s| && |r.1| < FRAME_MAX
    decreases |s|
  {
    match Head(s)
    case Wait => ([], s)
    case Drop => Scan(s[1..])
    case Emit(frame, total) => var rest := Scan(s[total..]); ([frame] + rest.0, rest.1)
  }

  /** Scanning is popping until nothing comes. */
  lemma {:induction false} ScanIsRepeatedNext(s: seq<u8>)
    ensures var n := Next(s);
            Scan(s) == if n.0.None? then ([], n.1) else ([n.0.value] + Scan(n.1).0, Scan(n.1).1)
    decreases |s|
  {
    if Head(s) == Drop {
      ScanIsRepeatedNext(s[1..]);
    }
  }

  /** The two comparisons the decoder makes, as positions in its buffer, decide the verdict. */
  lemma JudgeFrame(s: seq<u8>, length: nat, covered: seq<u8>)
    requires 1 <= length <= PAYLOAD_MAX + 1 && length + 4 <= |s| && s[0] == START && Value(s[1]) == length
    requires covered == s[2..2 + length]
    ensures Head(s) == if s[length + 2] == END && s[length + 3] == Checksum(covered)
                       then Emit(MakeFrame(s[2], covered[1..]), length + 4) else Drop
  {
    WindowParts(s, length);
    var window := s[2..length + 4];
    assert |window| - 2 == length;
    assert TrailerOk(window) <==> s[length + 2] == END && s[length + 3] == Checksum(covered);
  }

  lemma WindowParts(s: seq<u8>, length: nat)
    requires 1 <= length && length + 4 <= |s|
    ensures s[2..length + 4][..length] == s[2..2 + length]
    ensures s[2..length + 4][length] == s[length + 2] && s[2..length + 4][length + 1] == s[length + 3]
    ensures s[2..2 + length][1..] == s[3..2 + length]
  {
  }

  function LastBytes(s: seq<u8>, n: nat): seq<u8> {
    if |s| <= n then s else s[|s| - n..]
  }

  // ---- the encoder --------------------------------------------------------

  lemma CodeAndPayload(s: seq<u8>, code: u8, payload: seq<u8>)
    requires |s| >= 3 + |payload| && s[2] == code
    requires forall k :: 0 <= k < |payload| ==> s[3 + k] == payload[k]
    ensures s[2..3 + |payload|] == [code] + payload && s[3..3 + |payload|] == payload
  {
    assert s[3..3 + |payload|] == payload;
    assert s[2..3 + |payload|] == [s[2]] + s[3..3 + |payload|];
  }

  class Encoder {
    const buf: array<u8>

    ghost predicate Valid() { buf.Length == FRAME_MAX }

    constructor ()
      ensures Valid() && fresh(buf)
    {
      buf := new u8[FRAME_MAX](_ => 0);
    }

    method EncodeInto(code: u8, payload: seq<u8>) returns (frame: seq<u8>)
      requires Valid() && |payload| <= PAYLOAD_MAX
      modifies buf
      ensures frame == buf[..|payload| + 5] == EncodeFrame(code, payload)
    {
      var len := 1 + |payload|;
      buf[0] := START;
      buf[1] := len as u8;
      buf[2] := code;
      forall k | 0 <= k < |payload| {
        buf[3 + k] := payload[k];
      }
      buf[2 + len] := END;
      CodeAndPayload(buf[..], code, payload);
      var crc := Crc8(buf[2..2 + len]);
      buf[3 + len] := crc;
      frame := buf[..len + 4];
      CodeAndPayload(frame, code, payload);
      EncodedBytes(code, payload, frame);
    }

    method C1B(code: u8, a: u8) returns (frame: seq<u8>)
      requires Valid()
      modifies buf
      ensures frame == EncodeFrame(code, [a])
    {
      frame := EncodeInto(code, [a]);
    }

    method C2B(code: u8, a: u8, b: u8) returns (frame: seq<u8>)
      requires Valid()
      modifies buf
      ensures frame == EncodeFrame(code, [a, b])
    {
      frame := EncodeInto(code, [a, b]);
    }

    method C1F(code: u8, a: F32) returns (frame: seq<u8>)
      requires Valid()
      modifies buf
      ensures frame == EncodeFrame(code, a.Bytes())
    {
      frame := EncodeInto(code, a.Bytes());
    }

    method C2F(code: u8, a: F32, b: F32) returns (frame: seq<u8>)
      requires Valid()
      modifies buf
      ensures frame == EncodeFrame(code, a.Bytes() + b.Bytes())
    {
      frame := EncodeInto(code, a.Bytes() + b.Bytes());
    }

    method C3F(code: u8, a: F32, b: F32, c: F32) returns (frame: seq<u8>)
      requires Valid()
      modifies buf
      ensures frame == EncodeFrame(code, a.Bytes() + b.Bytes() + c.Bytes())
    {
      frame := EncodeInto(code, a.Bytes() + b.Bytes() + c.Bytes());
    }

    method C1B3F(code: u8, a: u8, x: F32, y: F32, z: F32) returns (frame: seq<u8>)
      requires Valid()
      modifies buf
      ensures frame == EncodeFrame(code, [a] + x.Bytes() + y.Bytes() + z.Bytes())
    {
      frame := EncodeInto(code, [a] + x.Bytes() + y.Bytes() + z.Bytes());
    }

    method C2B1F(code: u8, a: u8, b: u8, x: F32) returns (frame: seq<u8>)
      requires Valid()
      modifies buf
      ensures frame == EncodeFrame(code, [a, b] + x.Bytes())
    {
      frame := EncodeInto(code, [a, b] + x.Bytes());
    }
  }

  lemma PrefixSlice(a: array<u8>, len: nat, from: nat, to: nat)
    requires from <= to <= len <= a.Length
    ensures a[from..to] == a[..len][from..to]
  {
  }

  lemma DropOneMore(s: seq<u8>, byte: u8)
    requires |s| <= CAP
    ensures LastBytes(s + [byte], CAP) == (if |s| == CAP then s[1..] else s) + [byte]
  {
  }

  lemma PushedLast(a: array<u8>, len: nat, byte: u8)
    requires 0 < len <= a.Length && a[len - 1] == byte
    ensures a[..len] == a[..len - 1] + [byte]
  {
  }

  // ---- the decoder --------------------------------------------------------

  class Decoder {
    const buf: array<u8>
    var len: nat

    ghost predicate Valid()
      reads this
    {
      buf.Length == CAP && len <= CAP
    }

    ghost function Bytes(): seq<u8>
      requires Valid()
      reads this, buf
    {
      buf[..len]
    }

    constructor ()
      ensures Valid() && fresh(buf) && Bytes() == []
    {
      buf := new u8[CAP](_ => 0);
      len := 0;
    }

    method DropFront(n: nat)
      requires Valid() && n <= len
      modifies this, buf
      ensures Valid() && Bytes() == old(Bytes())[n..]
    {
      forall k | 0 <= k < len - n {
        buf[k] := buf[k + n];
      }
      len := len - n;
    }

    method Append(byte: u8)
      requires Valid() && len < CAP
      modifies this, buf
      ensures Valid() && Bytes() == old(Bytes()) + [byte]
    {
      ghost var kept := buf[..len];
      buf[len] := byte;
      assert buf[..len] == kept;
      len := len + 1;
      PushedLast(buf, len, byte);
    }

    method Push(byte: u8)
      requires Valid()
      modifies this, buf
      ensures Valid() && Bytes() == LastBytes(old(Bytes()) + [byte], CAP)
      ensures Bytes() == (if |old(Bytes())| == 256 then old(Bytes())[1..] else old(Bytes())) + [byte]
    {
      ghost var was := Bytes();
      DropOneMore(was, byte);
      if len == CAP {
        DropFront(1);
      }
      Append(byte);
    }

    method Extend(bytes: seq<u8>)
      requires Valid()
      modifies this, buf
      ensures Valid() && Bytes() == LastBytes(old(Bytes()) + bytes, CAP)
      ensures var all := old(Bytes()) + bytes; Bytes() == if |all| <= 256 then all else all[|all| - 256..]
    {
      for k := 0 to |bytes|
        invariant Valid() && Bytes() == LastBytes(old(Bytes()) + bytes[..k], CAP)
      {
        Push(bytes[k]);
        assert old(Bytes()) + bytes[..k + 1] == (old(Bytes()) + bytes[..k]) + [bytes[k]];
      }
      assert bytes[..|bytes|] == bytes;
    }

    /** The END byte and the checksum of the frame at the front, compared in place. */
    method TrailerHolds(lenField: nat) returns (ok: bool)
      requires Valid() && 1 <= lenField <= PAYLOAD_MAX + 1 && lenField + 4 <= len
      requires buf[0] == START && Value(buf[1]) == lenField
      ensures Head(Bytes()) == if ok then Emit(MakeFrame(buf[2], Bytes()[3..lenField + 2]), lenField + 4) else Drop
    {
      hide Checksum, Value, Head;
      ghost var s := Bytes();
      var endOk := buf[lenField + 2] == END;
      var covered := buf[2..2 + lenField];
      PrefixSlice(buf, len, 2, 2 + lenField);
      var crc := Crc8(covered);
      var crcOk := buf[lenField + 3] == crc;
      JudgeFrame(s, lenField, covered);
      WindowParts(s, lenField);
      ok := endOk && crcOk;
    }

    /** What to do about the front of the buffer: a START, a plausible length, all the bytes, a good trailer. */
    method Judge() returns (verdict: Verdict)
      requires Valid()
      ensures verdict == Head(Bytes())
    {
      if len == 0 {
        return Wait;
      }
      if buf[0] != START {
        return Drop;
      }
      if len < 2 {
        return Wait;
      }
      var lenField := Value(buf[1]);
      if lenField == 0 || lenField - 1 > PAYLOAD_MAX {
        return Drop;
      }
      var total := lenField + 4;
      if len < total {
        return Wait;
      }
      var ok := TrailerHolds(lenField);
      if !ok {
        return Drop;
      }
      PrefixSlice(buf, len, 3, total - 2);
      return Emit(MakeFrame(buf[2], buf[3..total - 2]), total);
    }

    method Pop() returns (frame: Option<Frame>)
      requires Valid()
      modifies this, buf
      ensures Valid() && (frame, Bytes()) == Next(old(Bytes()))
    {
      ghost var goal := Next(Bytes());
      while true
        invariant Valid() && Next(Bytes()) == goal
        decreases len
      {
        var verdict := Judge();
        match verdict {
          case Wait =>
            return None;
          case Drop =>
            DropFront(1);
          case Emit(found, total) =>
            DropFront(total);
            return Some(found);
        }
      }
    }
  }
}
