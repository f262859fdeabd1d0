/** What the checksum does not cover: errors in START and LEN. The checksum is taken over as many bytes
    as LEN says, so a corrupted LEN is caught only if the bytes where it puts the trailer are no trailer. */
module LengthErrors {
  import opened Crc
  import opened UcPack
  import opened Protocol
  import opened CrcDetection

  /** A frame whose LEN byte arrives as `length`. */
  function Relabelled(code: u8, payload: seq<u8>, length: u8): (f: seq<u8>)
    requires |payload| <= PAYLOAD_MAX
    ensures |f| == |payload| + 5
  {
    EncodeFrame(code, payload)[1 := length]
  }

  /** Whatever arrives behind START: LEN alone decides where the trailer is looked for. */
  lemma LengthDecides(s: seq<u8>)
    requires |s| >= 2 && s[0] == START
    ensures var n := Value(s[1]);
      if n == 0 || n > PAYLOAD_MAX + 1 then Head(s) == Drop
      else if |s| < n + 4 then Head(s) == Wait
      else if s[n + 2] == END && s[n + 3] == Checksum(s[2..n + 2])
      then Head(s) == Emit(MakeFrame(s[2], s[3..n + 2]), n + 4)
      else Head(s) == Drop
  {
    var n := Value(s[1]);
    if 1 <= n <= PAYLOAD_MAX + 1 && n + 4 <= |s| {
      JudgeFrame(s, n, s[2..n + 2]);
      WindowParts(s, n);
    }
  }

  /** A sent frame whose LEN arrives as `length`, with enough bytes behind it, is popped as a frame if and
      only if the length is plausible and END and the checksum stand where it puts them. */
  lemma LengthErrorVerdict(code: u8, payload: seq<u8>, length: u8, after: seq<u8>)
    requires |payload| <= PAYLOAD_MAX
    requires |payload| + 5 + |after| >= Value(length) + 4
    ensures var s, n := Relabelled(code, payload, length) + after, Value(length);
      Head(s).Emit? <==> 1 <= n <= PAYLOAD_MAX + 1 && s[n + 2] == END && s[n + 3] == Checksum(s[2..n + 2])
  {
    hide Checksum, Value;
    LengthDecides(Relabelled(code, payload, length) + after);
  }

  /** Positions of a frame whose LEN arrived too small. */
  lemma InsideRelabelled(code: u8, payload: seq<u8>, length: u8, after: seq<u8>, n: nat, s: seq<u8>)
    requires |payload| <= PAYLOAD_MAX && 1 <= n <= |payload|
    requires s == Relabelled(code, payload, length) + after
    ensures |s| >= n + 4 && s[0] == START && s[1] == length && s[2] == code
    ensures s[2..n + 2] == [code] + payload[..n - 1] && s[3..n + 2] == payload[..n - 1]
    ensures s[n + 2] == payload[n - 1] && s[n + 3] == (if n < |payload| then payload[n] else END)
  {
    hide Checksum;
    var f := EncodeFrame(code, payload);
    assert forall k :: 0 <= k < |payload| ==> f[3 + k] == payload[k];
    assert s[3..n + 2] == payload[..n - 1];
    assert s[2..n + 2] == [s[2]] + s[3..n + 2];
  }

  /** A LEN that arrives too small passes if and only if the payload holds END where the shorter frame ends,
      and behind it the checksum of what comes before. What follows the frame does not matter. */
  lemma ShorterLengthExactly(code: u8, payload: seq<u8>, length: u8, after: seq<u8>)
    requires |payload| <= PAYLOAD_MAX && 1 <= Value(length) <= |payload|
    ensures var s, n := Relabelled(code, payload, length) + after, Value(length);
      Head(s) == (if payload[n - 1] == END
                     && (if n < |payload| then payload[n] else END) == Checksum([code] + payload[..n - 1])
                  then Emit(MakeFrame(code, payload[..n - 1]), n + 4) else Drop)
  {
    hide Checksum, Head, Value, EncodeFrame;
    var s, n := Relabelled(code, payload, length) + after, Value(length);
    InsideRelabelled(code, payload, length, after, n, s);
    LengthDecides(s);
  }

  /** So a payload without an END byte survives every LEN that arrives too small. */
  lemma EndFreePayloadIsSafe(code: u8, payload: seq<u8>, length: u8, after: seq<u8>)
    requires |payload| <= PAYLOAD_MAX && Value(length) <= |payload| && END !in payload
    ensures Head(Relabelled(code, payload, length) + after) == Drop
  {
    if Value(length) == 0 {
      LengthDecides(Relabelled(code, payload, length) + after);
    } else {
      ShorterLengthExactly(code, payload, length, after);
    }
  }

  /** The eight bytes with one bit set. */
  predicate OneBit(mask: u8) {
    mask == 1 || mask == 2 || mask == 4 || mask == 8 || mask == 16 || mask == 32 || mask == 64 || mask == 128
  }

  lemma FlippedValue(length: u8, mask: u8)
    requires OneBit(mask)
    ensures Value(mask) > 0
    ensures length & mask != 0 ==> Value(length ^ mask) + Value(mask) == Value(length)
    ensures length & mask == 0 ==> Value(length ^ mask) == Value(length) + Value(mask)
  {
    BitOfXor(length, mask, 1);
    BitOfXor(length, mask, 2);
    BitOfXor(length, mask, 4);
    BitOfXor(length, mask, 8);
    BitOfXor(length, mask, 16);
    BitOfXor(length, mask, 32);
    BitOfXor(length, mask, 64);
    BitOfXor(length, mask, 128);
    if mask == 1 {} else if mask == 2 {} else if mask == 4 {} else if mask == 8 {}
    else if mask == 16 {} else if mask == 32 {} else if mask == 64 {}
  }

  /** Clearing a bit of LEN makes the frame shorter, and it is judged inside itself. */
  lemma ClearedLengthBit(code: u8, payload: seq<u8>, sent: u8, mask: u8, after: seq<u8>)
    requires |payload| <= PAYLOAD_MAX && sent == EncodeFrame(code, payload)[1]
    requires OneBit(mask) && sent & mask != 0
    ensures var n := Value(sent ^ mask);
      && n <= |payload|
      && (Head(Relabelled(code, payload, sent ^ mask) + after).Emit? <==>
            (n > 0 && payload[n - 1] == END
             && (if n < |payload| then payload[n] else END) == Checksum([code] + payload[..n - 1])))
  {
    hide Checksum, Head, Value;
    EncodedFields(code, payload);
    FlippedValue(sent, mask);
    ShorterPassesIff(code, payload, sent ^ mask, after);
  }

  lemma ShorterPassesIff(code: u8, payload: seq<u8>, length: u8, after: seq<u8>)
    requires |payload| <= PAYLOAD_MAX && Value(length) <= |payload|
    ensures var n := Value(length);
      Head(Relabelled(code, payload, length) + after).Emit? <==>
        (n > 0 && payload[n - 1] == END
         && (if n < |payload| then payload[n] else END) == Checksum([code] + payload[..n - 1]))
  {
    hide Checksum, Head, Value;
    if Value(length) > 0 {
      ShorterLengthExactly(code, payload, length, after);
    } else {
      LengthDecides(Relabelled(code, payload, length) + after);
    }
  }

  /** Setting a bit makes it longer: implausibly long and dropped, or judged by the bytes behind the frame. */
  lemma SetLengthBit(code: u8, payload: seq<u8>, sent: u8, mask: u8, after: seq<u8>)
    requires |payload| <= PAYLOAD_MAX && sent == EncodeFrame(code, payload)[1]
    requires OneBit(mask) && sent & mask == 0
    ensures var s, n := Relabelled(code, payload, sent ^ mask) + after, Value(sent ^ mask);
      && n > 1 + |payload|
      && (Head(s).Emit? <==>
            (n <= PAYLOAD_MAX + 1 && |s| >= n + 4 && s[n + 2] == END && s[n + 3] == Checksum(s[2..n + 2])))
  {
    hide Checksum, Head, Value;
    EncodedFields(code, payload);
    FlippedValue(sent, mask);
    LengthDecides(Relabelled(code, payload, sent ^ mask) + after);
  }

  /** An instance a caller can send: gains for the left wheel whose second gain starts with END and the
      checksum of what stands in front of it. One flipped bit of LEN, 14 to 6, and the decoder pops another
      frame, whatever follows. */
  lemma FlippedGainsArePopped(kp: F32, x: u8, y: u8, kd: F32, after: seq<u8>)
    ensures var front := [0x4C] + kp.Bytes();
      var gains := SetPidGains(Left, kp, F32(END, Checksum([0x50] + front), x, y), kd);
      && Encode(gains)[1] == 14 && 14 ^ 0x08 == 6 as u8
      && Head(Encode(gains)[1 := 14 ^ 0x08] + after) == Emit(MakeFrame(0x50, front), 10)
  {
    var front := [0x4C] + kp.Bytes();
    var gains := SetPidGains(Left, kp, F32(END, Checksum([0x50] + front), x, y), kd);
    var payload := Payload(gains);
    hide Checksum;
    assert payload[..5] == front;
    ShorterLengthExactly(0x50, payload, 6, after);
  }

  /** Any error in START is caught on the spot. */
  lemma StartErrorIsDropped(code: u8, payload: seq<u8>, start: u8, after: seq<u8>)
    requires |payload| <= PAYLOAD_MAX && start != START
    ensures Head(EncodeFrame(code, payload)[0 := start] + after) == Drop
  {
  }
}
