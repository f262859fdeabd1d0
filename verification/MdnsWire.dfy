/** Reading DNS messages: cursor arithmetic over arbitrary bytes, and the two name walkers. */
module MdnsWire {
  import opened Wrappers

  type Octet = x: int | 0 <= x < 256

  /** `local`, the second label of every name here. */
  const LOCAL: seq<Octet> := [0x6C, 0x6F, 0x63, 0x61, 0x6C]

  const TYPE_A: nat := 1
  const CLASS_IN: nat := 1

  /** The top two bits of a length octet: both set in a compression pointer, both clear in a label length. */
  predicate IsPointer(l: Octet) { l >= 192 }

  predicate IsLength(l: Octet) { l < 64 }

  /** The two comparisons are the masks with 0xC0. */
  lemma TopBits(b: bv8)
    ensures (b & 0xC0 == 0xC0 <==> b as int >= 192) && (b & 0xC0 == 0 <==> (b as int) < 64)
  {
  }

  /** A class without the unicast or cache-flush bit on top of it. */
  function ClassOf(c: nat): nat { if c >= 0x8000 then c - 0x8000 else c }

  /** Two octets, big endian. */
  function Be16(hi: Octet, lo: Octet): (v: nat)
    ensures v < 0x10000
  {
    (hi as int) * 256 + lo as int
  }

  /** A value, or None past the end of the buffer, and where the cursor is left. */
  datatype Taken<+T> = Taken(value: Option<T>, pos: nat)

  function TakeU8(buf: seq<Octet>, pos: nat): Taken<Octet> {
    if pos < |buf| then Taken(Some(buf[pos]), pos + 1) else Taken(None, pos)
  }

  /** Both octets or nothing; a lone last octet is consumed on the way to None. */
  function TakeU16(buf: seq<Octet>, pos: nat): Taken<nat> {
    if pos + 2 <= |buf| then Taken(Some(Be16(buf[pos], buf[pos + 1])), pos + 2)
    else Taken(None, if pos < |buf| then |buf| else pos)
  }

  /** Skipping moves the cursor even when that takes it past the end. */
  function TakeSkip(buf: seq<Octet>, pos: nat, n: nat): Taken<()> {
    Taken(if pos + n <= |buf| then Some(()) else None, pos + n)
  }

  /** Past a name: labels up to a zero octet, or up to a compression pointer. Other length octets are reserved. */
  function SkipName(buf: seq<Octet>, pos: nat): (r: Taken<()>)
    ensures r.value.Some? ==> pos < r.pos <= |buf|
    decreases |buf| - pos
  {
    var l := TakeU8(buf, pos);
    if l.value == None then Taken(None, l.pos)
    else if IsPointer(l.value.value) then
      var second := TakeU8(buf, l.pos);
      Taken(if second.value == None then None else Some(()), second.pos)
    else if IsLength(l.value.value) then
      if l.value.value == 0 then Taken(Some(()), l.pos)
      else
        var s := TakeSkip(buf, l.pos, l.value.value);
        if s.value == None then Taken(None, s.pos) else SkipName(buf, s.pos)
    else Taken(None, l.pos)
  }

  // ---- comparing names ----------------------------------------------------

  function Lower(b: Octet): Octet {
    if 0x41 <= b <= 0x5A then b + 0x20 else b
  }

  /** Equal up to ASCII case. */
  predicate SameText(a: seq<Octet>, b: seq<Octet>) {
    |a| == |b| && forall k :: 0 <= k < |a| ==> Lower(a[k]) == Lower(b[k])
  }

  /** Octet by octet: equal, or the same ASCII letter in the other case. */
  lemma SameTextExactly(a: seq<Octet>, b: seq<Octet>)
    ensures SameText(a, b) <==>
      |a| == |b| && forall k :: 0 <= k < |a| ==>
                      || a[k] == b[k]
                      || (0x41 <= a[k] <= 0x5A && b[k] == a[k] + 0x20)
                      || (0x61 <= a[k] <= 0x7A && b[k] == a[k] - 0x20)
  {
  }

  lemma LocalExactly(a: seq<Octet>)
    ensures SameText(a, LOCAL) <==>
      |a| == 5 && a[0] in {0x4C, 0x6C} && a[1] in {0x4F, 0x6F} && a[2] in {0x43, 0x63} && a[3] in {0x41, 0x61}
      && a[4] in {0x4C, 0x6C}
  {
    if |a| == 5 {
      assert LOCAL[0] == 0x6C && LOCAL[1] == 0x6F && LOCAL[2] == 0x63 && LOCAL[3] == 0x61 && LOCAL[4] == 0x6C;
    }
  }

  /** `usize::MAX`: once a label differed, no count of labels can match any more. */
  const POISON: nat := 0xFFFF_FFFF

  function Expected(label_: seq<Octet>, idx: nat): seq<Octet>
    requires idx < 2
  {
    if idx == 0 then label_ else LOCAL
  }

  function NextIdx(got: seq<Octet>, host: seq<Octet>, idx: nat): nat {
    if idx < 2 && SameText(got, Expected(host, idx)) then idx + 1 else POISON
  }

  /** Whether the walker matched, where it stopped, and whether it reached the end of a name
      rather than the end of the buffer. */
  datatype Walk = Walk(matched: bool, pos: nat, complete: bool)

  /** Compare the name at `pos` with `host`.local from the label numbered `idx` on, moving past it either way. */
  function NameMatches(buf: seq<Octet>, pos: nat, host: seq<Octet>, idx: nat): (w: Walk)
    ensures w.complete ==> pos < w.pos <= |buf|
    ensures !w.complete ==> !w.matched && |buf| <= w.pos
    decreases |buf| - pos
  {
    var l := TakeU8(buf, pos);
    if l.value == None then Walk(false, l.pos, false)
    else if IsPointer(l.value.value) then
      var second := TakeU8(buf, l.pos);
      Walk(false, second.pos, second.value.Some?)
    else if l.value.value == 0 then Walk(idx == 2, l.pos, true)
    else
      var n := l.value.value;
      var s := TakeSkip(buf, l.pos, n);
      if s.value == None then Walk(false, s.pos, false)
      else NameMatches(buf, s.pos, host, NextIdx(buf[l.pos..l.pos + n], host, idx))
  }

  lemma MatchOneMore(buf: seq<Octet>, pos: nat, host: seq<Octet>, idx: nat)
    requires pos < |buf| && !IsPointer(buf[pos]) && buf[pos] != 0 && pos + 1 + buf[pos] <= |buf|
    ensures NameMatches(buf, pos, host, idx)
            == NameMatches(buf, pos + 1 + buf[pos], host, NextIdx(buf[pos + 1..pos + 1 + buf[pos]], host, idx))
  {
  }

  lemma {:induction false} MatchStops(buf: seq<Octet>, pos: nat, host: seq<Octet>, idx: nat)
    ensures pos >= |buf| ==> NameMatches(buf, pos, host, idx) == Walk(false, pos, false)
    ensures pos < |buf| && IsPointer(buf[pos]) ==>
              NameMatches(buf, pos, host, idx) == Walk(false, TakeU8(buf, pos + 1).pos, pos + 1 < |buf|)
    ensures pos < |buf| && buf[pos] == 0 ==> NameMatches(buf, pos, host, idx) == Walk(idx == 2, pos + 1, true)
    ensures pos < |buf| && !IsPointer(buf[pos]) && pos + 1 + buf[pos] > |buf| ==>
              NameMatches(buf, pos, host, idx) == Walk(false, pos + 1 + buf[pos], false)
  {
  }

  lemma SkipNameOneMore(buf: seq<Octet>, pos: nat)
    requires pos < |buf| && IsLength(buf[pos]) && buf[pos] != 0 && pos + 1 + buf[pos] <= |buf|
    ensures SkipName(buf, pos) == SkipName(buf, pos + 1 + buf[pos])
  {
  }

  /** The two walkers agree: wherever skipping a name succeeds, matching stops at the same place. */
  lemma {:induction false} WalkersAgree(buf: seq<Octet>, pos: nat, host: seq<Octet>, idx: nat)
    requires SkipName(buf, pos).value.Some?
    ensures NameMatches(buf, pos, host, idx).complete && NameMatches(buf, pos, host, idx).pos == SkipName(buf, pos).pos
    decreases |buf| - pos
  {
    var n := buf[pos];
    if IsLength(n) && n != 0 {
      WalkersAgree(buf, pos + 1 + n, host, NextIdx(buf[pos + 1..pos + 1 + n], host, idx));
    }
  }

  /** No length octet on the way through the name at `pos` is one of the reserved ones, 64 to 191. */
  ghost predicate LengthsOnly(buf: seq<Octet>, pos: nat)
    decreases |buf| - pos
  {
    pos < |buf| && !IsPointer(buf[pos]) && buf[pos] != 0 ==>
      IsLength(buf[pos]) && LengthsOnly(buf, pos + 1 + buf[pos])
  }

  /** Where they part: a name that matching walks through is skipped if and only if it has no reserved
      length octet. Matching takes those for label lengths, skipping calls them malformed. */
  lemma {:induction false} WalkersPartOnReservedLengths(buf: seq<Octet>, pos: nat, host: seq<Octet>, idx: nat)
    ensures SkipName(buf, pos).value.Some? <==> NameMatches(buf, pos, host, idx).complete && LengthsOnly(buf, pos)
    decreases |buf| - pos
  {
    hide NextIdx;
    if pos < |buf| && !IsPointer(buf[pos]) && buf[pos] != 0 && pos + 1 + buf[pos] <= |buf| {
      var next := pos + 1 + buf[pos];
      var after := NextIdx(buf[pos + 1..next], host, idx);
      MatchOneMore(buf, pos, host, idx);
      WalkersPartOnReservedLengths(buf, next, host, after);
      if IsLength(buf[pos]) {
        SkipNameOneMore(buf, pos);
      }
    }
  }

  /** The bytes at `pos` spell `host`.local uncompressed, up to ASCII case. A length octet below
      192 is taken for a label length, as the walker does. */
  ghost predicate NameAt(buf: seq<Octet>, pos: nat, host: seq<Octet>) {
    var n := |host|;
    && 1 <= n < 192 && pos + n + 8 <= |buf|
    && buf[pos] == n && SameText(buf[pos + 1..pos + 1 + n], host)
    && buf[pos + 1 + n] == 5 && SameText(buf[pos + 2 + n..pos + 7 + n], LOCAL)
    && buf[pos + 7 + n] == 0
  }

  lemma {:induction false} PoisonNeverMatches(buf: seq<Octet>, pos: nat, host: seq<Octet>, idx: nat)
    requires idx > 2
    ensures !NameMatches(buf, pos, host, idx).matched
    decreases |buf| - pos
  {
    if pos < |buf| && !IsPointer(buf[pos]) && buf[pos] != 0 && pos + 1 + buf[pos] <= |buf| {
      PoisonNeverMatches(buf, pos + 1 + buf[pos], host, POISON);
    }
  }

  lemma {:induction false} MatchesAfterBoth(buf: seq<Octet>, pos: nat, host: seq<Octet>)
    ensures NameMatches(buf, pos, host, 2).matched <==> pos < |buf| && buf[pos] == 0
  {
    if pos < |buf| && !IsPointer(buf[pos]) && buf[pos] != 0 && pos + 1 + buf[pos] <= |buf| {
      PoisonNeverMatches(buf, pos + 1 + buf[pos], host, POISON);
    }
  }

  lemma {:induction false} MatchesLocal(buf: seq<Octet>, pos: nat, host: seq<Octet>)
    ensures NameMatches(buf, pos, host, 1).matched <==>
      pos + 7 <= |buf| && buf[pos] == 5 && SameText(buf[pos + 1..pos + 6], LOCAL) && buf[pos + 6] == 0
  {
    hide NameMatches;
    MatchStops(buf, pos, host, 1);
    if pos < |buf| && !IsPointer(buf[pos]) && buf[pos] != 0 && pos + 1 + buf[pos] <= |buf| {
      var next := pos + 1 + buf[pos];
      MatchOneMore(buf, pos, host, 1);
      if SameText(buf[pos + 1..next], LOCAL) {
        MatchesAfterBoth(buf, next, host);
      } else {
        PoisonNeverMatches(buf, next, host, POISON);
      }
    }
  }

  lemma {:induction false} MatchesSpelling(buf: seq<Octet>, pos: nat, host: seq<Octet>)
    ensures NameMatches(buf, pos, host, 0).matched <==> NameAt(buf, pos, host)
  {
    hide NameMatches;
    MatchStops(buf, pos, host, 0);
    if pos < |buf| && !IsPointer(buf[pos]) && buf[pos] != 0 && pos + 1 + buf[pos] <= |buf| {
      var next := pos + 1 + buf[pos];
      MatchOneMore(buf, pos, host, 0);
      if SameText(buf[pos + 1..next], host) {
        MatchesLocal(buf, next, host);
      } else {
        PoisonNeverMatches(buf, next, host, POISON);
      }
    }
  }

  /** On any bytes at all the walker matches exactly the uncompressed spelling of the name, octet by octet: the
      length, the host up to ASCII case, 5, `local` in either case, 0. */
  lemma {:induction false} MatchesExactly(buf: seq<Octet>, pos: nat, host: seq<Octet>)
    ensures NameMatches(buf, pos, host, 0).matched <==>
      var n := |host|;
      && 1 <= n < 192 && pos + n + 8 <= |buf| && buf[pos] == n
      && (forall k :: 0 <= k < n ==>
            var (a, b) := (buf[pos + 1 + k], host[k]);
            a == b || (0x41 <= a <= 0x5A && b == a + 0x20) || (0x61 <= a <= 0x7A && b == a - 0x20))
      && buf[pos + 1 + n] == 5
      && buf[pos + 2 + n] in {0x4C, 0x6C} && buf[pos + 3 + n] in {0x4F, 0x6F} && buf[pos + 4 + n] in {0x43, 0x63}
      && buf[pos + 5 + n] in {0x41, 0x61} && buf[pos + 6 + n] in {0x4C, 0x6C}
      && buf[pos + 7 + n] == 0
  {
    hide SameText, NameMatches;
    MatchesSpelling(buf, pos, host);
    var n := |host|;
    if pos + n + 8 <= |buf| {
      var got := buf[pos + 1..pos + 1 + n];
      SameTextExactly(got, host);
      assert forall k :: 0 <= k < n ==> got[k] == buf[pos + 1 + k];
      LocalExactly(buf[pos + 2 + n..pos + 7 + n]);
    }
  }

  /** So a host of 64 to 191 octets is matched in a name that skipping refuses. */
  lemma {:induction false} OversizedHostIsMatchedNotSkipped(buf: seq<Octet>, pos: nat, host: seq<Octet>)
    requires NameAt(buf, pos, host)
    ensures NameMatches(buf, pos, host, 0).matched
    ensures SkipName(buf, pos).value == None <==> |host| >= 64
  {
    MatchesSpelling(buf, pos, host);
    if |host| < 64 {
      var second := pos + 1 + |host|;
      assert SkipName(buf, second + 6).value.Some?;
      assert SkipName(buf, second).value.Some?;
    }
  }
}
