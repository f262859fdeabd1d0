/** Stack painting: the unused stack is filled with a sentinel at boot, and the high-water mark is read
    back later as the first word from the bottom that is no sentinel. Memory is an array of words, word
    `i` at byte address `4 * i`; the stack grows down. */
module Health {
  import opened Wrappers

  type Word = bv32

  const SENTINEL: Word := 0x5A5A_5A5A
  const GUARD_GAP := 256
  const PAINT_MARGIN := 1024
  const HEAP_GROWTH_NOISE := 256
  const LEAK_STREAK := 3
  const STACK_HEADROOM_WARN := 2 * 1024

  function SaturatingSub(a: nat, b: nat): nat {
    if a < b then 0 else a - b
  }

  /** The lowest word that is painted and scanned. */
  function FirstWord(stackLo: nat): nat {
    (stackLo + GUARD_GAP + 3) / 4
  }

  /** The word behind the last painted one. */
  function PaintEnd(sp: nat): nat {
    SaturatingSub(sp, PAINT_MARGIN) / 4
  }

  method PaintStack(words: array<Word>, stackLo: nat, sp: nat)
    requires sp <= 4 * words.Length
    modifies words
    ensures forall i :: 0 <= i < words.Length ==>
              words[i] == if FirstWord(stackLo) <= i < PaintEnd(sp) then SENTINEL else old(words[i])
    ensures forall i :: 0 <= i < words.Length ==>
              words[i] == if stackLo + 256 <= 4 * i && 4 * i + 4 <= sp - 1024 then 0x5A5A_5A5A else old(words[i])
  {
    var lo := (stackLo + GUARD_GAP + 3) / 4 * 4;
    var hi := SaturatingSub(sp, PAINT_MARGIN) / 4 * 4;
    if hi <= lo { return; }
    var p := lo;
    while p < hi
      invariant lo <= p <= hi && p % 4 == 0
      invariant forall i :: 0 <= i < words.Length ==>
                  words[i] == if FirstWord(stackLo) <= i < p / 4 then SENTINEL else old(words[i])
    {
      words[p / 4] := SENTINEL;
      p := p + 4;
    }
  }

  /** The first word from `from` on that is no sentinel, or the first one at or behind the end. */
  function Line(words: seq<Word>, from: nat, hi: nat): (line: nat)
    requires hi <= 4 * |words|
    ensures from <= line
    ensures forall i :: from <= i < line ==> 4 * i < hi && words[i] == SENTINEL
    ensures 4 * line < hi ==> words[line] != SENTINEL
    decreases hi - 4 * from
  {
    if 4 * from >= hi || words[from] != SENTINEL then from else Line(words, from + 1, hi)
  }

  /** The scan: how many bytes of sentinels stand from `scanLo` on. */
  method CountUntouched(words: array<Word>, scanLo: nat, stackHi: nat) returns (untouched: nat)
    requires stackHi <= 4 * words.Length && scanLo % 4 == 0
    ensures scanLo + untouched == 4 * Line(words[..], scanLo / 4, stackHi)
  {
    var p := scanLo;
    untouched := 0;
    while p < stackHi
      invariant p == scanLo + untouched && p % 4 == 0
      invariant Line(words[..], p / 4, stackHi) == Line(words[..], scanLo / 4, stackHi)
    {
      if words[p / 4] != SENTINEL { break; }
      untouched := untouched + 4;
      p := p + 4;
    }
  }

  method StackUsage(words: array<Word>, stackLo: nat, stackHi: nat) returns (total: nat, peakUsed: nat, headroom: nat)
    requires stackHi <= 4 * words.Length
    ensures total == SaturatingSub(stackHi, stackLo)
    ensures var line := Line(words[..], FirstWord(stackLo), stackHi);
      peakUsed == SaturatingSub(stackHi, 4 * line) && headroom == 4 * line - stackLo
    ensures var mark := stackLo + headroom;
      && mark % 4 == 0 && stackLo + 256 <= mark
      && (forall i :: stackLo + 256 <= 4 * i < mark ==> 4 * i < stackHi && words[i] == 0x5A5A_5A5A)
      && (mark < stackHi ==> words[mark / 4] != 0x5A5A_5A5A)
      && peakUsed == (if mark <= stackHi then stackHi - mark else 0)
      && total == (if stackLo <= stackHi then stackHi - stackLo else 0)
  {
    hide Line;
    total := SaturatingSub(stackHi, stackLo);
    var scanLo := (stackLo + GUARD_GAP + 3) / 4 * 4;
    var untouched := CountUntouched(words, scanLo, stackHi);
    var peakSp := scanLo + untouched;
    peakUsed := SaturatingSub(stackHi, peakSp);
    headroom := SaturatingSub(peakSp, stackLo);
    MarkExactly(words[..], stackLo, stackHi);
    assert forall i :: 0 <= i < words.Length ==> words[..][i] == words[i];
  }

  /** The mark is the first word from the guard gap on, rounded up to a word, that is no sentinel. */
  lemma {:induction false} MarkExactly(words: seq<Word>, stackLo: nat, stackHi: nat)
    requires stackHi <= 4 * |words|
    ensures var mark := 4 * Line(words, FirstWord(stackLo), stackHi);
      && stackLo + 256 <= mark
      && (forall i :: stackLo + 256 <= 4 * i < mark ==> 4 * i < stackHi && words[i] == 0x5A5A_5A5A)
      && (mark < stackHi ==> words[mark / 4] != 0x5A5A_5A5A)
  {
  }

  /** What is used and what is left add up to the region if and only if the region is as large as the guard
      gap, and it ends on a word or a word in it is no sentinel: a scan that finds none runs past an end that
      lies inside a word. */
  lemma {:induction false} UsageAddsUp(words: seq<Word>, stackLo: nat, stackHi: nat)
    requires stackHi <= 4 * |words|
    ensures var first, line := FirstWord(stackLo), Line(words, FirstWord(stackLo), stackHi);
      SaturatingSub(stackHi, 4 * line) + (4 * line - stackLo) == SaturatingSub(stackHi, stackLo)
      <==> 4 * first <= stackHi
           && (stackHi % 4 == 0 || exists i :: first <= i && 4 * i < stackHi && words[i] != SENTINEL)
  {
    var first, line := FirstWord(stackLo), Line(words, FirstWord(stackLo), stackHi);
    if line > first {
      assert 4 * (line - 1) < stackHi;
    }
    if 4 * line < stackHi {
      assert words[line] != SENTINEL;
    }
  }

  // ---- runs of the program whose stack it is ---------------------------------

  datatype Write = Write(at: nat, word: Word)

  function After(words: seq<Word>, writes: seq<Write>): (r: seq<Word>)
    requires forall i :: 0 <= i < |writes| ==> writes[i].at < |words|
    ensures |r| == |words|
    ensures forall k :: 0 <= k < |words| && (forall i :: 0 <= i < |writes| ==> writes[i].at != k) ==> r[k] == words[k]
    decreases |writes|
  {
    if writes == [] then words
    else After(words[writes[0].at := writes[0].word], writes[1..])
  }

  /** The deepest word a run wrote. */
  function Deepest(writes: seq<Write>): (d: nat)
    requires writes != []
    ensures forall i :: 0 <= i < |writes| ==> d <= writes[i].at
    ensures exists i :: 0 <= i < |writes| && writes[i].at == d
  {
    if |writes| == 1 then writes[0].at
    else
      var rest := Deepest(writes[1..]);
      assert forall i :: 1 <= i < |writes| ==> writes[i] == writes[1..][i - 1];
      if writes[0].at < rest then writes[0].at else rest
  }

  predicate Painted(words: seq<Word>, first: nat, end: nat) {
    end <= |words| && forall i :: first <= i < end ==> words[i] == SENTINEL
  }

  /** After any run, the mark is the deepest word written if and only if that word is no sentinel when it
      is scanned. It is never below it: what is reported never exceeds what was used. */
  lemma {:induction false} HighWaterIsExact(words: seq<Word>, first: nat, end: nat, hi: nat, writes: seq<Write>)
    requires Painted(words, first, end) && 4 * end <= hi <= 4 * |words|
    requires writes != [] && forall i :: 0 <= i < |writes| ==> writes[i].at < |words|
    requires first <= Deepest(writes) < end
    ensures var d, line := Deepest(writes), Line(After(words, writes), first, hi);
      d <= line && (line == d <==> After(words, writes)[d] != SENTINEL)
  {
    var d, after := Deepest(writes), After(words, writes);
    forall k | first <= k < d ensures after[k] == SENTINEL {
      assert forall i :: 0 <= i < |writes| ==> writes[i].at != k;
    }
  }

  /** A run that stays above the painted part leaves the mark at its end at the lowest: the scan cannot
      tell how much of the unpainted part above was used. */
  lemma {:induction false} ShallowRunsLookUnpainted(words: seq<Word>, first: nat, end: nat, hi: nat, writes: seq<Write>)
    requires Painted(words, first, end) && first <= end && 4 * end <= hi <= 4 * |words|
    requires forall i :: 0 <= i < |writes| ==> end <= writes[i].at < |words|
    ensures var after := After(words, writes);
      end <= Line(after, first, hi)
      && (Line(after, first, hi) == end <==> 4 * end == hi || after[end] != SENTINEL)
  {
    var after := After(words, writes);
    forall k | first <= k < end ensures after[k] == SENTINEL {
      assert forall i :: 0 <= i < |writes| ==> writes[i].at != k;
    }
  }

  /** A stray match makes the report too small: whatever stands at the deepest word, if it is a sentinel and
      the word above it is none, the mark stands one word too high. */
  lemma StraySentinelHides(words: seq<Word>, first: nat, end: nat, hi: nat, d: nat, x: Word)
    requires Painted(words, first, end) && 4 * end <= hi <= 4 * |words|
    requires first <= d && d + 1 < end && x != SENTINEL
    ensures var writes := [Write(d, SENTINEL), Write(d + 1, x)];
      && Deepest(writes) == d
      && Line(After(words, writes), first, hi) == d + 1
  {
    var writes := [Write(d, SENTINEL), Write(d + 1, x)];
    assert writes[1..] == [Write(d + 1, x)];
    assert writes[1..][1..] == [];
    var once := words[d := SENTINEL];
    assert After(words, writes) == After(once, writes[1..]) == After(once[d + 1 := x], []) == once[d + 1 := x];
    var after := once[d + 1 := x];
    assert after[d + 1] != SENTINEL && forall k :: first <= k <= d ==> after[k] == SENTINEL;
  }

  /** Memory of 8000 bytes of stack painted from below with the stack pointer at 7000: live words above. */
  function PaintedAtBoot(): (words: seq<Word>)
    ensures |words| == 2000 && Painted(words, FirstWord(0), PaintEnd(7000))
    ensures forall i :: PaintEnd(7000) <= i < 2000 ==> words[i] != SENTINEL
  {
    seq(2000, i => if FirstWord(0) <= i < PaintEnd(7000) then SENTINEL else 7)
  }

  /** Word 100 of that stack was used, 7600 bytes of it, and 7596 are reported. */
  lemma StraySentinelUnderReports()
    ensures var writes := [Write(100, SENTINEL), Write(101, 7)];
      && Deepest(writes) == 100 && 8000 - 4 * 100 == 7600
      && SaturatingSub(8000, 4 * Line(After(PaintedAtBoot(), writes), FirstWord(0), 8000)) == 7596
  {
    StraySentinelHides(PaintedAtBoot(), FirstWord(0), PaintEnd(7000), 8000, 100, 7);
  }

  lemma {:induction false} AfterOneMore(words: seq<Word>, writes: seq<Write>, last: Write)
    requires last.at < |words| && forall i :: 0 <= i < |writes| ==> writes[i].at < |words|
    ensures After(words, writes + [last]) == After(words, writes)[last.at := last.word]
    decreases |writes|
  {
    var all := writes + [last];
    if writes == [] {
      assert all[1..] == [];
    } else {
      assert all[1..] == writes[1..] + [last];
      AfterOneMore(words[writes[0].at := writes[0].word], writes[1..], last);
    }
  }

  /** The program whose stack it is, as far as memory can tell. */
  method RunProgram(words: array<Word>, writes: seq<Write>)
    requires forall i :: 0 <= i < |writes| ==> writes[i].at < words.Length
    modifies words
    ensures words[..] == After(old(words[..]), writes)
  {
    for n := 0 to |writes|
      invariant words[..] == After(old(words[..]), writes[..n])
    {
      AfterOneMore(old(words[..]), writes[..n], writes[n]);
      assert writes[..n + 1] == writes[..n] + [writes[n]];
      words[writes[n].at] := writes[n].word;
    }
    assert writes[..|writes|] == writes;
  }

  /** Paint at boot, run the program, read the mark: no more than was used is reported, and exactly that
      much, with exactly the free margin, if and only if the deepest word is no sentinel at the end. */
  method Measure(words: array<Word>, stackLo: nat, stackHi: nat, sp: nat, writes: seq<Write>)
    returns (total: nat, peakUsed: nat, headroom: nat)
    requires stackLo <= sp <= stackHi <= 4 * words.Length
    requires writes != [] && forall i :: 0 <= i < |writes| ==> writes[i].at < words.Length
    requires FirstWord(stackLo) <= Deepest(writes) < PaintEnd(sp)
    modifies words
    ensures var d := Deepest(writes);
      && total == stackHi - stackLo
      && peakUsed <= stackHi - 4 * d && 4 * d - stackLo <= headroom
      && (peakUsed == stackHi - 4 * d <==> words[d] != SENTINEL)
      && (headroom == 4 * d - stackLo <==> words[d] != SENTINEL)
      && (stackHi % 4 == 0 || words[d] != SENTINEL ==> peakUsed + headroom == total)
  {
    PaintStack(words, stackLo, sp);
    ghost var painted := words[..];
    RunProgram(words, writes);
    HighWaterIsExact(painted, FirstWord(stackLo), PaintEnd(sp), stackHi, writes);
    ghost var line := Line(words[..], FirstWord(stackLo), stackHi);
    if line > FirstWord(stackLo) {
      assert 4 * (line - 1) < stackHi;
    }
    total, peakUsed, headroom := StackUsage(words, stackLo, stackHi);
  }

  /** Over time the reported peak does not fall if and only if some word at or below the earlier mark is
      still no sentinel. */
  lemma {:induction false} PeakNeverFalls(before: seq<Word>, after: seq<Word>, first: nat, hi: nat)
    requires |before| == |after| && hi <= 4 * |before|
    ensures var mark := Line(before, first, hi);
      Line(after, first, hi) <= mark
      <==> 4 * mark >= hi || exists i :: first <= i <= mark && after[i] != SENTINEL
  {
    var mark, later := Line(before, first, hi), Line(after, first, hi);
    if later <= mark && 4 * mark < hi {
      assert after[later] != SENTINEL;
    }
    if later > mark {
      assert forall i :: first <= i <= mark ==> 4 * i < hi && after[i] == SENTINEL;
    }
  }

  /** In particular it never falls while the program writes no sentinels. */
  lemma {:induction false} PeakNeverFallsInARun(words: seq<Word>, first: nat, hi: nat, writes: seq<Write>)
    requires hi <= 4 * |words|
    requires forall i :: 0 <= i < |writes| ==> writes[i].at < |words| && writes[i].word != SENTINEL
    ensures Line(After(words, writes), first, hi) <= Line(words, first, hi)
    decreases |writes|
  {
    if writes != [] {
      var next := words[writes[0].at := writes[0].word];
      var mark := Line(words, first, hi);
      assert 4 * mark < hi ==> next[mark] != SENTINEL;
      PeakNeverFalls(words, next, first, hi);
      PeakNeverFallsInARun(next, first, hi, writes[1..]);
    }
  }

  // ---- the periodic report ---------------------------------------------------

  /** How many of the last reports in a row the heap had grown by more than noise. */
  function Streak(heapUsed: seq<nat>): nat {
    var n := |heapUsed|;
    if n < 2 || heapUsed[n - 1] - heapUsed[n - 2] <= HEAP_GROWTH_NOISE then 0
    else 1 + Streak(heapUsed[..n - 1])
  }

  class HealthState {
    var last: Option<nat>
    var growthStreak: nat
    ghost var seen: seq<nat>

    ghost predicate Valid()
      reads this
    {
      && growthStreak == Streak(seen)
      && last == if seen == [] then None else Some(seen[|seen| - 1])
    }

    /** The baseline of the first report, if one was captured. */
    constructor (baseline: Option<nat>)
      ensures Valid() && seen == if baseline == None then [] else [baseline.value]
    {
      last, growthStreak := baseline, 0;
      seen := if baseline == None then [] else [baseline.value];
    }

    method Report(heapUsed: nat, headroom: nat) returns (leak: bool, low: bool)
      requires Valid()
      modifies this
      ensures Valid() && seen == old(seen) + [heapUsed]
      ensures leak == (Streak(seen) >= LEAK_STREAK)
      ensures var n := |seen|;
        leak <==> n >= 4 && seen[n - 3] > seen[n - 4] + 256 && seen[n - 2] > seen[n - 3] + 256
                  && seen[n - 1] > seen[n - 2] + 256
      ensures low == (headroom < 2048)
    {
      leak := false;
      if last.Some? {
        if heapUsed - last.value > HEAP_GROWTH_NOISE {
          growthStreak := growthStreak + 1;
        } else {
          growthStreak := 0;
        }
        leak := growthStreak >= LEAK_STREAK;
      }
      low := headroom < STACK_HEADROOM_WARN;
      last := Some(heapUsed);
      assert (seen + [heapUsed])[..|seen|] == seen;
      seen := seen + [heapUsed];
      LeakIsThreeRises(seen);
    }
  }

  /** A leak is three rises by more than 256 bytes in a row. */
  lemma {:induction false} LeakIsThreeRises(seen: seq<nat>)
    ensures var n := |seen|;
      Streak(seen) >= 3 <==>
        n >= 4 && seen[n - 3] > seen[n - 4] + 256 && seen[n - 2] > seen[n - 3] + 256
        && seen[n - 1] > seen[n - 2] + 256
  {
    var n := |seen|;
    StreakIsARise(seen, 3);
    if n >= 4 {
      assert Rises(seen, n - 1) <==> seen[n - 1] > seen[n - 2] + 256;
      assert Rises(seen, n - 2) <==> seen[n - 2] > seen[n - 3] + 256;
      assert Rises(seen, n - 3) <==> seen[n - 3] > seen[n - 4] + 256;
    }
  }

  predicate Rises(heapUsed: seq<nat>, i: int)
    requires 0 < i < |heapUsed|
  {
    heapUsed[i] - heapUsed[i - 1] > HEAP_GROWTH_NOISE
  }

  /** A streak is at least `k` exactly when each of the last `k` reports rose by more than noise. */
  lemma {:induction false} StreakIsARise(heapUsed: seq<nat>, k: nat)
    ensures Streak(heapUsed) >= k <==>
            k == 0 || (k < |heapUsed|
                       && forall i :: |heapUsed| - k <= i < |heapUsed| ==> Rises(heapUsed, i))
    decreases k
  {
    var n := |heapUsed|;
    if k > 0 && n >= 2 && heapUsed[n - 1] - heapUsed[n - 2] > HEAP_GROWTH_NOISE {
      var shorter := heapUsed[..n - 1];
      StreakIsARise(shorter, k - 1);
      if k < n {
        assert forall i :: n - k <= i < n - 1 ==> Rises(shorter, i) == Rises(heapUsed, i);
        assert Rises(heapUsed, n - 1);
      }
    } else if 0 < k < n {
      assert !Rises(heapUsed, n - 1);
    }
  }
}
