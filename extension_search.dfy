/**
 * The binary search of the extension troubleshooter (binarySearchExtensions), stated on
 * values. `s` holds the toggle state of every extension card on the page (true = pressed =
 * enabled) and `ext` the page positions of the cards that were enabled at load time, in page
 * order: the list the search runs over. Each round's human verdict ("the issue is still
 * persisting") is the next element of `verdicts`.
 */
module ExtensionSearch {
  import opened Wrappers
  import opened JsBuiltins

  /** Every card of the search list is on a page of `n` cards. */
  predicate InRange(ext: seq<nat>, n: nat) {
    forall k :: 0 <= k < |ext| ==> ext[k] < n
  }

  /** The page positions of the search-list cards `ext[lo..hi]`, bounds inclusive as in the source's loops. */
  function Span(ext: seq<nat>, lo: int, hi: int): set<nat>
    decreases hi - lo
  {
    if hi < lo then {}
    else Span(ext, lo, hi - 1) + (if 0 <= hi < |ext| then {ext[hi]} else {})
  }

  /** On a list without repetitions, card `ext[k]` lies in a window exactly when its index does. */
  lemma {:induction false} SpanMember(ext: seq<nat>, lo: int, hi: int, k: nat)
    requires Distinct(ext) && k < |ext|
    ensures ext[k] in Span(ext, lo, hi) <==> lo <= k <= hi
    decreases hi - lo
  {
    if lo <= hi {
      SpanMember(ext, lo, hi - 1, k);
    }
  }

  /** Clicking each toggle in `P` once: toggleExtension flips, it does not set. */
  function Flipped(s: seq<bool>, P: set<nat>): (r: seq<bool>)
    ensures |r| == |s|
  {
    if s == [] then []
    else
      var n := |s| - 1;
      Flipped(s[..n], P) + [if n in P then !s[n] else s[n]]
  }

  /** Each toggle in `P` is flipped and every other one keeps its state. */
  lemma {:induction false} FlippedAt(s: seq<bool>, P: set<nat>)
    ensures forall i :: 0 <= i < |s| ==> Flipped(s, P)[i] == if i in P then !s[i] else s[i]
  {
    if s != [] {
      var n := |s| - 1;
      FlippedAt(s[..n], P);
    }
  }

  /** The state of one toggle after flipping the group `P`. */
  lemma FlippedIndex(s: seq<bool>, P: set<nat>, i: nat)
    requires i < |s|
    ensures Flipped(s, P)[i] == if i in P then !s[i] else s[i]
  {
    FlippedAt(s, P);
  }

  /** Flipping no toggle changes nothing. */
  lemma FlipNothing(s: seq<bool>)
    ensures Flipped(s, {}) == s
  {
    FlippedAt(s, {});
  }

  /** Flipping the same toggles twice is the identity. */
  lemma FlipTwice(s: seq<bool>, P: set<nat>)
    ensures Flipped(Flipped(s, P), P) == s
  {
    FlippedAt(s, P);
    FlippedAt(Flipped(s, P), P);
  }

  /** Flipping two disjoint groups one after the other flips their union. */
  lemma FlipUnion(s: seq<bool>, P: set<nat>, Q: set<nat>)
    requires P !! Q
    ensures Flipped(Flipped(s, P), Q) == Flipped(s, P + Q)
  {
    FlippedAt(s, P);
    FlippedAt(Flipped(s, P), Q);
    FlippedAt(s, P + Q);
  }

  /** The state reenableAllExtensionsExcept leaves: every search-list card except `skip` is enabled. */
  function EnabledExcept(s: seq<bool>, ext: seq<nat>, skip: Option<nat>): (r: seq<bool>)
    ensures |r| == |s|
  {
    seq(|s|, i requires 0 <= i < |s| => if i in ext && skip != Some(i) then true else s[i])
  }

  /** The toggles reenableAllExtensionsExcept clicks, in order: the unpressed ones other than `skip`. */
  function Clicks(s: seq<bool>, ext: seq<nat>, skip: Option<nat>): seq<nat> {
    if ext == [] then []
    else
      var e := ext[|ext| - 1];
      Clicks(s, ext[..|ext| - 1], skip) + (if e < |s| && !s[e] && skip != Some(e) then [e] else [])
  }

  /** Resetting twice is resetting once, and the second reset clicks nothing. */
  lemma ReenableIdempotent(s: seq<bool>, ext: seq<nat>, skip: Option<nat>)
    ensures EnabledExcept(EnabledExcept(s, ext, skip), ext, skip) == EnabledExcept(s, ext, skip)
    ensures Clicks(EnabledExcept(s, ext, skip), ext, skip) == []
  {
    NoClicksWhenEnabled(EnabledExcept(s, ext, skip), ext, skip);
  }

  /** No click is made on a state where every card of `ext` other than `skip` is already enabled. */
  lemma {:induction false} NoClicksWhenEnabled(t: seq<bool>, ext: seq<nat>, skip: Option<nat>)
    requires forall k :: 0 <= k < |ext| && ext[k] < |t| && skip != Some(ext[k]) ==> t[ext[k]]
    ensures Clicks(t, ext, skip) == []
  {
    if ext != [] {
      NoClicksWhenEnabled(t, ext[..|ext| - 1], skip);
    }
  }

  datatype Outcome =
    | Isolated(index: nat)               // problematicExtension := extensions[index]
    | Awaiting(start: int, end: int)     // waiting for the verdict on this window's probe
    | NothingToSearch                    // only the corrected search below reports this

  /** The search's final toggle states, its outcome and the number of verdicts it consumed. */
  datatype Run = Run(state: seq<bool>, outcome: Outcome, used: nat)

  /** `Math.floor((start + end) / 2)`: Dafny's division by 2 rounds down, also for a negative sum. */
  function Mid(start: int, end: int): int {
    (start + end) / 2
  }

  /** Both halves of a window of two or more are non-empty and strictly smaller. */
  lemma MidSplits(start: int, end: int)
    requires start < end
    ensures start <= Mid(start, end) < end
    ensures Mid(start, end) - start + 1 == (end - start + 2) / 2
    ensures end - Mid(start, end) == (end - start + 1) / 2
  {
  }

  /**
   * The toggles after a round's verdict, as written: on "persisting" the probed half is flipped
   * back; otherwise the second half, which the probe left enabled, is flipped.
   */
  function AfterRound(probed: seq<bool>, ext: seq<nat>, start: int, end: int, persisting: bool): seq<bool> {
    var mid := Mid(start, end);
    if persisting then Flipped(probed, Span(ext, start, mid)) else Flipped(probed, Span(ext, mid + 1, end))
  }

  /** binarySearchExtensions(extensions, start, end) as written. */
  function Search(s: seq<bool>, ext: seq<nat>, start: int, end: int, verdicts: seq<bool>): Run
    requires 0 <= start <= end + 1 <= |ext|
    decreases |verdicts|
  {
    if start == end then Run(EnabledExcept(s, ext, Some(ext[start])), Isolated(start), 0)
    else
      var mid := Mid(start, end);
      var probed := Flipped(s, Span(ext, start, mid));
      if verdicts == [] then Run(probed, Awaiting(start, end), 0)
      else
        var v := verdicts[0];
        var r := Search(AfterRound(probed, ext, start, end, v), ext,
                        if v then mid + 1 else start, if v then end else mid, verdicts[1..]);
        r.(used := r.used + 1)
  }

  /**
   * One answered round of the search: `t` is the toggle state after the probe of the first half
   * and the verdict's flip; the verdict picks the half the search goes on with.
   */
  lemma SearchStep(s: seq<bool>, ext: seq<nat>, start: int, end: int, verdicts: seq<bool>, mid: int, t: seq<bool>, lo: int, hi: int)
    requires 0 <= start <= end + 1 <= |ext| && start != end && verdicts != []
    requires mid == Mid(start, end)
    requires t == AfterRound(Flipped(s, Span(ext, start, mid)), ext, start, end, verdicts[0])
    requires lo == (if verdicts[0] then mid + 1 else start) && hi == (if verdicts[0] then end else mid)
    ensures 0 <= lo <= hi + 1 <= |ext|
    ensures var r := Search(t, ext, lo, hi, verdicts[1..]);
      Search(s, ext, start, end, verdicts) == r.(used := r.used + 1)
  {
  }

  /** `⌈log2 n⌉`, the number of halvings that bring a window of `n` down to one. */
  function CeilLog2(n: nat): nat {
    if n <= 1 then 0 else 1 + CeilLog2((n + 1) / 2)
  }

  function Pow2(k: nat): nat {
    if k == 0 then 1 else 2 * Pow2(k - 1)
  }

  /** CeilLog2(n) is the least `k` with `n <= 2^k`. */
  lemma {:induction false} CeilLog2Bounds(n: nat)
    requires n >= 1
    ensures n <= Pow2(CeilLog2(n))
    ensures n >= 2 ==> Pow2(CeilLog2(n) - 1) < n
  {
    if n >= 2 {
      var m := (n + 1) / 2;
      CeilLog2Bounds(m);
      if m >= 2 {
        assert Pow2(CeilLog2(m)) == 2 * Pow2(CeilLog2(m) - 1);
      }
    }
  }

  lemma {:induction false} CeilLog2Monotone(a: nat, b: nat)
    requires a <= b
    ensures CeilLog2(a) <= CeilLog2(b)
    decreases b
  {
    if a >= 2 {
      CeilLog2Monotone((a + 1) / 2, (b + 1) / 2);
    }
  }

  /** One round takes a verdict off the budget: each half needs at most one halving fewer than the window. */
  lemma HalvesLog(start: int, end: int, mid: int)
    requires start < end && mid == Mid(start, end)
    ensures start <= mid < end
    ensures CeilLog2(mid - start + 1) + 1 == CeilLog2(end - start + 1)
    ensures CeilLog2(end - (mid + 1) + 1) + 1 <= CeilLog2(end - start + 1)
  {
    MidSplits(start, end);
    var n := end - start + 1;
    CeilLog2Monotone(n / 2, (n + 1) / 2);
  }

  /** The search consumes verdicts one per round, stops early only for want of one, and isolates an index of its window. */
  lemma {:induction false} SearchStaysInWindow(s: seq<bool>, ext: seq<nat>, start: int, end: int, verdicts: seq<bool>)
    requires 0 <= start <= end + 1 <= |ext|
    ensures var r := Search(s, ext, start, end, verdicts);
      && r.used <= |verdicts|
      && (r.outcome.Isolated? ==> start <= r.outcome.index <= end)
      && (r.outcome.Awaiting? ==> r.used == |verdicts|)
    decreases |verdicts|
  {
    if start != end && verdicts != [] {
      var mid := Mid(start, end);
      var t := AfterRound(Flipped(s, Span(ext, start, mid)), ext, start, end, verdicts[0]);
      var lo, hi := if verdicts[0] then mid + 1 else start, if verdicts[0] then end else mid;
      SearchStep(s, ext, start, end, verdicts, mid, t, lo, hi);
      SearchStaysInWindow(t, ext, lo, hi, verdicts[1..]);
    }
  }

  /** The search never asks for more than ⌈log2 N⌉ verdicts, and that many always bring it to an end. */
  lemma {:induction false} SearchWithinBudget(s: seq<bool>, ext: seq<nat>, start: int, end: int, verdicts: seq<bool>)
    requires 0 <= start <= end < |ext|
    ensures var r := Search(s, ext, start, end, verdicts);
      && r.used <= CeilLog2(end - start + 1)
      && (|verdicts| >= CeilLog2(end - start + 1) ==> r.outcome.Isolated?)
    decreases |verdicts|
  {
    if start < end {
      var mid := Mid(start, end);
      HalvesLog(start, end, mid);
      if verdicts != [] {
        var t := AfterRound(Flipped(s, Span(ext, start, mid)), ext, start, end, verdicts[0]);
        var lo, hi := if verdicts[0] then mid + 1 else start, if verdicts[0] then end else mid;
        SearchStep(s, ext, start, end, verdicts, mid, t, lo, hi);
        SearchWithinBudget(t, ext, lo, hi, verdicts[1..]);
      }
    }
  }

  /**
   * On a non-empty list the search consumes at most ⌈log2 N⌉ verdicts: given that many it
   * always isolates an extension of the window, and it stops early only for want of a verdict.
   */
  lemma SearchTerminates(s: seq<bool>, ext: seq<nat>, start: int, end: int, verdicts: seq<bool>)
    requires 0 <= start <= end < |ext|
    ensures var r := Search(s, ext, start, end, verdicts);
      && r.used <= CeilLog2(end - start + 1)
      && r.used <= |verdicts|
      && (r.outcome.Isolated? ==> start <= r.outcome.index <= end)
      && (r.outcome.Awaiting? ==> r.used == |verdicts|)
      && (|verdicts| >= CeilLog2(end - start + 1) ==> r.outcome.Isolated?)
  {
    SearchStaysInWindow(s, ext, start, end, verdicts);
    SearchWithinBudget(s, ext, start, end, verdicts);
  }

  /** Always answering "no longer persisting" takes exactly ⌈log2 N⌉ rounds: the bound is reached. */
  lemma {:induction false} WorstCaseRounds(s: seq<bool>, ext: seq<nat>, start: int, end: int, verdicts: seq<bool>)
    requires 0 <= start <= end < |ext|
    requires |verdicts| >= CeilLog2(end - start + 1)
    requires forall k :: 0 <= k < |verdicts| ==> !verdicts[k]
    ensures Search(s, ext, start, end, verdicts).used == CeilLog2(end - start + 1)
    decreases |verdicts|
  {
    if start < end {
      MidSplits(start, end);
      var probed := Flipped(s, Span(ext, start, Mid(start, end)));
      WorstCaseRounds(AfterRound(probed, ext, start, end, false), ext, start, Mid(start, end), verdicts[1..]);
    }
  }

  /** The window [start..end] is the disjoint union of its two halves. */
  lemma {:induction false} SpanSplit(ext: seq<nat>, start: int, mid: int, end: int)
    requires Distinct(ext)
    requires start <= mid <= end
    ensures Span(ext, start, mid) !! Span(ext, mid + 1, end)
    ensures Span(ext, start, mid) + Span(ext, mid + 1, end) == Span(ext, start, end)
    decreases end - mid
  {
    if mid < end {
      SpanSplit(ext, start, mid, end - 1);
      if 0 <= end < |ext| {
        SpanMember(ext, start, mid, end);
      }
    }
  }

  /** A "persisting" verdict restores the probed half: the next round starts from the same toggles. */
  lemma PersistingRoundRestores(s: seq<bool>, ext: seq<nat>, start: int, end: int, rest: seq<bool>)
    requires 0 <= start < end < |ext|
    ensures var r := Search(s, ext, Mid(start, end) + 1, end, rest);
      Search(s, ext, start, end, [true] + rest) == r.(used := r.used + 1)
  {
    var mid := Mid(start, end);
    var first := Span(ext, start, mid);
    FlipTwice(s, first);
    assert AfterRound(Flipped(s, first), ext, start, end, true) == s;
    SearchStep(s, ext, start, end, [true] + rest, mid, s, mid + 1, end);
    assert ([true] + rest)[1..] == rest;
  }

  /**
   * A "no longer persisting" verdict leaves the whole window flipped: a window that was enabled
   * before the probe is entirely disabled when the search moves on to its first half.
   */
  lemma ResolvedRoundFlipsWindow(s: seq<bool>, ext: seq<nat>, start: int, end: int, rest: seq<bool>)
    requires Distinct(ext)
    requires 0 <= start < end < |ext|
    ensures var r := Search(Flipped(s, Span(ext, start, end)), ext, start, Mid(start, end), rest);
      Search(s, ext, start, end, [false] + rest) == r.(used := r.used + 1)
  {
    var mid := Mid(start, end);
    var first, second := Span(ext, start, mid), Span(ext, mid + 1, end);
    SpanSplit(ext, start, mid, end);
    FlipUnion(s, first, second);
    assert AfterRound(Flipped(s, first), ext, start, end, false) == Flipped(s, Span(ext, start, end));
    SearchStep(s, ext, start, end, [false] + rest, mid, Flipped(s, Span(ext, start, end)), start, mid);
    assert ([false] + rest)[1..] == rest;
  }

  /** With no extension enabled at load the window [0, -1] never closes: every verdict is consumed. */
  lemma {:induction false} EmptyListNeverIsolates(s: seq<bool>, ext: seq<nat>, start: int, verdicts: seq<bool>)
    requires 0 <= start <= |ext|
    ensures Search(s, ext, start, start - 1, verdicts) == Run(s, Awaiting(start, start - 1), |verdicts|)
    decreases |verdicts|
  {
    var mid := Mid(start, start - 1);
    assert mid == start - 1;
    assert Span(ext, start, mid) == {};
    FlipNothing(s);
    if verdicts != [] {
      assert AfterRound(Flipped(s, Span(ext, start, mid)), ext, start, start - 1, verdicts[0]) == s;
      SearchStep(s, ext, start, start - 1, verdicts, mid, s, start, start - 1);
      EmptyListNeverIsolates(s, ext, start, verdicts[1..]);
    }
  }

  /**
   * The verdicts of an honest operator along the search as written, when the issue shows
   * exactly while the faulty card `ext[f]` is enabled.
   */
  function HonestVerdicts(s: seq<bool>, ext: seq<nat>, f: nat, start: int, end: int): seq<bool>
    requires 0 <= start <= end < |ext| && f < |ext| && InRange(ext, |s|)
    decreases end - start
  {
    if start == end then []
    else
      var mid := Mid(start, end);
      var probed := Flipped(s, Span(ext, start, mid));
      var v := probed[ext[f]];
      [v] + HonestVerdicts(AfterRound(probed, ext, start, end, v), ext, f,
                           if v then mid + 1 else start, if v then end else mid)
  }

  /** One round of honest answers: the verdict is whether the faulty card is still enabled after the probe. */
  lemma HonestStep(s: seq<bool>, ext: seq<nat>, f: nat, start: int, end: int, mid: int, v: bool, t: seq<bool>, lo: int, hi: int)
    requires 0 <= start < end < |ext| && f < |ext| && InRange(ext, |s|)
    requires mid == Mid(start, end) && v == Flipped(s, Span(ext, start, mid))[ext[f]]
    requires t == AfterRound(Flipped(s, Span(ext, start, mid)), ext, start, end, v)
    requires lo == (if v then mid + 1 else start) && hi == (if v then end else mid)
    ensures 0 <= lo <= hi < |ext| && InRange(ext, |t|)
    ensures HonestVerdicts(s, ext, f, start, end) == [v] + HonestVerdicts(t, ext, f, lo, hi)
  {
  }

  /**
   * Honest answers along the search as written, for three enabled extensions of which the first
   * is faulty: "no longer persisting" (the probe disabled it), then "persisting" (the second
   * round's probe re-enabled it, because the first half was left disabled).
   */
  lemma AsWrittenVerdicts(s: seq<bool>, ext: seq<nat>)
    requires s == [true, true, true] && ext == [0, 1, 2]
    ensures HonestVerdicts(s, ext, 0, 0, 2) == [false, true]
  {
    assert ext[0] == 0 && Distinct(ext) && InRange(ext, |s|);
    var m1 := Mid(0, 2);
    assert m1 == 1;
    var m2 := Mid(0, m1);
    assert m2 == 0;
    SpanMember(ext, 0, m1, 0);
    SpanMember(ext, m1 + 1, 2, 0);
    SpanMember(ext, 0, m2, 0);
    var p1 := Flipped(s, Span(ext, 0, m1));
    FlippedIndex(s, Span(ext, 0, m1), 0);
    var a1 := Flipped(p1, Span(ext, m1 + 1, 2));
    FlippedIndex(p1, Span(ext, m1 + 1, 2), 0);
    var p2 := Flipped(a1, Span(ext, 0, m2));
    FlippedIndex(a1, Span(ext, 0, m2), 0);
    assert !p1[0] && !a1[0] && p2[0];
    HonestStep(s, ext, 0, 0, 2, m1, false, a1, 0, m1);
    var a2 := Flipped(p2, Span(ext, 0, m2));
    HonestStep(a1, ext, 0, 0, m1, m2, true, a2, m2 + 1, m1);
  }

  /** On a list of three, the verdicts "no longer persisting" then "persisting" isolate the second. */
  lemma AsWrittenSearch(s: seq<bool>, ext: seq<nat>)
    requires |ext| == 3
    ensures Search(s, ext, 0, 2, [false, true]).outcome == Isolated(1)
  {
    var a1 := AfterRound(Flipped(s, Span(ext, 0, Mid(0, 2))), ext, 0, 2, false);
    SearchStep(s, ext, 0, 2, [false, true], Mid(0, 2), a1, 0, Mid(0, 2));
    assert [false, true][1..] == [true];
    var a2 := AfterRound(Flipped(a1, Span(ext, 0, Mid(0, 1))), ext, 0, 1, true);
    SearchStep(a1, ext, 0, 1, [true], Mid(0, 1), a2, Mid(0, 1) + 1, 1);
  }

  /**
   * The search as written blames the wrong extension: three enabled extensions, the first one
   * faulty, honest verdicts "no longer persisting" then "persisting", and the second is isolated.
   */
  lemma AsWrittenMisisolates(s: seq<bool>, ext: seq<nat>)
    requires s == [true, true, true] && ext == [0, 1, 2]
    ensures var vs := HonestVerdicts(s, ext, 0, 0, 2);
      vs == [false, true] && Search(s, ext, 0, 2, vs).outcome == Isolated(1)
  {
    AsWrittenVerdicts(s, ext);
    AsWrittenSearch(s, ext);
  }

  /**
   * The corrected search: each round flips the probed half back whatever the verdict, so every
   * probe starts from the state the search started from; an empty list is reported at once.
   */
  function FixedSearch(s: seq<bool>, ext: seq<nat>, start: int, end: int, verdicts: seq<bool>): Run
    requires 0 <= start <= end + 1 <= |ext|
    decreases |verdicts|
  {
    if start > end then Run(s, NothingToSearch, 0)
    else if start == end then Run(EnabledExcept(s, ext, Some(ext[start])), Isolated(start), 0)
    else
      var mid := Mid(start, end);
      if verdicts == [] then Run(Flipped(s, Span(ext, start, mid)), Awaiting(start, end), 0)
      else
        var v := verdicts[0];
        var r := FixedSearch(s, ext, if v then mid + 1 else start, if v then end else mid, verdicts[1..]);
        r.(used := r.used + 1)
  }

  /** An honest operator's verdicts along the corrected search: each probe starts from `s`. */
  function FixedHonestVerdicts(s: seq<bool>, ext: seq<nat>, f: nat, start: int, end: int): seq<bool>
    requires 0 <= start <= end < |ext| && f < |ext| && InRange(ext, |s|)
    decreases end - start
  {
    if start == end then []
    else
      var mid := Mid(start, end);
      var v := Flipped(s, Span(ext, start, mid))[ext[f]];
      [v] + FixedHonestVerdicts(s, ext, f, if v then mid + 1 else start, if v then end else mid)
  }

  /** One honest answer of the corrected search: `v` picks the half holding `f`'s toggle state. */
  lemma FixedHonestStep(s: seq<bool>, ext: seq<nat>, f: nat, start: int, end: int, mid: int, v: bool, lo: int, hi: int)
    requires 0 <= start < end < |ext| && f < |ext| && InRange(ext, |s|)
    requires mid == Mid(start, end) && v == Flipped(s, Span(ext, start, mid))[ext[f]]
    requires lo == (if v then mid + 1 else start) && hi == (if v then end else mid)
    ensures 0 <= lo <= hi < |ext|
    ensures FixedHonestVerdicts(s, ext, f, start, end) == [v] + FixedHonestVerdicts(s, ext, f, lo, hi)
  {
  }

  /** The corrected search asks an honest operator at most ⌈log2 N⌉ questions. */
  lemma {:induction false} FixedHonestRounds(s: seq<bool>, ext: seq<nat>, f: nat, start: int, end: int)
    requires 0 <= start <= end < |ext| && f < |ext| && InRange(ext, |s|)
    ensures |FixedHonestVerdicts(s, ext, f, start, end)| <= CeilLog2(end - start + 1)
    decreases end - start
  {
    if start < end {
      var mid := Mid(start, end);
      HalvesLog(start, end, mid);
      var v := Flipped(s, Span(ext, start, mid))[ext[f]];
      var lo, hi := if v then mid + 1 else start, if v then end else mid;
      FixedHonestStep(s, ext, f, start, end, mid, v, lo, hi);
      FixedHonestRounds(s, ext, f, lo, hi);
    }
  }

  /**
   * The corrected search isolates the faulty extension: if the window was enabled and the
   * operator answers honestly, it blames `f`, within ⌈log2 N⌉ verdicts, and re-enables the rest.
   */
  lemma {:induction false} FixedSearchIsolates(s: seq<bool>, ext: seq<nat>, f: nat, start: int, end: int)
    requires Distinct(ext) && InRange(ext, |s|)
    requires 0 <= start <= f <= end < |ext|
    requires forall k :: start <= k <= end ==> s[ext[k]]
    ensures var vs := FixedHonestVerdicts(s, ext, f, start, end);
      && FixedSearch(s, ext, start, end, vs) == Run(EnabledExcept(s, ext, Some(ext[f])), Isolated(f), |vs|)
      && |vs| <= CeilLog2(end - start + 1)
    decreases end - start
  {
    FixedHonestRounds(s, ext, f, start, end);
    if start < end {
      var mid := Mid(start, end);
      MidSplits(start, end);
      SpanMember(ext, start, mid, f);
      FlippedAt(s, Span(ext, start, mid));
      var vs := FixedHonestVerdicts(s, ext, f, start, end);
      if f <= mid {
        var rest := FixedHonestVerdicts(s, ext, f, start, mid);
        assert vs == [false] + rest;
        FixedSearchIsolates(s, ext, f, start, mid);
        assert vs[1..] == rest;
      } else {
        var rest := FixedHonestVerdicts(s, ext, f, mid + 1, end);
        assert vs == [true] + rest;
        FixedSearchIsolates(s, ext, f, mid + 1, end);
        assert vs[1..] == rest;
      }
    }
  }

  /** The corrected search reports an empty list without waiting for any verdict. */
  lemma FixedSearchEmpty(s: seq<bool>, ext: seq<nat>, start: int, verdicts: seq<bool>)
    requires 0 <= start <= |ext|
    ensures FixedSearch(s, ext, start, start - 1, verdicts) == Run(s, NothingToSearch, 0)
  {
  }
}
