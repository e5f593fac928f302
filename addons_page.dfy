/**
 * The extension troubleshooter's page state and handlers: the toggles of the add-on cards,
 * the list of cards enabled at load time, and the globals `issuePersisting` and
 * `problematicExtension`. The loops flip toggles in place, as the script's clicks do.
 */
module AddonsPage {
  import opened Wrappers
  import opened JsBuiltins
  import opened ExtensionSearch
  import CookieNote

  /** The positions of the enabled toggles of `s` from `from` on, in page order. */
  function EnabledFrom(s: seq<bool>, from: nat): seq<nat>
    requires from <= |s|
    decreases |s| - from
  {
    if from == |s| then [] else (if s[from] then [from] else []) + EnabledFrom(s, from + 1)
  }

  /** Every listed position is an enabled toggle from `from` on. */
  lemma {:induction false} EnabledFromSound(s: seq<bool>, from: nat)
    requires from <= |s|
    ensures forall k :: 0 <= k < |EnabledFrom(s, from)| ==>
      from <= EnabledFrom(s, from)[k] < |s| && s[EnabledFrom(s, from)[k]]
    decreases |s| - from
  {
    if from < |s| {
      var rest := EnabledFrom(s, from + 1);
      EnabledFromSound(s, from + 1);
      var head: seq<nat> := if s[from] then [from] else [];
      var r := head + rest;
      forall k | 0 <= k < |r| ensures from <= r[k] < |s| && s[r[k]] {
        if k < |head| {
          assert r[k] == from;
        } else {
          assert r[k] == rest[k - |head|];
        }
      }
    }
  }

  /** Every enabled toggle from `from` on is listed. */
  lemma {:induction false} EnabledFromComplete(s: seq<bool>, from: nat)
    requires from <= |s|
    ensures forall i :: from <= i < |s| && s[i] ==> i in EnabledFrom(s, from)
    decreases |s| - from
  {
    if from < |s| {
      EnabledFromComplete(s, from + 1);
    }
  }

  /** The positions are listed in increasing page order. */
  lemma {:induction false} EnabledFromIncreasing(s: seq<bool>, from: nat)
    requires from <= |s|
    ensures forall i, j :: 0 <= i < j < |EnabledFrom(s, from)| ==> EnabledFrom(s, from)[i] < EnabledFrom(s, from)[j]
    decreases |s| - from
  {
    if from < |s| {
      var rest := EnabledFrom(s, from + 1);
      EnabledFromSound(s, from + 1);
      EnabledFromIncreasing(s, from + 1);
      var head: seq<nat> := if s[from] then [from] else [];
      var r := head + rest;
      forall i, j | 0 <= i < j < |r| ensures r[i] < r[j] {
        assert r[j] == rest[j - |head|];
        if i >= |head| {
          assert r[i] == rest[i - |head|];
        }
      }
    }
  }

  /** The list holds exactly the enabled positions from `from` on, in increasing order. */
  lemma EnabledFromSpec(s: seq<bool>, from: nat)
    requires from <= |s|
    ensures forall k :: 0 <= k < |EnabledFrom(s, from)| ==>
      from <= EnabledFrom(s, from)[k] < |s| && s[EnabledFrom(s, from)[k]]
    ensures forall i :: from <= i < |s| && s[i] ==> i in EnabledFrom(s, from)
    ensures forall i, j :: 0 <= i < j < |EnabledFrom(s, from)| ==> EnabledFrom(s, from)[i] < EnabledFrom(s, from)[j]
  {
    EnabledFromSound(s, from);
    EnabledFromComplete(s, from);
    EnabledFromIncreasing(s, from);
  }

  /** The name the sweeps compare: the heading with " (disabled)" removed once, then trimmed. */
  function AddonName(heading: string): string {
    Trim(ReplaceFirst(heading, " (disabled)", ""))
  }

  /** The list disableAllExtensions saves: the non-empty names of the unpressed toggles, in page order. */
  function DisabledNames(s: seq<bool>, names: seq<string>): seq<string>
    requires |s| == |names|
  {
    if s == [] then []
    else
      var n := |s| - 1;
      DisabledNames(s[..n], names[..n]) + (if !s[n] && names[n] != "" then [names[n]] else [])
  }

  /** Every saved name is the non-empty name of an unpressed toggle. */
  lemma {:induction false} DisabledNameSource(s: seq<bool>, names: seq<string>, x: string) returns (j: nat)
    requires |s| == |names| && x in DisabledNames(s, names)
    ensures j < |s| && !s[j] && names[j] == x && x != ""
  {
    var n := |s| - 1;
    if x in DisabledNames(s[..n], names[..n]) {
      j := DisabledNameSource(s[..n], names[..n], x);
      assert s[..n][j] == s[j] && names[..n][j] == names[j];
    } else {
      j := n;
    }
  }

  /** The non-empty name of every unpressed toggle is saved. */
  lemma {:induction false} DisabledNameSaved(s: seq<bool>, names: seq<string>, j: nat)
    requires |s| == |names| && j < |s| && !s[j] && names[j] != ""
    ensures names[j] in DisabledNames(s, names)
  {
    var n := |s| - 1;
    if j < n {
      assert s[..n][j] == s[j] && names[..n][j] == names[j];
      DisabledNameSaved(s[..n], names[..n], j);
    }
  }

  /** A name is saved exactly when some unpressed toggle carries it and it is not empty. */
  lemma DisabledNamesSpec(s: seq<bool>, names: seq<string>, x: string)
    requires |s| == |names|
    ensures x in DisabledNames(s, names) <==>
      x != "" && exists j :: 0 <= j < |s| && !s[j] && names[j] == x
  {
    if x in DisabledNames(s, names) {
      var j := DisabledNameSource(s, names, x);
    }
    if x != "" && exists j :: 0 <= j < |s| && !s[j] && names[j] == x {
      var j :| 0 <= j < |s| && !s[j] && names[j] == x;
      DisabledNameSaved(s, names, j);
    }
  }

  /** The toggles after enableAllExtensions: unpressed ones whose name is not in the saved list get clicked. */
  function AfterEnableAll(s: seq<bool>, names: seq<string>, saved: seq<string>): (r: seq<bool>)
    requires |s| == |names|
    ensures |r| == |s|
  {
    seq(|s|, i requires 0 <= i < |s| => s[i] || names[i] !in saved)
  }

  /**
   * Disabling all and then enabling all restores the toggles, provided the names are distinct
   * and non-empty and the note carries the saved list unchanged.
   */
  lemma SweepsRestore(s: seq<bool>, names: seq<string>)
    requires |s| == |names|
    requires forall i :: 0 <= i < |names| ==> names[i] != ""
    requires forall i, j :: 0 <= i < j < |names| ==> names[i] != names[j]
    ensures AfterEnableAll(seq(|s|, _ => false), names, DisabledNames(s, names)) == s
  {
    var r := AfterEnableAll(seq(|s|, _ => false), names, DisabledNames(s, names));
    forall i | 0 <= i < |s| ensures r[i] == s[i] {
      DisabledNamesSpec(s, names, names[i]);
    }
  }

  class Page {
    /** The text of each card's `h3.addon-name` heading, in page order. */
    const headings: seq<string>
    /** The name each sweep computes from its card's heading (AddonName). */
    const names: seq<string>
    /** Each card's `moz-toggle` state: true when it has the `pressed` attribute (enabled). */
    const pressed: array<bool>
    /** startingEnabledExtensions: the page positions of the cards enabled at load, in page order. */
    const startingEnabled: seq<nat>
    var issuePersisting: Option<bool>
    /** problematicExtension, by page position. */
    var problematic: Option<nat>

    ghost predicate Valid() {
      && |headings| == pressed.Length
      && |names| == pressed.Length
      && Distinct(startingEnabled)
      && InRange(startingEnabled, pressed.Length)
    }

    /** The script's load: it captures the cards that are enabled at that moment. */
    constructor (headings: seq<string>, initial: seq<bool>)
      requires |headings| == |initial|
      ensures Valid() && fresh(pressed)
      ensures this.headings == headings && pressed[..] == initial
      ensures names == seq(|headings|, i requires 0 <= i < |headings| => AddonName(headings[i]))
      ensures startingEnabled == EnabledFrom(initial, 0)
      ensures forall i :: 0 <= i < |initial| ==> (i in startingEnabled <==> initial[i])
      ensures issuePersisting == None && problematic == None
    {
      this.headings := headings;
      names := seq(|headings|, i requires 0 <= i < |headings| => AddonName(headings[i]));
      pressed := new bool[|initial|](i requires 0 <= i < |initial| => initial[i]);
      var enabled := EnabledFrom(initial, 0);
      EnabledFromSpec(initial, 0);
      assert InRange(enabled, |initial|) by {
        forall k | 0 <= k < |enabled| ensures enabled[k] < |initial| {
          assert 0 <= enabled[k] < |initial|;
        }
      }
      assert Distinct(enabled);
      startingEnabled := enabled;
      issuePersisting := None;
      problematic := None;
    }

    /** toggleExtension(extensions[k]): one click on the toggle, which flips it. */
    method Toggle(k: nat)
      requires Valid() && k < |startingEnabled|
      modifies pressed
      ensures pressed[..] == Flipped(old(pressed[..]), {startingEnabled[k]})
    {
      var e := startingEnabled[k];
      pressed[e] := !pressed[e];
      FlippedAt(old(pressed[..]), {e});
    }

    /** The loop `for (let i = lo; i <= hi; i++) toggleExtension(extensions[i])`. */
    method ToggleRange(lo: int, hi: int)
      requires Valid() && 0 <= lo <= hi + 1 <= |startingEnabled|
      modifies pressed
      ensures pressed[..] == Flipped(old(pressed[..]), Span(startingEnabled, lo, hi))
    {
      assert Span(startingEnabled, lo, lo - 1) == {};
      FlipNothing(pressed[..]);
      for i := lo to hi + 1
        invariant pressed[..] == Flipped(old(pressed[..]), Span(startingEnabled, lo, i - 1))
      {
        ghost var before := pressed[..];
        Toggle(i);
        SpanMember(startingEnabled, lo, i - 1, i);
        FlipUnion(old(pressed[..]), Span(startingEnabled, lo, i - 1), {startingEnabled[i]});
      }
    }

    /**
     * reenableAllExtensionsExcept: clicks every unpressed starting-enabled toggle except the
     * problematic extension's, and returns the positions it clicked.
     */
    method ReenableAllExcept() returns (clicked: seq<nat>)
      requires Valid()
      modifies pressed
      ensures pressed[..] == EnabledExcept(old(pressed[..]), startingEnabled, problematic)
      ensures clicked == Clicks(old(pressed[..]), startingEnabled, problematic)
    {
      clicked := [];
      for k := 0 to |startingEnabled|
        invariant pressed[..] == EnabledExcept(old(pressed[..]), startingEnabled[..k], problematic)
        invariant clicked == Clicks(old(pressed[..]), startingEnabled[..k], problematic)
      {
        var e := startingEnabled[k];
        assert startingEnabled[..k + 1][..k] == startingEnabled[..k];
        assert e !in startingEnabled[..k];
        if problematic != Some(e) && !pressed[e] {
          pressed[e] := true;
          clicked := clicked + [e];
        }
      }
      assert startingEnabled[..|startingEnabled|] == startingEnabled;
    }

    /**
     * disableAllExtensions: returns the list it saves to the note (the non-empty names of the
     * toggles already unpressed) and then clicks every pressed toggle.
     */
    method DisableAll() returns (saved: seq<string>)
      requires Valid()
      modifies pressed
      ensures saved == DisabledNames(old(pressed[..]), names)
      ensures forall i :: 0 <= i < pressed.Length ==> !pressed[i]
    {
      saved := [];
      for i := 0 to pressed.Length
        invariant saved == DisabledNames(pressed[..i], names[..i])
      {
        assert pressed[..i + 1][..i] == pressed[..i] && names[..i + 1][..i] == names[..i];
        var name := names[i];
        if !pressed[i] && name != "" {
          saved := saved + [name];
        }
      }
      assert pressed[..pressed.Length] == pressed[..] && names[..pressed.Length] == names;
      for i := 0 to pressed.Length
        invariant forall k :: 0 <= k < i ==> !pressed[k]
      {
        if pressed[i] {
          pressed[i] := false;
        }
      }
    }

    /** enableAllExtensions: clicks each unpressed toggle whose name is not in the loaded list. */
    method EnableAll(disabledExtensions: seq<string>)
      requires Valid()
      modifies pressed
      ensures pressed[..] == AfterEnableAll(old(pressed[..]), names, disabledExtensions)
    {
      for i := 0 to pressed.Length
        invariant forall k :: 0 <= k < i ==> pressed[k] == (old(pressed[k]) || names[k] !in disabledExtensions)
        invariant forall k :: i <= k < pressed.Length ==> pressed[k] == old(pressed[k])
      {
        if !pressed[i] && names[i] !in disabledExtensions {
          pressed[i] := true;
        }
      }
    }

    /**
     * The "Enable all Extensions" button: the sweep runs once the cookie note is loaded
     * (`loadElementsFromLocalStorage().then(..)`), with the list `parse` (JSON.parse) reads from
     * the payload, or `[]` without a note. A URIError while loading rejects the promise, so the
     * sweep never runs and no toggle changes.
     */
    method EnableAllFromCookie(cookie: string, parse: string -> seq<string>) returns (swept: bool)
      requires Valid()
      modifies pressed
      ensures swept <==> CookieNote.ReadCookie(cookie).Loaded?
      ensures !swept ==> pressed[..] == old(pressed[..])
      ensures swept ==> pressed[..] == AfterEnableAll(old(pressed[..]), names,
        match CookieNote.ReadCookie(cookie).payload case None => [] case Some(p) => parse(p))
    {
      var r := CookieNote.Load(cookie);
      if r.UriError? {
        return false;
      }
      var disabledExtensions := match r.payload case None => [] case Some(p) => parse(p);
      EnableAll(disabledExtensions);
      swept := true;
    }

    /** The search's base case: `extensions[k]` is blamed and every other card is enabled again. */
    method Isolate(k: nat)
      requires Valid() && k < |startingEnabled|
      modifies this, pressed
      ensures problematic == Some(startingEnabled[k]) && issuePersisting == old(issuePersisting)
      ensures pressed[..] == EnabledExcept(old(pressed[..]), startingEnabled, Some(startingEnabled[k]))
    {
      problematic := Some(startingEnabled[k]);
      var _ := ReenableAllExcept();
    }

    /**
     * binarySearchExtensions(extensions, start, end), one verdict of `verdicts` per round. It
     * stops when it isolates an extension or when the next verdict has not been given yet.
     */
    method BinarySearch(start: int, end: int, verdicts: seq<bool>) returns (outcome: Outcome, used: nat)
      requires Valid()
      requires 0 <= start <= end + 1 <= |startingEnabled|
      modifies this, pressed
      ensures var r := Search(old(pressed[..]), startingEnabled, start, end, verdicts);
        pressed[..] == r.state && outcome == r.outcome && used == r.used
      ensures outcome.Isolated? ==> start <= outcome.index <= end
      ensures problematic == if outcome.Isolated? then Some(startingEnabled[outcome.index]) else old(problematic)
      ensures issuePersisting == if used == 0 then old(issuePersisting) else None
      decreases |verdicts|
    {
      ghost var s0 := pressed[..];
      if start == end {
        Isolate(start);
        return Isolated(start), 0;
      }
      var mid := (start + end) / 2;
      ToggleRange(start, mid);
      if verdicts == [] {
        return Awaiting(start, end), 0;
      }
      SearchStaysInWindow(s0, startingEnabled, start, end, verdicts);
      Resolve(start, end, verdicts[0]);
      ghost var t := pressed[..];
      // A persisting issue lies in the second half, a resolved one in the first.
      var lo, hi := if verdicts[0] then mid + 1 else start, if verdicts[0] then end else mid;
      SearchStep(s0, startingEnabled, start, end, verdicts, mid, t, lo, hi);
      outcome, used := BinarySearch(lo, hi, verdicts[1..]);
      used := used + 1;
    }

    /**
     * A round after its verdict `persisting` arrives: the first half is flipped back when the
     * issue persists, the second half is flipped otherwise, and the verdict is cleared.
     */
    method Resolve(start: int, end: int, persisting: bool)
      requires Valid() && 0 <= start <= end + 1 <= |startingEnabled| && start != end
      modifies this, pressed
      ensures pressed[..] == AfterRound(old(pressed[..]), startingEnabled, start, end, persisting)
      ensures issuePersisting == None && problematic == old(problematic)
    {
      issuePersisting := Some(persisting);
      var mid := (start + end) / 2;
      if issuePersisting == Some(true) {
        ToggleRange(start, mid);
      } else {
        ToggleRange(mid + 1, end);
      }
      issuePersisting := None;
    }

    /** The start button: the search over every extension enabled at load. */
    method StartTroubleshooting(verdicts: seq<bool>) returns (outcome: Outcome, used: nat)
      requires Valid()
      modifies this, pressed
      ensures var r := Search(old(pressed[..]), startingEnabled, 0, |startingEnabled| - 1, verdicts);
        pressed[..] == r.state && outcome == r.outcome && used == r.used
      ensures outcome.Isolated? ==> 0 <= outcome.index < |startingEnabled|
      ensures problematic == if outcome.Isolated? then Some(startingEnabled[outcome.index]) else old(problematic)
      ensures issuePersisting == if used == 0 then old(issuePersisting) else None
    {
      outcome, used := BinarySearch(0, |startingEnabled| - 1, verdicts);
    }
  }
}
