/**
 * The navigation bookkeeping of the Reddit expanded-image snapper: the list
 * of expanded images, the index of the current one, the index skipped at the
 * end of the list while more images load, and the enable switch. The
 * handlers (key presses, content refreshes, visibility reports and the
 * toggle button) are step functions on a snapshot of that state, and the
 * `Snapper` class holds the state and runs them in place.
 */
module ImageSnapping {
  import opened Wrappers
  import opened JsBuiltins

  /** An expanded image element (`.res-media-zoomable`). */
  datatype Image = Image(id: nat)

  datatype Key = ArrowDown | ArrowRight | ArrowUp | ArrowLeft | OtherKey

  /** The scrolling a handler asks the browser for. */
  datatype Scroll =
    | NoScroll
    | ScrollToImage(index: int)     // `scrollToImage(images[index])`
    | ScrollPageAndRefresh          // `scrollBy` one window height, refresh a second later

  /** What a key press does to the page: whether its default scrolling is prevented, and the scrolling asked for. */
  datatype KeyEffect = KeyEffect(prevented: bool, scroll: Scroll)

  /** An IntersectionObserver entry: the image and whether it has come into view. */
  datatype Entry = Entry(target: Image, isIntersecting: bool)

  /** A snapshot of the snapper's variables. */
  datatype Snap = Snap(images: seq<Image>, currentIndex: int, lastSkippedIndex: int, enabled: bool, observerActive: bool)

  /** The current index is -1 or a position in the list, and a skipped index is -1 or past the start. */
  predicate Valid(st: Snap) {
    -1 <= st.currentIndex < |st.images| && st.lastSkippedIndex >= -1
  }

  /** The keydown listener. */
  function KeyStep(st: Snap, key: Key): (Snap, KeyEffect) {
    if !st.enabled || st.currentIndex == -1 then (st, KeyEffect(false, NoScroll))
    else if key == ArrowDown || key == ArrowRight then
      if st.currentIndex + 1 < |st.images| then
        (st.(currentIndex := st.currentIndex + 1), KeyEffect(true, ScrollToImage(st.currentIndex + 1)))
      else
        (st.(lastSkippedIndex := st.currentIndex + 1), KeyEffect(true, ScrollPageAndRefresh))
    else if key == ArrowUp || key == ArrowLeft then
      if st.currentIndex - 1 >= 0 then
        (st.(currentIndex := st.currentIndex - 1), KeyEffect(true, ScrollToImage(st.currentIndex - 1)))
      else
        (st, KeyEffect(true, NoScroll))
    else (st, KeyEffect(false, NoScroll))
  }

  /**
   * `refreshImages()`, given the expanded images now on the page and the
   * element that carries the `current-image` class, if any.
   */
  function RefreshStep(st: Snap, found: seq<Image>, marked: Option<Image>): (Snap, Scroll) {
    if !st.enabled then (st, NoScroll)
    else
      var replaced := |found| != |st.images|;
      var images := if replaced then found else st.images;
      var active := if replaced && |found| > 0 then true else st.observerActive;
      var current := if marked.Some? then IndexOf(images, marked.value) else -1;
      if st.lastSkippedIndex != -1 && st.lastSkippedIndex < |images| then
        (Snap(images, st.lastSkippedIndex, -1, true, active), ScrollToImage(st.lastSkippedIndex))
      else
        (Snap(images, current, st.lastSkippedIndex, true, active), NoScroll)
  }

  /** The IntersectionObserver callback: the last image of the batch that came into view becomes current. */
  function EntriesStep(st: Snap, entries: seq<Entry>): Snap {
    if !st.enabled || entries == [] then st
    else
      var e := entries[|entries| - 1];
      var before := EntriesStep(st, entries[..|entries| - 1]);
      if e.isIntersecting then before.(currentIndex := IndexOf(st.images, e.target)) else before
  }

  /** The toggle button. */
  function ToggleStep(st: Snap): Snap {
    st.(enabled := !st.enabled)
  }

  /* ------------------------------------------------------------- properties */

  /** Every handler keeps the index bookkeeping valid. */
  lemma StepsKeepValid(st: Snap, key: Key, found: seq<Image>, marked: Option<Image>, entries: seq<Entry>)
    requires Valid(st)
    ensures Valid(KeyStep(st, key).0)
    ensures Valid(RefreshStep(st, found, marked).0)
    ensures Valid(ToggleStep(st))
    ensures Valid(EntriesStep(st, entries))
  {
    EntriesKeepValid(st, entries);
  }

  lemma {:induction false} EntriesKeepValid(st: Snap, entries: seq<Entry>)
    requires Valid(st)
    ensures Valid(EntriesStep(st, entries))
    ensures EntriesStep(st, entries) == st.(currentIndex := EntriesStep(st, entries).currentIndex)
  {
    if st.enabled && entries != [] {
      EntriesKeepValid(st, entries[..|entries| - 1]);
    }
  }

  /** A key press does nothing while the script is disabled or no image is current. */
  lemma KeyIgnoredWhenIdle(st: Snap, key: Key)
    requires !st.enabled || st.currentIndex == -1
    ensures KeyStep(st, key) == (st, KeyEffect(false, NoScroll))
  {
  }

  /**
   * A key press moves the current index by at most one, never below 0,
   * and changes nothing else but a skip recorded at the end of the list.
   */
  lemma KeyMovesByOne(st: Snap, key: Key)
    requires Valid(st)
    ensures var next := KeyStep(st, key).0;
      && next.images == st.images && next.enabled == st.enabled && next.observerActive == st.observerActive
      && st.currentIndex - 1 <= next.currentIndex <= st.currentIndex + 1
      && (st.currentIndex >= 0 ==> next.currentIndex >= 0)
      && (next.lastSkippedIndex != st.lastSkippedIndex ==> next.lastSkippedIndex == |st.images|)
  {
  }

  /** Going down and then up again, away from the ends, returns to the same image. */
  lemma DownThenUp(st: Snap)
    requires st.enabled && 0 <= st.currentIndex && st.currentIndex + 1 < |st.images|
    ensures KeyStep(KeyStep(st, ArrowDown).0, ArrowUp).0 == st
    ensures KeyStep(st, ArrowDown).1 == KeyEffect(true, ScrollToImage(st.currentIndex + 1))
    ensures KeyStep(KeyStep(st, ArrowDown).0, ArrowUp).1 == KeyEffect(true, ScrollToImage(st.currentIndex))
  {
  }

  /** Going up and then down again returns to the same image. */
  lemma UpThenDown(st: Snap)
    requires st.enabled && 0 < st.currentIndex < |st.images|
    ensures KeyStep(KeyStep(st, ArrowUp).0, ArrowDown).0 == st
  {
  }

  /**
   * Pressing down on the last image records the next index as skipped;
   * the refresh that finds more images lands on it and clears the skip.
   */
  lemma SkippedImageResumes(st: Snap, found: seq<Image>, marked: Option<Image>)
    requires Valid(st) && st.enabled && st.currentIndex == |st.images| - 1 && st.currentIndex >= 0
    requires |found| > |st.images|
    ensures var (waiting, effect) := KeyStep(st, ArrowDown);
      && effect == KeyEffect(true, ScrollPageAndRefresh)
      && waiting.currentIndex == st.currentIndex
      && waiting.lastSkippedIndex == |st.images|
      && RefreshStep(waiting, found, marked)
        == (Snap(found, |st.images|, -1, true, true), ScrollToImage(|st.images|))
  {
  }

  /**
   * A refresh resumes at a pending skipped index exactly when it lies within the refreshed list:
   * it scrolls there, makes it current and clears it. Otherwise it keeps the skipped index and
   * does not scroll.
   */
  lemma RefreshResumesSkipped(st: Snap, found: seq<Image>, marked: Option<Image>)
    requires st.enabled
    ensures var images := if |found| != |st.images| then found else st.images;
      var next := RefreshStep(st, found, marked).0;
      var scroll := RefreshStep(st, found, marked).1;
      && next.images == images
      && (st.lastSkippedIndex != -1 && st.lastSkippedIndex < |images| ==>
            next.currentIndex == st.lastSkippedIndex && next.lastSkippedIndex == -1
            && scroll == ScrollToImage(st.lastSkippedIndex))
      && (st.lastSkippedIndex == -1 || st.lastSkippedIndex >= |images| ==>
            next.lastSkippedIndex == st.lastSkippedIndex && scroll == NoScroll)
  {
  }

  /**
   * A refresh that finds as many images as before keeps the old list, even
   * when the images themselves differ.
   */
  lemma SameCountKeepsList(st: Snap, found: seq<Image>, marked: Option<Image>)
    requires st.enabled && |found| == |st.images|
    ensures RefreshStep(st, found, marked).0.images == st.images
  {
  }

  /**
   * Without a pending skip in range, a refresh makes the marked image current: its position in
   * the refreshed list (the images found when the count changed, the kept list otherwise), or -1
   * when it is absent or there is none.
   */
  lemma RefreshFollowsMarker(st: Snap, found: seq<Image>, marked: Option<Image>)
    requires st.enabled
    requires var images := if |found| != |st.images| then found else st.images;
      st.lastSkippedIndex == -1 || st.lastSkippedIndex >= |images|
    ensures var images := if |found| != |st.images| then found else st.images;
      var next := RefreshStep(st, found, marked).0;
      && next.images == images
      && (next.currentIndex == -1 <==> marked.None? || marked.value !in images)
      && (next.currentIndex != -1 ==> images[next.currentIndex] == marked.value)
      && next.lastSkippedIndex == st.lastSkippedIndex
  {
  }

  /** While disabled, refreshes and visibility reports change nothing. */
  lemma DisabledIsInert(st: Snap, found: seq<Image>, marked: Option<Image>, entries: seq<Entry>)
    requires !st.enabled
    ensures RefreshStep(st, found, marked) == (st, NoScroll)
    ensures EntriesStep(st, entries) == st
  {
  }

  /** Two clicks on the toggle button restore the state. */
  lemma ToggleTwice(st: Snap)
    ensures ToggleStep(ToggleStep(st)) == st
    ensures ToggleStep(st).enabled != st.enabled
  {
  }

  /** The image reported last as intersecting becomes current. */
  lemma {:induction false} LastVisibleWins(st: Snap, entries: seq<Entry>, k: nat)
    requires st.enabled && k < |entries| && entries[k].isIntersecting
    requires forall j :: k < j < |entries| ==> !entries[j].isIntersecting
    ensures EntriesStep(st, entries).currentIndex == IndexOf(st.images, entries[k].target)
  {
    if k < |entries| - 1 {
      var init := entries[..|entries| - 1];
      assert init[k] == entries[k];
      LastVisibleWins(st, init, k);
    }
  }

  /* ------------------------------------------------------------------ class */

  class Snapper {
    var images: seq<Image>
    var currentIndex: int
    var lastSkippedIndex: int
    var enabled: bool
    var observerActive: bool

    function State(): Snap
      reads this
    {
      Snap(images, currentIndex, lastSkippedIndex, enabled, observerActive)
    }

    /** The script's start: no images, no current or skipped index, enabled. */
    constructor()
      ensures State() == Snap([], -1, -1, true, false) && Valid(State())
    {
      images := [];
      currentIndex := -1;
      lastSkippedIndex := -1;
      enabled := true;
      observerActive := false;
    }

    /** The keydown listener. */
    method KeyDown(key: Key) returns (effect: KeyEffect)
      modifies this
      ensures (State(), effect) == KeyStep(old(State()), key)
    {
      effect := KeyEffect(false, NoScroll);
      if !enabled {
        return;
      }
      if currentIndex == -1 {
        return;
      }
      if key == ArrowDown || key == ArrowRight {
        if currentIndex + 1 < |images| {
          effect := KeyEffect(true, ScrollToImage(currentIndex + 1));
          currentIndex := currentIndex + 1;
        } else {
          lastSkippedIndex := currentIndex + 1;
          effect := KeyEffect(true, ScrollPageAndRefresh);
        }
      } else if key == ArrowUp || key == ArrowLeft {
        effect := KeyEffect(true, NoScroll);
        if currentIndex - 1 >= 0 {
          effect := KeyEffect(true, ScrollToImage(currentIndex - 1));
          currentIndex := currentIndex - 1;
        }
      }
    }

    /** `refreshImages()` with the images now on the page and the `.current-image` element. */
    method Refresh(found: seq<Image>, marked: Option<Image>) returns (scroll: Scroll)
      modifies this
      ensures (State(), scroll) == RefreshStep(old(State()), found, marked)
    {
      scroll := NoScroll;
      if !enabled {
        return;
      }
      if |found| != |images| {
        images := found;
        if |images| > 0 {
          observerActive := true;
        }
      }
      if marked.Some? {
        currentIndex := IndexOf(images, marked.value);
      } else {
        currentIndex := -1;
      }
      if lastSkippedIndex != -1 && lastSkippedIndex < |images| {
        scroll := ScrollToImage(lastSkippedIndex);
        currentIndex := lastSkippedIndex;
        lastSkippedIndex := -1;
      }
    }

    /** The IntersectionObserver callback on a batch of entries. */
    method OnIntersection(entries: seq<Entry>)
      modifies this
      ensures State() == EntriesStep(old(State()), entries)
    {
      if !enabled {
        return;
      }
      for i := 0 to |entries|
        invariant images == old(images) && enabled
        invariant State() == EntriesStep(old(State()), entries[..i])
      {
        assert entries[..i + 1][..i] == entries[..i];
        if entries[i].isIntersecting {
          currentIndex := IndexOf(images, entries[i].target);
        }
      }
      assert entries[..|entries|] == entries;
    }

    /** The toggle button's click handler. */
    method Toggle()
      modifies this
      ensures State() == ToggleStep(old(State()))
    {
      enabled := !enabled;
    }
  }
}
