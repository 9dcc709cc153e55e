/** `HighlightService`: the keyword list, the page body it scans, the
    mutation observer and the debounce timer, driven by explicit events
    (the initial load completing, a storage change, a mutation batch, the
    clock reaching the timer's due time, `destroy`). */
module Service {
  import opened Wrappers
  import opened RegexEscape
  import opened KeywordMatch
  import opened Dom
  import opened Walker
  import opened Highlight
  import opened Clear

  /** The delay passed to `window.setTimeout` in `debounceHighlight`. */
  const DebounceMs: nat := 500

  /** The storage area whose changes the listener reacts to. */
  const SyncArea: string := "sync"

  /** A scheduled `setTimeout` callback: its id and when it runs. */
  datatype Timer = Timer(id: nat, due: nat)

  /** One `MutationRecord`: whether its type is `childList`, and the added
      nodes. */
  datatype MutationRecord = MutationRecord(childList: bool, addedNodes: seq<Node>)

  /** How the initial load in `initializeKeywords` ended: the first storage
      read failed, the second failed after the keywords were assigned, or
      both succeeded (stored values absent or falsy are `None`). */
  datatype LoadOutcome =
    | KeywordsReadFailed
    | CountReadFailed(storedKeywords: Option<seq<string>>)
    | LoadSucceeded(storedKeywords: Option<seq<string>>, storedCount: Option<int>)

  /** The observer's callback sets `shouldUpdate` exactly when this holds. */
  predicate AddsElement(batch: seq<MutationRecord>) {
    exists i, j :: 0 <= i < |batch| && batch[i].childList && 0 <= j < |batch[i].addedNodes| &&
      batch[i].addedNodes[j].Element?
  }

  /** The body after one full scan with keyword list `ks`. */
  function Scanned(body: Node, ks: seq<string>): Node
    requires NonEmptyKeywords(ks)
  {
    if ks == [] then body else Highlighted(body, false, ks)
  }

  /** The two nested `forEach` loops of the observer's callback. */
  method ShouldUpdate(batch: seq<MutationRecord>) returns (shouldUpdate: bool)
    ensures shouldUpdate <==> AddsElement(batch)
  {
    shouldUpdate := false;
    var i := 0;
    while i < |batch|
      invariant i <= |batch|
      invariant shouldUpdate <==>
        (exists i', j :: 0 <= i' < i && batch[i'].childList &&
          0 <= j < |batch[i'].addedNodes| && batch[i'].addedNodes[j].Element?)
    {
      if batch[i].childList {
        var added := batch[i].addedNodes;
        var j := 0;
        while j < |added|
          invariant j <= |added|
          invariant shouldUpdate <==>
            (exists i', j' :: 0 <= i' < i && batch[i'].childList &&
              0 <= j' < |batch[i'].addedNodes| && batch[i'].addedNodes[j'].Element?) ||
            (exists j' :: 0 <= j' < j && added[j'].Element?)
        {
          if added[j].Element? {
            shouldUpdate := true;
          }
          j := j + 1;
        }
      }
      i := i + 1;
    }
  }

  class HighlightService {
    /** The page's `document.body`. */
    var body: Node
    var keywords: seq<string>
    /** Loaded and kept, never read by the highlighter. */
    var commonContactsCount: int
    /** The mutation observer is connected. */
    var observing: bool
    /** The debounce callback scheduled and not yet run or cancelled. */
    var timer: Option<Timer>
    /** The id the next `setTimeout` returns. */
    var nextTimerId: nat
    /** How many scans (`highlightAllKeywords` runs past its guard) so far. */
    ghost var scans: nat

    ghost predicate Valid()
      reads this
    {
      NonEmptyKeywords(keywords) && (timer.Some? ==> timer.value.id < nextTimerId)
    }

    /** The constructor: the keyword load is started (it completes with
        `OnLoaded`), the storage listener is added and the observer is
        connected to the body. */
    constructor (page: Node)
      ensures Valid()
      ensures body == page && keywords == [] && commonContactsCount == 0
      ensures observing && timer.None? && scans == 0
    {
      body := page;
      keywords := [];
      commonContactsCount := 0;
      observing := true;
      timer := None;
      nextTimerId := 1;
      scans := 0;
    }

    /** `highlightInTextNode` on the text node at path `p`. */
    method HighlightInTextNode(p: Path)
      requires Valid()
      modifies this
      ensures Valid()
      ensures body == SpliceOne(old(body), p, keywords)
      ensures keywords == old(keywords) && commonContactsCount == old(commonContactsCount)
      ensures observing == old(observing) && timer == old(timer) && nextTimerId == old(nextTimerId)
      ensures scans == old(scans)
    {
      var found := NodeAt(body, p);
      if found.None? || !found.value.Text? {
        return;
      }
      var content := found.value.data;
      if content == [] {
        NoMarkInEmptyText(keywords);
        return;
      }
      var pattern := Pattern(keywords);
      if pattern == [] {
        PatternEmptyIff(keywords);
        ScanNoKeywords(content, 0, 0);
        return;
      }
      var pieces := Scan(content, keywords);
      var hasMatch := HasMark(pieces);
      if !hasMatch {
        return;
      }
      if p == [] {
        // the text node has no parent
        return;
      }
      var wrapper := PieceNodes(pieces);
      SpliceIsSetChildren(body, p, wrapper);
      var parentPath, k := p[..|p| - 1], p[|p| - 1];
      var parent := NodeAt(body, parentPath).value;
      var kids := InsertBeforeAndRemove(parent.children, k, wrapper);
      body := SetChildren(body, parentPath, kids);
    }

    /** `highlightAllKeywords`: the walker's text nodes are spliced one by
        one, from the last to the first, so that the paths still to be
        visited stay valid. */
    method HighlightAllKeywords()
      requires Valid()
      modifies this
      ensures Valid()
      ensures body == Scanned(old(body), keywords)
      ensures scans == old(scans) + (if keywords == [] then 0 else 1)
      ensures keywords == old(keywords) && commonContactsCount == old(commonContactsCount)
      ensures observing == old(observing) && timer == old(timer) && nextTimerId == old(nextTimerId)
    {
      if |keywords| == 0 {
        return;
      }
      var root := body;
      var textNodes := GetTextNodes(body);
      var i := |textNodes|;
      while i > 0
        invariant 0 <= i <= |textNodes|
        invariant Valid() && keywords == old(keywords) && commonContactsCount == old(commonContactsCount)
        invariant body == ApplyAll(root, textNodes[i..], keywords)
        invariant observing == old(observing) && timer == old(timer) && nextTimerId == old(nextTimerId)
        invariant scans == old(scans)
      {
        i := i - 1;
        assert textNodes[i..][1..] == textNodes[i + 1..];
        HighlightInTextNode(textNodes[i]);
      }
      if root.Element? {
        ApplyAllIsHighlighted(root, false, keywords);
      }
      scans := scans + 1;
    }

    /** `clearHighlights`, by its effect on the body. */
    method ClearHighlights()
      modifies this
      ensures body == Cleared(old(body))
      ensures keywords == old(keywords) && commonContactsCount == old(commonContactsCount)
      ensures observing == old(observing) && timer == old(timer) && nextTimerId == old(nextTimerId)
      ensures scans == old(scans)
    {
      body := Cleared(body);
    }

    /** The end of `initializeKeywords`. */
    method OnLoaded(outcome: LoadOutcome)
      requires Valid()
      requires !outcome.KeywordsReadFailed? ==> NonEmptyKeywords(outcome.storedKeywords.GetOr([]))
      modifies this
      ensures Valid()
      ensures outcome.KeywordsReadFailed? ==>
        body == old(body) && keywords == old(keywords) && commonContactsCount == old(commonContactsCount) &&
        scans == old(scans)
      ensures outcome.CountReadFailed? ==>
        body == old(body) && keywords == outcome.storedKeywords.GetOr([]) &&
        commonContactsCount == old(commonContactsCount) && scans == old(scans)
      ensures outcome.LoadSucceeded? ==>
        keywords == outcome.storedKeywords.GetOr([]) && commonContactsCount == outcome.storedCount.GetOr(0) &&
        body == Scanned(old(body), keywords) && scans == old(scans) + (if keywords == [] then 0 else 1)
      ensures observing == old(observing) && timer == old(timer) && nextTimerId == old(nextTimerId)
    {
      match outcome
      case KeywordsReadFailed =>
      case CountReadFailed(stored) =>
        keywords := stored.GetOr([]);
      case LoadSucceeded(stored, count) =>
        keywords := stored.GetOr([]);
        commonContactsCount := count.GetOr(0);
        HighlightAllKeywords();
    }

    /** The `chrome.storage.onChanged` listener. It stays registered after
        `Destroy`. */
    method OnStorageChanged(area: string, keywordsChanged: bool, newValue: Option<seq<string>>)
      requires Valid() && NonEmptyKeywords(newValue.GetOr([]))
      modifies this
      ensures Valid()
      ensures area == SyncArea && keywordsChanged ==>
        keywords == newValue.GetOr([]) && body == Scanned(Cleared(old(body)), keywords) &&
        scans == old(scans) + (if keywords == [] then 0 else 1)
      ensures !(area == SyncArea && keywordsChanged) ==>
        body == old(body) && keywords == old(keywords) && scans == old(scans)
      ensures commonContactsCount == old(commonContactsCount)
      ensures observing == old(observing) && timer == old(timer) && nextTimerId == old(nextTimerId)
    {
      if area == SyncArea && keywordsChanged {
        ClearHighlights();
        keywords := newValue.GetOr([]);
        HighlightAllKeywords();
      }
    }

    /** `debounceHighlight`: any pending callback is cancelled and a new one
        is scheduled `DebounceMs` after `now`. */
    method DebounceHighlight(now: nat)
      requires Valid()
      modifies this
      ensures Valid()
      ensures timer == Some(Timer(old(nextTimerId), now + DebounceMs)) && nextTimerId == old(nextTimerId) + 1
      ensures body == old(body) && keywords == old(keywords) && commonContactsCount == old(commonContactsCount)
      ensures observing == old(observing) && scans == old(scans)
    {
      if timer.Some? {
        timer := None;
      }
      timer := Some(Timer(nextTimerId, now + DebounceMs));
      nextTimerId := nextTimerId + 1;
    }

    /** The observer's callback, for a batch delivered at time `now`; a
        disconnected observer delivers nothing. */
    method OnMutations(now: nat, batch: seq<MutationRecord>)
      requires Valid()
      modifies this
      ensures Valid()
      ensures observing && AddsElement(batch) ==>
        timer == Some(Timer(old(nextTimerId), now + DebounceMs)) && nextTimerId == old(nextTimerId) + 1
      ensures !(observing && AddsElement(batch)) ==> timer == old(timer) && nextTimerId == old(nextTimerId)
      ensures body == old(body) && keywords == old(keywords) && commonContactsCount == old(commonContactsCount)
      ensures observing == old(observing) && scans == old(scans)
    {
      if !observing {
        return;
      }
      var shouldUpdate := ShouldUpdate(batch);
      if shouldUpdate {
        DebounceHighlight(now);
      }
    }

    /** The clock reaches `now`: a pending callback whose time has come
        runs and scans. */
    method OnClock(now: nat)
      requires Valid()
      modifies this
      ensures Valid()
      ensures old(timer).Some? && old(timer).value.due <= now ==>
        timer.None? && body == Scanned(old(body), keywords) &&
        scans == old(scans) + (if keywords == [] then 0 else 1)
      ensures !(old(timer).Some? && old(timer).value.due <= now) ==>
        timer == old(timer) && body == old(body) && scans == old(scans)
      ensures keywords == old(keywords) && commonContactsCount == old(commonContactsCount)
      ensures observing == old(observing) && nextTimerId == old(nextTimerId)
    {
      if timer.Some? && timer.value.due <= now {
        timer := None;
        HighlightAllKeywords();
      }
    }

    /** `destroy`: highlights cleared, observer disconnected, pending
        callback cancelled. */
    method Destroy()
      requires Valid()
      modifies this
      ensures Valid()
      ensures body == Cleared(old(body)) && !observing && timer.None?
      ensures keywords == old(keywords) && commonContactsCount == old(commonContactsCount)
      ensures nextTimerId == old(nextTimerId) && scans == old(scans)
    {
      ClearHighlights();
      if observing {
        observing := false;
      }
      if timer.Some? {
        timer := None;
      }
    }
  }

  /** With an empty text there is nothing to match. */
  lemma NoMarkInEmptyText(ks: seq<string>)
    requires NonEmptyKeywords(ks)
    ensures !HasMark(Scan([], ks))
  {
    ScanHasMarkIff([], ks);
  }

  /** A mutation batch adding one element. */
  function ElementAdded(): (r: seq<MutationRecord>)
    ensures AddsElement(r)
  {
    var r := [MutationRecord(true, [Element("div", {}, [])])];
    assert r[0].addedNodes[0].Element?;
    r
  }

  /** Debouncing: a burst of element-adding batches at `times`, each less
      than `DebounceMs` after the one before, with the clock ticking up to
      each batch and then past the last one's delay, scans exactly once, at
      the end, provided no callback was already due when the burst began. */
  method Burst(s: HighlightService, times: seq<nat>)
    requires s.Valid() && s.observing && s.keywords != [] && |times| > 0
    requires forall i :: 0 <= i < |times| - 1 ==> times[i] <= times[i + 1] < times[i] + DebounceMs
    requires s.timer.None? || times[0] < s.timer.value.due
    modifies s
    ensures s.Valid() && s.scans == old(s.scans) + 1 && s.timer.None?
    ensures s.body == Scanned(old(s.body), s.keywords) && s.keywords == old(s.keywords)
  {
    var i := 0;
    while i < |times|
      invariant i <= |times| && s.Valid() && s.observing
      invariant s.keywords == old(s.keywords) && s.body == old(s.body) && s.scans == old(s.scans)
      invariant i == 0 ==> s.timer == old(s.timer)
      invariant i > 0 ==> s.timer.Some? && s.timer.value.due == times[i - 1] + DebounceMs
    {
      s.OnClock(times[i]);
      s.OnMutations(times[i], ElementAdded());
      i := i + 1;
    }
    s.OnClock(times[|times| - 1] + DebounceMs);
  }
}
