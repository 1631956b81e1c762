/**
 * `captureCurrentPage` and the late-aisle path of the DOM observer, as pure
 * steps from the persisted list and `lastCapturedUrl` to their new values.
 * The page is an input: its address, what `readProductData` reported and the
 * body text `AisleSection` searches. The fresh id and the timestamp a new
 * entry receives are inputs too.
 */
module Capture {
  import opened Text
  import opened Wrappers
  import opened AisleText
  import opened Entries

  /** What one call of `captureCurrentPage` saw when it ran. */
  datatype Page = Page(href: string, signal: Option<ProductSignal>, bodyText: string)

  /** The persisted list together with the module-level `lastCapturedUrl`. */
  datatype CaptureState = CaptureState(list: seq<ListEntry>, lastCapturedUrl: string)

  /** Which way the call went. */
  datatype Outcome =
    | SameUrl       // automatic call on the URL captured last: returns at once
    | NotProduct    // not a product page: only the URL is recorded
    | Incomplete    // product page without SKU or name yet: nothing recorded
    | Added         // no entry matched: a new one was put in front
    | Merged        // manual call, an entry matched: its gaps were filled
    | AlreadySaved  // automatic call, an entry matched: the list is left alone

  /** The new state, the branch taken, and whether a retry is scheduled 700 ms later. */
  datatype CaptureResult = CaptureResult(state: CaptureState, outcome: Outcome, retry: bool)

  /** `(product.sku || "").trim()`. */
  function SkuKey(s: ProductSignal): string {
    Trim(s.sku)
  }

  /** `(product.url || location.href).trim()`. */
  function UrlKey(s: ProductSignal, href: string): string {
    Trim(if s.url != "" then s.url else href)
  }

  /** The signal is missing, or has neither SKU nor name. */
  predicate IsIncomplete(signal: Option<ProductSignal>) {
    signal.None? || (signal.value.sku == "" && signal.value.name == "")
  }

  /** The entry `unshift`ed for a page seen for the first time. */
  function NewEntry(s: ProductSignal, href: string, aisle: string, id: string, now: string): (e: ListEntry)
    ensures MatchesKey(e, SkuKey(s), UrlKey(s, href))
  {
    ListEntry(id, SkuKey(s), Trim(s.name), aisle, UrlKey(s, href), s.price, now)
  }

  /** What a manual re-capture offers to fill in. */
  function PatchOf(s: ProductSignal, href: string, aisle: string): Patch {
    Patch(Trim(s.name), aisle, UrlKey(s, href), s.price)
  }

  /** One call of `captureCurrentPage(manual)` (lines 874-928). */
  function CaptureStep(st: CaptureState, page: Page, manual: bool, newId: string, now: string): CaptureResult {
    if !manual && page.href == st.lastCapturedUrl then
      CaptureResult(st, SameUrl, false)
    else if !IsProductPage(page.signal, page.href) then
      CaptureResult(st.(lastCapturedUrl := page.href), NotProduct, false)
    else if IsIncomplete(page.signal) then
      CaptureResult(st, Incomplete, !manual)
    else
      Save(st, page.signal.value, page.href, AisleSection(page.bodyText), manual, newId, now)
  }

  /** Lines 892-927: the product is complete; insert it, merge it, or leave it. */
  function Save(st: CaptureState, s: ProductSignal, href: string, aisle: string, manual: bool, newId: string, now: string): CaptureResult {
    if !AnyMatch(st.list, SkuKey(s), UrlKey(s, href)) then
      CaptureResult(CaptureState([NewEntry(s, href, aisle, newId, now)] + st.list, href), Added, false)
    else if manual then
      CaptureResult(CaptureState(MergeMatching(st.list, SkuKey(s), UrlKey(s, href), PatchOf(s, href, aisle)), href), Merged, false)
    else
      CaptureResult(st.(lastCapturedUrl := href), AlreadySaved, false)
  }

  // ---------------------------------------------------------------------
  // The branches, one lemma each

  /** An automatic call on the URL captured last changes nothing and schedules nothing. */
  lemma SameUrlIsNoOp(st: CaptureState, page: Page, newId: string, now: string)
    requires page.href == st.lastCapturedUrl
    ensures var r := CaptureStep(st, page, false, newId, now);
      r.state == st && r.outcome == SameUrl && !r.retry
  {
  }

  /**
   * A page that is not a product page never changes the list; unless the call
   * was skipped as a repeat, it becomes the URL captured last.
   */
  lemma NotProductPageLeavesList(st: CaptureState, page: Page, manual: bool, newId: string, now: string)
    requires !IsProductPage(page.signal, page.href)
    ensures var r := CaptureStep(st, page, manual, newId, now);
      && r.state.list == st.list && !r.retry
      && (manual || page.href != st.lastCapturedUrl ==> r.outcome == NotProduct && r.state.lastCapturedUrl == page.href)
  {
  }

  /**
   * A product page whose data is not there yet changes nothing, not even the
   * URL captured last; a retry is scheduled exactly when the call was automatic.
   */
  lemma IncompletePageRetries(st: CaptureState, page: Page, manual: bool, newId: string, now: string)
    requires manual || page.href != st.lastCapturedUrl
    requires IsProductPage(page.signal, page.href) && IsIncomplete(page.signal)
    ensures var r := CaptureStep(st, page, manual, newId, now);
      r.state == st && r.outcome == Incomplete && r.retry == !manual
  {
  }

  /** A retry is scheduled only by an automatic call that found an incomplete product page. */
  lemma RetryOnlyWhenIncomplete(st: CaptureState, page: Page, manual: bool, newId: string, now: string)
    ensures CaptureStep(st, page, manual, newId, now).retry <==>
      && !manual && page.href != st.lastCapturedUrl
      && IsProductPage(page.signal, page.href) && IsIncomplete(page.signal)
  {
  }

  /**
   * Retries do not stop by themselves: the retry of an incomplete page that
   * is still incomplete schedules another one.
   */
  lemma RetryRepeats(st: CaptureState, page: Page, id1: string, t1: string, id2: string, t2: string)
    requires CaptureStep(st, page, false, id1, t1).retry
    ensures var st' := CaptureStep(st, page, false, id1, t1).state;
      st' == st && CaptureStep(st', page, false, id2, t2).retry
  {
  }

  /** A complete product page that matches no entry adds one in front, keyed by the trimmed SKU and URL. */
  lemma NewProductAdded(st: CaptureState, page: Page, manual: bool, newId: string, now: string)
    requires manual || page.href != st.lastCapturedUrl
    requires IsProductPage(page.signal, page.href) && !IsIncomplete(page.signal)
    requires !AnyMatch(st.list, SkuKey(page.signal.value), UrlKey(page.signal.value, page.href))
    ensures var r := CaptureStep(st, page, manual, newId, now);
      var e := r.state.list[0];
      && r.outcome == Added && !r.retry
      && r.state.list == [e] + st.list
      && e.id == newId && e.savedAt == now
      && e.sku == SkuKey(page.signal.value) && e.url == UrlKey(page.signal.value, page.href)
      && e.name == Trim(page.signal.value.name) && e.price == page.signal.value.price
      && e.aisle == AisleSection(page.bodyText)
      && r.state.lastCapturedUrl == page.href
  {
  }

  /**
   * An automatic call on a page already in the list leaves the list as it is:
   * it neither adds nor merges, and it records the URL unless the signal was incomplete.
   */
  lemma AutomaticCaptureKeepsExisting(st: CaptureState, page: Page, newId: string, now: string)
    requires page.signal.Some? && AnyMatch(st.list, SkuKey(page.signal.value), UrlKey(page.signal.value, page.href))
    ensures var r := CaptureStep(st, page, false, newId, now);
      && r.state.list == st.list
      && r.outcome in {SameUrl, NotProduct, Incomplete, AlreadySaved}
      && (r.outcome != Incomplete ==> r.state.lastCapturedUrl == page.href)
  {
  }

  // ---------------------------------------------------------------------
  // Properties across branches

  /** Every call keeps the de-duplication invariant. */
  lemma CaptureKeepsNoDuplicates(st: CaptureState, page: Page, manual: bool, newId: string, now: string)
    requires NoDuplicates(st.list)
    ensures NoDuplicates(CaptureStep(st, page, manual, newId, now).state.list)
  {
    var r := CaptureStep(st, page, manual, newId, now);
    if r.outcome == Added {
      var s := page.signal.value;
      PrependKeepsNoDuplicates(st.list, NewEntry(s, page.href, AisleSection(page.bodyText), newId, now));
    } else if r.outcome == Merged {
      MergeKeepsKeys(st.list, SkuKey(page.signal.value), UrlKey(page.signal.value, page.href),
        PatchOf(page.signal.value, page.href, AisleSection(page.bodyText)));
      KeysKeptKeepNoDuplicates(st.list, r.state.list);
    }
  }

  /** Merging never moves an entry's de-duplication keys. */
  lemma MergeKeepsKeys(list: seq<ListEntry>, skuKey: string, urlKey: string, p: Patch)
    requires p.url == urlKey
    ensures KeysKept(list, MergeMatching(list, skuKey, urlKey, p))
    ensures IdsKept(list, MergeMatching(list, skuKey, urlKey, p))
  {
  }

  /** With a fresh id for the new entry, every call keeps ids unique. */
  lemma CaptureKeepsUniqueIds(st: CaptureState, page: Page, manual: bool, newId: string, now: string)
    requires UniqueIds(st.list) && FreshId(st.list, newId)
    ensures UniqueIds(CaptureStep(st, page, manual, newId, now).state.list)
  {
    var r := CaptureStep(st, page, manual, newId, now);
    if r.outcome == Added {
      PrependKeepsUniqueIds(st.list, r.state.list[0]);
    } else if r.outcome == Merged {
      MergeKeepsKeys(st.list, SkuKey(page.signal.value), UrlKey(page.signal.value, page.href),
        PatchOf(page.signal.value, page.href, AisleSection(page.bodyText)));
      IdsKeptKeepUniqueIds(st.list, r.state.list);
    }
  }

  /** After a call that saved the product, the list holds an entry under its key. */
  lemma CapturedProductIsListed(st: CaptureState, page: Page, manual: bool, newId: string, now: string)
    requires var o := CaptureStep(st, page, manual, newId, now).outcome; o.Added? || o.Merged? || o.AlreadySaved?
    ensures page.signal.Some?
    ensures AnyMatch(CaptureStep(st, page, manual, newId, now).state.list,
      SkuKey(page.signal.value), UrlKey(page.signal.value, page.href))
  {
    if (manual || page.href != st.lastCapturedUrl) && IsProductPage(page.signal, page.href) && !IsIncomplete(page.signal) {
      SaveListsProduct(st, page.signal.value, page.href, AisleSection(page.bodyText), manual, newId, now);
    }
  }

  lemma SaveListsProduct(st: CaptureState, s: ProductSignal, href: string, aisle: string, manual: bool, newId: string, now: string)
    ensures AnyMatch(Save(st, s, href, aisle, manual, newId, now).state.list, SkuKey(s), UrlKey(s, href))
  {
    var skuKey, urlKey := SkuKey(s), UrlKey(s, href);
    var r := Save(st, s, href, aisle, manual, newId, now);
    if !AnyMatch(st.list, skuKey, urlKey) {
      assert MatchesKey(r.state.list[0], skuKey, urlKey);
    } else if manual {
      var k :| 0 <= k < |st.list| && MatchesKey(st.list[k], skuKey, urlKey);
      MergeKeepsKeys(st.list, skuKey, urlKey, PatchOf(s, href, aisle));
      assert MatchesKey(r.state.list[k], skuKey, urlKey);
    }
  }

  /**
   * Capture adds at most one entry, and only when nothing matched; it never
   * drops one.
   */
  lemma CaptureGrowsByAtMostOne(st: CaptureState, page: Page, manual: bool, newId: string, now: string)
    ensures var r := CaptureStep(st, page, manual, newId, now);
      && (r.outcome == Added ==> |r.state.list| == |st.list| + 1 && r.state.list[1..] == st.list)
      && (r.outcome != Added ==> |r.state.list| == |st.list|)
  {
  }

  /**
   * A manual re-capture enriches and never regresses: every entry keeps its
   * id, SKU and timestamp and every field it had, matching entries have their
   * gaps filled from the page, the others stay as they were.
   */
  lemma ManualCaptureFillsGaps(st: CaptureState, page: Page, newId: string, now: string)
    requires CaptureStep(st, page, true, newId, now).outcome == Merged
    ensures page.signal.Some?
    ensures var r := CaptureStep(st, page, true, newId, now);
      var s := page.signal.value;
      var p := PatchOf(s, page.href, AisleSection(page.bodyText));
      && r.state.lastCapturedUrl == page.href
      && |r.state.list| == |st.list|
      && forall k :: 0 <= k < |st.list| ==>
        && Enriches(st.list[k], r.state.list[k])
        && (MatchesKey(st.list[k], SkuKey(s), UrlKey(s, page.href)) ==> r.state.list[k] == FillGaps(st.list[k], p))
        && (!MatchesKey(st.list[k], SkuKey(s), UrlKey(s, page.href)) ==> r.state.list[k] == st.list[k])
  {
    var s := page.signal.value;
    var aisle := AisleSection(page.bodyText);
    var p := PatchOf(s, page.href, aisle);
    var r := CaptureStep(st, page, true, newId, now);
    assert r == Save(st, s, page.href, aisle, true, newId, now);
    var m := MergeMatching(st.list, SkuKey(s), UrlKey(s, page.href), p);
    assert r.state.list == m;
    MergeEnriches(st.list, SkuKey(s), UrlKey(s, page.href), p);
  }

  /**
   * Two automatic calls in a row on the same page: the second changes nothing,
   * so at most one entry was added between them.
   */
  lemma AutomaticCaptureIdempotent(st: CaptureState, page: Page, id1: string, t1: string, id2: string, t2: string)
    ensures var st1 := CaptureStep(st, page, false, id1, t1).state;
      && CaptureStep(st1, page, false, id2, t2).state == st1
      && |st1.list| <= |st.list| + 1
  {
  }

  /** Merging a patch into a list that already absorbed it changes nothing. */
  lemma {:induction false} MergeIdempotent(list: seq<ListEntry>, skuKey: string, urlKey: string, p: Patch)
    requires p.url == urlKey
    ensures var m := MergeMatching(list, skuKey, urlKey, p);
      MergeMatching(m, skuKey, urlKey, p) == m
  {
    var m := MergeMatching(list, skuKey, urlKey, p);
    var m2 := MergeMatching(m, skuKey, urlKey, p);
    forall k | 0 <= k < |list| ensures m2[k] == m[k] {
      MergeKeepsKeys(list, skuKey, urlKey, p);
      FillGapsMonotone(list[k], p);
    }
  }

  /** Two manual calls in a row on the same page: the second changes nothing. */
  lemma ManualCaptureIdempotent(st: CaptureState, page: Page, id1: string, t1: string, id2: string, t2: string)
    ensures var st1 := CaptureStep(st, page, true, id1, t1).state;
      CaptureStep(st1, page, true, id2, t2).state == st1
  {
    if IsProductPage(page.signal, page.href) && !IsIncomplete(page.signal) {
      SaveManualIdempotent(st, page.signal.value, page.href, AisleSection(page.bodyText), id1, t1, id2, t2);
    }
  }

  lemma SaveManualIdempotent(st: CaptureState, s: ProductSignal, href: string, aisle: string,
                             id1: string, t1: string, id2: string, t2: string)
    ensures var st1 := Save(st, s, href, aisle, true, id1, t1).state;
      Save(st1, s, href, aisle, true, id2, t2).state == st1
  {
    var skuKey, urlKey := SkuKey(s), UrlKey(s, href);
    var p := PatchOf(s, href, aisle);
    var st1 := Save(st, s, href, aisle, true, id1, t1).state;
    SaveListsProduct(st, s, href, aisle, true, id1, t1);
    if !AnyMatch(st.list, skuKey, urlKey) {
      var m := MergeMatching(st1.list, skuKey, urlKey, p);
      assert m[0] == st1.list[0];
      forall k | 1 <= k < |m| ensures m[k] == st1.list[k] {
        assert st1.list[k] == st.list[k - 1];
      }
      assert m == st1.list;
    } else {
      MergeIdempotent(st.list, skuKey, urlKey, p);
    }
  }

  // ---------------------------------------------------------------------
  // The late-aisle path of the DOM observer (lines 960-976)

  /** One firing of the observer: fill the aisle of the first entry with the page's SKU if it is a placeholder. */
  function LateAisle(list: seq<ListEntry>, signal: Option<ProductSignal>, bodyText: string): seq<ListEntry> {
    if signal.None? || signal.value.sku == "" then list
    else
      var aisle := AisleSection(bodyText);
      if aisle == "" then list
      else match FirstSkuIndex(list, Trim(signal.value.sku))
        case None => list
        case Some(idx) =>
          if IsPlaceholderAisle(list[idx].aisle) then list[idx := list[idx].(aisle := aisle)] else list
  }

  /** The entry the observer would update, when there is one. */
  predicate LateAisleApplies(list: seq<ListEntry>, signal: Option<ProductSignal>, bodyText: string) {
    && signal.Some? && signal.value.sku != ""
    && AisleSection(bodyText) != ""
    && FirstSkuIndex(list, Trim(signal.value.sku)).Some?
    && IsPlaceholderAisle(list[FirstSkuIndex(list, Trim(signal.value.sku)).value].aisle)
  }

  /**
   * The observer touches at most one field of one entry: the aisle of the
   * first entry carrying the page's SKU, and only when that aisle is a
   * placeholder and the page shows an aisle; then the entry gets exactly
   * that aisle.
   */
  lemma LateAisleTouchesOneAisle(list: seq<ListEntry>, signal: Option<ProductSignal>, bodyText: string)
    ensures var r := LateAisle(list, signal, bodyText);
      && |r| == |list|
      && (!LateAisleApplies(list, signal, bodyText) ==> r == list)
      && (LateAisleApplies(list, signal, bodyText) ==>
        var idx := FirstSkuIndex(list, Trim(signal.value.sku)).value;
        && r[idx] == list[idx].(aisle := AisleSection(bodyText))
        && forall k :: 0 <= k < |list| && k != idx ==> r[k] == list[k])
  {
  }

  /** The observer keeps both list invariants. */
  lemma LateAisleKeepsInvariants(list: seq<ListEntry>, signal: Option<ProductSignal>, bodyText: string)
    requires NoDuplicates(list) && UniqueIds(list)
    ensures NoDuplicates(LateAisle(list, signal, bodyText))
    ensures UniqueIds(LateAisle(list, signal, bodyText))
  {
    var r := LateAisle(list, signal, bodyText);
    LateAisleTouchesOneAisle(list, signal, bodyText);
    if LateAisleApplies(list, signal, bodyText) {
      var idx := FirstSkuIndex(list, Trim(signal.value.sku)).value;
      forall k | 0 <= k < |list| ensures r[k].sku == list[k].sku && r[k].url == list[k].url && r[k].id == list[k].id {
        if k != idx {
          assert r[k] == list[k];
        }
      }
      KeysKeptKeepNoDuplicates(list, r);
      IdsKeptKeepUniqueIds(list, r);
    }
  }
}
