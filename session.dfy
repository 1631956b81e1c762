/**
 * The module-level state of the user script and the operations that update
 * it in place: the persisted pick list, `lastCapturedUrl` and the aisle the
 * user selected in the sidebar. `captureCurrentPage`, the late-data observer,
 * the Delete button, the Clear all button and the sidebar's aisle click each
 * become a method of `PickList`, proved against the pure steps of `Capture`,
 * `Entries` and `AisleIndex`.
 */
module Session {
  import opened Text
  import opened Wrappers
  import opened AisleText
  import opened Entries
  import opened Capture
  import opened AisleIndex

  /** `handleAisleClick`: clicking the selected aisle clears the selection, any other aisle becomes it. */
  function Toggle(sel: Option<string>, aisle: string): Option<string> {
    if sel == Some(aisle) then None else Some(aisle)
  }

  /** A click selects the aisle exactly when it was not selected, and otherwise clears the selection. */
  lemma ToggleMeans(sel: Option<string>, aisle: string)
    ensures Toggle(sel, aisle) == None <==> sel == Some(aisle)
    ensures Toggle(sel, aisle) != None ==> Toggle(sel, aisle) == Some(aisle)
  {
  }

  /** Two clicks on the same aisle undo each other when nothing or that aisle was selected. */
  lemma ToggleTwice(sel: Option<string>, aisle: string)
    requires sel == None || sel == Some(aisle)
    ensures Toggle(Toggle(sel, aisle), aisle) == sel
  {
  }

  /** After Clear all the panel shows nothing: no entries, no buckets, no selection. */
  lemma ClearedPanelIsEmpty()
    ensures DisplayList(AsWritten, [], None) == [] && AisleCounts([]) == map[] && SidebarOrder([]) == []
  {
    assert Buckets([]) == [];
  }

  /**
   * The first visit of a product page that shows no aisle yet, followed by
   * the observer seeing the aisle appear: exactly one entry, which carries
   * the aisle that appeared and the page's price.
   */
  lemma LateAisleScenario(s: ProductSignal, href: string, before: string, after: string, id: string, now: string)
    requires href != "" && IsProductPage(Some(s), href)
    requires SkuKey(s) != "" && AisleSection(before) == "" && AisleSection(after) != ""
    ensures var st := CaptureStep(CaptureState([], ""), Page(href, Some(s), before), false, id, now).state;
      var l := LateAisle(st.list, Some(s), after);
      && |l| == 1 && l[0].sku == SkuKey(s)
      && l[0].aisle == AisleSection(after) && l[0].price == s.price
  {
    var r := CaptureStep(CaptureState([], ""), Page(href, Some(s), before), false, id, now);
    assert !AnyMatch([], SkuKey(s), UrlKey(s, href));
    var e := NewEntry(s, href, "", id, now);
    assert r.state.list == [e];
    assert FirstSkuIndex([e], Trim(s.sku)) == Some(0);
  }

  /**
   * "Add current" on a page captured before without a name, now showing the
   * name: the one entry for that SKU gets the name and stays the only one.
   */
  lemma ManualNameScenario(e: ListEntry, s: ProductSignal, page: Page, id: string, now: string)
    requires page.signal == Some(s) && IsProductPage(page.signal, page.href)
    requires e.sku == SkuKey(s) != "" && e.name == "" && Trim(s.name) != ""
    ensures var r := CaptureStep(CaptureState([e], page.href), page, true, id, now);
      && r.outcome == Merged
      && |r.state.list| == 1 && r.state.list[0].sku == e.sku && r.state.list[0].name == Trim(s.name)
  {
    assert MatchesKey(e, SkuKey(s), UrlKey(s, page.href));
    var p := PatchOf(s, page.href, AisleSection(page.bodyText));
    assert MergeMatching([e], SkuKey(s), UrlKey(s, page.href), p) == [FillGaps(e, p)];
  }

  /** The session: the stored list, the URL captured last and the selected aisle. */
  class PickList {
    var list: seq<ListEntry>
    var lastCapturedUrl: string
    var selectedAisle: Option<string>

    /** The list's own invariants: no two entries for one product, no two entries with one id. */
    ghost predicate Valid()
      reads this
    {
      NoDuplicates(list) && UniqueIds(list)
    }

    /** The start of a session: nothing stored, nothing captured, nothing selected. */
    constructor ()
      ensures list == [] && lastCapturedUrl == "" && selectedAisle == None && Valid()
    {
      list := [];
      lastCapturedUrl := "";
      selectedAisle := None;
    }

    /**
     * `captureCurrentPage(manual)` on `page`, with `newId` and `now` for a new
     * entry; `retry` says that a new automatic call is scheduled 700 ms later.
     */
    method CaptureCurrentPage(page: Page, manual: bool, newId: string, now: string) returns (retry: bool)
      modifies this
      ensures var r := CaptureStep(old(CaptureState(list, lastCapturedUrl)), page, manual, newId, now);
        list == r.state.list && lastCapturedUrl == r.state.lastCapturedUrl && retry == r.retry
      ensures selectedAisle == old(selectedAisle)
      ensures old(Valid()) && FreshId(old(list), newId) ==> Valid()
    {
      ghost var st := CaptureState(list, lastCapturedUrl);
      ghost var r := CaptureStep(st, page, manual, newId, now);
      if Valid() && FreshId(list, newId) {
        CaptureKeepsNoDuplicates(st, page, manual, newId, now);
        CaptureKeepsUniqueIds(st, page, manual, newId, now);
      }
      retry := false;
      if !manual && page.href == lastCapturedUrl {
        assert r == CaptureResult(st, SameUrl, false);
        return;
      }
      if !IsProductPage(page.signal, page.href) {
        lastCapturedUrl := page.href;
        return;
      }
      if IsIncomplete(page.signal) {
        retry := !manual;
        return;
      }
      var product := page.signal.value;
      var aisle := AisleSection(page.bodyText);
      var skuKey := SkuKey(product);
      var urlKey := UrlKey(product, page.href);
      assert r == Save(st, product, page.href, aisle, manual, newId, now);
      if !AnyMatch(list, skuKey, urlKey) {
        list := [NewEntry(product, page.href, aisle, newId, now)] + list;
      } else if manual {
        list := MergeMatching(list, skuKey, urlKey, PatchOf(product, page.href, aisle));
      }
      lastCapturedUrl := page.href;
    }

    /** One firing of the late-data observer on the current page. */
    method ObserveLateData(signal: Option<ProductSignal>, bodyText: string)
      modifies this
      ensures list == LateAisle(old(list), signal, bodyText)
      ensures lastCapturedUrl == old(lastCapturedUrl) && selectedAisle == old(selectedAisle)
      ensures old(Valid()) ==> Valid()
    {
      if Valid() {
        LateAisleKeepsInvariants(list, signal, bodyText);
      }
      if signal.None? || signal.value.sku == "" {
        return;
      }
      var aisle := AisleSection(bodyText);
      if aisle == "" {
        return;
      }
      var idx := FirstSkuIndex(list, Trim(signal.value.sku));
      if idx.None? {
        return;
      }
      if IsPlaceholderAisle(list[idx.value].aisle) {
        list := list[idx.value := list[idx.value].(aisle := aisle)];
      }
    }

    /** `handleDelete`: drop the entries with this id. */
    method Delete(id: string)
      modifies this
      ensures list == RemoveId(old(list), id)
      ensures lastCapturedUrl == old(lastCapturedUrl) && selectedAisle == old(selectedAisle)
      ensures old(Valid()) ==> Valid()
    {
      if Valid() {
        RemoveIdKeepsNoDuplicates(list, id);
        RemoveIdKeepsUniqueIds(list, id);
      }
      list := RemoveId(list, id);
    }

    /** The Clear all button: an empty list and no selected aisle. */
    method ClearAll()
      modifies this
      ensures list == [] && selectedAisle == None && lastCapturedUrl == old(lastCapturedUrl)
      ensures Valid()
    {
      list := [];
      selectedAisle := None;
    }

    /** `handleAisleClick`. */
    method AisleClick(aisle: string)
      modifies this
      ensures selectedAisle == Toggle(old(selectedAisle), aisle)
      ensures list == old(list) && lastCapturedUrl == old(lastCapturedUrl)
    {
      if selectedAisle == Some(aisle) {
        selectedAisle := None;
      } else {
        selectedAisle := Some(aisle);
      }
    }
  }
}
