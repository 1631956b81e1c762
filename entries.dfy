/**
 * The pick list's entries and the pure list operations the capture logic is
 * built from: the product-page test, the de-duplication key match, the
 * fill-gaps merge, the late-aisle update and delete-by-id.
 */
module Entries {
  import opened Text
  import opened Wrappers

  /** A price read from the page's structured data; the model only stores and copies it. */
  datatype Price = Price(amount: real)

  /** One saved product. `savedAt` is an ISO timestamp kept as text. */
  datatype ListEntry = ListEntry(
    id: string,
    sku: string,
    name: string,
    aisle: string,
    url: string,
    price: Option<Price>,
    savedAt: string)

  /** What `readProductData` reports for a product page, or `None` for `null`. */
  datatype ProductSignal = ProductSignal(sku: string, name: string, url: string, price: Option<Price>)

  // ---------------------------------------------------------------------
  // The product-page test

  /** No line terminator in `h[i..j]`: what `.*` can span. */
  predicate NoLineTerminator(h: string, i: nat, j: nat)
    requires i <= j <= |h|
  {
    forall p :: i <= p < j ==> !IsLineTerminator(h[p])
  }

  /** `\.htm` (case-insensitive) occurs at `k`. */
  predicate HtmAt(h: string, k: nat) {
    k < |h| && h[k] == '.' && WordAt(h, k + 1, "htm")
  }

  /**
   * `/\/\d+\/p-.*\.htm/i` matches `h[i..k + 4]`: a slash, digits ending at `a`,
   * "/p-", anything but line terminators, then ".htm".
   */
  ghost predicate UrlShapeAt(h: string, i: nat, a: nat, k: nat) {
    && i + 1 < a && a + 3 <= k && k <= |h|
    && h[i] == '/' && AllIn(h, i + 1, a, Digit)
    && h[a] == '/' && Fold(h[a + 1]) == 'p' && h[a + 2] == '-'
    && NoLineTerminator(h, a + 3, k) && HtmAt(h, k)
  }

  /** Where `.*` may start after `\/\d+\/p-` matched at `i`, if that prefix matches. */
  function SlugStart(h: string, i: nat): (r: Option<nat>)
    requires i <= |h|
    ensures r.Some? ==> i + 4 < r.value <= |h|
  {
    if i < |h| && h[i] == '/' then
      var a := RunEnd(h, i + 1, Digit);
      if i + 1 < a && a + 3 <= |h| && h[a] == '/' && Fold(h[a + 1]) == 'p' && h[a + 2] == '-'
      then Some(a + 3) else None
    else None
  }

  /** `.*\.htm` matches from `j` on. */
  function HtmAhead(h: string, j: nat): (b: bool)
    requires j <= |h|
    ensures b <==> exists k :: j <= k <= |h| && NoLineTerminator(h, j, k) && HtmAt(h, k)
    decreases |h| - j
  {
    if HtmAt(h, j) then true
    else if j < |h| && !IsLineTerminator(h[j]) then
      var b := HtmAhead(h, j + 1);
      assert b ==> exists k :: j <= k <= |h| && NoLineTerminator(h, j, k) && HtmAt(h, k) by {
        if b {
          var k :| j + 1 <= k <= |h| && NoLineTerminator(h, j + 1, k) && HtmAt(h, k);
          assert NoLineTerminator(h, j, k);
        }
      }
      b
    else
      false
  }

  /** `/\/\d+\/p-.*\.htm/i.test(h)`, searched from position `i` on. */
  function UrlShapeFrom(h: string, i: nat): (b: bool)
    requires i <= |h|
    decreases |h| - i
  {
    (SlugStart(h, i).Some? && HtmAhead(h, SlugStart(h, i).value))
    || (i < |h| && UrlShapeFrom(h, i + 1))
  }

  /** The site's product-page URL shape: `/<digits>/p-….htm`. */
  function IsProductUrl(h: string): bool {
    UrlShapeFrom(h, 0)
  }

  /** Starting at `i`, the prefix `\/\d+\/p-` is forced: the digits end at the first non-digit. */
  lemma SlugStartOfShape(h: string, i: nat, a: nat, k: nat)
    requires UrlShapeAt(h, i, a, k)
    ensures SlugStart(h, i) == Some(a + 3)
  {
    RunEndCovers(h, i + 1, a, Digit);
  }

  /** The shape starts exactly at `i`. */
  ghost predicate ShapeStartsAt(h: string, i: nat) {
    exists a, k :: UrlShapeAt(h, i, a, k)
  }

  /** The matcher's test at one position is the shape starting there. */
  lemma ShapeAtCorrect(h: string, i: nat)
    requires i <= |h|
    ensures (SlugStart(h, i).Some? && HtmAhead(h, SlugStart(h, i).value)) <==> ShapeStartsAt(h, i)
  {
    if SlugStart(h, i).Some? && HtmAhead(h, SlugStart(h, i).value) {
      var a := RunEnd(h, i + 1, Digit);
      var k :| a + 3 <= k <= |h| && NoLineTerminator(h, a + 3, k) && HtmAt(h, k);
      assert UrlShapeAt(h, i, a, k);
    }
    if ShapeStartsAt(h, i) {
      var a, k :| UrlShapeAt(h, i, a, k);
      SlugStartOfShape(h, i, a, k);
    }
  }

  lemma {:induction false} UrlShapeFromCorrect(h: string, i: nat)
    requires i <= |h|
    ensures UrlShapeFrom(h, i) <==> exists i', a, k :: i <= i' && UrlShapeAt(h, i', a, k)
    decreases |h| - i
  {
    ShapeAtCorrect(h, i);
    if i < |h| {
      UrlShapeFromCorrect(h, i + 1);
    }
    if exists i', a, k :: i <= i' && UrlShapeAt(h, i', a, k) {
      var i', a, k :| i <= i' && UrlShapeAt(h, i', a, k);
      assert i' == i ==> ShapeStartsAt(h, i);
      assert i' != i ==> i < |h| && i + 1 <= i';
    }
    if ShapeStartsAt(h, i) {
      var a, k :| UrlShapeAt(h, i, a, k);
      assert i <= i && UrlShapeAt(h, i, a, k);
    }
  }

  /** The URL test holds exactly when the URL has the product-page shape somewhere. */
  lemma IsProductUrlCorrect(h: string)
    ensures IsProductUrl(h) <==> exists i, a, k :: UrlShapeAt(h, i, a, k)
  {
    UrlShapeFromCorrect(h, 0);
  }

  /** `isProductPage`: the signal carries a (truthy) SKU, or the URL has the product shape. */
  function IsProductPage(signal: Option<ProductSignal>, href: string): (b: bool)
    ensures b <==> (signal.Some? && signal.value.sku != "") || exists i, a, k :: UrlShapeAt(href, i, a, k)
  {
    IsProductUrlCorrect(href);
    (signal.Some? && signal.value.sku != "") || IsProductUrl(href)
  }

  // ---------------------------------------------------------------------
  // De-duplication

  /** The match of lines 898 and 913: by SKU when the key has one, otherwise by URL. */
  predicate MatchesKey(x: ListEntry, skuKey: string, urlKey: string) {
    (skuKey != "" && x.sku == skuKey) || (skuKey == "" && x.url == urlKey)
  }

  /** `list.some(...)` with that match. */
  function AnyMatch(list: seq<ListEntry>, skuKey: string, urlKey: string): (b: bool)
    ensures b <==> exists k :: 0 <= k < |list| && MatchesKey(list[k], skuKey, urlKey)
  {
    if list == [] then false
    else MatchesKey(list[0], skuKey, urlKey) || AnyMatch(list[1..], skuKey, urlKey)
  }

  /**
   * Two entries that may share the list: equal SKUs only when both are empty,
   * and then different URLs.
   */
  predicate Distinct(x: ListEntry, y: ListEntry) {
    x.sku == y.sku ==> x.sku == "" && x.url != y.url
  }

  /** The list invariant: no two entries share a non-empty SKU, no two SKU-less entries share a URL. */
  ghost predicate NoDuplicates(list: seq<ListEntry>) {
    forall i, j :: 0 <= i < j < |list| ==> Distinct(list[i], list[j])
  }

  lemma DistinctSymmetric(x: ListEntry, y: ListEntry)
    ensures Distinct(x, y) <==> Distinct(y, x)
  {
  }

  /** The invariant in its usual words. */
  lemma NoDuplicatesMeans(list: seq<ListEntry>, i: nat, j: nat)
    requires NoDuplicates(list) && i < |list| && j < |list| && i != j
    ensures list[i].sku != "" ==> list[i].sku != list[j].sku
    ensures list[i].sku == "" && list[j].sku == "" ==> list[i].url != list[j].url
  {
    if i < j {
      assert Distinct(list[i], list[j]);
    } else {
      assert Distinct(list[j], list[i]);
    }
  }

  /** An entry that matches no list entry by its own key is distinct from all of them. */
  lemma NewEntryDistinct(list: seq<ListEntry>, e: ListEntry)
    requires !AnyMatch(list, e.sku, e.url)
    ensures forall k :: 0 <= k < |list| ==> Distinct(e, list[k])
  {
    forall k | 0 <= k < |list| ensures Distinct(e, list[k]) {
      assert !MatchesKey(list[k], e.sku, e.url);
    }
  }

  /** Prepending an entry distinct from every entry keeps the invariant. */
  lemma ConsKeepsNoDuplicates(e: ListEntry, list: seq<ListEntry>)
    requires NoDuplicates(list) && forall k :: 0 <= k < |list| ==> Distinct(e, list[k])
    ensures NoDuplicates([e] + list)
  {
    var l := [e] + list;
    forall i, j | 0 <= i < j < |l| ensures Distinct(l[i], l[j]) {
      if i == 0 {
        assert l[j] == list[j - 1];
      } else {
        assert l[i] == list[i - 1] && l[j] == list[j - 1];
      }
    }
  }

  /** The invariant holds of a list's tail. */
  lemma TailKeepsNoDuplicates(list: seq<ListEntry>)
    requires NoDuplicates(list) && list != []
    ensures NoDuplicates(list[1..])
  {
    var rest := list[1..];
    forall i, j | 0 <= i < j < |rest| ensures Distinct(rest[i], rest[j]) {
      assert rest[i] == list[i + 1] && rest[j] == list[j + 1];
    }
  }

  /** Prepending an entry that matches nothing keeps the invariant. */
  lemma PrependKeepsNoDuplicates(list: seq<ListEntry>, e: ListEntry)
    requires NoDuplicates(list) && !AnyMatch(list, e.sku, e.url)
    ensures NoDuplicates([e] + list)
  {
    NewEntryDistinct(list, e);
    ConsKeepsNoDuplicates(e, list);
  }


  /**
   * `b` keeps `a`'s de-duplication keys: the same length, the same SKU at
   * every position, and the same URL wherever the SKU is empty.
   */
  ghost predicate KeysKept(a: seq<ListEntry>, b: seq<ListEntry>) {
    |a| == |b| && forall k :: 0 <= k < |a| ==>
      b[k].sku == a[k].sku && (a[k].sku == "" ==> b[k].url == a[k].url)
  }

  lemma KeysKeptKeepNoDuplicates(a: seq<ListEntry>, b: seq<ListEntry>)
    requires NoDuplicates(a) && KeysKept(a, b)
    ensures NoDuplicates(b)
  {
    forall i, j | 0 <= i < j < |b| ensures Distinct(b[i], b[j]) {
      assert Distinct(a[i], a[j]);
    }
  }

  /** No two entries share an id. */
  ghost predicate UniqueIds(list: seq<ListEntry>) {
    forall i, j :: 0 <= i < j < |list| ==> list[i].id != list[j].id
  }

  /** `id` is not the id of any entry. */
  predicate FreshId(list: seq<ListEntry>, id: string) {
    forall k :: 0 <= k < |list| ==> list[k].id != id
  }

  /** `b` has `a`'s ids, position by position. */
  ghost predicate IdsKept(a: seq<ListEntry>, b: seq<ListEntry>) {
    |a| == |b| && forall k :: 0 <= k < |a| ==> b[k].id == a[k].id
  }

  lemma IdsKeptKeepUniqueIds(a: seq<ListEntry>, b: seq<ListEntry>)
    requires UniqueIds(a) && IdsKept(a, b)
    ensures UniqueIds(b)
  {
    forall i, j | 0 <= i < j < |b| ensures b[i].id != b[j].id {
      assert a[i].id != a[j].id;
    }
  }

  lemma PrependKeepsUniqueIds(list: seq<ListEntry>, e: ListEntry)
    requires UniqueIds(list) && FreshId(list, e.id)
    ensures UniqueIds([e] + list)
  {
    var l := [e] + list;
    forall i, j | 0 <= i < j < |l| ensures l[i].id != l[j].id {
      assert l[j] == list[j - 1];
      if i > 0 {
        assert l[i] == list[i - 1];
      }
    }
  }

  // ---------------------------------------------------------------------
  // The fill-gaps merge (lines 912-922)

  /** The fields a capture observed, already trimmed, to be merged into an entry. */
  datatype Patch = Patch(name: string, aisle: string, url: string, price: Option<Price>)

  /** One entry after the merge: each of name, aisle, url and price is adopted only if it was empty. */
  function FillGaps(x: ListEntry, p: Patch): (y: ListEntry)
    ensures y.id == x.id && y.sku == x.sku && y.savedAt == x.savedAt
  {
    x.(name := if x.name != "" then x.name else p.name,
       aisle := if x.aisle != "" then x.aisle else p.aisle,
       url := if x.url != "" then x.url else p.url,
       price := if x.price.Some? then x.price else p.price)
  }

  /**
   * `y` enriches `x`: same identity, SKU and timestamp, and every field that
   * was populated in `x` is unchanged in `y`.
   */
  predicate Enriches(x: ListEntry, y: ListEntry) {
    && y.id == x.id && y.sku == x.sku && y.savedAt == x.savedAt
    && (x.name != "" ==> y.name == x.name)
    && (x.aisle != "" ==> y.aisle == x.aisle)
    && (x.url != "" ==> y.url == x.url)
    && (x.price.Some? ==> y.price == x.price)
  }

  /**
   * The merge never regresses a field, fills every gap the patch can fill, and
   * applying it again changes nothing.
   */
  lemma FillGapsMonotone(x: ListEntry, p: Patch)
    ensures Enriches(x, FillGaps(x, p))
    ensures x.name == "" ==> FillGaps(x, p).name == p.name
    ensures x.aisle == "" ==> FillGaps(x, p).aisle == p.aisle
    ensures x.url == "" ==> FillGaps(x, p).url == p.url
    ensures x.price.None? ==> FillGaps(x, p).price == p.price
    ensures FillGaps(FillGaps(x, p), p) == FillGaps(x, p)
  {
  }

  /** `list.map(...)`: the merge applied to every entry that matches the key. */
  function MergeMatching(list: seq<ListEntry>, skuKey: string, urlKey: string, p: Patch): (r: seq<ListEntry>)
    ensures |r| == |list|
    ensures forall k :: 0 <= k < |list| ==>
      r[k] == if MatchesKey(list[k], skuKey, urlKey) then FillGaps(list[k], p) else list[k]
  {
    if list == [] then []
    else
      [if MatchesKey(list[0], skuKey, urlKey) then FillGaps(list[0], p) else list[0]]
      + MergeMatching(list[1..], skuKey, urlKey, p)
  }

  /** The merge only enriches: every entry keeps its filled fields. */
  lemma MergeEnriches(list: seq<ListEntry>, skuKey: string, urlKey: string, p: Patch)
    ensures var m := MergeMatching(list, skuKey, urlKey, p);
      forall k :: 0 <= k < |list| ==> Enriches(list[k], m[k])
  {
    var m := MergeMatching(list, skuKey, urlKey, p);
    forall k | 0 <= k < |list| ensures Enriches(list[k], m[k]) {
      FillGapsMonotone(list[k], p);
    }
  }

  // ---------------------------------------------------------------------
  // The late-aisle update (lines 968-972)

  /** `list.findIndex(x => x.sku === sku)`. */
  function FirstSkuIndex(list: seq<ListEntry>, sku: string): (r: Option<nat>)
    ensures r.Some? ==> r.value < |list| && list[r.value].sku == sku
    ensures r.Some? ==> forall k :: 0 <= k < r.value ==> list[k].sku != sku
    ensures r.None? ==> forall k :: 0 <= k < |list| ==> list[k].sku != sku
  {
    if list == [] then None
    else if list[0].sku == sku then Some(0)
    else match FirstSkuIndex(list[1..], sku)
      case None => None
      case Some(k) => Some(k + 1)
  }

  /** An aisle text the late-data path may replace: empty, or containing "not found". */
  predicate IsPlaceholderAisle(aisle: string) {
    aisle == "" || Contains(aisle, "not found")
  }

  // ---------------------------------------------------------------------
  // Delete by id (line 636)

  /** `list.filter(x => x.id !== id)`. */
  function RemoveId(list: seq<ListEntry>, id: string): (r: seq<ListEntry>)
    ensures |r| <= |list|
    ensures forall k :: 0 <= k < |r| ==> r[k].id != id
    ensures forall e :: e in r <==> e in list && e.id != id
  {
    if list == [] then []
    else if list[0].id == id then RemoveId(list[1..], id)
    else [list[0]] + RemoveId(list[1..], id)
  }

  /** Deleting keeps the other entries in their order: it distributes over concatenation. */
  lemma {:induction false} RemoveIdDistributes(a: seq<ListEntry>, b: seq<ListEntry>, id: string)
    ensures RemoveId(a + b, id) == RemoveId(a, id) + RemoveId(b, id)
  {
    if a == [] {
      assert a + b == b;
    } else {
      assert (a + b)[1..] == a[1..] + b;
      RemoveIdDistributes(a[1..], b, id);
    }
  }

  /** Deleting an id that no entry has changes nothing. */
  lemma {:induction false} RemoveAbsentId(list: seq<ListEntry>, id: string)
    requires forall k :: 0 <= k < |list| ==> list[k].id != id
    ensures RemoveId(list, id) == list
  {
    if list != [] {
      RemoveAbsentId(list[1..], id);
    }
  }

  /** Deleting keeps the invariant. */
  lemma {:induction false} RemoveIdKeepsNoDuplicates(list: seq<ListEntry>, id: string)
    requires NoDuplicates(list)
    ensures NoDuplicates(RemoveId(list, id))
  {
    if list != [] {
      var rest := list[1..];
      TailKeepsNoDuplicates(list);
      RemoveIdKeepsNoDuplicates(rest, id);
      if list[0].id != id {
        var r := RemoveId(rest, id);
        forall k | 0 <= k < |r| ensures Distinct(list[0], r[k]) {
          assert r[k] in rest;
          var m :| 0 <= m < |rest| && rest[m] == r[k];
          assert list[m + 1] == r[k];
        }
        ConsKeepsNoDuplicates(list[0], r);
      }
    }
  }

  /** Deleting keeps the ids unique. */
  lemma {:induction false} RemoveIdKeepsUniqueIds(list: seq<ListEntry>, id: string)
    requires UniqueIds(list)
    ensures UniqueIds(RemoveId(list, id))
  {
    if list != [] {
      var rest := list[1..];
      assert UniqueIds(rest) by {
        forall i, j | 0 <= i < j < |rest| ensures rest[i].id != rest[j].id {
          assert rest[i] == list[i + 1] && rest[j] == list[j + 1];
        }
      }
      RemoveIdKeepsUniqueIds(rest, id);
      if list[0].id != id {
        var r := RemoveId(rest, id);
        forall k | 0 <= k < |r| ensures r[k].id != list[0].id {
          assert r[k] in rest;
          var m :| 0 <= m < |rest| && rest[m] == r[k];
          assert list[m + 1] == r[k];
        }
        PrependKeepsUniqueIds(r, list[0]);
      }
    }
  }
}
