/**
 * The aisle sidebar and the selected-aisle view: `getAisleCounts`, the order
 * the sidebar lists its buckets in, which entries a selected bucket
 * highlights and how the item list is reordered for it.
 */
module AisleIndex {
  import opened Text
  import opened Wrappers
  import opened AisleText
  import opened Entries
  import opened Sorting

  // ---------------------------------------------------------------------
  // Buckets (lines 264-279)

  /** The bucket an aisle text is counted under: its aisle number, "Other" or "Unknown". */
  function Bucket(aisle: string): string {
    match Search(AisleNumber, aisle)
    case Some(n) => n
    case None => if aisle != "" && !Contains(aisle, "not found") then "Other" else "Unknown"
  }

  /** A bucket named by an aisle number: non-empty and all digits. */
  predicate IsNumberKey(b: string) {
    b != [] && forall k :: 0 <= k < |b| ==> IsDigit(b[k])
  }

  /**
   * An aisle text that mentions an aisle phrase is counted under the number of
   * its first one, which is what `searchAisle` reads too; any other non-empty
   * text without "not found" is counted under "Other"; the rest under "Unknown".
   */
  lemma BucketCases(aisle: string)
    ensures MentionsAisle(aisle) ==>
      IsNumberKey(Bucket(aisle)) && SearchAisle(aisle).aisleNum == Some(Bucket(aisle))
    ensures !MentionsAisle(aisle) && aisle != "" && !Contains(aisle, "not found") ==> Bucket(aisle) == "Other"
    ensures !MentionsAisle(aisle) && (aisle == "" || Contains(aisle, "not found")) ==> Bucket(aisle) == "Unknown"
  {
    SearchAisleFindsNumberIffMention(aisle);
  }

  /** Text without any letter a can hold no aisle number. */
  lemma NoNumberWithoutA(s: string)
    requires forall p :: 0 <= p < |s| ==> Fold(s[p]) != 'a'
    ensures Search(AisleNumber, s).None?
  {
    forall k | 0 <= k <= |s| ensures !MatchesAt(AisleNumber, s, k) {
      if k < |s| {
        assert Fold(s[k + 0]) != "aisle"[0];
      }
    }
  }

  /**
   * A text that starts with the word "aisle", one space and a run of digits
   * ending at `n` is counted under those digits.
   */
  lemma BucketOfLeadingAisle(s: string, n: nat)
    requires WordAt(s, 0, "aisle") && 6 < n <= |s| && s[5] == ' '
    requires AllIn(s, 6, n, Digit) && (n == |s| || !IsDigit(s[n]))
    ensures Bucket(s) == s[6..n]
  {
    assert AllIn(s, 5, 6, Space);
    RunEndCovers(s, 5, 6, Space);
    RunEndCovers(s, 6, n, Digit);
    assert GroupAt(AisleNumber, s, 0) == Some((6, n));
    SearchAtStart(AisleNumber, s);
  }

  /** The bucketing example of a full location text. */
  lemma BucketOfLocation(s: string)
    requires s == "Aisle 12 Section A4"
    ensures Bucket(s) == "12"
  {
    LocationShape(s);
    BucketOfLeadingAisle(s, 8);
  }

  /** The characters of the location example that the matcher looks at. */
  lemma LocationShape(s: string)
    requires s == "Aisle 12 Section A4"
    ensures WordAt(s, 0, "aisle") && 8 < |s| && s[5] == ' '
    ensures AllIn(s, 6, 8, Digit) && !IsDigit(s[8]) && s[6..8] == "12"
  {
    assert s[0] == 'A' && s[1] == 'i' && s[2] == 's' && s[3] == 'l' && s[4] == 'e';
    assert Fold(s[0]) == 'a';
    forall p | 0 <= p < 5 ensures Fold(s[0 + p]) == "aisle"[p] {
      assert p == 0 || p == 1 || p == 2 || p == 3 || p == 4;
    }
    assert s[5] == ' ' && s[6] == '1' && s[7] == '2' && s[8] == ' ';
  }

  /** An empty aisle text is counted under "Unknown". */
  lemma BucketOfEmpty()
    ensures Bucket("") == "Unknown"
  {
    assert !MatchesAt(AisleNumber, "", 0);
  }

  /** Free text without an aisle number is counted under "Other". */
  lemma BucketOfFreeText()
    ensures Bucket("Front counter") == "Other"
  {
    var t := "Front counter";
    FreeTextShape(t);
    NoNumberWithoutA(t);
    NoLetterFNoNotFound(t);
  }

  /** The free-text example has neither an a nor an f. */
  lemma FreeTextShape(t: string)
    requires t == "Front counter"
    ensures forall p :: 0 <= p < |t| ==> Fold(t[p]) != 'a' && t[p] != 'f'
  {
  }

  /** Text without a lower-case f does not contain "not found". */
  lemma NoLetterFNoNotFound(t: string)
    requires forall p :: 0 <= p < |t| ==> t[p] != 'f'
    ensures !Contains(t, "not found")
  {
    forall i | 0 <= i <= |t| ensures !OccursAt(t, "not found", i) {
      if i + 9 <= |t| {
        assert t[i..i + 9][4] == t[i + 4] != "not found"[4];
      }
    }
  }

  // ---------------------------------------------------------------------
  // Counting

  /** The bucket of every entry, in list order. */
  function Buckets(list: seq<ListEntry>): (r: seq<string>)
    ensures |r| == |list|
  {
    if list == [] then []
    else Buckets(list[..|list| - 1]) + [Bucket(list[|list| - 1].aisle)]
  }

  /** Entry `k`'s bucket stands at place `k`. */
  lemma {:induction false} BucketsIndex(list: seq<ListEntry>, k: nat)
    requires k < |list|
    ensures Buckets(list)[k] == Bucket(list[k].aisle)
  {
    var init := list[..|list| - 1];
    if k < |list| - 1 {
      BucketsIndex(init, k);
    }
  }

  /** One more item in bucket `b`. */
  function AddOne(m: map<string, nat>, b: string): (r: map<string, nat>)
    ensures r.Keys == m.Keys + {b}
    ensures r[b] == (if b in m then m[b] else 0) + 1
    ensures forall c :: c in m && c != b ==> r[c] == m[c]
  {
    m[b := (if b in m then m[b] else 0) + 1]
  }

  /** Counting a sequence of bucket names, one increment per name. */
  function Tally(bs: seq<string>): map<string, nat> {
    if bs == [] then map[]
    else AddOne(Tally(bs[..|bs| - 1]), bs[|bs| - 1])
  }

  /** The counts `getAisleCounts` returns for a list. */
  function AisleCounts(list: seq<ListEntry>): map<string, nat> {
    Tally(Buckets(list))
  }

  /** `getAisleCounts`: one pass over the list, one increment per item. */
  method GetAisleCounts(list: seq<ListEntry>) returns (counts: map<string, nat>)
    ensures counts == AisleCounts(list)
  {
    counts := map[];
    for i := 0 to |list|
      invariant counts == Tally(Buckets(list[..i]))
    {
      var aisle := list[i].aisle;
      BucketBranches(aisle);
      var key: string;
      match Search(AisleNumber, aisle) {
        case Some(n) =>
          key := n;
        case None =>
          if aisle != "" && !ContainsFrom(aisle, "not found", 0) {
            key := "Other";
          } else {
            key := "Unknown";
          }
      }
      TallyBucketsSnoc(list, i, counts, key);
      counts := AddOne(counts, key);
    }
    assert list[..|list|] == list;
  }

  /** The three branches of the loop body, each naming the bucket. */
  lemma BucketBranches(aisle: string)
    ensures Search(AisleNumber, aisle).Some? ==> Bucket(aisle) == Search(AisleNumber, aisle).value
    ensures Search(AisleNumber, aisle).None? && aisle != "" && !ContainsFrom(aisle, "not found", 0) ==>
      Bucket(aisle) == "Other"
    ensures Search(AisleNumber, aisle).None? && !(aisle != "" && !ContainsFrom(aisle, "not found", 0)) ==>
      Bucket(aisle) == "Unknown"
  {
    ContainsDecided(aisle, "not found");
  }

  /** Counting one more entry adds one to its bucket. */
  lemma TallyBucketsSnoc(list: seq<ListEntry>, i: nat, counts: map<string, nat>, key: string)
    requires i < |list| && counts == Tally(Buckets(list[..i])) && key == Bucket(list[i].aisle)
    ensures Tally(Buckets(list[..i + 1])) == AddOne(counts, key)
  {
    BucketsSnoc(list, i);
    TallySnoc(Buckets(list[..i]), key);
  }

  /** The buckets of a longer prefix: one more name at the end. */
  lemma BucketsSnoc(list: seq<ListEntry>, i: nat)
    requires i < |list|
    ensures Buckets(list[..i + 1]) == Buckets(list[..i]) + [Bucket(list[i].aisle)]
  {
    assert list[..i + 1][..i] == list[..i];
  }

  /** Tallying one more name adds one to its count. */
  lemma TallySnoc(bs: seq<string>, b: string)
    ensures Tally(bs + [b]) == AddOne(Tally(bs), b)
  {
    assert (bs + [b])[..|bs|] == bs;
  }

  /**
   * A tally holds a name exactly when the name occurs, and then it holds the
   * number of its occurrences.
   */
  lemma {:induction false} TallyMeaning(bs: seq<string>, b: string)
    ensures b in Tally(bs) <==> b in bs
    ensures b in Tally(bs) ==> Tally(bs)[b] == multiset(bs)[b]
  {
    if bs != [] {
      var init := bs[..|bs| - 1];
      TallyMeaning(init, b);
      assert bs == init + [bs[|bs| - 1]];
      assert multiset(bs) == multiset(init) + multiset{bs[|bs| - 1]};
    }
  }

  /**
   * The counts say how many entries each bucket holds: a bucket is present
   * exactly when some entry's aisle text falls in it, and its count is the
   * number of those entries.
   */
  lemma AisleCountsMeaning(list: seq<ListEntry>, b: string)
    ensures b in AisleCounts(list) <==> exists k :: 0 <= k < |list| && Bucket(list[k].aisle) == b
    ensures b in AisleCounts(list) ==> AisleCounts(list)[b] == multiset(Buckets(list))[b]
  {
    var bs := Buckets(list);
    TallyMeaning(bs, b);
    if b in bs {
      var k :| 0 <= k < |bs| && bs[k] == b;
      BucketsIndex(list, k);
    }
    forall k | 0 <= k < |list| && Bucket(list[k].aisle) == b ensures b in bs {
      BucketsIndex(list, k);
    }
  }

  /** The sum of a map's counts. */
  ghost function Total(m: map<string, nat>): nat
    decreases m.Keys
  {
    if m.Keys == {} then 0
    else
      var k :| k in m.Keys;
      m[k] + Total(m - {k})
  }

  lemma {:induction false} TotalRemove(m: map<string, nat>, k: string)
    requires k in m
    ensures Total(m) == m[k] + Total(m - {k})
    decreases m.Keys
  {
    var j :| j in m.Keys && Total(m) == m[j] + Total(m - {j});
    if j != k {
      TotalRemove(m - {j}, k);
      TotalRemove(m - {k}, j);
      assert m - {j} - {k} == m - {k} - {j};
    }
  }

  lemma TotalAddOne(m: map<string, nat>, b: string)
    ensures Total(AddOne(m, b)) == Total(m) + 1
  {
    var r := AddOne(m, b);
    TotalRemove(r, b);
    assert r - {b} == m - {b};
    if b in m {
      TotalRemove(m, b);
    } else {
      assert m - {b} == m;
    }
  }

  lemma {:induction false} TallyTotal(bs: seq<string>)
    ensures Total(Tally(bs)) == |bs|
  {
    if bs != [] {
      TallyTotal(bs[..|bs| - 1]);
      TotalAddOne(Tally(bs[..|bs| - 1]), bs[|bs| - 1]);
    } else {
      assert Tally(bs).Keys == {};
    }
  }

  /** Conservation: the sidebar's counts add up to the number of entries. */
  lemma AisleCountsTotal(list: seq<ListEntry>)
    ensures Total(AisleCounts(list)) == |list|
  {
    TallyTotal(Buckets(list));
  }

  /** Every bucket in the counts is an aisle number, "Other" or "Unknown". */
  lemma AisleCountsKeys(list: seq<ListEntry>)
    ensures forall b :: b in AisleCounts(list) ==> IsNumberKey(b) || b == "Other" || b == "Unknown"
  {
    forall b | b in AisleCounts(list) ensures IsNumberKey(b) || b == "Other" || b == "Unknown" {
      AisleCountsMeaning(list, b);
      var k :| 0 <= k < |list| && Bucket(list[k].aisle) == b;
      var aisle := list[k].aisle;
      if Search(AisleNumber, aisle).Some? {
        assert IsNumberKey(Bucket(aisle));
      }
    }
  }

  // ---------------------------------------------------------------------
  // The sidebar order (lines 594-609)

  /** The numeric value of the decimal digits `t[i..j]`. */
  function DigitsIn(t: string, i: nat, j: nat): nat
    requires i <= j <= |t| && AllIn(t, i, j, Digit)
    decreases j
  {
    if j == i then 0
    else 10 * DigitsIn(t, i, j - 1) + (t[j - 1] as int - '0' as int)
  }

  /**
   * `parseInt(s, 10)`, with `None` for NaN: leading white space, an optional
   * sign, then the longest run of digits, which must not be empty.
   */
  function ParseInt(s: string): Option<int> {
    var t := TrimStart(s);
    var start := if t != [] && (t[0] == '+' || t[0] == '-') then 1 else 0;
    var e := RunEnd(t, start, Digit);
    if e == start then None
    else
      var n: int := DigitsIn(t, start, e);
      Some(if start == 1 && t[0] == '-' then -n else n)
  }

  /** `parseInt` yields a number exactly when a digit follows the white space and the optional sign. */
  lemma ParseIntDefined(s: string)
    ensures var t := TrimStart(s);
      ParseInt(s).Some? <==>
        (t != [] && IsDigit(t[0])) || (|t| > 1 && (t[0] == '+' || t[0] == '-') && IsDigit(t[1]))
  {
  }

  /** A bucket named by an aisle number parses to its value. */
  lemma ParseNumberKey(b: string)
    requires IsNumberKey(b)
    ensures ParseInt(b) == Some(DigitsIn(b, 0, |b|))
  {
    assert !IsSpace(b[0]) && b[0] != '+' && b[0] != '-';
    assert TrimStart(b) == b;
    RunEndCovers(b, 0, |b|, Digit);
  }

  /** A text starting with a letter does not parse. */
  lemma ParseWord(b: string)
    requires b != [] && IsUpperAscii(b[0])
    ensures ParseInt(b).None?
  {
    assert !IsSpace(b[0]) && b[0] != '+' && b[0] != '-' && !IsDigit(b[0]);
    assert TrimStart(b) == b;
    assert RunEnd(b, 0, Digit) == 0;
  }

  /**
   * The comparator of `aisleEntries.sort` (lines 597-609), with `localeCompare`
   * as ordinal order; `an` and `bn` are what `parseInt` made of `a` and `b`.
   */
  function CompareParsed(a: string, b: string, an: Option<int>, bn: Option<int>): int {
    if an.Some? && bn.Some? then an.value - bn.value
    else if an.Some? then -1
    else if bn.Some? then 1
    else if a == "Unknown" then 1
    else if b == "Unknown" then -1
    else StrCompare(a, b)
  }

  function CompareBuckets(a: string, b: string): int {
    CompareParsed(a, b, ParseInt(a), ParseInt(b))
  }

  /** The key of a bucket `b` that parses to `n`. */
  function KeyOf(b: string, n: Option<int>): (k: Key)
    ensures k.text == b
  {
    match n
    case Some(v) => Key(0, v, b)
    case None => if b == "Unknown" then Key(2, 0, b) else Key(1, 0, b)
  }

  /** The sort key the comparator orders by: numbers by value, then other text, then "Unknown". */
  function BucketKey(b: string): (k: Key)
    ensures k.text == b
  {
    KeyOf(b, ParseInt(b))
  }

  lemma CompareParsedAgrees(a: string, b: string, an: Option<int>, bn: Option<int>)
    ensures CompareParsed(a, b, an, bn) < 0 ==> KeyLt(KeyOf(a, an), KeyOf(b, bn))
    ensures CompareParsed(a, b, an, bn) > 0 && !(a == b == "Unknown") ==> KeyLt(KeyOf(b, bn), KeyOf(a, an))
    ensures KeyLt(KeyOf(a, an), KeyOf(b, bn)) ==> CompareParsed(a, b, an, bn) <= 0
  {
    StrLeTotal(a, b);
    if StrLe(a, b) && StrLe(b, a) {
      StrLeAntisymmetric(a, b);
    }
  }

  /**
   * The comparator and the key agree: what the comparator puts first has the
   * smaller key, and a smaller key is never put after. (Keys that parse to
   * the same number are tied by the comparator; the key orders them by text.)
   */
  lemma CompareBucketsAgrees(a: string, b: string)
    ensures CompareBuckets(a, b) < 0 ==> KeyLt(BucketKey(a), BucketKey(b))
    ensures CompareBuckets(a, b) > 0 && !(a == b == "Unknown") ==> KeyLt(BucketKey(b), BucketKey(a))
    ensures KeyLt(BucketKey(a), BucketKey(b)) ==> CompareBuckets(a, b) <= 0
  {
    CompareParsedAgrees(a, b, ParseInt(a), ParseInt(b));
  }

  /** The buckets in the order the sidebar lists them. */
  function SidebarOrder(list: seq<ListEntry>): seq<string> {
    SortBy(FirstOccurrences(Buckets(list)), BucketKey)
  }

  /** What a key order between two different buckets says about their comparison and their numbers. */
  lemma KeyOfLe(a: string, b: string, an: Option<int>, bn: Option<int>)
    requires a != b && KeyLe(KeyOf(a, an), KeyOf(b, bn))
    ensures CompareParsed(a, b, an, bn) <= 0
    ensures bn.Some? ==> an.Some? && an.value <= bn.value
    ensures an.None? ==> a != "Unknown"
  {
    CompareParsedAgrees(a, b, an, bn);
  }

  /** The same for the buckets' own keys. */
  lemma BucketKeyLe(a: string, b: string)
    requires a != b && KeyLe(BucketKey(a), BucketKey(b))
    ensures CompareBuckets(a, b) <= 0
    ensures ParseInt(b).Some? ==> ParseInt(a).Some? && ParseInt(a).value <= ParseInt(b).value
    ensures a != "Unknown"
  {
    KeyOfLe(a, b, ParseInt(a), ParseInt(b));
    if a == "Unknown" {
      ParseWord(a);
    }
  }

  /** The buckets of a list, each once, hold exactly the counted buckets. */
  lemma FirstBucketsAreCounted(list: seq<ListEntry>)
    ensures var d := FirstOccurrences(Buckets(list));
      NoDupes(d) && forall b :: b in d <==> b in AisleCounts(list)
  {
    var bs := Buckets(list);
    forall b ensures b in bs <==> b in AisleCounts(list) {
      TallyMeaning(bs, b);
    }
  }

  /**
   * The sidebar lists every counted bucket once; in comparator order; every
   * aisle number before any other bucket, ascending by value; "Unknown" last.
   */
  lemma SidebarOrderCorrect(list: seq<ListEntry>)
    ensures var r := SidebarOrder(list);
      && (forall b :: b in r <==> b in AisleCounts(list))
      && NoDupes(r)
      && (forall i, j :: 0 <= i < j < |r| ==> CompareBuckets(r[i], r[j]) <= 0)
      && (forall i, j :: 0 <= i < j < |r| && ParseInt(r[j]).Some? ==>
            ParseInt(r[i]).Some? && ParseInt(r[i]).value <= ParseInt(r[j]).value)
      && (forall i :: 0 <= i < |r| - 1 ==> r[i] != "Unknown")
  {
    var d := FirstOccurrences(Buckets(list));
    FirstBucketsAreCounted(list);
    SortedBucketsProperties(d);
  }

  /** The same facts for any sequence of distinct bucket names sorted by their keys. */
  lemma SortedBucketsProperties(d: seq<string>)
    requires NoDupes(d)
    ensures var r := SortBy(d, BucketKey);
      && (forall b :: b in r <==> b in d)
      && NoDupes(r)
      && (forall i, j :: 0 <= i < j < |r| ==> CompareBuckets(r[i], r[j]) <= 0)
      && (forall i, j :: 0 <= i < j < |r| && ParseInt(r[j]).Some? ==>
            ParseInt(r[i]).Some? && ParseInt(r[i]).value <= ParseInt(r[j]).value)
      && (forall i :: 0 <= i < |r| - 1 ==> r[i] != "Unknown")
  {
    var r := SortBy(d, BucketKey);
    SortByKeepsDistinct(d, BucketKey);
    SortBySorted(d, BucketKey);
    forall i, j | 0 <= i < j < |r|
      ensures CompareBuckets(r[i], r[j]) <= 0
      ensures ParseInt(r[j]).Some? ==> ParseInt(r[i]).Some? && ParseInt(r[i]).value <= ParseInt(r[j]).value
    {
      SortedPair(r, i, j);
    }
    forall i | 0 <= i < |r| - 1 ensures r[i] != "Unknown" {
      SortedPair(r, i, i + 1);
    }
  }

  /** One pair of a sorted sequence of distinct buckets. */
  lemma SortedPair(r: seq<string>, i: nat, j: nat)
    requires SortedBy(r, BucketKey) && NoDupes(r) && i < j < |r|
    ensures CompareBuckets(r[i], r[j]) <= 0
    ensures ParseInt(r[j]).Some? ==> ParseInt(r[i]).Some? && ParseInt(r[i]).value <= ParseInt(r[j]).value
    ensures r[i] != "Unknown"
  {
    assert KeyLe(BucketKey(r[i]), BucketKey(r[j]));
    BucketKeyLe(r[i], r[j]);
  }

  /**
   * The ordering example: whatever order the buckets 3, 12, Other and Unknown
   * were counted in, the sidebar lists 3, 12, Other, Unknown.
   */
  lemma SidebarOrderExample(list: seq<ListEntry>)
    requires AisleCounts(list).Keys == {"3", "12", "Other", "Unknown"}
    ensures SidebarOrder(list) == ["3", "12", "Other", "Unknown"]
  {
    var d := FirstOccurrences(Buckets(list));
    var r := SortBy(d, BucketKey);
    var target := ["3", "12", "Other", "Unknown"];
    FirstBucketsAreCounted(list);
    SortByKeepsDistinct(d, BucketKey);
    SortBySorted(d, BucketKey);
    ExampleOrderSorted();
    ExampleDistinct();
    ExampleMembers(AisleCounts(list), r);
    assert forall x :: BucketKey(x).text == x;
    SameSortedStrings(r, target, BucketKey);
  }

  /** A sequence holding exactly the keys of the example's counts holds exactly its four buckets. */
  lemma ExampleMembers(counts: map<string, nat>, r: seq<string>)
    requires counts.Keys == {"3", "12", "Other", "Unknown"}
    requires forall x :: x in r <==> x in counts
    ensures forall x :: x in r <==> x in ["3", "12", "Other", "Unknown"]
  {
    forall x ensures x in r <==> x in ["3", "12", "Other", "Unknown"] {
      assert x in counts <==> x in counts.Keys;
    }
  }

  /** The four buckets of the example are distinct. */
  lemma ExampleDistinct()
    ensures NoDupes(["3", "12", "Other", "Unknown"])
  {
    var t := ["3", "12", "Other", "Unknown"];
    assert t[0][0] == '3' && t[1][0] == '1' && t[2][0] == 'O' && t[3][0] == 'U';
  }

  /** The four buckets of the example are in key order. */
  lemma ExampleOrderSorted()
    ensures SortedBy(["3", "12", "Other", "Unknown"], BucketKey)
  {
    ExampleKeys();
    SortedByFour("3", "12", "Other", "Unknown", BucketKey);
  }

  /** Four values whose keys ascend pairwise are key-sorted. */
  lemma SortedByFour<T>(a: T, b: T, c: T, d: T, key: T -> Key)
    requires KeyLe(key(a), key(b)) && KeyLe(key(a), key(c)) && KeyLe(key(a), key(d))
    requires KeyLe(key(b), key(c)) && KeyLe(key(b), key(d)) && KeyLe(key(c), key(d))
    ensures SortedBy([a, b, c, d], key)
  {
  }

  /** The keys of the example's buckets. */
  lemma ExampleKeys()
    ensures BucketKey("3") == Key(0, 3, "3")
    ensures BucketKey("12") == Key(0, 12, "12")
    ensures BucketKey("Other") == Key(1, 0, "Other")
    ensures BucketKey("Unknown") == Key(2, 0, "Unknown")
  {
    ParseNumberKey("3");
    ParseNumberKey("12");
    assert DigitsIn("12", 0, 2) == 12;
    ParseWord("Other");
    ParseWord("Unknown");
  }

  // ---------------------------------------------------------------------
  // Selecting a bucket (lines 642-683)

  /**
   * Lines 650-656 and 677-681 as written: "Unknown" selects every entry
   * without an aisle number, any other selection the entries whose aisle
   * number is the selection itself.
   */
  function SelectsAsWritten(sel: string, aisle: string): bool {
    var n := SearchAisle(aisle).aisleNum;
    if sel == "Unknown" then n.None? else n == Some(sel)
  }

  /** The selection the sidebar offers: the entries counted in the selected bucket. */
  function Selects(sel: string, aisle: string): bool {
    Bucket(aisle) == sel
  }

  /** On an aisle-number bucket the code as written and the intended rule agree. */
  lemma SelectsAgreesOnNumbers(sel: string, aisle: string)
    requires sel != "Other" && sel != "Unknown"
    ensures SelectsAsWritten(sel, aisle) == Selects(sel, aisle)
  {
  }

  /**
   * As written, selecting "Other" picks no entry at all, and selecting
   * "Unknown" also picks the entries counted under "Other"; "Front counter"
   * shows both.
   */
  lemma SelectsAsWrittenMissesOther(aisle: string)
    ensures !SelectsAsWritten("Other", aisle)
    ensures Bucket(aisle) == "Other" ==> SelectsAsWritten("Unknown", aisle) && !Selects("Unknown", aisle)
  {
    var n := SearchAisle(aisle).aisleNum;
    if n.Some? {
      assert IsDigit(n.value[0]);
    }
  }

  /** "Front counter" is counted under "Other", yet as written only "Unknown" selects it. */
  lemma FrontCounterMisselected()
    ensures Selects("Other", "Front counter") && !SelectsAsWritten("Other", "Front counter")
    ensures SelectsAsWritten("Unknown", "Front counter") && !Selects("Unknown", "Front counter")
  {
    BucketOfFreeText();
    SelectsAsWrittenMissesOther("Front counter");
  }

  /**
   * As written, a selection picks the entries of its own bucket, except that
   * "Other" picks none and "Unknown" picks those of "Other" as well.
   */
  lemma SelectsAsWrittenByBucket(sel: string, aisle: string)
    ensures SelectsAsWritten(sel, aisle) ==
      if sel == "Other" then false
      else if sel == "Unknown" then Bucket(aisle) == "Unknown" || Bucket(aisle) == "Other"
      else Bucket(aisle) == sel
  {
    SelectsAsWrittenMissesOther(aisle);
    var n := SearchAisle(aisle).aisleNum;
    if n.Some? {
      assert IsDigit(n.value[0]);
    }
  }

  /** The two selection tests: the code's own, and the sidebar's buckets. */
  datatype Rule = AsWritten | Intended

  /** Does selecting `sel` pick an entry with this aisle text, under `rule`? */
  function Picks(rule: Rule, sel: string, aisle: string): bool {
    match rule
    case AsWritten => SelectsAsWritten(sel, aisle)
    case Intended => Selects(sel, aisle)
  }

  /** Lines 675-683: is the entry highlighted? */
  function Highlighted(rule: Rule, sel: Option<string>, aisle: string): bool {
    sel.Some? && Picks(rule, sel.value, aisle)
  }

  /** How many entries of `list` are highlighted. */
  function HighlightCount(rule: Rule, list: seq<ListEntry>, sel: Option<string>): nat {
    if list == [] then 0
    else HighlightCount(rule, list[..|list| - 1], sel) + (if Highlighted(rule, sel, list[|list| - 1].aisle) then 1 else 0)
  }

  /** With the intended rule the list highlights as many entries as the sidebar counts for the bucket. */
  lemma HighlightMatchesSidebar(list: seq<ListEntry>, sel: string)
    ensures HighlightCount(Intended, list, Some(sel)) == (if sel in AisleCounts(list) then AisleCounts(list)[sel] else 0)
  {
    AisleCountsMeaning(list, sel);
    HighlightIsOccurrences(list, sel);
    if sel !in AisleCounts(list) {
      TallyMeaning(Buckets(list), sel);
    }
  }

  lemma {:induction false} HighlightIsOccurrences(list: seq<ListEntry>, sel: string)
    ensures HighlightCount(Intended, list, Some(sel)) == multiset(Buckets(list))[sel]
  {
    if list != [] {
      var init := list[..|list| - 1];
      HighlightIsOccurrences(init, sel);
      assert Buckets(list) == Buckets(init) + [Bucket(list[|list| - 1].aisle)];
    }
  }

  /**
   * As written the highlight counts the selected bucket's entries, none for
   * "Other", and those of "Unknown" and "Other" together for "Unknown".
   */
  lemma {:induction false} HighlightAsWrittenIsOccurrences(list: seq<ListEntry>, sel: string)
    ensures var m := multiset(Buckets(list));
      HighlightCount(AsWritten, list, Some(sel)) ==
        if sel == "Other" then 0
        else if sel == "Unknown" then m["Unknown"] + m["Other"]
        else m[sel]
  {
    if list != [] {
      var init := list[..|list| - 1];
      var last := list[|list| - 1].aisle;
      HighlightAsWrittenIsOccurrences(init, sel);
      SelectsAsWrittenByBucket(sel, last);
      assert Buckets(list) == Buckets(init) + [Bucket(last)];
      assert multiset(Buckets(list)) == multiset(Buckets(init)) + multiset{Bucket(last)};
    }
  }

  /** `(section || "ZZZ")`: the upper-cased section code, or a text sorting after the usual codes. */
  function SectionOf(aisle: string): string {
    SearchAisle(aisle).section.GetOr("ZZZ")
  }

  /** The comparator of `displayList.sort` (lines 645-667). */
  function CompareForSelection(rule: Rule, sel: string, a: ListEntry, b: ListEntry): int {
    var aMatches := Picks(rule, sel, a.aisle);
    var bMatches := Picks(rule, sel, b.aisle);
    if aMatches && !bMatches then -1
    else if !aMatches && bMatches then 1
    else if aMatches && bMatches then StrCompare(SectionOf(a.aisle), SectionOf(b.aisle))
    else 0
  }

  /** The key that comparator orders by: picked entries first, by section. */
  function SelectionKey(rule: Rule, sel: string, e: ListEntry): Key {
    if Picks(rule, sel, e.aisle) then Key(0, 0, SectionOf(e.aisle)) else Key(1, 0, "")
  }

  /** The comparator and the key give the same three-way answer. */
  lemma CompareForSelectionAgrees(rule: Rule, sel: string, a: ListEntry, b: ListEntry)
    ensures CompareForSelection(rule, sel, a, b) < 0 <==> KeyLt(SelectionKey(rule, sel, a), SelectionKey(rule, sel, b))
    ensures CompareForSelection(rule, sel, a, b) == 0 <==> SelectionKey(rule, sel, a) == SelectionKey(rule, sel, b)
    ensures CompareForSelection(rule, sel, a, b) > 0 <==> KeyLt(SelectionKey(rule, sel, b), SelectionKey(rule, sel, a))
  {
    var sa, sb := SectionOf(a.aisle), SectionOf(b.aisle);
    StrLeTotal(sa, sb);
    if Picks(rule, sel, a.aisle) && Picks(rule, sel, b.aisle) && StrLe(sa, sb) && StrLe(sb, sa) {
      StrLeAntisymmetric(sa, sb);
    }
  }

  /** The selection key as the function the sort is given. */
  function SelectionOrder(rule: Rule, sel: string): ListEntry -> Key {
    (e: ListEntry) => SelectionKey(rule, sel, e)
  }

  /** The list as displayed: unchanged with no selection, else stably sorted by the selection key. */
  function DisplayList(rule: Rule, list: seq<ListEntry>, sel: Option<string>): seq<ListEntry> {
    if sel.None? then list else SortBy(list, SelectionOrder(rule, sel.value))
  }

  /**
   * Sorting by a key that puts the chosen elements first, by a text, and
   * ties all the others: the same elements; chosen ones first, in text order;
   * the others in their original order.
   */
  lemma SortChosenFirst<T>(xs: seq<T>, key: T -> Key, chosen: T -> bool, text: T -> string)
    requires forall e :: chosen(e) ==> key(e) == Key(0, 0, text(e))
    requires forall e :: !chosen(e) ==> key(e) == Key(1, 0, "")
    ensures var r := SortBy(xs, key);
      && multiset(r) == multiset(xs)
      && (forall i, j :: 0 <= i < j < |r| && chosen(r[j]) ==> chosen(r[i]))
      && (forall i, j :: 0 <= i < j < |r| && chosen(r[i]) && chosen(r[j]) ==> StrLe(text(r[i]), text(r[j])))
      && WithKey(r, key, Key(1, 0, "")) == WithKey(xs, key, Key(1, 0, ""))
  {
    var r := SortBy(xs, key);
    SortBySorted(xs, key);
    SortByStable(xs, key, Key(1, 0, ""));
    forall i, j | 0 <= i < j < |r|
      ensures chosen(r[j]) ==> chosen(r[i])
      ensures chosen(r[i]) && chosen(r[j]) ==> StrLe(text(r[i]), text(r[j]))
    {
      assert KeyLe(key(r[i]), key(r[j]));
      ChosenPair(r[i], r[j], key, chosen, text);
    }
  }

  /** One ordered pair under such a key. */
  lemma ChosenPair<T>(a: T, b: T, key: T -> Key, chosen: T -> bool, text: T -> string)
    requires forall e :: chosen(e) ==> key(e) == Key(0, 0, text(e))
    requires forall e :: !chosen(e) ==> key(e) == Key(1, 0, "")
    requires KeyLe(key(a), key(b))
    ensures chosen(b) ==> chosen(a)
    ensures chosen(a) && chosen(b) ==> StrLe(text(a), text(b))
  {
  }

  /**
   * With a bucket selected, the display shows the same entries; picked ones
   * first, by section code; the rest after them in their saved order.
   */
  lemma DisplayListCorrect(rule: Rule, list: seq<ListEntry>, sel: string)
    ensures var r := DisplayList(rule, list, Some(sel));
      && multiset(r) == multiset(list)
      && (forall i, j :: 0 <= i < j < |r| && Picks(rule, sel, r[j].aisle) ==> Picks(rule, sel, r[i].aisle))
      && (forall i, j :: 0 <= i < j < |r| && Picks(rule, sel, r[i].aisle) && Picks(rule, sel, r[j].aisle) ==>
            StrLe(SectionOf(r[i].aisle), SectionOf(r[j].aisle)))
      && WithKey(r, SelectionOrder(rule, sel), Key(1, 0, "")) == WithKey(list, SelectionOrder(rule, sel), Key(1, 0, ""))
  {
    var key := SelectionOrder(rule, sel);
    var chosen := (e: ListEntry) => Picks(rule, sel, e.aisle);
    var text := (e: ListEntry) => SectionOf(e.aisle);
    SortChosenFirst(list, key, chosen, text);
    var r := SortBy(list, key);
    forall i, j | 0 <= i < j < |r|
      ensures Picks(rule, sel, r[j].aisle) ==> Picks(rule, sel, r[i].aisle)
      ensures Picks(rule, sel, r[i].aisle) && Picks(rule, sel, r[j].aisle) ==>
        StrLe(SectionOf(r[i].aisle), SectionOf(r[j].aisle))
    {
      assert chosen(r[j]) ==> chosen(r[i]);
      assert chosen(r[i]) && chosen(r[j]) ==> StrLe(text(r[i]), text(r[j]));
    }
  }

  /**
   * As written, selecting "Other" leaves the list in its saved order and
   * highlights nothing, however many entries the sidebar counts there.
   */
  lemma OtherSelectionAsWritten(list: seq<ListEntry>)
    ensures DisplayList(AsWritten, list, Some("Other")) == list
    ensures HighlightCount(AsWritten, list, Some("Other")) == 0
  {
    var key := SelectionOrder(AsWritten, "Other");
    var r := DisplayList(AsWritten, list, Some("Other"));
    DisplayListCorrect(AsWritten, list, "Other");
    forall e: ListEntry ensures key(e) == Key(1, 0, "") {
      SelectsAsWrittenMissesOther(e.aisle);
    }
    assert forall e :: e in r ==> e in multiset(list);
    WithKeyAll(list, key, Key(1, 0, ""));
    WithKeyAll(r, key, Key(1, 0, ""));
    HighlightAsWrittenIsOccurrences(list, "Other");
  }
}
