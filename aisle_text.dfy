/**
 * Hand-written matchers for the four regular expressions the pick list uses
 * on aisle text, each with the `i` flag (ASCII case-insensitive letters):
 *
 *   LocatedPhrase  /Item\s+Located\s+in\s+(Aisle\s+\d+\s*(?:Section\s*[A-Z0-9]+)?)/i
 *   AislePhrase    /(Aisle\s+\d+\s*(?:Section\s*[A-Z0-9]+)?)/i
 *   AisleNumber    /Aisle\s+(\d+)/i
 *   SectionCode    /Section\s*([A-Z0-9]+)/i
 *
 * `String.prototype.match` without the `g` flag returns the leftmost match;
 * at a fixed start the backtracking matcher takes every greedy quantifier as
 * far as it goes, and for these patterns that is the longest match (the
 * lemmas below prove it against declarative descriptions of each pattern).
 * Then `AisleSection` and `SearchAisle` are the source's two uses of them.
 */
module AisleText {
  import opened Text
  import opened Wrappers

  // ---------------------------------------------------------------------
  // Declarative descriptions of what each pattern matches

  /** `Section\s*[A-Z0-9]+` matches exactly `s[i..j]`. */
  ghost predicate IsSectionAt(s: string, i: nat, j: nat)
    requires i <= j <= |s|
  {
    && WordAt(s, i, "section")
    && exists c :: i + 7 <= c < j && AllIn(s, i + 7, c, Space) && AllIn(s, c, j, Alnum)
  }

  /** `Aisle\s+\d+\s*(?:Section\s*[A-Z0-9]+)?` matches exactly `s[i..j]`. */
  ghost predicate IsAislePhraseAt(s: string, i: nat, j: nat)
    requires i <= j <= |s|
  {
    && WordAt(s, i, "aisle")
    && exists a, b, c ::
         && i + 5 < a < b <= c <= j
         && AllIn(s, i + 5, a, Space) && AllIn(s, a, b, Digit) && AllIn(s, b, c, Space)
         && (c == j || IsSectionAt(s, c, j))
  }

  /** `Item\s+Located\s+in\s+` matches exactly `s[i..g]`. */
  ghost predicate IsLeadInAt(s: string, i: nat, g: nat)
    requires i <= g <= |s|
  {
    && WordAt(s, i, "item")
    && exists p, q ::
         && i + 4 < p && p + 7 < q && q + 2 < g
         && AllIn(s, i + 4, p, Space) && WordAt(s, p, "located")
         && AllIn(s, p + 7, q, Space) && WordAt(s, q, "in")
         && AllIn(s, q + 2, g, Space)
  }

  // ---------------------------------------------------------------------
  // The matchers, one greedy step after another

  /** Where `Section\s*([A-Z0-9]+)` matching at `i` puts its group, if it matches. */
  function SectionCodeAt(s: string, i: nat): (r: Option<(nat, nat)>)
    requires i <= |s|
    ensures r.Some? ==> i + 7 <= r.value.0 < r.value.1 <= |s|
  {
    if WordAt(s, i, "section") then
      var c := RunEnd(s, i + 7, Space);
      var d := RunEnd(s, c, Alnum);
      if c < d then Some((c, d)) else None
    else None
  }

  /** Where `Aisle\s+(\d+)` matching at `i` puts its group, if it matches. */
  function AisleNumberAt(s: string, i: nat): (r: Option<(nat, nat)>)
    requires i <= |s|
    ensures r.Some? ==> i + 5 < r.value.0 < r.value.1 <= |s|
  {
    if WordAt(s, i, "aisle") then
      var a := RunEnd(s, i + 5, Space);
      var b := RunEnd(s, a, Digit);
      if i + 5 < a < b then Some((a, b)) else None
    else None
  }

  /** Where `Aisle\s+\d+\s*(?:Section\s*[A-Z0-9]+)?` matching at `i` ends, if it matches. */
  function AislePhraseEnd(s: string, i: nat): (r: Option<nat>)
    requires i <= |s|
    ensures r.Some? ==> i + 5 < r.value <= |s|
  {
    match AisleNumberAt(s, i)
    case None => None
    case Some((_, b)) =>
      var c := RunEnd(s, b, Space);
      match SectionCodeAt(s, c)
      case Some((_, d)) => Some(d)
      case None => Some(c)
  }

  /** Where `Item\s+Located\s+in\s+` matching at `i` ends, if it matches. */
  function LeadInEnd(s: string, i: nat): (r: Option<nat>)
    requires i <= |s|
    ensures r.Some? ==> i + 4 < r.value <= |s|
  {
    if WordAt(s, i, "item") then
      var p := RunEnd(s, i + 4, Space);
      if p > i + 4 && WordAt(s, p, "located") then
        var q := RunEnd(s, p + 7, Space);
        if q > p + 7 && WordAt(s, q, "in") then
          var g := RunEnd(s, q + 2, Space);
          if g > q + 2 then Some(g) else None
        else None
      else None
    else None
  }

  // ---------------------------------------------------------------------
  // The four patterns and the leftmost search

  datatype Pattern = LocatedPhrase | AislePhrase | AisleNumber | SectionCode

  /** The range of capture group 1 when pattern `p` matches at `i`, if it does. */
  function GroupAt(p: Pattern, s: string, i: nat): (r: Option<(nat, nat)>)
    requires i <= |s|
    ensures r.Some? ==> i <= r.value.0 < r.value.1 <= |s|
    ensures r.Some? && p == AisleNumber ==> AllIn(s, r.value.0, r.value.1, Digit)
    ensures r.Some? && p == SectionCode ==> AllIn(s, r.value.0, r.value.1, Alnum)
    ensures r.Some? && (p == LocatedPhrase || p == AislePhrase) ==> WordAt(s, r.value.0, "aisle")
  {
    match p
    case LocatedPhrase =>
      (match LeadInEnd(s, i)
       case None => None
       case Some(g) =>
         match AislePhraseEnd(s, g)
         case None => None
         case Some(e) => Some((g, e)))
    case AislePhrase =>
      (match AislePhraseEnd(s, i)
       case None => None
       case Some(e) => Some((i, e)))
    case AisleNumber => AisleNumberAt(s, i)
    case SectionCode => SectionCodeAt(s, i)
  }

  /** Pattern `p` matches at `i`. */
  predicate MatchesAt(p: Pattern, s: string, i: nat)
    requires i <= |s|
  {
    GroupAt(p, s, i).Some?
  }

  /** The least position in `from..n` where `m` holds (a regular expression's leftmost match). */
  function FirstWhere(m: nat -> bool, from: nat, n: nat): (r: Option<nat>)
    requires from <= n
    ensures r.Some? ==> from <= r.value <= n && m(r.value)
    ensures r.Some? ==> forall k :: from <= k < r.value ==> !m(k)
    ensures r.None? ==> forall k :: from <= k <= n ==> !m(k)
    decreases n - from
  {
    if m(from) then Some(from)
    else if from == n then None
    else FirstWhere(m, from + 1, n)
  }

  /** The leftmost position where `p` matches in `s`. */
  function FirstMatch(p: Pattern, s: string): (r: Option<nat>)
    ensures r.Some? ==> r.value <= |s| && MatchesAt(p, s, r.value)
    ensures r.Some? ==> forall k :: 0 <= k < r.value ==> !MatchesAt(p, s, k)
    ensures r.None? ==> forall k :: 0 <= k <= |s| ==> !MatchesAt(p, s, k)
  {
    var m := (k: nat) => k <= |s| && MatchesAt(p, s, k);
    assert forall k: nat :: k <= |s| ==> m(k) == MatchesAt(p, s, k);
    FirstWhere(m, 0, |s|)
  }

  /** The text of capture group 1 when `p` matches at `i`. */
  function GroupText(p: Pattern, s: string, i: nat): (t: string)
    requires i <= |s| && MatchesAt(p, s, i)
    ensures t != []
    ensures p == AisleNumber ==> forall k :: 0 <= k < |t| ==> IsDigit(t[k])
    ensures p == SectionCode ==> forall k :: 0 <= k < |t| ==> IsAlnum(t[k])
    ensures (p == LocatedPhrase || p == AislePhrase) ==> WordAt(t, 0, "aisle")
  {
    var (g, e) := GroupAt(p, s, i).value;
    assert forall k :: 0 <= k < e - g ==> s[g..e][k] == s[g + k];
    assert p == LocatedPhrase || p == AislePhrase ==> e >= g + 5;
    s[g..e]
  }

  /** A pattern that matches at the very start is found there. */
  lemma SearchAtStart(p: Pattern, s: string)
    requires MatchesAt(p, s, 0)
    ensures Search(p, s) == Some(GroupText(p, s, 0))
  {
  }

  /** `s.match(re)` followed by `m && m[1]`: capture group 1 of the leftmost match. */
  function Search(p: Pattern, s: string): (r: Option<string>)
    ensures r.None? <==> forall k :: 0 <= k <= |s| ==> !MatchesAt(p, s, k)
    ensures r.Some? ==> FirstMatch(p, s).Some? && r.value == GroupText(p, s, FirstMatch(p, s).value)
  {
    match FirstMatch(p, s)
    case None => None
    case Some(i) => Some(GroupText(p, s, i))
  }

  // ---------------------------------------------------------------------
  // The source's two uses

  /**
   * The location text of a product page: the phrase after "Item Located in"
   * when there is one, otherwise the first bare aisle phrase, with white space
   * collapsed and trimmed; "" when the page mentions no aisle.
   */
  function AisleSection(body: string): (r: string)
    ensures SingleSpaced(r)
    ensures r == [] || (!IsSpace(r[0]) && !IsSpace(r[|r| - 1]))
  {
    match Search(LocatedPhrase, body)
    case Some(t) => Normalize(t)
    case None =>
      match Search(AislePhrase, body)
      case Some(t) => Normalize(t)
      case None => ""
  }

  /** What `searchAisle` extracts: the aisle number and the upper-cased section code. */
  datatype AisleParse = AisleParse(aisleNum: Option<string>, section: Option<string>)

  function SearchAisle(aisle: string): (r: AisleParse)
    ensures r.aisleNum.Some? ==> r.aisleNum.value != [] && forall k :: 0 <= k < |r.aisleNum.value| ==> IsDigit(r.aisleNum.value[k])
    ensures r.section.Some? ==> r.section.value != [] && forall k :: 0 <= k < |r.section.value| ==> IsAlnum(r.section.value[k]) && !IsLowerAscii(r.section.value[k])
  {
    var section := match Search(SectionCode, aisle)
      case Some(t) => Some(UpperAsciiString(t))
      case None => None;
    AisleParse(Search(AisleNumber, aisle), section)
  }

  // ---------------------------------------------------------------------
  // The matchers implement the patterns: leftmost, and longest at a start

  /** A section phrase that starts at `i` ends no later than the one the matcher finds. */
  lemma SectionBounded(s: string, i: nat, j: nat)
    requires i <= j <= |s| && IsSectionAt(s, i, j)
    ensures SectionCodeAt(s, i).Some? && j <= SectionCodeAt(s, i).value.1
  {
    var x :| i + 7 <= x < j && AllIn(s, i + 7, x, Space) && AllIn(s, x, j, Alnum);
    assert IsAlnum(s[x]);
    RunEndCovers(s, i + 7, x, Space);
    RunEndCovers(s, x, j, Alnum);
  }

  /** `SectionCodeAt` finds the longest `Section\s*[A-Z0-9]+` starting at `i`, or says there is none. */
  lemma SectionCodeIsLongest(s: string, i: nat)
    requires i <= |s|
    ensures SectionCodeAt(s, i).Some? ==>
      var d := SectionCodeAt(s, i).value.1;
      IsSectionAt(s, i, d) && forall j :: d < j <= |s| ==> !IsSectionAt(s, i, j)
    ensures SectionCodeAt(s, i).None? ==> forall j :: i <= j <= |s| ==> !IsSectionAt(s, i, j)
  {
    forall j | i <= j <= |s| && IsSectionAt(s, i, j)
      ensures SectionCodeAt(s, i).Some? && j <= SectionCodeAt(s, i).value.1
    {
      SectionBounded(s, i, j);
    }
    if SectionCodeAt(s, i).Some? {
      var (c, d) := SectionCodeAt(s, i).value;
      assert AllIn(s, i + 7, c, Space) && AllIn(s, c, d, Alnum);
    }
  }

  /** A section phrase starts with a letter: neither white space nor a digit. */
  lemma SectionStartsWithLetter(s: string, c: nat, j: nat)
    requires c <= j <= |s| && IsSectionAt(s, c, j)
    ensures c < |s| && !IsDigit(s[c]) && !IsSpace(s[c])
  {
    WordStartsNonSpace(s, c, "section");
  }

  /** Once the aisle number is read, the phrase ends after the white space that follows it. */
  lemma AislePhraseEndAfterNumber(s: string, i: nat, a: nat, b: nat)
    requires i <= |s| && i + 5 < a < b <= |s| && WordAt(s, i, "aisle")
    requires a == RunEnd(s, i + 5, Space) && b == RunEnd(s, a, Digit)
    ensures AislePhraseEnd(s, i).Some? && AislePhraseEnd(s, i).value >= RunEnd(s, b, Space)
    ensures var c := RunEnd(s, b, Space);
      AislePhraseEnd(s, i) == Some(if SectionCodeAt(s, c).Some? then SectionCodeAt(s, c).value.1 else c)
  {
    assert AisleNumberAt(s, i) == Some((a, b));
  }

  /** An aisle phrase that starts at `i` ends no later than the one the matcher finds. */
  lemma AislePhraseBounded(s: string, i: nat, j: nat)
    requires i <= j <= |s| && IsAislePhraseAt(s, i, j)
    ensures AislePhraseEnd(s, i).Some? && j <= AislePhraseEnd(s, i).value
  {
    var a', b', c' :|
      && i + 5 < a' < b' <= c' <= j
      && AllIn(s, i + 5, a', Space) && AllIn(s, a', b', Digit) && AllIn(s, b', c', Space)
      && (c' == j || IsSectionAt(s, c', j));
    assert IsDigit(s[a']);
    RunEndCovers(s, i + 5, a', Space);
    RunEndCovers(s, a', b', Digit);
    var b := RunEnd(s, a', Digit);
    AislePhraseEndAfterNumber(s, i, a', b);
    if c' == j {
      PlainPhraseBounded(s, b', b, c');
    } else {
      SectionStartsWithLetter(s, c', j);
      SectionPhraseBounded(s, b', b, c');
      SectionBounded(s, c', j);
      assert RunEnd(s, b, Space) == c';
      assert AislePhraseEnd(s, i) == Some(SectionCodeAt(s, c').value.1);
    }
  }

  /** Without a section, the phrase found reaches past the digits and white space given. */
  lemma PlainPhraseBounded(s: string, b': nat, b: nat, c': nat)
    requires b' <= b <= |s| && b' <= c' <= |s| && AllIn(s, b', c', Space) && AllIn(s, b', b, Digit)
    ensures c' <= RunEnd(s, b, Space)
  {
    if b' == b {
      RunEndCovers(s, b, c', Space);
    } else {
      assert IsDigit(s[b']);
    }
  }

  /** A section after digits and white space starts where the matcher's white space ends. */
  lemma SectionPhraseBounded(s: string, b': nat, b: nat, c': nat)
    requires b' <= b <= |s| && b' <= c' < |s| && AllIn(s, b', c', Space) && AllIn(s, b', b, Digit)
    requires b == |s| || !IsDigit(s[b])
    requires !IsDigit(s[c']) && !IsSpace(s[c'])
    ensures RunEnd(s, b, Space) == c'
  {
    var ch := s[b'];
    assert !(IsDigit(ch) && IsSpace(ch));
    assert b' == b;
    RunEndCovers(s, b, c', Space);
  }

  /**
   * `AislePhraseEnd` finds the longest `Aisle\s+\d+\s*(?:Section\s*[A-Z0-9]+)?`
   * starting at `i`, and finds nothing exactly when no such phrase starts there.
   */
  lemma AislePhraseIsLongest(s: string, i: nat)
    requires i <= |s|
    ensures AislePhraseEnd(s, i).Some? ==>
      var e := AislePhraseEnd(s, i).value;
      IsAislePhraseAt(s, i, e) && forall j :: e < j <= |s| ==> !IsAislePhraseAt(s, i, j)
    ensures AislePhraseEnd(s, i).None? ==> forall j :: i <= j <= |s| ==> !IsAislePhraseAt(s, i, j)
  {
    forall j | i <= j <= |s| && IsAislePhraseAt(s, i, j)
      ensures AislePhraseEnd(s, i).Some? && j <= AislePhraseEnd(s, i).value
    {
      AislePhraseBounded(s, i, j);
    }
    if AislePhraseEnd(s, i).Some? {
      var (a, b) := AisleNumberAt(s, i).value;
      var c := RunEnd(s, b, Space);
      if SectionCodeAt(s, c).Some? {
        SectionCodeIsLongest(s, c);
        assert IsSectionAt(s, c, SectionCodeAt(s, c).value.1);
      }
      assert AllIn(s, i + 5, a, Space) && AllIn(s, a, b, Digit) && AllIn(s, b, c, Space);
    }
  }

  /** The lead-in "Item Located in" is forced: it can only end where the next word starts. */
  lemma LeadInForced(s: string, i: nat, g: nat)
    requires i <= g < |s| && IsLeadInAt(s, i, g) && !IsSpace(s[g])
    ensures LeadInEnd(s, i) == Some(g)
  {
    var p, q :|
      && i + 4 < p && p + 7 < q && q + 2 < g
      && AllIn(s, i + 4, p, Space) && WordAt(s, p, "located")
      && AllIn(s, p + 7, q, Space) && WordAt(s, q, "in")
      && AllIn(s, q + 2, g, Space);
    WordStartsNonSpace(s, p, "located");
    RunEndCovers(s, i + 4, p, Space);
    WordStartsNonSpace(s, q, "in");
    RunEndCovers(s, p + 7, q, Space);
    RunEndCovers(s, q + 2, g, Space);
    LeadInEndOf(s, i, p, q, g);
  }

  lemma LeadInEndOf(s: string, i: nat, p: nat, q: nat, g: nat)
    requires i + 4 < p && p + 7 < q && q + 2 < g <= |s|
    requires WordAt(s, i, "item") && WordAt(s, p, "located") && WordAt(s, q, "in")
    requires RunEnd(s, i + 4, Space) == p && RunEnd(s, p + 7, Space) == q && RunEnd(s, q + 2, Space) == g
    ensures LeadInEnd(s, i) == Some(g)
  {
  }

  /** The located phrase: lead-in from `i` to `g`, then an aisle phrase from `g` to `j`. */
  ghost predicate IsLocatedPhraseAt(s: string, i: nat, g: nat, j: nat)
    requires i <= g <= j <= |s|
  {
    IsLeadInAt(s, i, g) && IsAislePhraseAt(s, g, j)
  }

  /**
   * At a start `i`, the `LocatedPhrase` group is where the aisle phrase after
   * the lead-in starts and its longest extent; there is no group exactly when
   * no located phrase starts at `i`.
   */
  lemma LocatedPhraseIsLongest(s: string, i: nat)
    requires i <= |s|
    ensures GroupAt(LocatedPhrase, s, i).Some? ==>
      var (g, e) := GroupAt(LocatedPhrase, s, i).value;
      && IsLocatedPhraseAt(s, i, g, e)
      && forall g', j :: i <= g' <= j <= |s| && IsLocatedPhraseAt(s, i, g', j) ==> g' == g && j <= e
    ensures GroupAt(LocatedPhrase, s, i).None? ==>
      forall g', j :: i <= g' <= j <= |s| ==> !IsLocatedPhraseAt(s, i, g', j)
  {
    forall g', j | i <= g' <= j <= |s| && IsLocatedPhraseAt(s, i, g', j)
      ensures AislePhraseEnd(s, g').Some?
      ensures GroupAt(LocatedPhrase, s, i) == Some((g', AislePhraseEnd(s, g').value))
      ensures j <= AislePhraseEnd(s, g').value
    {
      WordStartsNonSpace(s, g', "aisle");
      LeadInForced(s, i, g');
      AislePhraseBounded(s, g', j);
    }
    if LeadInEnd(s, i).Some? {
      var g := LeadInEnd(s, i).value;
      var p := RunEnd(s, i + 4, Space);
      var q := RunEnd(s, p + 7, Space);
      assert AllIn(s, i + 4, p, Space) && AllIn(s, p + 7, q, Space) && AllIn(s, q + 2, g, Space);
      assert IsLeadInAt(s, i, g);
      AislePhraseIsLongest(s, g);
    }
  }

  /** `Aisle\s+(\d+)` matches `s[i..b]` with its group at `s[a..b]`. */
  ghost predicate IsAisleNumberAt(s: string, i: nat, a: nat, b: nat)
    requires i <= a <= b <= |s|
  {
    WordAt(s, i, "aisle") && i + 5 < a < b && AllIn(s, i + 5, a, Space) && AllIn(s, a, b, Digit)
  }

  /** `AisleNumberAt` finds the longest digit group of `Aisle\s+(\d+)` at `i`, or says there is none. */
  lemma AisleNumberIsLongest(s: string, i: nat)
    requires i <= |s|
    ensures AisleNumberAt(s, i).Some? ==>
      var (a, b) := AisleNumberAt(s, i).value;
      && IsAisleNumberAt(s, i, a, b)
      && forall a', b' :: i <= a' <= b' <= |s| && IsAisleNumberAt(s, i, a', b') ==> a' == a && b' <= b
    ensures AisleNumberAt(s, i).None? ==>
      forall a', b' :: i <= a' <= b' <= |s| ==> !IsAisleNumberAt(s, i, a', b')
  {
    forall a', b' | i <= a' <= b' <= |s| && IsAisleNumberAt(s, i, a', b')
      ensures AisleNumberAt(s, i).Some? && AisleNumberAt(s, i).value.0 == a' && b' <= AisleNumberAt(s, i).value.1
    {
      assert IsDigit(s[a']);
      RunEndCovers(s, i + 5, a', Space);
      RunEndCovers(s, a', b', Digit);
    }
  }

  /** The aisle number and the aisle phrase patterns match at exactly the same positions. */
  lemma NumberWherePhrase(s: string, i: nat)
    requires i <= |s|
    ensures MatchesAt(AisleNumber, s, i) <==> MatchesAt(AislePhrase, s, i)
  {
  }

  /** The page mentions an aisle phrase somewhere. */
  ghost predicate MentionsAisle(s: string) {
    exists i, j :: 0 <= i <= j <= |s| && IsAislePhraseAt(s, i, j)
  }

  lemma MentionsAisleIffMatch(s: string)
    ensures MentionsAisle(s) <==> Search(AislePhrase, s).Some?
  {
    if MentionsAisle(s) {
      var i, j :| 0 <= i <= j <= |s| && IsAislePhraseAt(s, i, j);
      AislePhraseBounded(s, i, j);
      assert MatchesAt(AislePhrase, s, i);
    }
    if Search(AislePhrase, s).Some? {
      var i := FirstMatch(AislePhrase, s).value;
      AislePhraseIsLongest(s, i);
      assert IsAislePhraseAt(s, i, AislePhraseEnd(s, i).value);
    }
  }

  /**
   * The location text is empty exactly when the page mentions no aisle phrase
   * at all: a located phrase always contains one, and the bare pattern is the
   * fallback for every other mention.
   */
  lemma AisleSectionEmptyIffNoAisle(body: string)
    ensures AisleSection(body) == [] <==> !MentionsAisle(body)
  {
    MentionsAisleIffMatch(body);
    if Search(LocatedPhrase, body).Some? {
      var i := FirstMatch(LocatedPhrase, body).value;
      var g := LeadInEnd(body, i).value;
      assert MatchesAt(AislePhrase, body, g);
      NormalizeStartsWithWord(GroupText(LocatedPhrase, body, i));
    } else if Search(AislePhrase, body).Some? {
      NormalizeStartsWithWord(GroupText(AislePhrase, body, FirstMatch(AislePhrase, body).value));
    }
  }

  /** A non-empty location text starts with the word "Aisle" (in any ASCII case). */
  lemma AisleSectionStartsWithAisle(body: string)
    ensures AisleSection(body) != [] ==> WordAt(AisleSection(body), 0, "aisle")
  {
    if Search(LocatedPhrase, body).Some? {
      NormalizeStartsWithWord(GroupText(LocatedPhrase, body, FirstMatch(LocatedPhrase, body).value));
    } else if Search(AislePhrase, body).Some? {
      NormalizeStartsWithWord(GroupText(AislePhrase, body, FirstMatch(AislePhrase, body).value));
    }
  }

  /** Normalizing text that starts with "aisle" keeps those five letters. */
  lemma NormalizeStartsWithWord(t: string)
    requires WordAt(t, 0, "aisle")
    ensures WordAt(Normalize(t), 0, "aisle")
  {
    forall p | 0 <= p < 5 ensures !IsSpace(t[p]) {
      assert Fold(t[0 + p]) == "aisle"[p];
    }
    NormalizeKeepsPrefix(t, 5);
    assert forall p :: 0 <= p < 5 ==> Normalize(t)[p] == t[p];
  }

  /**
   * `searchAisle` finds an aisle number exactly when the text mentions an
   * aisle phrase, i.e. exactly when `AisleSection` of that text is non-empty.
   */
  lemma SearchAisleFindsNumberIffMention(aisle: string)
    ensures SearchAisle(aisle).aisleNum.Some? <==> MentionsAisle(aisle)
  {
    MentionsAisleIffMatch(aisle);
    forall k | 0 <= k <= |aisle| ensures MatchesAt(AisleNumber, aisle, k) <==> MatchesAt(AislePhrase, aisle, k) {
      NumberWherePhrase(aisle, k);
    }
  }
}
