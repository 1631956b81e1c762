/**
 * Character classes and string helpers shared by the pick-list model:
 * JavaScript's white-space class (used by `\s` and by `String.prototype.trim`),
 * ASCII digits and letters, the ASCII case folding that a regular expression
 * with the `i` flag (and without `u`) applies, trimming, white-space
 * collapsing and substring search.
 */
module Text {

  /** The characters JavaScript treats as white space in `\s` and in `trim`. */
  predicate IsSpace(c: char) {
    c == ' ' || c == '\t' || c == '\n' || c == '\r' || c == '\U{B}' || c == '\U{C}'
    || c == '\U{A0}' || c == '\U{1680}' || ('\U{2000}' <= c <= '\U{200A}')
    || c == '\U{2028}' || c == '\U{2029}' || c == '\U{202F}' || c == '\U{205F}'
    || c == '\U{3000}' || c == '\U{FEFF}'
  }

  /** `\d`: an ASCII decimal digit. */
  predicate IsDigit(c: char) {
    '0' <= c <= '9'
  }

  predicate IsUpperAscii(c: char) {
    'A' <= c <= 'Z'
  }

  predicate IsLowerAscii(c: char) {
    'a' <= c <= 'z'
  }

  /** `[A-Z0-9]` under the `i` flag: an ASCII letter of either case or a digit. */
  predicate IsAlnum(c: char) {
    IsUpperAscii(c) || IsLowerAscii(c) || IsDigit(c)
  }

  /** The characters that `.` in a regular expression does not match. */
  predicate IsLineTerminator(c: char) {
    c == '\n' || c == '\r' || c == '\U{2028}' || c == '\U{2029}'
  }

  /**
   * The case folding of a case-insensitive, non-Unicode regular expression,
   * restricted to what matters for lower-case ASCII patterns: two characters
   * match when their folds agree, and only ASCII letters fold.
   */
  function Fold(c: char): (f: char)
    ensures IsUpperAscii(c) ==> IsLowerAscii(f) && f as int == c as int + 32
    ensures !IsUpperAscii(c) ==> f == c
  {
    if IsUpperAscii(c) then c + ('a' - 'A') else c
  }

  /** The upper case of an ASCII character; every other character is kept. */
  function UpperAscii(c: char): (u: char)
    ensures IsAlnum(c) ==> IsAlnum(u) && !IsLowerAscii(u)
    ensures Fold(u) == Fold(c)
  {
    if IsLowerAscii(c) then c - ('a' - 'A') else c
  }

  function UpperAsciiString(s: string): (r: string)
    ensures |r| == |s|
    ensures forall k :: 0 <= k < |s| ==> r[k] == UpperAscii(s[k])
  {
    if s == [] then [] else [UpperAscii(s[0])] + UpperAsciiString(s[1..])
  }

  /** The classes a run of characters can be drawn from. */
  datatype CharClass = Space | Digit | Alnum

  predicate InClass(c: char, k: CharClass) {
    match k
    case Space => IsSpace(c)
    case Digit => IsDigit(c)
    case Alnum => IsAlnum(c)
  }

  /** Every character of `s[i..j]` belongs to class `k`. */
  predicate AllIn(s: string, i: nat, j: nat, k: CharClass)
    requires i <= j <= |s|
  {
    forall p :: i <= p < j ==> InClass(s[p], k)
  }

  /**
   * The end of the longest run of class-`k` characters starting at `i`:
   * what a greedy `\s*`, `\d+` or `[A-Z0-9]+` consumes.
   */
  function RunEnd(s: string, i: nat, k: CharClass): (j: nat)
    requires i <= |s|
    ensures i <= j <= |s|
    ensures AllIn(s, i, j, k)
    ensures j == |s| || !InClass(s[j], k)
    decreases |s| - i
  {
    if i < |s| && InClass(s[i], k) then RunEnd(s, i + 1, k) else i
  }

  /** A run that cannot be extended is the one `RunEnd` finds, and every run lies inside it. */
  lemma RunEndCovers(s: string, i: nat, j: nat, k: CharClass)
    requires i <= j <= |s| && AllIn(s, i, j, k)
    ensures j <= RunEnd(s, i, k)
    ensures (j == |s| || !InClass(s[j], k)) ==> RunEnd(s, i, k) == j
  {
  }

  /** The lower-case ASCII word `w` occurs at `i`, ignoring ASCII case. */
  predicate WordAt(s: string, i: nat, w: string) {
    i + |w| <= |s| && forall p :: 0 <= p < |w| ==> Fold(s[i + p]) == w[p]
  }

  /** A word of lower-case letters only occurs where a non-space character stands. */
  lemma WordStartsNonSpace(s: string, i: nat, w: string)
    requires WordAt(s, i, w) && |w| > 0 && IsLowerAscii(w[0])
    ensures i < |s| && !IsSpace(s[i]) && !IsDigit(s[i])
  {
    assert Fold(s[i + 0]) == w[0];
  }

  /** How many white-space characters `s` starts with. */
  function TrimOffset(s: string): (n: nat)
    ensures n <= |s|
  {
    RunEnd(s, 0, Space)
  }

  /** Drops leading white space, as `parseInt` does before it reads. */
  function TrimStart(s: string): (r: string)
    ensures r == [] || !IsSpace(r[0])
  {
    s[TrimOffset(s)..]
  }

  /** Where the run of white space that ends at `j` begins. */
  function BackRunStart(s: string, j: nat): (k: nat)
    requires j <= |s|
    ensures k <= j && AllIn(s, k, j, Space)
    ensures k == 0 || !IsSpace(s[k - 1])
    decreases j
  {
    if j > 0 && IsSpace(s[j - 1]) then BackRunStart(s, j - 1) else j
  }

  /**
   * `String.prototype.trim`: the part of `s` between its first and last
   * non-white-space characters, or "" when there are none.
   */
  function Trim(s: string): (r: string)
    ensures TrimOffset(s) + |r| <= |s| && r == s[TrimOffset(s)..TrimOffset(s) + |r|]
    ensures r == [] || (!IsSpace(r[0]) && !IsSpace(r[|r| - 1]))
  {
    var a := TrimOffset(s);
    if a == |s| then []
    else
      var b := BackRunStart(s, |s|);
      assert !InClass(s[a], Space);
      s[a..b]
  }

  /** Trimming leaves nothing exactly when the text is all white space. */
  lemma TrimEmpty(s: string)
    ensures Trim(s) == [] <==> forall p :: 0 <= p < |s| ==> IsSpace(s[p])
  {
    var a := TrimOffset(s);
    assert AllIn(s, 0, a, Space);
    if a < |s| {
      assert !IsSpace(s[a]);
    }
  }

  /** Trimming a string that has no white space at either end changes nothing. */
  lemma TrimOfTrimmed(s: string)
    requires s == [] || (!IsSpace(s[0]) && !IsSpace(s[|s| - 1]))
    ensures Trim(s) == s
  {
    if s != [] {
      assert TrimOffset(s) == 0;
      assert BackRunStart(s, |s|) == |s|;
      assert s[0..|s|] == s;
    }
  }

  /** Trimming is idempotent. */
  lemma TrimIdempotent(s: string)
    ensures Trim(Trim(s)) == Trim(s)
  {
    TrimOfTrimmed(Trim(s));
  }

  /** `s.replace(/\s+/g, " ")`: every maximal run of white space becomes one space. */
  function Collapse(s: string): (r: string)
    ensures |r| <= |s|
    ensures r == [] <==> s == []
    ensures s != [] ==> (IsSpace(s[0]) <==> r[0] == ' ')
    ensures s != [] && !IsSpace(s[0]) ==> r[0] == s[0]
    ensures forall p :: 0 <= p < |r| && IsSpace(r[p]) ==> r[p] == ' '
    ensures forall p :: 0 <= p < |r| - 1 ==> !(r[p] == ' ' && r[p + 1] == ' ')
    decreases |s|
  {
    if s == [] then []
    else if IsSpace(s[0]) then
      var e := RunEnd(s, 0, Space);
      [' '] + Collapse(s[e..])
    else
      [s[0]] + Collapse(s[1..])
  }

  /** Single-spaced: no white space but ' ', and never two spaces in a row. */
  predicate SingleSpaced(s: string) {
    && (forall p :: 0 <= p < |s| && IsSpace(s[p]) ==> s[p] == ' ')
    && (forall p :: 0 <= p < |s| - 1 ==> !(s[p] == ' ' && s[p + 1] == ' '))
  }

  /** `t.replace(/\s+/g, " ").trim()`: the display form of a matched phrase. */
  function Normalize(t: string): (r: string)
    ensures SingleSpaced(r)
    ensures r == [] || (!IsSpace(r[0]) && !IsSpace(r[|r| - 1]))
    ensures t != [] && !IsSpace(t[0]) ==> r != [] && r[0] == t[0]
  {
    var c := Collapse(t);
    TrimKeepsSingleSpaced(c);
    Trim(c)
  }

  /** Trimming a single-spaced text leaves it single-spaced. */
  lemma TrimKeepsSingleSpaced(c: string)
    requires SingleSpaced(c)
    ensures SingleSpaced(Trim(c))
  {
    var r := Trim(c);
    var a := TrimOffset(c);
    assert forall p :: 0 <= p < |r| ==> r[p] == c[a + p];
  }

  /** `t` occurs in `s` at position `i`. */
  predicate OccursAt(s: string, t: string, i: nat) {
    i + |t| <= |s| && s[i..i + |t|] == t
  }

  /** `s.includes(t)`: `t` occurs in `s` at some position. */
  predicate Contains(s: string, t: string) {
    exists i :: 0 <= i <= |s| && OccursAt(s, t, i)
  }

  /** A decision procedure for `Contains`, searching from position `i` on. */
  function ContainsFrom(s: string, t: string, i: nat): (b: bool)
    requires i <= |s|
    ensures b <==> exists p :: i <= p <= |s| && OccursAt(s, t, p)
    decreases |s| - i
  {
    if i + |t| > |s| then false
    else if OccursAt(s, t, i) then true
    else ContainsFrom(s, t, i + 1)
  }

  lemma ContainsDecided(s: string, t: string)
    ensures ContainsFrom(s, t, 0) == Contains(s, t)
  {
  }

  /** Collapsing keeps a prefix that holds no white space. */
  lemma {:induction false} CollapseKeepsPrefix(s: string, n: nat)
    requires n <= |s| && forall p :: 0 <= p < n ==> !IsSpace(s[p])
    ensures n <= |Collapse(s)| && Collapse(s)[..n] == s[..n]
    decreases n
  {
    if n > 0 {
      CollapseKeepsPrefix(s[1..], n - 1);
      assert Collapse(s) == [s[0]] + Collapse(s[1..]);
    }
  }

  /** Trimming keeps a prefix that holds no white space. */
  lemma TrimKeepsPrefix(s: string, n: nat)
    requires 0 < n <= |s| && forall p :: 0 <= p < n ==> !IsSpace(s[p])
    ensures n <= |Trim(s)| && Trim(s)[..n] == s[..n]
  {
    assert !InClass(s[0], Space);
    assert TrimOffset(s) == 0;
    var b := BackRunStart(s, |s|);
    assert !IsSpace(s[n - 1]);
    assert n <= b;
  }

  /** Normalizing keeps a prefix that holds no white space. */
  lemma NormalizeKeepsPrefix(t: string, n: nat)
    requires 0 < n <= |t| && forall p :: 0 <= p < n ==> !IsSpace(t[p])
    ensures n <= |Normalize(t)| && Normalize(t)[..n] == t[..n]
  {
    CollapseKeepsPrefix(t, n);
    var c := Collapse(t);
    assert forall p :: 0 <= p < n ==> c[p] == t[p];
    TrimKeepsPrefix(c, n);
  }
}
