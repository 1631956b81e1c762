/**
 * `escapeHtml`: every `&`, `<`, `>`, `"` and `'` of a string is replaced by
 * its character entity, so that the string can be pasted into markup as
 * text. `Unescape` reads those five entities back and is its inverse.
 */
module Html {

  /** The characters `escapeHtml` replaces. */
  predicate IsSpecial(c: char) {
    c == '&' || c == '<' || c == '>' || c == '"' || c == '\''
  }

  /** The characters that may never appear raw in escaped text. */
  predicate IsMarkup(c: char) {
    c == '<' || c == '>' || c == '"' || c == '\''
  }

  /** The entity for one special character. */
  function Entity(c: char): (e: string)
    requires IsSpecial(c)
    ensures 4 <= |e| && e[0] == '&' && e[|e| - 1] == ';'
    ensures forall k :: 0 <= k < |e| ==> !IsMarkup(e[k])
  {
    match c
    case '&' => "&amp;"
    case '<' => "&lt;"
    case '>' => "&gt;"
    case '"' => "&quot;"
    case _ => "&#039;"
  }

  /** The replacement of one character. */
  function EscapeChar(c: char): (e: string)
    ensures forall p :: 0 <= p < |e| ==> (e[p] == '&' <==> p == 0 && IsSpecial(c))
  {
    if IsSpecial(c) then Entity(c) else [c]
  }

  /** `escapeHtml`: the replacement of every character, in order. */
  function Escape(s: string): (r: string)
    ensures |s| <= |r|
  {
    if s == [] then [] else EscapeChar(s[0]) + Escape(s[1..])
  }

  /** Escaped text can be pasted into markup: it holds no `<`, `>`, `"` or `'`. */
  lemma {:induction false} EscapeHasNoMarkup(s: string)
    ensures forall k :: 0 <= k < |Escape(s)| ==> !IsMarkup(Escape(s)[k])
    decreases |s|
  {
    if s != [] {
      EscapeHasNoMarkup(s[1..]);
      var head := EscapeChar(s[0]);
      var tail := Escape(s[1..]);
      forall k | 0 <= k < |head + tail| ensures !IsMarkup((head + tail)[k]) {
        if k < |head| {
          assert (head + tail)[k] == head[k];
        } else {
          assert (head + tail)[k] == tail[k - |head|];
        }
      }
    }
  }

  /** `s` begins with `p`. */
  predicate StartsWith(s: string, p: string) {
    |p| <= |s| && s[..|p|] == p
  }

  /** Reads the five entities back as their characters; every other character is kept. */
  function Unescape(s: string): string
    decreases |s|
  {
    if s == [] then []
    else if StartsWith(s, "&amp;") then ['&'] + Unescape(s[5..])
    else if StartsWith(s, "&lt;") then ['<'] + Unescape(s[4..])
    else if StartsWith(s, "&gt;") then ['>'] + Unescape(s[4..])
    else if StartsWith(s, "&quot;") then ['"'] + Unescape(s[6..])
    else if StartsWith(s, "&#039;") then ['\''] + Unescape(s[6..])
    else [s[0]] + Unescape(s[1..])
  }

  /** Escaping distributes over concatenation. */
  lemma {:induction false} EscapeAppend(a: string, b: string)
    ensures Escape(a + b) == Escape(a) + Escape(b)
    decreases |a|
  {
    if a == [] {
      assert a + b == b;
    } else {
      assert (a + b)[0] == a[0];
      assert (a + b)[1..] == a[1..] + b;
      EscapeAppend(a[1..], b);
    }
  }

  /** Reading back an entity gives its character. */
  lemma UnescapeEntity(c: char, t: string)
    requires IsSpecial(c)
    ensures Unescape(Entity(c) + t) == [c] + Unescape(t)
  {
    var e := Entity(c);
    var x := e + t;
    assert x[..|e|] == e && x[|e|..] == t;
    assert x[1] == e[1];
    if c == '&' {
      assert StartsWith(x, "&amp;");
    } else if c == '<' {
      assert x[1] == 'l' && !StartsWith(x, "&amp;");
      assert StartsWith(x, "&lt;");
    } else if c == '>' {
      assert x[1] == 'g' && !StartsWith(x, "&amp;") && !StartsWith(x, "&lt;");
      assert StartsWith(x, "&gt;");
    } else if c == '"' {
      assert x[1] == 'q' && !StartsWith(x, "&amp;") && !StartsWith(x, "&lt;") && !StartsWith(x, "&gt;");
      assert StartsWith(x, "&quot;");
    } else {
      assert x[1] == '#' && !StartsWith(x, "&amp;") && !StartsWith(x, "&lt;") && !StartsWith(x, "&gt;");
      assert !StartsWith(x, "&quot;");
      assert StartsWith(x, "&#039;");
    }
  }

  /** Reading back the replacement of one character gives that character. */
  lemma UnescapeChar(c: char, t: string)
    ensures Unescape(EscapeChar(c) + t) == [c] + Unescape(t)
  {
    if IsSpecial(c) {
      UnescapeEntity(c, t);
    } else {
      var x := EscapeChar(c) + t;
      assert x[0] == c && x[1..] == t;
      assert !StartsWith(x, "&amp;") && !StartsWith(x, "&lt;") && !StartsWith(x, "&gt;");
      assert !StartsWith(x, "&quot;") && !StartsWith(x, "&#039;");
    }
  }

  /** Escaping loses nothing: the entities read back as the original text. */
  lemma {:induction false} UnescapeEscape(s: string)
    ensures Unescape(Escape(s)) == s
    decreases |s|
  {
    if s != [] {
      UnescapeChar(s[0], Escape(s[1..]));
      UnescapeEscape(s[1..]);
      assert [s[0]] + s[1..] == s;
    }
  }

  /** Text without special characters is left as it is. */
  lemma {:induction false} EscapePlain(s: string)
    requires forall k :: 0 <= k < |s| ==> !IsSpecial(s[k])
    ensures Escape(s) == s
    decreases |s|
  {
    if s != [] {
      EscapePlain(s[1..]);
      assert [s[0]] + s[1..] == s;
    }
  }

  /** Every `&` of escaped text begins one of the five entities. */
  predicate EntityAt(r: string, k: nat) {
    k <= |r| && exists c :: IsSpecial(c) && StartsWith(r[k..], Entity(c))
  }

  /** An entity followed by any text. */
  lemma EntityAtFront(c: char, t: string)
    requires IsSpecial(c)
    ensures EntityAt(EscapeChar(c) + t, 0)
  {
    assert (EscapeChar(c) + t)[0..][..|Entity(c)|] == Entity(c);
  }

  /** An entity stays an entity when text is put in front of it. */
  lemma EntityAtShift(head: string, t: string, k: nat)
    requires EntityAt(t, k)
    ensures EntityAt(head + t, |head| + k)
  {
    var c :| IsSpecial(c) && StartsWith(t[k..], Entity(c));
    assert (head + t)[|head| + k..] == t[k..];
  }

  /** In the replacement of one character, an `&` can only be the first character of an entity. */
  lemma AmpersandOnlyFirst(c: char, k: nat)
    requires k < |EscapeChar(c)| && EscapeChar(c)[k] == '&'
    ensures k == 0 && IsSpecial(c)
  {
  }

  /** An `&` of one replacement followed by text is an entity, given that the text's own are. */
  lemma AmpersandInConcat(c: char, tail: string, k: nat)
    requires k < |EscapeChar(c) + tail| && (EscapeChar(c) + tail)[k] == '&'
    requires |EscapeChar(c)| <= k ==> EntityAt(tail, k - |EscapeChar(c)|)
    ensures EntityAt(EscapeChar(c) + tail, k)
  {
    var head := EscapeChar(c);
    if k < |head| {
      assert (head + tail)[k] == head[k];
      AmpersandOnlyFirst(c, k);
      EntityAtFront(c, tail);
    } else {
      EntityAtShift(head, tail, k - |head|);
    }
  }

  lemma {:induction false} AmpersandsStartEntities(s: string, k: nat)
    requires k < |Escape(s)| && Escape(s)[k] == '&'
    ensures EntityAt(Escape(s), k)
    decreases |s|
  {
    var head := EscapeChar(s[0]);
    var tail := Escape(s[1..]);
    assert Escape(s) == head + tail;
    if |head| <= k {
      assert (head + tail)[k] == tail[k - |head|];
      AmpersandsStartEntities(s[1..], k - |head|);
    }
    AmpersandInConcat(s[0], tail, k);
  }
}
