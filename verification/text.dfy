/**
 The string primitives the controller relies on: Python's `str.strip()`,
 `str.lower()` and the substring test `needle in hay`.
 */
module Text {

  /** Python's `str.isspace()` for one code point. */
  predicate IsSpace(c: char)
  {
    || c == ' '
    || ('\t' <= c <= '\r')
    || ('\U{1C}' <= c <= '\U{1F}')
    || c == '\U{85}'
    || c == '\U{A0}'
    || c == '\U{1680}'
    || ('\U{2000}' <= c <= '\U{200A}')
    || c == '\U{2028}'
    || c == '\U{2029}'
    || c == '\U{202F}'
    || c == '\U{205F}'
    || c == '\U{3000}'
  }

  predicate AllSpace(s: string)
  {
    forall k :: 0 <= k < |s| ==> IsSpace(s[k])
  }

  /** Number of whitespace characters at the start of `s`. */
  function LeadingSpaces(s: string): (n: nat)
    ensures n <= |s|
    ensures AllSpace(s[..n])
    ensures n < |s| ==> !IsSpace(s[n])
  {
    if |s| == 0 || !IsSpace(s[0]) then 0
    else
      var m := LeadingSpaces(s[1..]);
      assert s[..m + 1] == [s[0]] + s[1..][..m];
      1 + m
  }

  /** Number of whitespace characters at the end of `s`. */
  function TrailingSpaces(s: string): (n: nat)
    ensures n <= |s|
    ensures AllSpace(s[|s| - n..])
    ensures n < |s| ==> !IsSpace(s[|s| - 1 - n])
  {
    if |s| == 0 || !IsSpace(s[|s| - 1]) then 0
    else
      var init := s[..|s| - 1];
      var m := TrailingSpaces(init);
      assert s[|s| - (m + 1)..] == init[|init| - m..] + [s[|s| - 1]];
      1 + m
  }

  /**
   Python's `str.strip()` with no argument: the longest part of `s` that
   neither starts nor ends with whitespace, once the whitespace around it
   is dropped.
   */
  function Strip(s: string): (r: string)
    ensures |r| <= |s|
    ensures r == [] <==> AllSpace(s)
    ensures r != [] ==> !IsSpace(r[0]) && !IsSpace(r[|r| - 1])
    ensures Padded(s, r, LeadingSpaces(s))
  {
    var a := LeadingSpaces(s);
    if a == |s| then
      assert Padded(s, [], a) by { assert s[a..a] == [] && s[..a] == s && s[a..] == []; }
      []
    else
      var z := TrailingSpaces(s);
      assert |s| - z > a;
      var r := s[a..|s| - z];
      assert r[|r| - 1] == s[|s| - 1 - z];
      assert Padded(s, r, a) by { assert a + |r| == |s| - z; }
      r
  }

  /** `s` is `r` with whitespace-only text before (of length `i`) and after it. */
  ghost predicate Padded(s: string, r: string, i: int)
  {
    && 0 <= i && i + |r| <= |s|
    && s[i..i + |r|] == r
    && AllSpace(s[..i])
    && AllSpace(s[i + |r|..])
  }

  lemma AllSpaceConcat(p: string, q: string)
    requires AllSpace(p) && AllSpace(q)
    ensures AllSpace(p + q)
  {
    forall k | 0 <= k < |p + q|
      ensures IsSpace((p + q)[k])
    {
      if k < |p| { assert (p + q)[k] == p[k]; } else { assert (p + q)[k] == q[k - |p|]; }
    }
  }

  lemma {:induction false} LeadingSpacesOf(p: string, u: string)
    requires AllSpace(p)
    requires u != [] ==> !IsSpace(u[0])
    ensures LeadingSpaces(p + u) == |p|
    decreases |p|
  {
    if p != [] {
      assert (p + u)[1..] == p[1..] + u;
      LeadingSpacesOf(p[1..], u);
    } else {
      assert p + u == u;
    }
  }

  lemma {:induction false} TrailingSpacesOf(u: string, q: string)
    requires AllSpace(q)
    requires u != [] ==> !IsSpace(u[|u| - 1])
    ensures TrailingSpaces(u + q) == |q|
    decreases |q|
  {
    if q != [] {
      var s := u + q;
      assert s[..|s| - 1] == u + q[..|q| - 1];
      TrailingSpacesOf(u, q[..|q| - 1]);
    } else {
      assert u + q == u;
    }
  }

  /**
   Stripping undoes padding: surrounding a text that neither starts nor ends
   with whitespace by whitespace on both sides and stripping gives it back.
   */
  lemma StripPadded(p: string, t: string, q: string)
    requires AllSpace(p) && AllSpace(q)
    requires t != [] ==> !IsSpace(t[0]) && !IsSpace(t[|t| - 1])
    ensures Strip(p + t + q) == t
  {
    var s := p + t + q;
    if t == [] {
      AllSpaceConcat(p, q);
      assert s == p + q;
    } else {
      assert s == p + (t + q);
      LeadingSpacesOf(p, t + q);
      TrailingSpacesOf(p + t, q);
      assert s[|p|..|s| - |q|] == t;
    }
  }

  /** Stripping twice is the same as stripping once. */
  lemma StripIdempotent(s: string)
    ensures Strip(Strip(s)) == Strip(s)
  {
    var r := Strip(s);
    StripPadded([], r, []);
    assert [] + r + [] == r;
  }

  /**
   The case mapping of `str.lower()` on the letters this catalogue uses:
   ASCII A-Z and the Cyrillic capitals U+0400..U+042F.
   */
  function LowerChar(c: char): char
  {
    if 'A' <= c <= 'Z' then (c as int + 32) as char
    else if '\U{0410}' <= c <= '\U{042F}' then (c as int + 32) as char
    else if '\U{0400}' <= c <= '\U{040F}' then (c as int + 80) as char
    else c
  }

  /** The capitals `LowerChar` maps. */
  predicate IsUpper(c: char)
  {
    ('A' <= c <= 'Z') || ('\U{0400}' <= c <= '\U{042F}')
  }

  /**
   `str.lower()`, applied character by character: no capital is left, and
   every other character stays as it was.
   */
  function Lower(s: string): (r: string)
    ensures |r| == |s|
    ensures forall k :: 0 <= k < |s| ==> !IsUpper(r[k])
    ensures forall k :: 0 <= k < |s| && !IsUpper(s[k]) ==> r[k] == s[k]
    ensures forall k :: 0 <= k < |s| && IsUpper(s[k]) ==> r[k] != s[k]
  {
    seq(|s|, k requires 0 <= k < |s| => LowerChar(s[k]))
  }

  /** Lower-casing a lower-cased string changes nothing. */
  lemma LowerIdempotent(s: string)
    ensures Lower(Lower(s)) == Lower(s)
  {
    forall k | 0 <= k < |s|
      ensures Lower(Lower(s))[k] == Lower(s)[k]
    {
      var c := s[k];
      assert Lower(s)[k] == LowerChar(c);
    }
  }

  /** Python's `needle in hay` for two strings. */
  predicate Contains(hay: string, needle: string)
    decreases |hay|
  {
    if |needle| > |hay| then false
    else if hay[..|needle|] == needle then true
    else Contains(hay[1..], needle)
  }

  /** `needle` occurs in `hay` starting at index `i`. */
  ghost predicate OccursAt(hay: string, needle: string, i: int)
  {
    0 <= i && i + |needle| <= |hay| && hay[i..i + |needle|] == needle
  }

  /** `Contains` holds exactly when the needle occurs at some position. */
  lemma {:induction false} ContainsIff(hay: string, needle: string)
    ensures Contains(hay, needle) <==> exists i :: OccursAt(hay, needle, i)
    decreases |hay|
  {
    if |needle| > |hay| {
    } else if hay[..|needle|] == needle {
      assert OccursAt(hay, needle, 0);
    } else {
      var tail := hay[1..];
      ContainsIff(tail, needle);
      if Contains(tail, needle) {
        var j :| OccursAt(tail, needle, j);
        assert hay[j + 1..j + 1 + |needle|] == tail[j..j + |needle|];
        assert OccursAt(hay, needle, j + 1);
      }
      if i :| OccursAt(hay, needle, i) {
        assert i != 0;
        assert tail[i - 1..i - 1 + |needle|] == hay[i..i + |needle|];
        assert OccursAt(tail, needle, i - 1);
      }
    }
  }
}
