/** Python's `str.strip()` with no argument. */
module Text {

  /** The characters `str.isspace()` accepts, which are the ones `strip()`
      removes: the controls \t \n \v \f \r, the separators \x1c to \x1f,
      next line \x85, and the Unicode space separators, line separator and
      paragraph separator. */
  predicate IsSpace(c: char)
  {
    || c == ' ' || '\t' <= c <= '\r' || '\U{1C}' <= c <= '\U{1F}'
    || c == '\U{85}' || c == '\U{A0}' || c == '\U{1680}' || '\U{2000}' <= c <= '\U{200A}'
    || c == '\U{2028}' || c == '\U{2029}' || c == '\U{202F}' || c == '\U{205F}' || c == '\U{3000}'
  }

  predicate AllSpace(s: string)
  {
    forall i :: 0 <= i < |s| ==> IsSpace(s[i])
  }

  /** `s[a..b]` is what stripping `s` keeps: everything before `a` and from
      `b` on is whitespace, and a non-empty remainder starts and ends with a
      character that is not. */
  ghost predicate StripsTo(s: string, a: int, b: int)
  {
    && 0 <= a <= b <= |s|
    && (forall i :: 0 <= i < a ==> IsSpace(s[i]))
    && (forall i :: b <= i < |s| ==> IsSpace(s[i]))
    && (a < b ==> !IsSpace(s[a]) && !IsSpace(s[b - 1]))
  }

  /** `str.lstrip()`: drops the whitespace run at the front. */
  function TrimStart(s: string): string
  {
    if |s| > 0 && IsSpace(s[0]) then TrimStart(s[1..]) else s
  }

  /** `str.rstrip()`: drops the whitespace run at the back. */
  function TrimEnd(s: string): string
  {
    if |s| > 0 && IsSpace(s[|s| - 1]) then TrimEnd(s[..|s| - 1]) else s
  }

  /** `str.strip()`. */
  function Strip(s: string): string
  {
    TrimEnd(TrimStart(s))
  }

  /** `TrimStart` keeps a suffix that starts after whitespace only and does
      not itself start with whitespace. */
  lemma {:induction false} TrimStartBounds(s: string) returns (a: int)
    ensures 0 <= a <= |s| && TrimStart(s) == s[a..]
    ensures forall i :: 0 <= i < a ==> IsSpace(s[i])
    ensures a < |s| ==> !IsSpace(s[a])
  {
    if |s| > 0 && IsSpace(s[0]) {
      var a' := TrimStartBounds(s[1..]);
      a := a' + 1;
      assert s[1..][a'..] == s[a..];
      assert forall i :: 1 <= i < a ==> s[i] == s[1..][i - 1];
    } else {
      a := 0;
    }
  }

  /** `TrimEnd` keeps a prefix that ends before whitespace only and does not
      itself end with whitespace. */
  lemma {:induction false} TrimEndBounds(s: string) returns (b: int)
    ensures 0 <= b <= |s| && TrimEnd(s) == s[..b]
    ensures forall i :: b <= i < |s| ==> IsSpace(s[i])
    ensures 0 < b ==> !IsSpace(s[b - 1])
  {
    if |s| > 0 && IsSpace(s[|s| - 1]) {
      var p := s[..|s| - 1];
      b := TrimEndBounds(p);
      assert p[..b] == s[..b];
      assert forall i :: b <= i < |p| ==> s[i] == p[i];
    } else {
      b := |s|;
    }
  }

  /** `Strip` cuts `s` at bounds that satisfy `StripsTo`. */
  lemma StripBounds(s: string) returns (a: int, b: int)
    ensures StripsTo(s, a, b) && Strip(s) == s[a..b]
  {
    a := TrimStartBounds(s);
    var t := s[a..];
    var b' := TrimEndBounds(t);
    b := a + b';
    assert t[..b'] == s[a..b];
    assert forall i :: b <= i < |s| ==> s[i] == t[i - a];
    assert a < b ==> s[b - 1] == t[b' - 1];
  }

  /** Whatever bounds satisfy `StripsTo`, they cut out the same text, so
      `StripsTo` alone determines the result of `Strip`. */
  lemma StripUnique(s: string, a: int, b: int, a': int, b': int)
    requires StripsTo(s, a, b) && StripsTo(s, a', b')
    ensures s[a..b] == s[a'..b']
  {
  }

  lemma StripIsStripsTo(s: string, a: int, b: int)
    requires StripsTo(s, a, b)
    ensures Strip(s) == s[a..b]
  {
    var a', b' := StripBounds(s);
    StripUnique(s, a, b, a', b');
  }

  /** Stripping twice is stripping once. */
  lemma StripIdempotent(s: string)
    ensures Strip(Strip(s)) == Strip(s)
  {
    var r := Strip(s);
    var a, b := StripBounds(s);
    StripIsStripsTo(r, 0, |r|);
  }

  /** The stripped text is empty exactly when `s` is all whitespace. */
  lemma StripEmptyIffAllSpace(s: string)
    ensures Strip(s) == [] <==> AllSpace(s)
  {
    var a, b := StripBounds(s);
    if a == b {
      assert forall i :: 0 <= i < |s| ==> IsSpace(s[i]) by {
        forall i | 0 <= i < |s| ensures IsSpace(s[i]) {
          if i < a {} else {}
        }
      }
    }
  }

  /** Whitespace added in front of a text is stripped along with the text's own. */
  lemma StripIgnoresLeading(w: string, s: string)
    requires AllSpace(w)
    ensures Strip(w + s) == Strip(s)
  {
    var a, b := StripBounds(s);
    var p := w + s;
    var n := |w|;
    assert forall i :: 0 <= i < n + a ==> IsSpace(p[i]) by {
      assert forall i :: 0 <= i < n ==> p[i] == w[i];
      assert forall i :: n <= i < n + a ==> p[i] == s[i - n];
    }
    assert forall i :: n + b <= i < |p| ==> p[i] == s[i - n];
    assert a < b ==> p[n + a] == s[a] && p[n + b - 1] == s[b - 1];
    StripIsStripsTo(p, n + a, n + b);
    assert p[n + a..n + b] == s[a..b];
  }

  /** Whitespace added after a text is stripped along with the text's own. */
  lemma StripIgnoresTrailing(s: string, w: string)
    requires AllSpace(w)
    ensures Strip(s + w) == Strip(s)
  {
    var a, b := StripBounds(s);
    var p := s + w;
    assert forall i :: 0 <= i < a ==> p[i] == s[i];
    assert forall i :: b <= i < |p| ==> IsSpace(p[i]) by {
      assert forall i :: b <= i < |s| ==> p[i] == s[i];
      assert forall i :: |s| <= i < |p| ==> p[i] == w[i - |s|];
    }
    assert a < b ==> p[a] == s[a] && p[b - 1] == s[b - 1];
    StripIsStripsTo(p, a, b);
    assert p[a..b] == s[a..b];
  }

  /** Whitespace added around a text is stripped along with the text's own. */
  lemma StripIgnoresPadding(before: string, s: string, after: string)
    requires AllSpace(before) && AllSpace(after)
    ensures Strip(before + s + after) == Strip(s)
  {
    StripIgnoresTrailing(before + s, after);
    StripIgnoresLeading(before, s);
  }

  /** Stripping only removes characters: a character absent from `s` is
      absent from the result. */
  lemma StripKeepsOut(s: string, c: char)
    requires c !in s
    ensures c !in Strip(s)
  {
    var a, b := StripBounds(s);
    assert forall i :: 0 <= i < b - a ==> Strip(s)[i] == s[a + i];
  }
}
