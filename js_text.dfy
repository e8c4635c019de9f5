/** The JavaScript string operations the picker relies on: `trim`, the
    truthiness of a trimmed string, and `includes`. */
module JsText {
  import opened Wrappers

  /** White space and line terminators as `String.prototype.trim` strips them:
      TAB, VT, FF, SPACE, NBSP, ZWNBSP, the space separators of category Zs,
      LF, CR, LINE SEPARATOR and PARAGRAPH SEPARATOR. */
  predicate IsJsSpace(c: char) {
    || c == '\t' || c == '\U{000B}' || c == '\U{000C}' || c == ' ' || c == '\U{00A0}' || c == '\U{FEFF}'
    || c == '\U{1680}' || ('\U{2000}' <= c <= '\U{200A}') || c == '\U{202F}' || c == '\U{205F}' || c == '\U{3000}'
    || c == '\n' || c == '\r' || c == '\U{2028}' || c == '\U{2029}'
  }

  predicate AllSpace(s: string) {
    forall i :: 0 <= i < |s| ==> IsJsSpace(s[i])
  }

  /** `trimStart`: the longest suffix of s that does not start with white space. */
  function TrimStart(s: string): (r: string)
    ensures |r| <= |s| && r == s[|s| - |r|..]
    ensures AllSpace(s[..|s| - |r|])
    ensures r == [] || !IsJsSpace(r[0])
    ensures r == [] <==> AllSpace(s)
  {
    if s != [] && IsJsSpace(s[0]) then
      var r := TrimStart(s[1..]);
      assert s[..|s| - |r|] == [s[0]] + s[1..][..|s[1..]| - |r|];
      r
    else s
  }

  /** `trimEnd`: the longest prefix of s that does not end with white space. */
  function TrimEnd(s: string): (r: string)
    ensures |r| <= |s| && r == s[..|r|]
    ensures AllSpace(s[|r|..])
    ensures r == [] || !IsJsSpace(r[|r| - 1])
    ensures r == [] <==> AllSpace(s)
  {
    if s != [] && IsJsSpace(s[|s| - 1]) then
      var r := TrimEnd(s[..|s| - 1]);
      assert s[|r|..] == s[..|s| - 1][|r|..] + [s[|s| - 1]];
      r
    else s
  }

  /** `trim`: white space removed from both ends. Nothing is left exactly
      when s is empty or all white space, so a trimmed string is falsy exactly then. */
  function Trim(s: string): (r: string)
    ensures |r| <= |s|
    ensures r == [] <==> AllSpace(s)
  {
    var t := TrimStart(s);
    assert AllSpace(t) <==> t == [] by {
      if t != [] {
        assert !IsJsSpace(t[0]);
      }
    }
    TrimEnd(t)
  }

  /** Trim keeps a contiguous middle part of s, with only white space cut off
      on either side, and neither end of the result is white space. */
  lemma TrimSpec(s: string)
    ensures exists i, j :: 0 <= i <= j <= |s| && Trim(s) == s[i..j]
                           && AllSpace(s[..i]) && AllSpace(s[j..])
    ensures Trim(s) == [] || (!IsJsSpace(Trim(s)[0]) && !IsJsSpace(Trim(s)[|Trim(s)| - 1]))
  {
    var t := TrimStart(s);
    var i := |s| - |t|;
    var r := TrimEnd(t);
    var j := i + |r|;
    assert r == s[i..j];
    assert s[j..] == t[|r|..];
    if r != [] {
      assert r[0] == t[0];
    }
  }

  /** Trimming twice changes nothing more. */
  lemma TrimIdempotent(s: string)
    ensures Trim(Trim(s)) == Trim(s)
  {
    TrimSpec(s);
    var t := Trim(s);
    if t != [] {
      assert TrimStart(t) == t;
      assert TrimEnd(t) == t;
    }
  }

  /** A string is falsy after trimming exactly when it is empty or all white space. */
  predicate IsBlank(s: string) {
    Trim(s) == []
  }

  /** needle occurs in hay starting at position i. */
  predicate OccursAt(hay: string, needle: string, i: nat) {
    i + |needle| <= |hay| && hay[i..i + |needle|] == needle
  }

  /** `hay.includes(needle)`: needle occurs in hay at some position. */
  predicate Includes(hay: string, needle: string) {
    exists i: nat :: i <= |hay| && OccursAt(hay, needle, i)
  }

  /** What occurs in a part of hay occurs in hay. */
  lemma IncludesTransitive(hay: string, part: string, needle: string)
    requires Includes(hay, part) && Includes(part, needle)
    ensures Includes(hay, needle)
  {
    var i: nat :| i <= |hay| && OccursAt(hay, part, i);
    var j: nat :| j <= |part| && OccursAt(part, needle, j);
    forall k | 0 <= k < |needle|
      ensures hay[i + j + k] == needle[k]
    {
      assert hay[i..i + |part|][j + k] == part[j + k];
      assert part[j..j + |needle|][k] == needle[k];
    }
    assert hay[i + j..i + j + |needle|] == needle;
    assert i + j <= |hay| && OccursAt(hay, needle, i + j);
  }

  /** What follows the prefix `p` of `s`, if `s` starts with it (`startsWith` and `slice`). */
  function StripPrefix(p: string, s: string): Option<string> {
    if |p| <= |s| && s[..|p|] == p then Some(s[|p|..]) else None
  }

  lemma StripPrefixConcat(p: string, rest: string)
    ensures StripPrefix(p, p + rest) == Some(rest)
  {
    assert (p + rest)[..|p|] == p;
    assert (p + rest)[|p|..] == rest;
  }

  /** The part of s before the first occurrence of c (all of s when c does not occur). */
  function TakeUntil(s: string, c: char): (r: string)
    ensures |r| <= |s| && r == s[..|r|] && c !in r
  {
    if s == [] || s[0] == c then []
    else
      var r := TakeUntil(s[1..], c);
      assert [s[0]] + r == s[..|r| + 1];
      [s[0]] + r
  }

  /** Text without c, followed by c, is cut back to that text. */
  lemma {:induction false} TakeUntilConcat(a: string, c: char, b: string)
    requires c !in a
    ensures TakeUntil(a + [c] + b, c) == a
  {
    var s := a + [c] + b;
    if a != [] {
      assert s[0] == a[0] && s[1..] == a[1..] + [c] + b;
      TakeUntilConcat(a[1..], c, b);
      assert a == [a[0]] + a[1..];
    }
  }
}
