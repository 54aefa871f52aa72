/**
 * The JavaScript string primitives the marker processors rely on, over `seq<char>`:
 * substring search (`indexOf`, `includes`), `trim` and `toUpperCase`.
 */
module Strings {
  import opened Wrappers

  /** `pat` occurs in `s` starting at index `i`. */
  predicate At(s: string, pat: string, i: int)
  {
    0 <= i && i + |pat| <= |s| && s[i..i + |pat|] == pat
  }

  /** `s.includes(pat)`. */
  predicate Contains(s: string, pat: string)
  {
    exists i :: 0 <= i <= |s| - |pat| && At(s, pat, i)
  }

  /** `s.indexOf(pat, from)`, with -1 rendered as None (see IndexOfFirst). */
  function IndexOf(s: string, pat: string, from: nat): (r: Option<nat>)
    ensures r.Some? ==> from <= r.value && r.value + |pat| <= |s|
    decreases |s| - from
  {
    if from + |pat| > |s| then None
    else if At(s, pat, from) then Some(from)
    else IndexOf(s, pat, from + 1)
  }

  /** `indexOf` finds the first occurrence at or after `from`, and None means there is none. */
  lemma {:induction false} IndexOfFirst(s: string, pat: string, from: nat)
    ensures IndexOf(s, pat, from).Some? ==> At(s, pat, IndexOf(s, pat, from).value)
    ensures IndexOf(s, pat, from).Some? ==> forall j :: from <= j < IndexOf(s, pat, from).value ==> !At(s, pat, j)
    ensures IndexOf(s, pat, from).None? ==> forall j :: from <= j ==> !At(s, pat, j)
    decreases |s| - from
  {
    if from + |pat| <= |s| && !At(s, pat, from) {
      IndexOfFirst(s, pat, from + 1);
    }
  }

  /** Conversely, an occurrence with none before it from `from` on is what `indexOf` finds. */
  lemma IndexOfIs(s: string, pat: string, from: nat, p: nat)
    requires from <= p && At(s, pat, p) && forall j :: from <= j < p ==> !At(s, pat, j)
    ensures IndexOf(s, pat, from) == Some(p)
  {
    IndexOfFirst(s, pat, from);
  }

  /** `includes` and `indexOf` agree. */
  lemma ContainsIffIndexOf(s: string, pat: string)
    ensures Contains(s, pat) <==> IndexOf(s, pat, 0).Some?
  {
    IndexOfFirst(s, pat, 0);
    if IndexOf(s, pat, 0).Some? {
      assert At(s, pat, IndexOf(s, pat, 0).value);
    }
  }

  /** An occurrence of `a + b` is an occurrence of `a` followed by one of `b`. */
  lemma AtSplit(s: string, a: string, b: string, j: int)
    ensures At(s, a + b, j) ==> At(s, a, j) && At(s, b, j + |a|)
  {
    if At(s, a + b, j) {
      assert s[j..j + |a|] == s[j..j + |a + b|][..|a|];
      assert s[j + |a|..j + |a| + |b|] == s[j..j + |a + b|][|a|..];
    }
  }

  /** The first `pat` is also the first `pat + suffix` when `suffix` follows it. */
  lemma IndexOfExtend(s: string, pat: string, suffix: string, from: nat, p: nat)
    requires IndexOf(s, pat, from) == Some(p) && At(s, pat + suffix, p)
    ensures IndexOf(s, pat + suffix, from) == Some(p)
  {
    IndexOfFirst(s, pat, from);
    forall j | from <= j < p
      ensures !At(s, pat + suffix, j)
    {
      AtSplit(s, pat, suffix, j);
    }
    IndexOfIs(s, pat + suffix, from, p);
  }

  /** The first `pat` from `from` on is, one earlier, the first `lead + pat` when the one-character `lead` precedes it. */
  lemma IndexOfPrepend(s: string, lead: string, pat: string, from: nat, p: nat)
    requires |lead| == 1
    requires from <= p && IndexOf(s, pat, from) == Some(p + 1) && At(s, lead + pat, p)
    ensures IndexOf(s, lead + pat, from) == Some(p)
  {
    IndexOfFirst(s, pat, from);
    forall j | from <= j < p
      ensures !At(s, lead + pat, j)
    {
      AtSplit(s, lead, pat, j);
    }
    IndexOfIs(s, lead + pat, from, p);
  }

  /** A pattern longer than the text does not occur in it. */
  lemma ShortAvoids(s: string, pat: string)
    requires |s| < |pat|
    ensures !Contains(s, pat)
  {
  }

  /** An occurrence inside a prefix of `s` is an occurrence in `s`, and conversely when it fits. */
  lemma AtPrefix(s: string, k: nat, pat: string, i: int)
    requires k <= |s|
    ensures At(s[..k], pat, i) <==> At(s, pat, i) && i + |pat| <= k
  {
    if 0 <= i && i + |pat| <= k {
      assert s[..k][i..i + |pat|] == s[i..i + |pat|];
    }
  }

  /** Occurrences in `x + y` that lie inside `x` or inside `y`. */
  lemma AtConcat(x: string, y: string, pat: string, i: int)
    ensures i + |pat| <= |x| ==> (At(x + y, pat, i) <==> At(x, pat, i))
    ensures i >= |x| ==> (At(x + y, pat, i) <==> At(y, pat, i - |x|))
  {
    if 0 <= i && i + |pat| <= |x| {
      assert (x + y)[i..i + |pat|] == x[i..i + |pat|];
    }
    if i >= |x| && i + |pat| <= |x| + |y| {
      assert (x + y)[i..i + |pat|] == y[i - |x|..i - |x| + |pat|];
    }
  }

  /** An occurrence of `pat` at `i` fixes every character it covers. */
  lemma AtCovers(s: string, pat: string, i: int, b: int)
    ensures At(s, pat, i) && i <= b < i + |pat| ==> s[b] == pat[b - i]
  {
    if At(s, pat, i) && i <= b < i + |pat| {
      assert s[i..i + |pat|][b - i] == s[b];
    }
  }

  /**
   * The characters `String.prototype.trim` removes: ECMAScript WhiteSpace (TAB, VT, FF,
   * ZWNBSP and the Unicode space separators) and LineTerminator (LF, CR, LS, PS).
   */
  predicate IsWhitespace(c: char)
  {
    || c == '\t' || c == '\U{000B}' || c == '\U{000C}' || c == '\U{FEFF}'
    || c == ' ' || c == '\U{00A0}' || c == '\U{1680}' || ('\U{2000}' <= c <= '\U{200A}')
    || c == '\U{202F}' || c == '\U{205F}' || c == '\U{3000}'
    || c == '\n' || c == '\r' || c == '\U{2028}' || c == '\U{2029}'
  }

  /** `s[lo..hi]` is whitespace only. */
  predicate WhitespaceBetween(s: string, lo: int, hi: int)
  {
    forall j :: lo <= j < hi && 0 <= j < |s| ==> IsWhitespace(s[j])
  }

  /** Neither the first nor the last character is whitespace. */
  predicate Trimmed(s: string)
  {
    s == [] || (!IsWhitespace(s[0]) && !IsWhitespace(s[|s| - 1]))
  }

  /** Drops the leading whitespace. */
  function TrimStart(s: string): (r: string)
    ensures |r| <= |s|
    ensures r == s[|s| - |r|..]
    ensures WhitespaceBetween(s, 0, |s| - |r|)
    ensures r == [] || !IsWhitespace(r[0])
  {
    if s != [] && IsWhitespace(s[0]) then TrimStart(s[1..]) else s
  }

  /** Drops the trailing whitespace. */
  function TrimEnd(s: string): (r: string)
    ensures |r| <= |s|
    ensures r == s[..|r|]
    ensures WhitespaceBetween(s, |r|, |s|)
    ensures r == [] || !IsWhitespace(r[|r| - 1])
  {
    if s != [] && IsWhitespace(s[|s| - 1]) then TrimEnd(s[..|s| - 1]) else s
  }

  /** `s.trim()`: `s` without its leading and trailing whitespace (see TrimInfix). */
  function Trim(s: string): (r: string)
    ensures |r| <= |s| && Trimmed(r)
    ensures Trimmed(s) ==> r == s
  {
    var t := TrimStart(s);
    var r := TrimEnd(t);
    assert r != [] ==> r[0] == t[0];
    assert Trimmed(s) ==> t == s;
    r
  }

  /** Where the text Trim keeps starts in `s`. */
  function TrimOffset(s: string): nat
  {
    |s| - |TrimStart(s)|
  }

  /** Trim keeps the infix of `s` between a whitespace prefix and a whitespace suffix. */
  lemma TrimInfix(s: string)
    ensures TrimOffset(s) + |Trim(s)| <= |s| && s[TrimOffset(s)..TrimOffset(s) + |Trim(s)|] == Trim(s)
    ensures WhitespaceBetween(s, 0, TrimOffset(s)) && WhitespaceBetween(s, TrimOffset(s) + |Trim(s)|, |s|)
  {
    TrimKeeps(s);
    TrimDrops(s);
  }

  lemma TrimKeeps(s: string)
    ensures TrimOffset(s) + |Trim(s)| <= |s| && s[TrimOffset(s)..TrimOffset(s) + |Trim(s)|] == Trim(s)
  {
    var t := TrimStart(s);
    var r := TrimEnd(t);
    assert Trim(s) == r;
    var i := |s| - |t|;
    assert s[i..i + |r|] == t[..|r|];
  }

  lemma TrimDrops(s: string)
    ensures TrimOffset(s) + |Trim(s)| <= |s|
    ensures WhitespaceBetween(s, 0, TrimOffset(s)) && WhitespaceBetween(s, TrimOffset(s) + |Trim(s)|, |s|)
  {
    var t := TrimStart(s);
    var r := TrimEnd(t);
    assert Trim(s) == r;
    var i := |s| - |t|;
    forall j | i + |r| <= j < |s|
      ensures IsWhitespace(s[j])
    {
      assert s[j] == t[j - i];
    }
  }

  /**
   * `String.prototype.toUpperCase` on one character, where the result is a single character
   * that can matter here: ASCII letters, dotless i and long s (the only other characters
   * whose upper case is one ASCII letter). Every other character is kept as it is.
   */
  function UpperChar(c: char): char
  {
    if 'a' <= c <= 'z' then (c as int - 32) as char
    else if c == '\U{0131}' then 'I'
    else if c == '\U{017F}' then 'S'
    else c
  }

  /** `s.toUpperCase()` character by character (see UpperChar). */
  function ToUpper(s: string): (r: string)
    ensures |r| == |s|
    ensures forall i :: 0 <= i < |s| ==> r[i] == UpperChar(s[i])
  {
    if s == [] then [] else [UpperChar(s[0])] + ToUpper(s[1..])
  }

  /** Upper-casing twice is upper-casing once. */
  lemma {:induction false} ToUpperIdempotent(s: string)
    ensures ToUpper(ToUpper(s)) == ToUpper(s)
  {
    var u := ToUpper(s);
    assert forall i :: 0 <= i < |u| ==> UpperChar(u[i]) == u[i];
  }
}
