/**
 * What `template.replace(/OPEN[\s\S]*?CLOSE/, replacement)` does in JavaScript when OPEN and
 * CLOSE are literal text: find the leftmost match of the lazy pattern, then substitute the
 * replacement string after expanding its `$` patterns (ECMAScript GetSubstitution).
 */
module RegexReplace {
  import opened Wrappers
  import opened Strings

  /** A match of `open[\s\S]*?close`: `open` starts at `start`, `close` starts at `close`. */
  datatype Match = Match(start: nat, close: nat)

  /** The pattern `open[\s\S]*?close` matches exactly t[p .. q + |close|]. */
  ghost predicate IsPairAt(t: string, open: string, close: string, p: int, q: int)
  {
    At(t, open, p) && p + |open| <= q && At(t, close, q)
  }

  /**
   * `RegExp.prototype.exec` for the lazy pattern `open[\s\S]*?close` (`[\s\S]` matches any
   * character): the leftmost start, and for it the nearest close.
   */
  function FindPair(t: string, open: string, close: string): (r: Option<Match>)
    ensures r.Some? ==> r.value.start + |open| <= r.value.close && r.value.close + |close| <= |t|
  {
    match IndexOf(t, open, 0)
    case None => None
    case Some(p) =>
      match IndexOf(t, close, p + |open|)
      case None => None
      case Some(q) => Some(Match(p, q))
  }

  /** The match is the leftmost pair, and for its start the nearest close; None means there is no pair. */
  lemma FindPairLeftmost(t: string, open: string, close: string)
    ensures FindPair(t, open, close).Some? ==>
      IsPairAt(t, open, close, FindPair(t, open, close).value.start, FindPair(t, open, close).value.close)
    ensures FindPair(t, open, close).Some? ==> forall p, q :: IsPairAt(t, open, close, p, q) ==>
      FindPair(t, open, close).value.start < p
      || (FindPair(t, open, close).value.start == p && FindPair(t, open, close).value.close <= q)
    ensures FindPair(t, open, close).None? ==> forall p, q :: !IsPairAt(t, open, close, p, q)
  {
    IndexOfFirst(t, open, 0);
    match IndexOf(t, open, 0)
    case None =>
    case Some(p) =>
      IndexOfFirst(t, close, p + |open|);
  }

  /** The match is made of the first `open` and the first `close` after it. */
  lemma FindPairOf(t: string, open: string, close: string, p: nat, q: nat)
    requires IndexOf(t, open, 0) == Some(p) && IndexOf(t, close, p + |open|) == Some(q)
    ensures FindPair(t, open, close) == Some(Match(p, q))
  {
  }

  /** The first `open` of `t` is where the match starts; before it there is no `open` at all. */
  lemma FindPairFirstOpen(t: string, open: string, close: string)
    requires open != [] && FindPair(t, open, close).Some?
    ensures !Contains(t[..FindPair(t, open, close).value.start], open)
  {
    var p := FindPair(t, open, close).value.start;
    assert IndexOf(t, open, 0) == Some(p);
    IndexOfFirst(t, open, 0);
    forall i | 0 <= i <= p - |open|
      ensures !At(t[..p], open, i)
    {
      assert i < p && !At(t, open, i);
      AtPrefix(t, p, open, i);
    }
  }

  /**
   * The splice the marker processors are meant to perform: the text strictly between the
   * first `open` and the nearest `close` after it becomes `inner`; both markers stay.
   */
  function Splice(t: string, open: string, close: string, inner: string): string
  {
    match FindPair(t, open, close)
    case None => t
    case Some(m) => t[..m.start] + open + inner + close + t[m.close + |close|..]
  }

  /** The splice at a known match. */
  lemma SpliceAt(t: string, open: string, close: string, inner: string, m: Match)
    requires FindPair(t, open, close) == Some(m)
    ensures Splice(t, open, close, inner) == t[..m.start] + open + inner + close + t[m.close + |close|..]
  {
  }

  /** The splice of a newline-framed `c` at a known match, nested to the right. */
  lemma SpliceNested(t: string, open: string, close: string, c: string, m: Match)
    requires FindPair(t, open, close) == Some(m)
    ensures Splice(t, open, close, "\n" + c + "\n")
      == t[..m.start] + (open + ("\n" + (c + ("\n" + (close + t[m.close + |close|..])))))
  {
    SpliceAt(t, open, close, "\n" + c + "\n", m);
    Regroup(t[..m.start], open, "\n", c, close, t[m.close + |close|..]);
  }

  /** A splice keeps everything up to the end of `open` and from `close` on, byte for byte. */
  lemma SpliceFrame(t: string, open: string, close: string, inner: string)
    ensures FindPair(t, open, close).None? ==> Splice(t, open, close, inner) == t
    ensures FindPair(t, open, close).Some? ==>
      var m := FindPair(t, open, close).value;
      Splice(t, open, close, inner) == t[..m.start + |open|] + inner + t[m.close..]
  {
    if FindPair(t, open, close).Some? {
      var m := FindPair(t, open, close).value;
      FindPairLeftmost(t, open, close);
      assert t[m.start..m.start + |open|] == open;
      assert t[m.close..m.close + |close|] == close;
      assert t[..m.start + |open|] == t[..m.start] + open;
      assert t[m.close..] == close + t[m.close + |close|..];
    }
  }

  /** The values GetSubstitution may insert: `$&`, `` $` ``, `$'` and the capture groups. */
  datatype MatchInfo = MatchInfo(matched: string, before: string, after: string, groups: seq<string>)

  predicate IsDigit(c: char)
  {
    '0' <= c <= '9'
  }

  function DigitValue(c: char): nat
    requires IsDigit(c)
  {
    c as int - '0' as int
  }

  /**
   * The number of digits a `$n` reference uses: two when two digits follow and name an
   * existing group (or `$00`-style zero), one otherwise (ECMAScript GetSubstitution).
   */
  function RefDigits(r: string, groupCount: nat): (n: nat)
    requires |r| >= 2 && r[0] == '$' && IsDigit(r[1])
    ensures n == 1 || (n == 2 && |r| >= 3 && IsDigit(r[2]))
  {
    if |r| >= 3 && IsDigit(r[2]) && 10 * DigitValue(r[1]) + DigitValue(r[2]) <= groupCount then 2
    else 1
  }

  function RefIndex(digits: string): nat
    requires 1 <= |digits| <= 2 && forall i :: 0 <= i < |digits| ==> IsDigit(digits[i])
  {
    if |digits| == 1 then DigitValue(digits[0]) else 10 * DigitValue(digits[0]) + DigitValue(digits[1])
  }

  /**
   * One step of GetSubstitution at the start of a non-empty replacement string: what it
   * emits and how many characters it consumes. `$$`, `$&`, `` $` `` and `$'` are expanded;
   * `$n` / `$nn` become the group when it exists; a `$` before any other character
   * (including `<`, since these patterns have no named groups) and a final `$` stay literal.
   */
  function Token(r: string, info: MatchInfo): (res: (string, nat))
    requires |r| > 0
    ensures 1 <= res.1 <= |r|
  {
    if r[0] != '$' || |r| == 1 then ([r[0]], 1)
    else if r[1] == '$' then ("$", 2)
    else if r[1] == '&' then (info.matched, 2)
    else if r[1] == '`' then (info.before, 2)
    else if r[1] == '\'' then (info.after, 2)
    else if IsDigit(r[1]) then
      var n := RefDigits(r, |info.groups|);
      var index := RefIndex(r[1..1 + n]);
      (if 1 <= index <= |info.groups| then info.groups[index - 1] else r[..1 + n], 1 + n)
    else ("$", 1)
  }

  /** GetSubstitution: the replacement string with its `$` patterns expanded, left to right. */
  function Expand(r: string, info: MatchInfo): string
    decreases |r|
  {
    if |r| == 0 then ""
    else
      var tok := Token(r, info);
      tok.0 + Expand(r[tok.1..], info)
  }

  /** Without a `$`, expansion is the identity. */
  lemma {:induction false} ExpandNoDollar(r: string, info: MatchInfo)
    requires '$' !in r
    ensures Expand(r, info) == r
  {
    if r != [] {
      assert r[0] in r;
      ExpandNoDollar(r[1..], info);
      assert r == [r[0]] + r[1..];
    }
  }

  /** A `$`-free prefix is copied as it is. */
  lemma {:induction false} ExpandLiteralPrefix(x: string, y: string, info: MatchInfo)
    requires '$' !in x
    ensures Expand(x + y, info) == x + Expand(y, info)
  {
    if x != [] {
      assert x[0] in x;
      assert (x + y)[0] == x[0];
      assert (x + y)[1..] == x[1..] + y;
      ExpandLiteralPrefix(x[1..], y, info);
      assert x == [x[0]] + x[1..];
    } else {
      assert x + y == y;
    }
  }

  /** A token never looks past a following newline. */
  lemma TokenBeforeNewline(x: string, y: string, info: MatchInfo)
    requires |x| > 0 && |y| > 0 && y[0] == '\n'
    ensures Token(x + y, info) == Token(x, info)
  {
    var r := x + y;
    assert r[0] == x[0];
    if |x| >= 2 {
      assert r[1] == x[1];
      assert |x| >= 3 ==> r[2] == x[2];
      assert |x| == 2 ==> r[2] == '\n';
      assert r[..2] == x[..2];
      assert |x| >= 3 ==> r[..3] == x[..3];
    }
  }

  /** Dropping part of `x` from the front of `x + y`. */
  lemma DropConcat(x: string, y: string, n: nat)
    requires n <= |x|
    ensures (x + y)[n..] == x[n..] + y
  {
  }

  /** One step of expansion, for a known first token. */
  lemma ExpandUnfold(r: string, tok: (string, nat), info: MatchInfo)
    requires |r| > 0 && Token(r, info) == tok
    ensures Expand(r, info) == tok.0 + Expand(r[tok.1..], info)
  {
  }

  /** Reassociation, on plain variables. */
  lemma Combine(a: string, e: string, b: string, t: string, c: string, d: string)
    requires a == t + b && b == c + d && e == t + c
    ensures a == e + d
  {
  }

  /** Expansion splits at a newline: no `$` pattern reaches across one. */
  lemma {:induction false} ExpandSplitAtNewline(x: string, y: string, info: MatchInfo)
    requires |y| > 0 && y[0] == '\n'
    ensures Expand(x + y, info) == Expand(x, info) + Expand(y, info)
    decreases |x|
  {
    if x == [] {
      assert x + y == y;
    } else {
      var n := Token(x, info).1;
      ExpandSplitAtNewline(x[n..], y, info);
      ExpandSplitStep(x, y, info);
    }
  }

  /** The inductive step of ExpandSplitAtNewline: past the first token of `x`, the split holds. */
  lemma ExpandSplitStep(x: string, y: string, info: MatchInfo)
    requires |x| > 0 && |y| > 0 && y[0] == '\n'
    requires Expand(x[Token(x, info).1..] + y, info) == Expand(x[Token(x, info).1..], info) + Expand(y, info)
    ensures Expand(x + y, info) == Expand(x, info) + Expand(y, info)
  {
    var tok := Token(x, info);
    var rest := x[tok.1..];
    assert Expand(x + y, info) == tok.0 + Expand(rest + y, info) by {
      TokenBeforeNewline(x, y, info);
      DropConcat(x, y, tok.1);
      ExpandUnfold(x + y, tok, info);
    }
    assert Expand(x, info) == tok.0 + Expand(rest, info) by {
      ExpandUnfold(x, tok, info);
    }
    Combine(Expand(x + y, info), Expand(x, info), Expand(rest + y, info), tok.0, Expand(rest, info), Expand(y, info));
  }

  /** In `b + "\n" + c + "\n" + e` with literal `b` and `e`, only `c` is subject to expansion. */
  lemma ExpandFramed(b: string, c: string, e: string, info: MatchInfo)
    requires '$' !in b && '$' !in e
    ensures Expand(b + "\n" + c + "\n" + e, info) == b + "\n" + Expand(c, info) + "\n" + e
  {
    var tail := "\n" + e;
    assert b + "\n" + c + "\n" + e == (b + "\n") + (c + tail);
    assert Expand((b + "\n") + (c + tail), info) == (b + "\n") + Expand(c + tail, info) by {
      ExpandLiteralPrefix(b + "\n", c + tail, info);
    }
    assert Expand(c + tail, info) == Expand(c, info) + tail by {
      ExpandSplitAtNewline(c, tail, info);
      ExpandNoDollar(tail, info);
    }
  }

  /** `$$` in a replacement stands for one `$`, whatever the match. */
  lemma ExpandDoubleDollar(info: MatchInfo)
    ensures Expand("a$$b", info) == "a$b"
  {
    assert Token("a$$b", info) == ("a", 1);
    assert "a$$b"[1..] == "$$b";
    assert Token("$$b", info) == ("$", 2);
    assert "$$b"[2..] == "b";
    assert Token("b", info) == ("b", 1);
    assert "b"[1..] == [];
  }

  /** The context GetSubstitution sees for a match (`grouped`: the pattern is `(open)([\s\S]*?)(close)`). */
  function Info(t: string, m: Match, open: string, close: string, grouped: bool): MatchInfo
    requires m.start + |open| <= m.close && m.close + |close| <= |t|
  {
    var stop := m.close + |close|;
    MatchInfo(t[m.start..stop], t[..m.start], t[stop..],
              if grouped then [t[m.start..m.start + |open|], t[m.start + |open|..m.close], t[m.close..stop]]
              else [])
  }

  /** `t.replace(pattern, replacement)` for the (non-global) lazy pair pattern. */
  function ReplaceFirst(t: string, open: string, close: string, replacement: string, grouped: bool): string
  {
    match FindPair(t, open, close)
    case None => t
    case Some(m) =>
      t[..m.start] + Expand(replacement, Info(t, m, open, close, grouped)) + t[m.close + |close|..]
  }

  /**
   * Replacing the first `open ... close` span by `open + "\n" + content + "\n" + close` keeps both
   * markers and the text around the span, and expands only `content`; without `$` in `content`
   * this is the literal splice.
   */
  lemma ReplaceFramed(t: string, open: string, close: string, content: string)
    requires '$' !in open && '$' !in close
    ensures FindPair(t, open, close).None? ==> ReplaceFirst(t, open, close, open + "\n" + content + "\n" + close, false) == t
    ensures FindPair(t, open, close).Some? ==>
      var m := FindPair(t, open, close).value;
      ReplaceFirst(t, open, close, open + "\n" + content + "\n" + close, false) ==
        t[..m.start] + open + "\n" + Expand(content, Info(t, m, open, close, false)) + "\n" + close
        + t[m.close + |close|..]
    ensures '$' !in content ==>
      ReplaceFirst(t, open, close, open + "\n" + content + "\n" + close, false) == Splice(t, open, close, "\n" + content + "\n")
  {
    match FindPair(t, open, close)
    case None =>
    case Some(m) =>
      ReplaceFramedAt(t, open, close, content, m);
      if '$' !in content {
        ReplaceFramedLiteral(t, open, close, content, m);
      }
  }

  lemma ReplaceFramedLiteral(t: string, open: string, close: string, content: string, m: Match)
    requires '$' !in open && '$' !in close && '$' !in content && FindPair(t, open, close) == Some(m)
    ensures ReplaceFirst(t, open, close, open + "\n" + content + "\n" + close, false)
         == Splice(t, open, close, "\n" + content + "\n")
  {
    ReplaceFramedAt(t, open, close, content, m);
    ExpandNoDollar(content, Info(t, m, open, close, false));
    Regroup(t[..m.start], open, "\n", content, close, t[m.close + |close|..]);
  }

  lemma ReplaceFramedAt(t: string, open: string, close: string, content: string, m: Match)
    requires '$' !in open && '$' !in close && FindPair(t, open, close) == Some(m)
    ensures ReplaceFirst(t, open, close, open + "\n" + content + "\n" + close, false) ==
        t[..m.start] + open + "\n" + Expand(content, Info(t, m, open, close, false)) + "\n" + close
        + t[m.close + |close|..]
  {
    var info := Info(t, m, open, close, false);
    var r := open + "\n" + content + "\n" + close;
    ReplaceFirstAt(t, open, close, r, false, m);
    ExpandFramed(open, content, close, info);
    Regroup(t[..m.start], open, "\n", Expand(content, info), close, t[m.close + |close|..]);
  }

  /** `$1` names the first capture group. */
  lemma ExpandFirstGroup(info: MatchInfo)
    requires |info.groups| >= 1
    ensures Expand("$1", info) == info.groups[0]
  {
    assert RefDigits("$1", |info.groups|) == 1;
    assert "$1"[1..2] == "1";
    assert Token("$1", info) == (info.groups[0], 2);
    assert "$1"[2..] == [];
  }

  /** `$3` names the third capture group. */
  lemma ExpandThirdGroup(info: MatchInfo)
    requires |info.groups| >= 3
    ensures Expand("$3", info) == info.groups[2]
  {
    assert RefDigits("$3", |info.groups|) == 1;
    assert "$3"[1..2] == "3";
    assert Token("$3", info) == (info.groups[2], 2);
    assert "$3"[2..] == [];
  }

  /** Text joined by newlines expands piece by piece. */
  lemma ExpandJoin(p: string, c: string, q: string, info: MatchInfo)
    ensures Expand(p + ("\n" + (c + ("\n" + q))), info) == Expand(p, info) + ("\n" + (Expand(c, info) + ("\n" + Expand(q, info))))
  {
    var tail := "\n" + q;
    assert Expand(tail, info) == "\n" + Expand(q, info) by {
      ExpandLiteralPrefix("\n", q, info);
    }
    assert Expand(c + tail, info) == Expand(c, info) + Expand(tail, info) by {
      ExpandSplitAtNewline(c, tail, info);
    }
    assert Expand("\n" + (c + tail), info) == "\n" + Expand(c + tail, info) by {
      ExpandLiteralPrefix("\n", c + tail, info);
    }
    ExpandSplitAtNewline(p, "\n" + (c + tail), info);
  }

  /**
   * In `"$1\n" + c + "\n$3"` the two references insert the first and third groups, and only `c`
   * is subject to further expansion: a newline ends every `$` pattern.
   */
  lemma ExpandGroups(c: string, info: MatchInfo)
    requires |info.groups| == 3
    ensures Expand("$1\n" + c + "\n$3", info) == info.groups[0] + "\n" + Expand(c, info) + "\n" + info.groups[2]
  {
    var one, three := "$1", "$3";
    assert "$1\n" + c + "\n$3" == one + ("\n" + (c + ("\n" + three)));
    assert Expand(one, info) == info.groups[0] by {
      ExpandFirstGroup(info);
    }
    assert Expand(three, info) == info.groups[2] by {
      ExpandThirdGroup(info);
    }
    ExpandJoin(one, c, three, info);
    Nest(info.groups[0], Expand(c, info), info.groups[2]);
  }

  /** Reassociation of a newline-joined triple, on plain variables. */
  lemma Nest(a: string, b: string, d: string)
    ensures a + ("\n" + (b + ("\n" + d))) == a + "\n" + b + "\n" + d
  {
  }

  /**
   * Replacing the first `(open)([\s\S]*?)(close)` span by `"$1\n" + content + "\n$3"` keeps both
   * markers and the text around the span, and expands only `content`; without `$` in `content`
   * this is the literal splice.
   */
  lemma ReplaceGrouped(t: string, open: string, close: string, content: string)
    ensures FindPair(t, open, close).None? ==> ReplaceFirst(t, open, close, "$1\n" + content + "\n$3", true) == t
    ensures FindPair(t, open, close).Some? ==>
      var m := FindPair(t, open, close).value;
      ReplaceFirst(t, open, close, "$1\n" + content + "\n$3", true) ==
        t[..m.start] + open + "\n" + Expand(content, Info(t, m, open, close, true)) + "\n" + close
        + t[m.close + |close|..]
    ensures '$' !in content ==>
      ReplaceFirst(t, open, close, "$1\n" + content + "\n$3", true) == Splice(t, open, close, "\n" + content + "\n")
  {
    match FindPair(t, open, close)
    case None =>
    case Some(m) =>
      ReplaceGroupedAt(t, open, close, content, m);
      if '$' !in content {
        ReplaceGroupedLiteral(t, open, close, content, m);
      }
  }

  lemma ReplaceGroupedLiteral(t: string, open: string, close: string, content: string, m: Match)
    requires '$' !in content && FindPair(t, open, close) == Some(m)
    ensures ReplaceFirst(t, open, close, "$1\n" + content + "\n$3", true)
         == Splice(t, open, close, "\n" + content + "\n")
  {
    ReplaceGroupedAt(t, open, close, content, m);
    ExpandNoDollar(content, Info(t, m, open, close, true));
    Regroup(t[..m.start], open, "\n", content, close, t[m.close + |close|..]);
  }

  lemma ReplaceGroupedAt(t: string, open: string, close: string, content: string, m: Match)
    requires FindPair(t, open, close) == Some(m)
    ensures ReplaceFirst(t, open, close, "$1\n" + content + "\n$3", true) ==
        t[..m.start] + open + "\n" + Expand(content, Info(t, m, open, close, true)) + "\n" + close
        + t[m.close + |close|..]
  {
    var info := Info(t, m, open, close, true);
    ReplaceFirstAt(t, open, close, "$1\n" + content + "\n$3", true, m);
    FindPairLeftmost(t, open, close);
    assert info.groups[0] == open && info.groups[2] == close;
    ExpandGroups(content, info);
    Regroup(t[..m.start], open, "\n", Expand(content, info), close, t[m.close + |close|..]);
  }

  /** Three middle pieces regrouped. */
  lemma Regroup3(b: string, p: string, q: string, r: string, e: string)
    ensures b + p + q + r + e == b + (p + q + r) + e
  {
  }

  /** Empty ends vanish from a six-fold concatenation. */
  lemma EmptyEnds(a: string, p: string, q: string, r: string, s: string, u: string, b: string)
    requires a == [] && b == []
    ensures a + p + q + r + s + u + b == p + q + r + s + u
  {
  }

  /** Concatenation regrouped, stated once on plain variables where it is cheap to prove. */
  lemma Regroup(b: string, o: string, n: string, c: string, e: string, a: string)
    ensures b + (o + n + c + n + e) + a == b + o + n + c + n + e + a
    ensures b + (o + n + c + n + e) + a == b + o + (n + c + n) + e + a
    ensures b + o + (n + c + n) + e + a == b + (o + (n + (c + (n + (e + a)))))
  {
  }

  /** The replacement of a found match, with the expanded replacement string in its place. */
  lemma ReplaceFirstAt(t: string, open: string, close: string, replacement: string, grouped: bool, m: Match)
    requires FindPair(t, open, close) == Some(m)
    ensures m.start + |open| <= m.close && m.close + |close| <= |t|
    ensures ReplaceFirst(t, open, close, replacement, grouped)
         == t[..m.start] + Expand(replacement, Info(t, m, open, close, grouped)) + t[m.close + |close|..]
  {
    match FindPair(t, open, close)
    case Some(_) =>
  }

  /** The characters the marker escaping at latexTemplateProcessor.js prefixes with a backslash. */
  predicate IsRegexSpecial(c: char)
  {
    c in ".*+?^${}()|[]\\"
  }

  /** `s.replace(/[.*+?^${}()|[\]\\]/g, '\\$&')`: a backslash before every special character. */
  function RegexEscape(s: string): (r: string)
    ensures (forall i :: 0 <= i < |s| ==> !IsRegexSpecial(s[i])) ==> r == s
    ensures |r| >= |s|
  {
    if s == [] then []
    else (if IsRegexSpecial(s[0]) then ['\\', s[0]] else [s[0]]) + RegexEscape(s[1..])
  }
}
