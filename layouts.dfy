/**
 * Templates whose marked sections are laid out one after another: a head, then regions
 * `open inner close tail`. When no piece of text contains a marker token, each marker is found
 * exactly where the layout puts it, so a splice rewrites exactly one region's inner text.
 */
module Layouts {
  import opened Wrappers
  import opened Strings
  import opened RegexReplace

  /** A marker token: a `%` comment start, no other `%`, no newline and no `$`. */
  predicate Anchor(k: string)
  {
    |k| > 0 && k[0] == '%' && '%' !in k[1..] && '\n' !in k && '$' !in k
  }

  predicate IsPrefix(a: string, b: string)
  {
    |a| <= |b| && b[..|a|] == a
  }

  /** Two strings that differ at index `i` are not prefixes of each other. */
  lemma DifferAt(a: string, b: string, i: nat)
    requires i < |a| && i < |b| && a[i] != b[i]
    ensures !IsPrefix(a, b) && !IsPrefix(b, a)
  {
  }

  /** A set of marker tokens none of which is a prefix of another. */
  ghost predicate AnchorSet(markers: set<string>)
  {
    && (forall a :: a in markers ==> Anchor(a))
    && (forall a, b :: a in markers && b in markers && a != b ==> !IsPrefix(a, b))
  }

  /** `s` contains none of the marker tokens. */
  ghost predicate Clean(s: string, markers: set<string>)
  {
    forall a :: a in markers ==> !Contains(s, a)
  }

  /** A marker token can only start at a `%`, so it never spans across one. */
  lemma AnchorPercent(s: string, k: string, i: int, b: int)
    requires Anchor(k)
    ensures At(s, k, i) && i <= b < i + |k| && 0 <= b < |s| && s[b] == '%' ==> b == i
  {
    AtCovers(s, k, i, b);
    assert i < b < i + |k| ==> k[b - i] == k[1..][b - i - 1];
  }

  /** No marker token spans the joint of `x + y` when `y` starts with `%`. */
  lemma ConcatContains(x: string, y: string, k: string)
    requires Anchor(k) && (y == [] || y[0] == '%')
    ensures Contains(x + y, k) ==> Contains(x, k) || Contains(y, k)
  {
    if Contains(x + y, k) {
      var i :| 0 <= i <= |x + y| - |k| && At(x + y, k, i);
      AtConcat(x, y, k, i);
      if y != [] {
        AnchorPercent(x + y, k, i, |x|);
      }
      if i + |k| <= |x| {
        assert At(x, k, i);
      } else {
        assert At(y, k, i - |x|);
      }
    }
  }

  /** Two prefixes of one string are prefixes of each other. */
  lemma PrefixesCompare(s: string, a: string, b: string)
    requires IsPrefix(a, s) && IsPrefix(b, s)
    ensures IsPrefix(a, b) || IsPrefix(b, a)
  {
    if |a| <= |b| {
      assert b[..|a|] == s[..|b|][..|a|] == s[..|a|];
    } else {
      assert a[..|b|] == s[..|a|][..|b|] == s[..|b|];
    }
  }

  /** After a marker `m`, a different marker token can only occur in what follows `m`. */
  lemma MarkerContains(m: string, y: string, k: string)
    requires Anchor(m) && Anchor(k) && (m == k || (!IsPrefix(k, m) && !IsPrefix(m, k)))
    ensures Contains(m + y, k) ==> k == m || Contains(y, k)
  {
    if Contains(m + y, k) {
      var i :| 0 <= i <= |m + y| - |k| && At(m + y, k, i);
      AtConcat(m, y, k, i);
      AtCovers(m + y, k, i, i);
      AtConcat(m, y, m, 0);
      AnchorPercent(m + y, m, 0, i);
      assert (m + y)[..|m|] == m;
      if i == 0 {
        PrefixesCompare(m + y, k, m);
      }
      if i >= |m| {
        assert At(y, k, i - |m|);
      }
    }
  }

  /** Newlines around a text that holds no marker token `k` do not make one appear. */
  lemma FramedAvoids(c: string, k: string)
    requires Anchor(k) && !Contains(c, k)
    ensures !Contains(c + "\n", k)
    ensures !Contains("\n" + c + "\n", k)
  {
    var s := "\n" + c + "\n";
    forall i | 0 <= i <= |s| - |k|
      ensures !At(s, k, i)
    {
      AtCovers(s, k, i, 0);
      AtCovers(s, k, i, |s| - 1);
      assert i >= 1 && i + |k| <= |s| - 1 ==> s[i..i + |k|] == c[i - 1..i - 1 + |k|];
      assert !At(c, k, i - 1);
    }
    var s2 := c + "\n";
    forall i | 0 <= i <= |s2| - |k|
      ensures !At(s2, k, i)
    {
      AtCovers(s2, k, i, |s2| - 1);
      AtConcat(c, "\n", k, i);
    }
  }

  /** A clean text framed by a newline on each side is still clean. */
  lemma CleanFramed(c: string, markers: set<string>)
    requires AnchorSet(markers) && Clean(c, markers)
    ensures Clean("\n" + c + "\n", markers)
  {
    forall k | k in markers
      ensures !Contains("\n" + c + "\n", k)
    {
      FramedAvoids(c, k);
    }
  }

  /** Searching from the end of `f`, the first marker token `k` is the one after `x` when `x` holds none. */
  lemma IndexOfAnchor(s: string, f: string, x: string, k: string, y: string, from: nat)
    requires s == (f + x) + (k + y) && from == |f|
    requires Anchor(k) && !Contains(x, k)
    ensures IndexOf(s, k, from) == Some(from + |x|)
  {
    var q := |f| + |x|;
    AtConcat(f + x, k + y, k, q);
    AtConcat(k, y, k, 0);
    assert At(s, k, q);
    forall j | |f| <= j < q
      ensures !At(s, k, j)
    {
      AnchorPercent(s, k, j, q);
      AtConcat(f + x, k + y, k, j);
      AtConcat(f, x, k, j);
    }
    IndexOfIs(s, k, from, q);
  }

  /** A text that is one marker pair around a middle without the close marker. */
  lemma LocateWhole(open: string, m: string, close: string)
    requires Anchor(open) && Anchor(close) && !Contains(m, close)
    ensures FindPair(open + m + close, open, close) == Some(Match(0, |open| + |m|))
  {
    assert !Contains([], open);
    assert open + m + close == [] + open + m + close + [];
    LocatePair(open + m + close, [], open, m, close, []);
  }

  /**
   * The pattern `open[\s\S]*?close` on `x + open + m + close + y` matches the displayed
   * markers when `x` holds no `open` and `m` holds no `close`.
   */
  lemma LocatePair(u: string, x: string, open: string, m: string, close: string, y: string)
    requires u == x + open + m + close + y
    requires Anchor(open) && Anchor(close) && !Contains(x, open) && !Contains(m, close)
    ensures FindPair(u, open, close) == Some(Match(|x|, |x| + |open| + |m|))
  {
    Split5(x, open, m, close, y);
    FirstMarker(u, x, open, m + close + y);
    IndexOfAnchor(u, x + open, m, close, y, |x| + |open|);
    FindPairOf(u, open, close, |x|, |x| + |open| + |m|);
  }

  /** The first marker token `k` in `x + k + rest` ends `x` when `x` holds none. */
  lemma FirstMarker(u: string, x: string, k: string, rest: string)
    requires u == ([] + x) + (k + rest)
    requires Anchor(k) && !Contains(x, k)
    ensures IndexOf(u, k, 0) == Some(|x|)
  {
    IndexOfAnchor(u, [], x, k, rest, 0);
  }

  /** The two ways LocatePair reads `x + open + m + close + y`, on plain variables. */
  lemma Split5(x: string, open: string, m: string, close: string, y: string)
    ensures x + open + m + close + y == ([] + x) + (open + (m + close + y))
    ensures x + open + m + close + y == ((x + open) + m) + (close + y)
  {
  }

  /** Splicing `v` into `x + open + m + close + y` replaces `m` when `x` holds no `open` and `m` no `close`. */
  lemma SpliceWhole(u: string, x: string, open: string, m: string, close: string, y: string, v: string)
    requires u == x + open + m + close + y
    requires Anchor(open) && Anchor(close) && !Contains(x, open) && !Contains(m, close)
    ensures Splice(u, open, close, v) == x + open + v + close + y
  {
    var q := |x| + |open| + |m|;
    LocatePair(u, x, open, m, close, y);
    SpliceAt(u, open, close, v, Match(|x|, q));
    assert u[..|x|] == x by {
      assert u == x + (open + m + close + y);
    }
    assert u[q + |close|..] == y by {
      assert u == (x + open + m + close) + y;
    }
  }

  /** The first `open + "\n"` in `x + open + "\n" + rest` ends `x` when `x` holds no `open`. */
  lemma FirstOpenLine(u: string, x: string, open: string, rest: string)
    requires u == x + (open + ("\n" + rest))
    requires Anchor(open) && !Contains(x, open)
    ensures IndexOf(u, open + "\n", 0) == Some(|x|)
  {
    assert u == ([] + x) + (open + ("\n" + rest));
    IndexOfAnchor(u, [], x, open, "\n" + rest, 0);
    assert u[|x|..|x| + |open| + 1] == open + "\n";
    IndexOfExtend(u, open, "\n", 0, |x|);
  }

  /** After `x + open + "\n"`, the first `"\n" + close` in `x + open + "\n" + c + "\n" + close + y` follows `c`. */
  lemma FirstCloseLine(u: string, x: string, open: string, c: string, close: string, y: string)
    requires u == x + (open + ("\n" + (c + ("\n" + (close + y)))))
    requires Anchor(close) && !Contains(c, close)
    ensures IndexOf(u, "\n" + close, |x| + |open| + 1) == Some(|x| + |open| + 1 + |c|)
  {
    FramedAvoids(c, close);
    CloseLineParts(u, x, open, c, close, y);
    IndexOfAnchor(u, x + open + "\n", c + "\n", close, y, |x| + |open| + 1);
    IndexOfPrepend(u, "\n", close, |x| + |open| + 1, |x| + |open| + 1 + |c|);
  }

  /** How FirstCloseLine reads its text, on sequences alone. */
  lemma CloseLineParts(u: string, x: string, open: string, c: string, close: string, y: string)
    requires u == x + (open + ("\n" + (c + ("\n" + (close + y)))))
    ensures u == ((x + open + "\n") + (c + "\n")) + (close + y)
    ensures At(u, "\n" + close, |x| + |open| + 1 + |c|)
  {
    var q := |x| + |open| + 1 + |c|;
    assert u[q..q + 1 + |close|] == "\n" + close;
  }

  /**
   * The pattern `open\n([\s\S]*?)\nclose` on `x + open + "\n" + c + "\n" + close + y` matches the
   * displayed markers, capturing `c`, when `x` holds no `open` and `c` holds no `close`.
   */
  lemma LocateLinePair(x: string, open: string, c: string, close: string, y: string)
    requires Anchor(open) && Anchor(close) && !Contains(x, open) && !Contains(c, close)
    ensures FindPair(x + (open + ("\n" + (c + ("\n" + (close + y))))), open + "\n", "\n" + close)
      == Some(Match(|x|, |x| + |open| + 1 + |c|))
  {
    var u := x + (open + ("\n" + (c + ("\n" + (close + y)))));
    FirstOpenLine(u, x, open, c + ("\n" + (close + y)));
    FirstCloseLine(u, x, open, c, close, y);
    FindPairOf(u, open + "\n", "\n" + close, |x|, |x| + |open| + 1 + |c|);
  }

  /** `open` at `p` and `close` at `q` make the leftmost pair, and the nearest close for that start. */
  ghost predicate FirstPairAt(t: string, open: string, close: string, p: int, q: int)
  {
    && IsPairAt(t, open, close, p, q)
    && forall p', q' :: IsPairAt(t, open, close, p', q') ==> p < p' || (p == p' && q <= q')
  }

  /** The capture of `open\n([\s\S]*?)\nclose`, the first and shortest such span, if any. */
  function CaptureLines(t: string, open: string, close: string): (r: Option<string>)
    ensures r.Some? <==> exists p, q :: IsPairAt(t, open + "\n", "\n" + close, p, q)
    ensures r.Some? ==> exists p, q ::
        FirstPairAt(t, open + "\n", "\n" + close, p, q) && r.value == t[p + |open| + 1..q]
  {
    FindPairLeftmost(t, open + "\n", "\n" + close);
    match FindPair(t, open + "\n", "\n" + close)
    case None => None
    case Some(m) =>
      assert FirstPairAt(t, open + "\n", "\n" + close, m.start, m.close);
      Some(t[m.start + |open| + 1..m.close])
  }

  /** A text between `open` and `close` on their own lines is captured whole. */
  lemma CaptureFramed(x: string, open: string, c: string, close: string, y: string)
    requires Anchor(open) && Anchor(close) && !Contains(x, open) && !Contains(c, close)
    ensures CaptureLines(x + (open + ("\n" + (c + ("\n" + (close + y))))), open, close) == Some(c)
  {
    var u := x + (open + ("\n" + (c + ("\n" + (close + y)))));
    var start := |x| + |open| + 1;
    LocateLinePair(x, open, c, close, y);
    assert u[start..start + |c|] == c;
  }

  /** Splicing the same text between the same markers twice is splicing it once. */
  lemma SpliceIdempotent(t: string, open: string, close: string, v: string)
    requires Anchor(open) && Anchor(close) && !Contains(v, close)
    ensures Splice(Splice(t, open, close, v), open, close, v) == Splice(t, open, close, v)
  {
    match FindPair(t, open, close)
    case None =>
    case Some(m) =>
      var x := t[..m.start];
      var y := t[m.close + |close|..];
      FindPairFirstOpen(t, open, close);
      var u := x + open + v + close + y;
      SpliceAt(t, open, close, v, m);
      SpliceWhole(u, x, open, v, close, y, v);
  }

  /** One marked region: its two markers, the text between them, and the text up to the next region. */
  datatype Region = Region(open: string, inner: string, close: string, tail: string)

  /** A template as a head followed by marked regions. */
  datatype Layout = Layout(head: string, regions: seq<Region>)

  function RenderRegion(r: Region): string
  {
    r.open + r.inner + r.close + r.tail
  }

  function RenderRegions(rs: seq<Region>): string
    decreases |rs|
  {
    if rs == [] then "" else RenderRegion(rs[0]) + RenderRegions(rs[1..])
  }

  /** The template text a layout stands for. */
  function Render(l: Layout): string
  {
    l.head + RenderRegions(l.regions)
  }

  ghost predicate RegionOk(r: Region, markers: set<string>)
  {
    r.open in markers && r.close in markers && r.open != r.close
    && Clean(r.inner, markers) && Clean(r.tail, markers)
  }

  /** No marker token is used by two regions, or twice by one. */
  ghost predicate DistinctMarkers(rs: seq<Region>)
  {
    forall i, j :: 0 <= i < j < |rs| ==>
      rs[i].open != rs[j].open && rs[i].open != rs[j].close
      && rs[i].close != rs[j].open && rs[i].close != rs[j].close
  }

  /** The only marker tokens in the text are the regions' own markers, each once. */
  ghost predicate WellFormed(l: Layout, markers: set<string>)
  {
    && AnchorSet(markers)
    && Clean(l.head, markers)
    && (forall i :: 0 <= i < |l.regions| ==> RegionOk(l.regions[i], markers))
    && DistinctMarkers(l.regions)
  }

  lemma {:induction false} RenderRegionsAppend(a: seq<Region>, b: seq<Region>)
    ensures RenderRegions(a + b) == RenderRegions(a) + RenderRegions(b)
    decreases |a|
  {
    if a == [] {
      assert a + b == b;
    } else {
      assert (a + b)[1..] == a[1..] + b;
      RenderRegionsAppend(a[1..], b);
    }
  }

  /** Rendered regions start with a marker, hence with `%`. */
  lemma RenderRegionsStart(rs: seq<Region>, markers: set<string>)
    requires AnchorSet(markers) && forall i :: 0 <= i < |rs| ==> RegionOk(rs[i], markers)
    ensures RenderRegions(rs) == [] || RenderRegions(rs)[0] == '%'
  {
    if rs != [] {
      assert RegionOk(rs[0], markers);
      assert RenderRegions(rs)[0] == RenderRegion(rs[0])[0] == rs[0].open[0];
    }
  }

  /** A marker token that is not one of a region's markers does not occur in the region. */
  lemma RegionAvoids(r: Region, markers: set<string>, k: string)
    requires AnchorSet(markers) && RegionOk(r, markers) && k in markers && k != r.open && k != r.close
    ensures !Contains(RenderRegion(r), k)
  {
    assert RenderRegion(r) == r.open + (r.inner + (r.close + r.tail));
    MarkerContains(r.open, r.inner + (r.close + r.tail), k);
    ConcatContains(r.inner, r.close + r.tail, k);
    MarkerContains(r.close, r.tail, k);
  }

  /** A marker token used by no region does not occur in the rendered regions. */
  lemma {:induction false} RegionsAvoid(rs: seq<Region>, markers: set<string>, k: string)
    requires AnchorSet(markers) && forall i :: 0 <= i < |rs| ==> RegionOk(rs[i], markers)
    requires k in markers && forall i :: 0 <= i < |rs| ==> rs[i].open != k && rs[i].close != k
    ensures !Contains(RenderRegions(rs), k)
    decreases |rs|
  {
    if rs != [] {
      RegionAvoids(rs[0], markers, k);
      RegionsAvoid(rs[1..], markers, k);
      RenderRegionsStart(rs[1..], markers);
      ConcatContains(RenderRegion(rs[0]), RenderRegions(rs[1..]), k);
    }
  }

  /** A marker token used by no region does not occur in the template. */
  lemma LayoutAvoids(l: Layout, markers: set<string>, k: string)
    requires WellFormed(l, markers) && k in markers
    requires forall i :: 0 <= i < |l.regions| ==> l.regions[i].open != k && l.regions[i].close != k
    ensures !Contains(Render(l), k)
  {
    RegionsAvoid(l.regions, markers, k);
    RenderRegionsStart(l.regions, markers);
    ConcatContains(l.head, RenderRegions(l.regions), k);
  }

  /** The text before region `k`. */
  function Before(l: Layout, k: nat): string
    requires k < |l.regions|
  {
    l.head + RenderRegions(l.regions[..k])
  }

  /** The text after region `k`'s close marker. */
  function After(l: Layout, k: nat): string
    requires k < |l.regions|
  {
    l.regions[k].tail + RenderRegions(l.regions[k + 1..])
  }

  /** The rendered regions around region `k`. */
  lemma RenderAround(rs: seq<Region>, k: nat)
    requires k < |rs|
    ensures RenderRegions(rs) == RenderRegions(rs[..k]) + RenderRegion(rs[k]) + RenderRegions(rs[k + 1..])
  {
    RegionsAround(rs, k);
    RenderSplit(rs, rs[..k], rs[k], rs[k + 1..]);
  }

  lemma RegionsAround(rs: seq<Region>, k: nat)
    requires k < |rs|
    ensures rs == rs[..k] + ([rs[k]] + rs[k + 1..])
  {
  }

  lemma RenderSplit(rs: seq<Region>, front: seq<Region>, r: Region, back: seq<Region>)
    requires rs == front + ([r] + back)
    ensures RenderRegions(rs) == RenderRegions(front) + RenderRegion(r) + RenderRegions(back)
  {
    RenderRegionsAppend(front, [r] + back);
    RenderCons(r, back);
  }

  lemma RenderCons(r: Region, back: seq<Region>)
    ensures RenderRegions([r] + back) == RenderRegion(r) + RenderRegions(back)
  {
    assert ([r] + back)[1..] == back;
  }

  /** Region `k`'s open marker does not occur before region `k`. */
  lemma BeforeAvoids(l: Layout, markers: set<string>, k: nat)
    requires WellFormed(l, markers) && k < |l.regions|
    ensures !Contains(Before(l, k), l.regions[k].open)
  {
    var rs := l.regions;
    var front := rs[..k];
    assert RegionOk(rs[k], markers);
    forall i | 0 <= i < |front|
      ensures RegionOk(front[i], markers) && front[i].open != rs[k].open && front[i].close != rs[k].open
    {
      assert front[i] == rs[i];
    }
    RegionsAvoid(front, markers, rs[k].open);
    RenderRegionsStart(front, markers);
    ConcatContains(l.head, RenderRegions(front), rs[k].open);
  }

  /** The template seen around region `k`. */
  lemma LayoutSplit(l: Layout, k: nat)
    requires k < |l.regions|
    ensures var r := l.regions[k];
      Render(l) == Before(l, k) + r.open + r.inner + r.close + After(l, k)
  {
    var r := l.regions[k];
    RenderAround(l.regions, k);
    Regroup7(l.head, RenderRegions(l.regions[..k]), r.open, r.inner, r.close, r.tail, RenderRegions(l.regions[k + 1..]));
  }

  /** Concatenation regrouped, on plain variables. */
  lemma Regroup7(h: string, f: string, o: string, i: string, c: string, t: string, b: string)
    ensures h + (f + (o + i + c + t) + b) == (h + f) + o + i + c + (t + b)
  {
  }

  /** Region `r` with its inner text set to `v` when its open marker is `open`. */
  function SetInner(r: Region, open: string, v: string): Region
  {
    if r.open == open then r.(inner := v) else r
  }

  /** The layout after the region opened by `open` (if any) gets the inner text `v`. */
  function SetInnerAt(l: Layout, open: string, v: string): Layout
  {
    Layout(l.head, seq(|l.regions|, i requires 0 <= i < |l.regions| => SetInner(l.regions[i], open, v)))
  }

  /** Setting inner texts that hold no marker token keeps a layout well formed. */
  lemma SetInnerWellFormed(l: Layout, markers: set<string>, open: string, v: string)
    requires WellFormed(l, markers) && Clean(v, markers)
    ensures WellFormed(SetInnerAt(l, open, v), markers)
  {
    var rs := l.regions;
    var rs' := SetInnerAt(l, open, v).regions;
    forall i | 0 <= i < |rs|
      ensures rs'[i].open == rs[i].open && rs'[i].close == rs[i].close && RegionOk(rs'[i], markers)
    {
      assert RegionOk(rs[i], markers);
    }
  }

  /** The splice on a template where region `k` is opened by `open`. */
  lemma SplicePresent(l: Layout, markers: set<string>, k: nat, open: string, close: string, v: string)
    requires WellFormed(l, markers) && k < |l.regions|
    requires l.regions[k].open == open && l.regions[k].close == close
    ensures Splice(Render(l), open, close, v) == Render(SetInnerAt(l, open, v))
  {
    var rs := l.regions;
    var r := rs[k];
    var rs' := SetInnerAt(l, open, v).regions;
    assert RegionOk(r, markers);
    BeforeAvoids(l, markers, k);
    LayoutSplit(l, k);
    SpliceWhole(Render(l), Before(l, k), open, r.inner, close, After(l, k), v);
    forall i | 0 <= i < |rs| && i != k
      ensures rs'[i] == rs[i]
    {
      assert rs[i].open != open by {
        if i < k { assert rs[i].open != rs[k].open; } else { assert rs[k].open != rs[i].open; }
      }
    }
    assert rs' == rs[k := r.(inner := v)];
    assert rs'[..k] == rs[..k] && rs'[k + 1..] == rs[k + 1..];
    LayoutSplit(SetInnerAt(l, open, v), k);
  }

  /** The splice on a template where no region uses `open`. */
  lemma SpliceAbsent(l: Layout, markers: set<string>, open: string, close: string, v: string)
    requires WellFormed(l, markers) && open in markers
    requires forall i :: 0 <= i < |l.regions| ==> l.regions[i].open != open && l.regions[i].close != open
    ensures Splice(Render(l), open, close, v) == Render(l) == Render(SetInnerAt(l, open, v))
  {
    LayoutAvoids(l, markers, open);
    ContainsIffIndexOf(Render(l), open);
    assert SetInnerAt(l, open, v).regions == l.regions;
  }

  /**
   * On a well-formed template, splicing `v` between `open` and `close` rewrites exactly the
   * inner text of the region those markers frame, and nothing at all when no region uses them.
   */
  lemma SpliceLayout(l: Layout, markers: set<string>, open: string, close: string, v: string)
    requires WellFormed(l, markers) && open in markers && Clean(v, markers)
    requires forall i :: 0 <= i < |l.regions| ==> l.regions[i].close != open
    requires forall i :: 0 <= i < |l.regions| ==> l.regions[i].open == open ==> l.regions[i].close == close
    ensures Splice(Render(l), open, close, v) == Render(SetInnerAt(l, open, v))
    ensures WellFormed(SetInnerAt(l, open, v), markers)
  {
    SetInnerWellFormed(l, markers, open, v);
    if k :| 0 <= k < |l.regions| && l.regions[k].open == open {
      SplicePresent(l, markers, k, open, close, v);
    } else {
      SpliceAbsent(l, markers, open, close, v);
    }
  }

  function Assign(r: Region, v: Option<string>): Region
  {
    match v
    case None => r
    case Some(s) => r.(inner := s)
  }

  /** The value the last operation naming `open` assigns, if any. */
  function LastFor(ops: seq<(string, string)>, open: string): Option<string>
    decreases |ops|
  {
    if ops == [] then None
    else match LastFor(ops[1..], open)
      case Some(v) => Some(v)
      case None => if ops[0].0 == open then Some(ops[0].1) else None
  }

  /** A sequence of inner-text assignments `(open marker, text)`, applied left to right. */
  function Fold(l: Layout, ops: seq<(string, string)>): Layout
    decreases |ops|
  {
    if ops == [] then l else Fold(SetInnerAt(l, ops[0].0, ops[0].1), ops[1..])
  }

  /** After a sequence of assignments each region holds the last value assigned to its open marker. */
  lemma {:induction false} FoldRegions(l: Layout, ops: seq<(string, string)>)
    ensures Fold(l, ops).head == l.head
    ensures |Fold(l, ops).regions| == |l.regions|
    ensures forall i :: 0 <= i < |l.regions| ==>
      Fold(l, ops).regions[i] == Assign(l.regions[i], LastFor(ops, l.regions[i].open))
    decreases |ops|
  {
    if ops != [] {
      var l1 := SetInnerAt(l, ops[0].0, ops[0].1);
      FoldRegions(l1, ops[1..]);
    }
  }

  /** Assigning `a` then `b` is assigning `a + b`. */
  lemma {:induction false} FoldAppend(l: Layout, a: seq<(string, string)>, b: seq<(string, string)>)
    ensures Fold(l, a + b) == Fold(Fold(l, a), b)
    decreases |a|
  {
    if a != [] {
      assert (a + b)[0] == a[0] && (a + b)[1..] == a[1..] + b;
      FoldAppend(SetInnerAt(l, a[0].0, a[0].1), a[1..], b);
    } else {
      assert a + b == b;
    }
  }

  /** In `a + b` the last value for a marker comes from `b` when `b` names it. */
  lemma {:induction false} LastForAppend(a: seq<(string, string)>, b: seq<(string, string)>, open: string)
    ensures LastFor(a + b, open) == if LastFor(b, open).Some? then LastFor(b, open) else LastFor(a, open)
    decreases |a|
  {
    if a != [] {
      assert (a + b)[0] == a[0] && (a + b)[1..] == a[1..] + b;
      LastForAppend(a[1..], b, open);
    } else {
      assert a + b == b;
    }
  }

  /** Assigning the same sequence twice is assigning it once. */
  lemma FoldIdempotent(l: Layout, ops: seq<(string, string)>)
    ensures Fold(Fold(l, ops), ops) == Fold(l, ops)
  {
    var l1 := Fold(l, ops);
    FoldRegions(l, ops);
    FoldRegions(l1, ops);
    assert Fold(l1, ops).regions == l1.regions;
  }

  /** Only the last value per marker matters, not the order of the assignments. */
  lemma FoldLastWins(l: Layout, ops1: seq<(string, string)>, ops2: seq<(string, string)>)
    requires forall o :: LastFor(ops1, o) == LastFor(ops2, o)
    ensures Fold(l, ops1) == Fold(l, ops2)
  {
    FoldRegions(l, ops1);
    FoldRegions(l, ops2);
    assert Fold(l, ops1).regions == Fold(l, ops2).regions;
  }
}
