/**
 * src/utils/templateProcessor.js: the marker processor the wizard calls. Sections are framed
 * by `% MARKER_BEGIN_X` / `% MARKER_END_X` comment lines for X in SUMMARY, SKILLS, PROJECTS.
 */
module TemplateProcessor {
  import opened Wrappers
  import opened Strings
  import opened RegexReplace
  import opened Layouts

  datatype Section = Summary | Skills | Projects

  /** The key of a section in the content map. */
  function Key(x: Section): string
  {
    match x
    case Summary => "summary"
    case Skills => "skills"
    case Projects => "projects"
  }

  function BeginName(x: Section): string
  {
    match x
    case Summary => "MARKER_BEGIN_SUMMARY"
    case Skills => "MARKER_BEGIN_SKILLS"
    case Projects => "MARKER_BEGIN_PROJECTS"
  }

  function EndName(x: Section): string
  {
    match x
    case Summary => "MARKER_END_SUMMARY"
    case Skills => "MARKER_END_SKILLS"
    case Projects => "MARKER_END_PROJECTS"
  }

  /** The begin marker as it appears in a template: a LaTeX comment. */
  function Begin(x: Section): string
  {
    "% " + BeginName(x)
  }

  function End(x: Section): string
  {
    "% " + EndName(x)
  }

  /** The marker names validateMarkers requires, in the order it reports them. */
  const RequiredMarkers: seq<string> :=
    [BeginName(Summary), EndName(Summary), BeginName(Skills), EndName(Skills),
     BeginName(Projects), EndName(Projects)]

  /** All six marker tokens. */
  const Markers: set<string> :=
    {Begin(Summary), End(Summary), Begin(Skills), End(Skills), Begin(Projects), End(Projects)}

  /** A capital-letter name behind `% ` makes a comment anchor. */
  lemma PrefixedAnchor(name: string)
    requires forall i :: 0 <= i < |name| ==> 'A' <= name[i] <= 'Z' || name[i] == '_'
    ensures Anchor("% " + name)
  {
    var k := "% " + name;
    assert forall i :: 2 <= i < |k| ==> k[i] == name[i - 2];
    assert forall i :: 1 <= i < |k| ==> k[i] != '%' && k[i] != '\n' && k[i] != '$';
  }

  lemma SectionAnchors(x: Section)
    ensures Anchor(Begin(x)) && Anchor(End(x))
  {
    PrefixedAnchor(BeginName(x));
    PrefixedAnchor(EndName(x));
  }

  /** Begin and end markers differ at `B`/`E`; the section names then tell the rest apart. */
  lemma SectionsPrefixFree(x: Section, y: Section)
    ensures !IsPrefix(Begin(x), End(y)) && !IsPrefix(End(y), Begin(x))
    ensures x != y ==> !IsPrefix(Begin(x), Begin(y)) && !IsPrefix(End(x), End(y))
  {
    assert Begin(x)[9] == 'B' && End(y)[9] == 'E';
    DifferAt(Begin(x), End(y), 9);
    if x != y {
      if x == Projects || y == Projects {
        assert Begin(x)[15] != Begin(y)[15] && End(x)[13] != End(y)[13];
        DifferAt(Begin(x), Begin(y), 15);
        DifferAt(End(x), End(y), 13);
      } else {
        assert Begin(x)[16] != Begin(y)[16] && End(x)[14] != End(y)[14];
        DifferAt(Begin(x), Begin(y), 16);
        DifferAt(End(x), End(y), 14);
      }
    }
  }

  /** Every marker token is the begin or the end marker of a section. */
  lemma MarkerOf(a: string)
    requires a in Markers
    ensures exists x :: a == Begin(x) || a == End(x)
  {
    if a == Begin(Summary) || a == End(Summary) {
      assert a == Begin(Summary) || a == End(Summary);
    } else if a == Begin(Skills) || a == End(Skills) {
      assert a == Begin(Skills) || a == End(Skills);
    } else {
      assert a == Begin(Projects) || a == End(Projects);
    }
  }

  /** Begin markers are told apart from end markers and from each other. */
  lemma MarkersDistinct()
    ensures forall x, y :: Begin(x) != End(y)
    ensures forall x, y :: Begin(x) == Begin(y) ==> x == y
    ensures forall x, y :: End(x) == End(y) ==> x == y
  {
    forall x, y
      ensures Begin(x) != End(y)
      ensures x != y ==> Begin(x) != Begin(y) && End(x) != End(y)
    {
      SectionsPrefixFree(x, y);
    }
  }

  lemma SectionMarkers()
    ensures forall x :: Begin(x) in Markers && End(x) in Markers
  {
    forall x
      ensures Begin(x) in Markers && End(x) in Markers
    {
      match x
      case Summary =>
      case Skills =>
      case Projects =>
    }
  }

  /** The marker tokens are comment anchors, none a prefix of another. */
  lemma MarkersAreAnchors()
    ensures AnchorSet(Markers)
  {
    forall a | a in Markers
      ensures Anchor(a)
    {
      MarkerOf(a);
      var x :| a == Begin(x) || a == End(x);
      SectionAnchors(x);
    }
    forall a, b | a in Markers && b in Markers && a != b
      ensures !IsPrefix(a, b)
    {
      MarkerOf(a);
      MarkerOf(b);
      var x :| a == Begin(x) || a == End(x);
      var y :| b == Begin(y) || b == End(y);
      SectionsPrefixFree(x, y);
      SectionsPrefixFree(y, x);
    }
  }

  // ---------------------------------------------------------------------------------------------
  // mergeSections

  /**
   * One conditional step of mergeSections: the first `Begin(x)` and the nearest `End(x)` after
   * it, with everything between, become `Begin(x) + "\n" + content + "\n" + End(x)`; the
   * replacement goes through the `$`-pattern expansion of String.prototype.replace.
   */
  function ReplaceMarked(t: string, x: Section, content: string): string
  {
    ReplaceFirst(t, Begin(x), End(x), Begin(x) + "\n" + content + "\n" + End(x), false)
  }

  /** `if (sections.x)`: the key is present and its content is not the empty string. */
  predicate Provided(sections: map<string, string>, x: Section)
  {
    Key(x) in sections && sections[Key(x)] != ""
  }

  function MergeStep(t: string, sections: map<string, string>, x: Section): string
  {
    if Provided(sections, x) then ReplaceMarked(t, x, sections[Key(x)]) else t
  }

  /** The three steps of mergeSections, always in the order summary, skills, projects. */
  function Merge(t: string, sections: map<string, string>): string
  {
    MergeStep(MergeStep(MergeStep(t, sections, Summary), sections, Skills), sections, Projects)
  }

  method MergeSections(baseTemplate: string, sections: map<string, string>) returns (merged: string)
    ensures merged == Merge(baseTemplate, sections)
  {
    merged := baseTemplate;
    if Key(Summary) in sections && sections[Key(Summary)] != "" {
      merged := ReplaceMarked(merged, Summary, sections[Key(Summary)]);
    }
    if Key(Skills) in sections && sections[Key(Skills)] != "" {
      merged := ReplaceMarked(merged, Skills, sections[Key(Skills)]);
    }
    if Key(Projects) in sections && sections[Key(Projects)] != "" {
      merged := ReplaceMarked(merged, Projects, sections[Key(Projects)]);
    }
  }

  /**
   * The markers are kept, the span between them becomes "\n" + the expanded content + "\n", and
   * the text before the first begin marker and after the nearest end marker is unchanged. Content
   * without `$` is spliced literally.
   */
  lemma ReplaceMarkedShape(t: string, x: Section, content: string)
    ensures FindPair(t, Begin(x), End(x)).None? ==> ReplaceMarked(t, x, content) == t
    ensures FindPair(t, Begin(x), End(x)).Some? ==>
      var m := FindPair(t, Begin(x), End(x)).value;
      ReplaceMarked(t, x, content) ==
        t[..m.start] + Begin(x) + "\n" + Expand(content, Info(t, m, Begin(x), End(x), false)) + "\n" + End(x)
        + t[m.close + |End(x)|..]
    ensures '$' !in content ==> ReplaceMarked(t, x, content) == Splice(t, Begin(x), End(x), "\n" + content + "\n")
  {
    SectionAnchors(x);
    ReplaceFramed(t, Begin(x), End(x), content);
  }

  /**
   * A template that is exactly one section: merging content for it replaces everything between
   * the markers by the content (expanded) on its own lines.
   */
  lemma WholeSection(x: Section, inner: string, c: string)
    requires !Contains(inner, End(x)) && c != ""
    ensures var t := Begin(x) + inner + End(x);
      Merge(t, map[Key(x) := c])
        == Begin(x) + "\n" + Expand(c, Info(t, Match(0, |Begin(x)| + |inner|), Begin(x), End(x), false)) + "\n" + End(x)
  {
    var t := Begin(x) + inner + End(x);
    var m := Match(0, |Begin(x)| + |inner|);
    var e := Expand(c, Info(t, m, Begin(x), End(x), false));
    assert FindPair(t, Begin(x), End(x)) == Some(m) by {
      SectionAnchors(x);
      LocateWhole(Begin(x), inner, End(x));
    }
    assert Merge(t, map[Key(x) := c]) == ReplaceMarked(t, x, c) by {
      MergeSingle(t, x, c);
    }
    assert ReplaceMarked(t, x, c) == t[..0] + Begin(x) + "\n" + e + "\n" + End(x) + t[|t|..] by {
      ReplaceMarkedShape(t, x, c);
    }
    EmptyEnds(t[..0], Begin(x), "\n", e, "\n", End(x), t[|t|..]);
  }

  /**
   * Content is a replacement pattern, not literal text: `$$` in the content (LaTeX display math)
   * comes out as a single `$`.
   */
  lemma DollarsCollapse(x: Section, inner: string)
    requires !Contains(inner, End(x))
    ensures Merge(Begin(x) + inner + End(x), map[Key(x) := "a$$b"]) == Begin(x) + ("\n" + "a$b" + "\n") + End(x)
  {
    var t := Begin(x) + inner + End(x);
    WholeSection(x, inner, "a$$b");
    ExpandDoubleDollar(Info(t, Match(0, |Begin(x)| + |inner|), Begin(x), End(x), false));
    Regroup3(Begin(x), "\n", "a$b", "\n", End(x));
  }

  /**
   * A section step leaves the document unchanged when its content is absent or empty, or when the
   * document has no begin marker followed by an end marker.
   */
  lemma MergeStepNoOp(t: string, sections: map<string, string>, x: Section)
    ensures !Provided(sections, x) ==> MergeStep(t, sections, x) == t
    ensures !Contains(t, Begin(x)) ==> MergeStep(t, sections, x) == t
    ensures FindPair(t, Begin(x), End(x)).None? ==> MergeStep(t, sections, x) == t
  {
    if Provided(sections, x) {
      ReplaceMarkedShape(t, x, sections[Key(x)]);
      if FindPair(t, Begin(x), End(x)).Some? {
        var m := FindPair(t, Begin(x), End(x)).value;
        FindPairLeftmost(t, Begin(x), End(x));
        assert At(t, Begin(x), m.start);
      }
    }
  }

  /** The keys mergeSections reads. */
  const SectionKeys: set<string> := {"summary", "skills", "projects"}

  /** Keys other than summary, skills and projects, and empty contents, play no part. */
  lemma MergeReadsOnlySectionKeys(t: string, sections: map<string, string>)
    ensures Merge(t, sections) ==
            Merge(t, map k | k in sections && k in SectionKeys && sections[k] != "" :: sections[k])
  {
    var used := map k | k in sections && k in SectionKeys && sections[k] != "" :: sections[k];
    forall x
      ensures Provided(sections, x) == Provided(used, x)
      ensures Provided(sections, x) ==> sections[Key(x)] == used[Key(x)]
    {
      assert Key(x) in SectionKeys;
    }
  }

  // ---------------------------------------------------------------------------------------------
  // Whole merges on a template whose only marker tokens are its sections' marker pairs

  /**
   * The template is text with section regions `Begin(x) inner End(x)`, no section twice, and no
   * marker token anywhere else (so section spans neither nest nor overlap).
   */
  ghost predicate Sectioned(l: Layout)
  {
    && WellFormed(l, Markers)
    && forall i :: 0 <= i < |l.regions| ==>
         exists x :: l.regions[i].open == Begin(x) && l.regions[i].close == End(x)
  }

  /** Section contents free of `$` and of marker tokens. */
  ghost predicate Plain(sections: map<string, string>)
  {
    forall x :: Key(x) in sections ==> '$' !in sections[Key(x)] && Clean(sections[Key(x)], Markers)
  }

  /** The region assignment one mergeSections step makes, if its section is provided. */
  function Op(sections: map<string, string>, x: Section): seq<(string, string)>
  {
    if Provided(sections, x) then [(Begin(x), "\n" + sections[Key(x)] + "\n")] else []
  }

  function Ops(sections: map<string, string>): seq<(string, string)>
  {
    Op(sections, Summary) + Op(sections, Skills) + Op(sections, Projects)
  }

  /** Region `i` of a sectioned template belongs to section `x`. */
  lemma RegionSection(l: Layout, i: nat) returns (x: Section)
    requires Sectioned(l) && i < |l.regions|
    ensures l.regions[i].open == Begin(x) && l.regions[i].close == End(x)
  {
    x :| l.regions[i].open == Begin(x) && l.regions[i].close == End(x);
  }

  /** Giving one section new inner text keeps the template sectioned. */
  lemma SectionedSetInner(l: Layout, x: Section, v: string)
    requires Sectioned(l) && Clean(v, Markers)
    ensures Sectioned(SetInnerAt(l, Begin(x), v))
  {
    var l' := SetInnerAt(l, Begin(x), v);
    SetInnerWellFormed(l, Markers, Begin(x), v);
    forall i | 0 <= i < |l'.regions|
      ensures exists y :: l'.regions[i].open == Begin(y) && l'.regions[i].close == End(y)
    {
      var y := RegionSection(l, i);
      assert l'.regions[i].open == Begin(y) && l'.regions[i].close == End(y);
    }
  }

  /** On a sectioned template, the literal splice of section `x` sets that region's inner text. */
  lemma SpliceSection(l: Layout, x: Section, v: string)
    requires Sectioned(l) && Clean(v, Markers)
    ensures Splice(Render(l), Begin(x), End(x), v) == Render(SetInnerAt(l, Begin(x), v))
  {
    MarkersDistinct();
    SectionMarkers();
    forall i | 0 <= i < |l.regions|
      ensures l.regions[i].close != Begin(x)
      ensures l.regions[i].open == Begin(x) ==> l.regions[i].close == End(x)
    {
      var y := RegionSection(l, i);
    }
    SpliceLayout(l, Markers, Begin(x), End(x), v);
  }

  /** One step of mergeSections on a sectioned template is the region assignment `Op`. */
  lemma StepLayout(l: Layout, sections: map<string, string>, x: Section)
    requires Sectioned(l) && Plain(sections)
    ensures MergeStep(Render(l), sections, x) == Render(Fold(l, Op(sections, x)))
    ensures Sectioned(Fold(l, Op(sections, x)))
  {
    if Provided(sections, x) {
      var c := sections[Key(x)];
      var v := "\n" + c + "\n";
      MarkersAreAnchors();
      CleanFramed(c, Markers);
      ReplaceMarkedShape(Render(l), x, c);
      SpliceSection(l, x, v);
      SectionedSetInner(l, x, v);
      assert Fold(l, Op(sections, x)) == Fold(SetInnerAt(l, Begin(x), v), []);
    }
  }

  /** mergeSections on a sectioned template assigns the provided sections' regions. */
  lemma MergeLayout(l: Layout, sections: map<string, string>)
    requires Sectioned(l) && Plain(sections)
    ensures Merge(Render(l), sections) == Render(Fold(l, Ops(sections)))
    ensures Sectioned(Fold(l, Ops(sections)))
  {
    var a := Op(sections, Summary);
    var b := Op(sections, Skills);
    var c := Op(sections, Projects);
    StepLayout(l, sections, Summary);
    StepLayout(Fold(l, a), sections, Skills);
    StepLayout(Fold(Fold(l, a), b), sections, Projects);
    FoldAppend(l, a, b);
    FoldAppend(l, a + b, c);
  }

  /** The last assignment `Ops` makes to a section's region is its provided content, framed. */
  lemma LastForOps(sections: map<string, string>, x: Section)
    ensures LastFor(Ops(sections), Begin(x)) ==
      if Provided(sections, x) then Some("\n" + sections[Key(x)] + "\n") else None
  {
    MarkersDistinct();
    forall y
      ensures LastFor(Op(sections, y), Begin(x)) ==
        if y == x && Provided(sections, x) then Some("\n" + sections[Key(x)] + "\n") else None
    {
      if Provided(sections, y) {
        assert Op(sections, y)[1..] == [];
      }
    }
    LastForAppend(Op(sections, Summary), Op(sections, Skills), Begin(x));
    LastForAppend(Op(sections, Summary) + Op(sections, Skills), Op(sections, Projects), Begin(x));
  }

  /**
   * Frame of a whole merge: the text outside the section regions, the markers and the regions of
   * sections not provided stay as they were; each provided section's region holds its content.
   */
  lemma MergeRegions(l: Layout, sections: map<string, string>)
    requires Sectioned(l) && Plain(sections)
    ensures var l' := Fold(l, Ops(sections));
      && Merge(Render(l), sections) == Render(l')
      && l'.head == l.head && |l'.regions| == |l.regions|
      && forall i, x :: 0 <= i < |l.regions| && l.regions[i].open == Begin(x) ==>
           l'.regions[i] == if Provided(sections, x) then l.regions[i].(inner := "\n" + sections[Key(x)] + "\n")
                            else l.regions[i]
  {
    MergeLayout(l, sections);
    FoldRegions(l, Ops(sections));
    forall x
      ensures LastFor(Ops(sections), Begin(x)) ==
        if Provided(sections, x) then Some("\n" + sections[Key(x)] + "\n") else None
    {
      LastForOps(sections, x);
    }
  }

  /**
   * Idempotence: merging the same sections a second time changes nothing, when the section spans
   * of the template do not nest and no content holds `$` or a marker token.
   */
  lemma MergeIdempotent(l: Layout, sections: map<string, string>)
    requires Sectioned(l) && Plain(sections)
    ensures Merge(Merge(Render(l), sections), sections) == Merge(Render(l), sections)
  {
    var l' := Fold(l, Ops(sections));
    MergeLayout(l, sections);
    MergeLayout(l', sections);
    FoldIdempotent(l, Ops(sections));
  }

  // ---------------------------------------------------------------------------------------------
  // extractSections

  /** The markers stand on their own lines around some text: `Begin(x) + "\n" ... "\n" + End(x)`. */
  ghost predicate OnOwnLines(t: string, x: Section)
  {
    exists p, q :: IsPairAt(t, Begin(x) + "\n", "\n" + End(x), p, q)
  }

  /**
   * `template.match(/% MARKER_BEGIN_X\n([\s\S]*?)\n% MARKER_END_X/)`, then the trimmed capture,
   * or null when there is no match.
   */
  function ExtractOne(t: string, x: Section): (r: Option<string>)
    ensures r.Some? <==> OnOwnLines(t, x)
    ensures r.Some? ==> Trimmed(r.value)
    ensures r.Some? ==> exists p, q ::
        FirstPairAt(t, Begin(x) + "\n", "\n" + End(x), p, q) && r.value == Trim(t[p + |Begin(x)| + 1..q])
  {
    match CaptureLines(t, Begin(x), End(x))
    case None => None
    case Some(c) => Some(Trim(c))
  }

  datatype Extracted = Extracted(summary: Option<string>, skills: Option<string>, projects: Option<string>)
  {
    function Get(x: Section): Option<string>
    {
      match x
      case Summary => summary
      case Skills => skills
      case Projects => projects
    }
  }

  function ExtractSections(t: string): (r: Extracted)
    ensures forall x :: r.Get(x).Some? <==> OnOwnLines(t, x)
    ensures forall x :: r.Get(x).Some? ==> Trimmed(r.Get(x).value)
    ensures forall x :: r.Get(x).Some? ==> exists p, q ::
        FirstPairAt(t, Begin(x) + "\n", "\n" + End(x), p, q) && r.Get(x).value == Trim(t[p + |Begin(x)| + 1..q])
  {
    var r := Extracted(ExtractOne(t, Summary), ExtractOne(t, Skills), ExtractOne(t, Projects));
    assert forall x :: r.Get(x) == ExtractOne(t, x) by {
      forall x
        ensures r.Get(x) == ExtractOne(t, x)
      {
      }
    }
    r
  }

  /**
   * The text between a begin marker and the end marker after it, each on its own line, reads back
   * trimmed when nothing before holds that begin marker and the text holds no end marker.
   */
  lemma ExtractFramed(s: string, before: string, x: Section, c: string, after: string)
    requires s == before + (Begin(x) + ("\n" + (c + ("\n" + (End(x) + after)))))
    requires !Contains(before, Begin(x)) && !Contains(c, End(x))
    ensures ExtractOne(s, x) == Some(Trim(c))
  {
    SectionAnchors(x);
    CaptureFramed(before, Begin(x), c, End(x), after);
  }

  /**
   * Round trip for one section: merging content `c` under its key into a template that holds the
   * section's marker pair, and extracting it again, gives `c` trimmed.
   */
  lemma RoundTrip(t: string, x: Section, c: string)
    requires FindPair(t, Begin(x), End(x)).Some?
    requires c != "" && '$' !in c && !Contains(c, End(x))
    ensures ExtractOne(Merge(t, map[Key(x) := c]), x) == Some(Trim(c))
  {
    MergedSplice(t, x, c);
    ExtractSpliced(t, x, c);
  }

  /** Extracting a section spliced in between newlines gives it back trimmed. */
  lemma ExtractSpliced(t: string, x: Section, c: string)
    requires FindPair(t, Begin(x), End(x)).Some? && !Contains(c, End(x))
    ensures ExtractOne(Splice(t, Begin(x), End(x), "\n" + c + "\n"), x) == Some(Trim(c))
  {
    var m := FindPair(t, Begin(x), End(x)).value;
    var s := Splice(t, Begin(x), End(x), "\n" + c + "\n");
    SpliceNested(t, Begin(x), End(x), c, m);
    FindPairFirstOpen(t, Begin(x), End(x));
    ExtractFramed(s, t[..m.start], x, c, t[m.close + |End(x)|..]);
  }

  /** A `$`-free section merged on its own is spliced between its markers. */
  lemma MergedSplice(t: string, x: Section, c: string)
    requires c != "" && '$' !in c
    ensures Merge(t, map[Key(x) := c]) == Splice(t, Begin(x), End(x), "\n" + c + "\n")
  {
    MergeSingle(t, x, c);
    ReplaceMarkedShape(t, x, c);
  }

  /** Merging a single provided section is that section's replacement alone. */
  lemma MergeSingle(t: string, x: Section, c: string)
    requires c != ""
    ensures Merge(t, map[Key(x) := c]) == ReplaceMarked(t, x, c)
  {
    var sections := map[Key(x) := c];
    forall y | y != x
      ensures !Provided(sections, y)
    {
      assert Key(y) != Key(x);
    }
  }

  /** The template has a region for section `x`. */
  ghost predicate HasSection(l: Layout, x: Section)
  {
    exists k :: 0 <= k < |l.regions| && l.regions[k].open == Begin(x)
  }

  /** After a merge, a provided section's region holds its content between newlines. */
  lemma MergedRegion(l: Layout, sections: map<string, string>, x: Section, k: nat)
    requires Sectioned(l) && Plain(sections) && Provided(sections, x)
    requires k < |l.regions| && l.regions[k].open == Begin(x)
    ensures k < |Fold(l, Ops(sections)).regions|
    ensures Fold(l, Ops(sections)).regions[k]
         == Region(Begin(x), "\n" + sections[Key(x)] + "\n", End(x), l.regions[k].tail)
  {
    MergeRegions(l, sections);
    var y := RegionSection(l, k);
    MarkersDistinct();
  }

  /**
   * Round trip for a whole merge: after merging, every provided section whose region the template
   * has reads back as its content, trimmed.
   */
  lemma RoundTripLayout(l: Layout, sections: map<string, string>, x: Section)
    requires Sectioned(l) && Plain(sections) && Provided(sections, x) && HasSection(l, x)
    ensures ExtractOne(Merge(Render(l), sections), x) == Some(Trim(sections[Key(x)]))
  {
    var c := sections[Key(x)];
    var l' := Fold(l, Ops(sections));
    var k :| 0 <= k < |l.regions| && l.regions[k].open == Begin(x);
    MergedRegion(l, sections, x, k);
    assert Merge(Render(l), sections) == Render(l') by {
      MergeLayout(l, sections);
    }
    var before := Before(l', k);
    var after := After(l', k);
    assert Render(l') == before + (Begin(x) + ("\n" + (c + ("\n" + (End(x) + after))))) by {
      LayoutSplit(l', k);
      Regroup(before, Begin(x), "\n", c, End(x), after);
    }
    assert !Contains(before, Begin(x)) by {
      MergeLayout(l, sections);
      BeforeAvoids(l', Markers, k);
    }
    assert !Contains(c, End(x)) by {
      SectionMarkers();
    }
    ExtractFramed(Render(l'), before, x, c, after);
  }

  // ---------------------------------------------------------------------------------------------
  // validateMarkers

  datatype Validation = Validation(valid: bool, missingMarkers: seq<string>)

  /** `a` is `b` with some elements left out, the rest in the same order. */
  predicate IsSubsequence(a: seq<string>, b: seq<string>)
    decreases |b|
  {
    if a == [] then true
    else if b == [] then false
    else (a[0] == b[0] && IsSubsequence(a[1..], b[1..])) || IsSubsequence(a, b[1..])
  }

  /** `names.filter(n => !t.includes("% " + n))`. */
  function Missing(t: string, names: seq<string>): (r: seq<string>)
    ensures forall n :: n in r <==> n in names && !Contains(t, "% " + n)
    ensures IsSubsequence(r, names)
    ensures forall n :: multiset(r)[n] == if Contains(t, "% " + n) then 0 else multiset(names)[n]
  {
    if names == [] then []
    else
      var rest := Missing(t, names[1..]);
      assert names == [names[0]] + names[1..];
      if Contains(t, "% " + names[0]) then rest
      else
        assert ([names[0]] + rest)[1..] == rest;
        [names[0]] + rest
  }

  /** Every section's two marker names are among the required ones. */
  lemma RequiredNames()
    ensures forall x :: BeginName(x) in RequiredMarkers && EndName(x) in RequiredMarkers
    ensures forall n :: n in RequiredMarkers ==> exists x :: n == BeginName(x) || n == EndName(x)
  {
    forall n | n in RequiredMarkers
      ensures exists x :: n == BeginName(x) || n == EndName(x)
    {
      if n == RequiredMarkers[0] || n == RequiredMarkers[1] {
        assert n == BeginName(Summary) || n == EndName(Summary);
      } else if n == RequiredMarkers[2] || n == RequiredMarkers[3] {
        assert n == BeginName(Skills) || n == EndName(Skills);
      } else {
        assert n == BeginName(Projects) || n == EndName(Projects);
      }
    }
    forall x
      ensures BeginName(x) in RequiredMarkers && EndName(x) in RequiredMarkers
    {
      match x
      case Summary => assert RequiredMarkers[0] == BeginName(x) && RequiredMarkers[1] == EndName(x);
      case Skills => assert RequiredMarkers[2] == BeginName(x) && RequiredMarkers[3] == EndName(x);
      case Projects => assert RequiredMarkers[4] == BeginName(x) && RequiredMarkers[5] == EndName(x);
    }
  }

  /** No name is missing exactly when both markers of every section occur. */
  lemma AllPresent(t: string)
    ensures Missing(t, RequiredMarkers) == [] <==> forall x :: Contains(t, Begin(x)) && Contains(t, End(x))
  {
    var missing := Missing(t, RequiredMarkers);
    RequiredNames();
    if missing == [] {
      forall x
        ensures Contains(t, Begin(x)) && Contains(t, End(x))
      {
        assert BeginName(x) !in missing && EndName(x) !in missing;
      }
    } else {
      var n := missing[0];
      assert n in missing;
      var x :| n == BeginName(x) || n == EndName(x);
      assert !(Contains(t, Begin(x)) && Contains(t, End(x)));
    }
  }

  function ValidateMarkers(t: string): (r: Validation)
    ensures r.valid <==> r.missingMarkers == []
    ensures r.valid <==> forall x :: Contains(t, Begin(x)) && Contains(t, End(x))
    ensures forall n :: n in r.missingMarkers <==> n in RequiredMarkers && !Contains(t, "% " + n)
    ensures IsSubsequence(r.missingMarkers, RequiredMarkers)
  {
    var missing := Missing(t, RequiredMarkers);
    AllPresent(t);
    Validation(|missing| == 0, missing)
  }

  /** `names.filter(...)` keeps every name when none of the tokens occurs. */
  lemma {:induction false} MissingAll(t: string, names: seq<string>)
    requires forall n :: n in names ==> !Contains(t, "% " + n)
    ensures Missing(t, names) == names
  {
    if names != [] {
      assert names[0] in names;
      MissingAll(t, names[1..]);
      assert names == [names[0]] + names[1..];
    }
  }

  /** An empty template misses all six markers, reported in the fixed order. */
  lemma EmptyTemplateMissesAll()
    ensures ValidateMarkers("") == Validation(false, RequiredMarkers)
  {
    MissingAll("", RequiredMarkers);
  }

  /** A template lacking only the skills end marker reports exactly that name. */
  lemma OnlyEndSkillsMissing(t: string)
    requires forall x :: Contains(t, Begin(x))
    requires Contains(t, End(Summary)) && Contains(t, End(Projects)) && !Contains(t, End(Skills))
    ensures ValidateMarkers(t) == Validation(false, [EndName(Skills)])
  {
    var r := RequiredMarkers;
    assert Missing(t, r[5..]) == [] by {
      assert "% " + r[5] == End(Projects);
      assert r[5..][1..] == [];
    }
    assert Missing(t, r[4..]) == [] by {
      assert "% " + r[4] == Begin(Projects) && Contains(t, Begin(Projects));
      assert r[4..][1..] == r[5..];
    }
    assert Missing(t, r[3..]) == [r[3]] by {
      assert "% " + r[3] == End(Skills);
      assert r[3..][1..] == r[4..];
    }
    assert Missing(t, r[2..]) == [r[3]] by {
      assert "% " + r[2] == Begin(Skills) && Contains(t, Begin(Skills));
      assert r[2..][1..] == r[3..];
    }
    assert Missing(t, r[1..]) == [r[3]] by {
      assert "% " + r[1] == End(Summary);
      assert r[1..][1..] == r[2..];
    }
    assert Missing(t, r) == [r[3]] by {
      assert "% " + r[0] == Begin(Summary) && Contains(t, Begin(Summary));
    }
  }

  /** Presence only: the six markers in the wrong order (every end before its begin) still validate. */
  lemma ReversedMarkersValidate()
    ensures ValidateMarkers(Reversed()).valid
  {
    SixPieces(End(Summary), Begin(Summary), End(Skills), Begin(Skills), End(Projects), Begin(Projects));
    var t := Reversed();
    assert forall x :: Contains(t, Begin(x)) && Contains(t, End(x)) by {
      forall x
        ensures Contains(t, Begin(x)) && Contains(t, End(x))
      {
        match x
        case Summary =>
        case Skills =>
        case Projects =>
      }
    }
  }

  /** The six markers, each section's end marker before its begin marker. */
  function Reversed(): string
  {
    End(Summary) + Begin(Summary) + End(Skills) + Begin(Skills) + End(Projects) + Begin(Projects)
  }

  /** Each of six pieces occurs in their concatenation. */
  lemma SixPieces(a: string, b: string, c: string, d: string, e: string, f: string)
    ensures var t := a + b + c + d + e + f;
      Contains(t, a) && Contains(t, b) && Contains(t, c) && Contains(t, d) && Contains(t, e) && Contains(t, f)
  {
    var t := a + b + c + d + e + f;
    assert t == [] + a + (b + c + d + e + f);
    Middle([], a, b + c + d + e + f);
    assert t == a + b + (c + d + e + f);
    Middle(a, b, c + d + e + f);
    assert t == (a + b) + c + (d + e + f);
    Middle(a + b, c, d + e + f);
    assert t == (a + b + c) + d + (e + f);
    Middle(a + b + c, d, e + f);
    Middle(a + b + c + d, e, f);
    assert t == (a + b + c + d + e) + f + [];
    Middle(a + b + c + d + e, f, []);
  }

  lemma Middle(a: string, k: string, b: string)
    ensures Contains(a + k + b, k)
  {
    assert (a + k + b)[|a|..|a| + |k|] == k;
    assert At(a + k + b, k, |a|);
  }
}
