/**
 * src/utils/latexTemplateProcessor.js: the alternative marker processor. Sections are framed by
 * `% BEGIN_X` / `% END_X` comment lines for X in SKILLS, EXPERIENCE, PROJECTS, SUMMARY.
 */
module LatexTemplateProcessor {
  import opened Wrappers
  import opened Strings
  import opened RegexReplace
  import opened Layouts

  datatype Section = Skills | Experience | Projects | Summary

  /** The key of a section in the `SECTIONS` table. */
  function Name(x: Section): string
  {
    match x
    case Skills => "SKILLS"
    case Experience => "EXPERIENCE"
    case Projects => "PROJECTS"
    case Summary => "SUMMARY"
  }

  function Start(x: Section): string
  {
    "% BEGIN_" + Name(x)
  }

  function End(x: Section): string
  {
    "% END_" + Name(x)
  }

  /** An entry of the `SECTIONS` table. */
  datatype MarkerPair = MarkerPair(start: string, end: string)

  /**
   * `SECTIONS[key]`: the marker pair of a known key, None (undefined) for any other. Each entry is
   * `% BEGIN_` and `% END_` followed by the key itself.
   */
  function Sections(key: string): (r: Option<MarkerPair>)
    ensures r.Some? <==> exists x :: key == Name(x)
    ensures forall x :: key == Name(x) ==> r == Some(MarkerPair(Start(x), End(x)))
  {
    if key == "SKILLS" then
      assert key == Name(Skills) && Start(Skills) == "% BEGIN_SKILLS" && End(Skills) == "% END_SKILLS";
      Some(MarkerPair("% BEGIN_SKILLS", "% END_SKILLS"))
    else if key == "EXPERIENCE" then
      assert key == Name(Experience) && Start(Experience) == "% BEGIN_EXPERIENCE" && End(Experience) == "% END_EXPERIENCE";
      Some(MarkerPair("% BEGIN_EXPERIENCE", "% END_EXPERIENCE"))
    else if key == "PROJECTS" then
      assert key == Name(Projects) && Start(Projects) == "% BEGIN_PROJECTS" && End(Projects) == "% END_PROJECTS";
      Some(MarkerPair("% BEGIN_PROJECTS", "% END_PROJECTS"))
    else if key == "SUMMARY" then
      assert key == Name(Summary) && Start(Summary) == "% BEGIN_SUMMARY" && End(Summary) == "% END_SUMMARY";
      Some(MarkerPair("% BEGIN_SUMMARY", "% END_SUMMARY"))
    else None
  }

  /** All eight marker tokens. */
  const Markers: set<string> :=
    {Start(Skills), End(Skills), Start(Experience), End(Experience),
     Start(Projects), End(Projects), Start(Summary), End(Summary)}

  /** A capital-letter name behind a `% ` prefix of capitals and `_` makes a comment anchor. */
  lemma PrefixedAnchor(prefix: string, name: string)
    requires |prefix| >= 2 && prefix[..2] == "% "
    requires forall i :: 2 <= i < |prefix| ==> 'A' <= prefix[i] <= 'Z' || prefix[i] == '_'
    requires forall i :: 0 <= i < |name| ==> 'A' <= name[i] <= 'Z'
    ensures Anchor(prefix + name)
  {
    var k := prefix + name;
    assert k[0] == prefix[0] == '%';
    assert forall i :: |prefix| <= i < |k| ==> k[i] == name[i - |prefix|];
    assert forall i :: 1 <= i < |prefix| ==> k[i] == prefix[i] && prefix[i] != '%';
    assert forall i :: 1 <= i < |k| ==> k[i] != '%' && k[i] != '\n' && k[i] != '$';
  }

  lemma SectionAnchors(x: Section)
    ensures Anchor(Start(x)) && Anchor(End(x))
  {
    PrefixedAnchor("% BEGIN_", Name(x));
    PrefixedAnchor("% END_", Name(x));
  }

  /** Start and end markers differ at `B`/`E`; the first letters of the names (or the second,
    * for SKILLS and SUMMARY) tell the rest apart. */
  lemma SectionsPrefixFree(x: Section, y: Section)
    ensures !IsPrefix(Start(x), End(y)) && !IsPrefix(End(y), Start(x))
    ensures x != y ==> !IsPrefix(Start(x), Start(y)) && !IsPrefix(End(x), End(y))
  {
    assert Start(x)[2] == 'B' && End(y)[2] == 'E';
    DifferAt(Start(x), End(y), 2);
    if x != y {
      if (x == Skills && y == Summary) || (x == Summary && y == Skills) {
        assert Start(x)[9] != Start(y)[9] && End(x)[7] != End(y)[7];
        DifferAt(Start(x), Start(y), 9);
        DifferAt(End(x), End(y), 7);
      } else {
        assert Start(x)[8] != Start(y)[8] && End(x)[6] != End(y)[6];
        DifferAt(Start(x), Start(y), 8);
        DifferAt(End(x), End(y), 6);
      }
    }
  }

  /** Every marker token is the start or the end marker of a section. */
  lemma MarkerOf(a: string)
    requires a in Markers
    ensures exists x :: a == Start(x) || a == End(x)
  {
    if a == Start(Skills) || a == End(Skills) {
      assert a == Start(Skills) || a == End(Skills);
    } else if a == Start(Experience) || a == End(Experience) {
      assert a == Start(Experience) || a == End(Experience);
    } else if a == Start(Projects) || a == End(Projects) {
      assert a == Start(Projects) || a == End(Projects);
    } else {
      assert a == Start(Summary) || a == End(Summary);
    }
  }

  /** Start markers are told apart from end markers and from each other. */
  lemma MarkersDistinct()
    ensures forall x, y :: Start(x) != End(y)
    ensures forall x, y :: Start(x) == Start(y) ==> x == y
    ensures forall x, y :: End(x) == End(y) ==> x == y
  {
    forall x, y
      ensures Start(x) != End(y)
      ensures x != y ==> Start(x) != Start(y) && End(x) != End(y)
    {
      SectionsPrefixFree(x, y);
    }
  }

  lemma SectionMarkers()
    ensures forall x :: Start(x) in Markers && End(x) in Markers
  {
    forall x
      ensures Start(x) in Markers && End(x) in Markers
    {
      match x
      case Skills =>
      case Experience =>
      case Projects =>
      case Summary =>
    }
  }

  /** The marker tokens are comment anchors, none a prefix of another. */
  lemma MarkersAreAnchors()
    ensures AnchorSet(Markers)
  {
    forall a | a in Markers
      ensures Anchor(a)
    {
      MarkerOf(a);
      var x :| a == Start(x) || a == End(x);
      SectionAnchors(x);
    }
    forall a, b | a in Markers && b in Markers && a != b
      ensures !IsPrefix(a, b)
    {
      MarkerOf(a);
      MarkerOf(b);
      var x :| a == Start(x) || a == End(x);
      var y :| b == Start(y) || b == End(y);
      SectionsPrefixFree(x, y);
      SectionsPrefixFree(y, x);
    }
  }

  /** Capital letters only. */
  predicate Capitals(s: string)
  {
    forall i :: 0 <= i < |s| ==> 'A' <= s[i] <= 'Z'
  }

  lemma NameCapitals(x: Section)
    ensures Capitals(Name(x))
  {
  }

  /** A prefix without special characters followed by capitals is left alone by the escaping. */
  lemma EscapePlain(prefix: string, name: string)
    requires forall i :: 0 <= i < |prefix| ==> !IsRegexSpecial(prefix[i])
    requires Capitals(name)
    ensures RegexEscape(prefix + name) == prefix + name
  {
    PlainConcat(prefix, name);
  }

  lemma PlainConcat(prefix: string, name: string)
    requires forall i :: 0 <= i < |prefix| ==> !IsRegexSpecial(prefix[i])
    requires Capitals(name)
    ensures forall i :: 0 <= i < |prefix + name| ==> !IsRegexSpecial((prefix + name)[i])
  {
    var k := prefix + name;
    forall i | 0 <= i < |k|
      ensures !IsRegexSpecial(k[i])
    {
      if i >= |prefix| {
        assert k[i] == name[i - |prefix|];
      }
    }
  }

  /**
   * The escaping of the markers before they are put into the pattern leaves them as they are:
   * they hold no regular-expression special character, so the pattern matches them literally.
   */
  lemma EscapeIsIdentity(x: Section)
    ensures RegexEscape(Start(x)) == Start(x) && RegexEscape(End(x)) == End(x)
  {
    NameCapitals(x);
    assert forall i :: 0 <= i < |"% BEGIN_"| ==> !IsRegexSpecial("% BEGIN_"[i]);
    assert forall i :: 0 <= i < |"% END_"| ==> !IsRegexSpecial("% END_"[i]);
    EscapePlain("% BEGIN_", Name(x));
    EscapePlain("% END_", Name(x));
  }

  // ---------------------------------------------------------------------------------------------
  // replaceSection

  /**
   * `replaceSection(template, key, content)`: an unknown key is an error (the function throws);
   * when no start marker is followed by its end marker the template comes back unchanged;
   * otherwise the first `(start)([\s\S]*?)(end)` match is replaced by `"$1\n" + content + "\n$3"`.
   */
  function ReplaceSection(t: string, key: string, content: string): (r: Result<string, string>)
    ensures r.Err? <==> Sections(key).None?
    ensures r.Ok? && FindPair(t, Sections(key).value.start, Sections(key).value.end).None? ==> r.value == t
  {
    match Sections(key)
    case None => Err("Unknown section key: " + key)
    case Some(markers) =>
      if FindPair(t, markers.start, markers.end).None? then Ok(t)
      else Ok(ReplaceFirst(t, markers.start, markers.end, "$1\n" + content + "\n$3", true))
  }

  /**
   * For a known key: the markers are kept, the span between them becomes "\n" + the expanded
   * content + "\n", and the text before the first start marker and after the nearest end marker
   * is unchanged. Content without `$` is spliced literally.
   */
  lemma ReplaceSectionShape(t: string, x: Section, content: string)
    ensures ReplaceSection(t, Name(x), content).Ok?
    ensures FindPair(t, Start(x), End(x)).None? ==> ReplaceSection(t, Name(x), content) == Ok(t)
    ensures FindPair(t, Start(x), End(x)).Some? ==>
      var m := FindPair(t, Start(x), End(x)).value;
      ReplaceSection(t, Name(x), content) ==
        Ok(t[..m.start] + Start(x) + "\n" + Expand(content, Info(t, m, Start(x), End(x), true)) + "\n" + End(x)
           + t[m.close + |End(x)|..])
    ensures '$' !in content ==> ReplaceSection(t, Name(x), content) == Ok(Splice(t, Start(x), End(x), "\n" + content + "\n"))
  {
    ReplaceSectionKnown(t, x, content);
    ReplaceGrouped(t, Start(x), End(x), content);
  }

  /** For a known key the explicit test for the markers agrees with the replacement's own. */
  lemma ReplaceSectionKnown(t: string, x: Section, content: string)
    ensures ReplaceSection(t, Name(x), content) == Ok(ReplaceFirst(t, Start(x), End(x), "$1\n" + content + "\n$3", true))
  {
    assert Sections(Name(x)) == Some(MarkerPair(Start(x), End(x)));
  }

  /**
   * Content is a replacement pattern with the three groups in scope: content `$1` puts a second
   * copy of the start marker between the markers.
   */
  lemma StartMarkerCopied(t: string, x: Section)
    requires FindPair(t, Start(x), End(x)).Some?
    ensures var m := FindPair(t, Start(x), End(x)).value;
      ReplaceSection(t, Name(x), "$1") ==
        Ok(t[..m.start] + Start(x) + "\n" + Start(x) + "\n" + End(x) + t[m.close + |End(x)|..])
  {
    var m := FindPair(t, Start(x), End(x)).value;
    ReplaceSectionShape(t, x, "$1");
    FindPairLeftmost(t, Start(x), End(x));
    ExpandFirstGroup(Info(t, m, Start(x), End(x), true));
  }

  /** Empty content is not skipped: the span between the markers becomes exactly "\n\n". */
  lemma ReplaceSectionEmpty(t: string, x: Section)
    ensures ReplaceSection(t, Name(x), "") == Ok(Splice(t, Start(x), End(x), "\n\n"))
  {
    ReplaceSectionShape(t, x, "");
    assert "\n" + "" + "\n" == "\n\n";
  }

  /** Replacing a section a second time with the same content changes nothing. */
  lemma ReplaceSectionIdempotent(t: string, x: Section, content: string)
    requires '$' !in content && !Contains(content, End(x))
    ensures var once := ReplaceSection(t, Name(x), content).value;
      ReplaceSection(once, Name(x), content) == Ok(once)
  {
    var v := "\n" + content + "\n";
    var once := ReplaceSection(t, Name(x), content).value;
    ReplaceSectionShape(t, x, content);
    ReplaceSectionShape(once, x, content);
    SectionAnchors(x);
    FramedAvoids(content, End(x));
    SpliceIdempotent(t, Start(x), End(x), v);
  }

  // ---------------------------------------------------------------------------------------------
  // mergeSections

  /**
   * One iteration of mergeSections for the entry `(key, content)`: the key is upper-cased, and a
   * key that is not in `SECTIONS` leaves the document as it is; a known key is handed to
   * replaceSection, which then cannot fail.
   */
  function MergeEntry(t: string, entry: (string, string)): (r: string)
    ensures Sections(ToUpper(entry.0)).None? ==> r == t
    ensures Sections(ToUpper(entry.0)).Some? ==> ReplaceSection(t, ToUpper(entry.0), entry.1) == Ok(r)
  {
    var upperKey := ToUpper(entry.0);
    if Sections(upperKey).Some? then ReplaceSection(t, upperKey, entry.1).value else t
  }

  /** The entries of the content map applied one after another, in iteration order. */
  function MergeAll(t: string, entries: seq<(string, string)>): string
    decreases |entries|
  {
    if entries == [] then t
    else MergeEntry(MergeAll(t, entries[..|entries| - 1]), entries[|entries| - 1])
  }

  /** `mergeSections(template, contentMap)`, the map given as its `Object.entries` sequence. */
  method MergeSections(template: string, contentMap: seq<(string, string)>) returns (currentTemplate: string)
    ensures currentTemplate == MergeAll(template, contentMap)
  {
    currentTemplate := template;
    for i := 0 to |contentMap|
      invariant currentTemplate == MergeAll(template, contentMap[..i])
    {
      var (key, content) := contentMap[i];
      var upperKey := ToUpper(key);
      if Sections(upperKey).Some? {
        var replaced := ReplaceSection(currentTemplate, upperKey, content);
        currentTemplate := replaced.value;
      }
      assert contentMap[..i + 1][..i] == contentMap[..i];
    }
    assert contentMap[..|contentMap|] == contentMap;
  }

  /** Merging `a` and then `b` is merging `a + b`. */
  lemma {:induction false} MergeAllAppend(t: string, a: seq<(string, string)>, b: seq<(string, string)>)
    ensures MergeAll(t, a + b) == MergeAll(MergeAll(t, a), b)
    decreases |b|
  {
    if b == [] {
      assert a + b == a;
    } else {
      var n := |b| - 1;
      assert (a + b)[..|a + b| - 1] == a + b[..n];
      assert (a + b)[|a + b| - 1] == b[n];
      MergeAllAppend(t, a, b[..n]);
    }
  }

  /** Entries whose keys are not sections, in any case, leave the document unchanged. */
  lemma {:induction false} MergeAllUnknown(t: string, entries: seq<(string, string)>)
    requires forall i :: 0 <= i < |entries| ==> Sections(ToUpper(entries[i].0)).None?
    ensures MergeAll(t, entries) == t
    decreases |entries|
  {
    if entries != [] {
      MergeAllUnknown(t, entries[..|entries| - 1]);
    }
  }

  /** Keys are matched case-insensitively: an entry acts as its upper-cased key would. */
  lemma MergeEntryUpper(t: string, key: string, content: string)
    ensures MergeEntry(t, (key, content)) == MergeEntry(t, (ToUpper(key), content))
  {
    ToUpperIdempotent(key);
  }

  // ---------------------------------------------------------------------------------------------
  // mergeSections on a template laid out in sections

  /**
   * A template made of section regions, in any order, each framed by the start and end marker of
   * one section, each section at most once, and no marker token anywhere else.
   */
  ghost predicate Sectioned(l: Layout)
  {
    && WellFormed(l, Markers)
    && forall i :: 0 <= i < |l.regions| ==>
         exists x :: l.regions[i].open == Start(x) && l.regions[i].close == End(x)
  }

  /** Entry contents free of `$` and of marker tokens. */
  ghost predicate Plain(entries: seq<(string, string)>)
  {
    forall i :: 0 <= i < |entries| ==> '$' !in entries[i].1 && Clean(entries[i].1, Markers)
  }

  /** The region assignment one entry makes, if its key names a section. */
  function Op(entry: (string, string)): seq<(string, string)>
  {
    match Sections(ToUpper(entry.0))
    case None => []
    case Some(markers) => [(markers.start, "\n" + entry.1 + "\n")]
  }

  function Ops(entries: seq<(string, string)>): seq<(string, string)>
    decreases |entries|
  {
    if entries == [] then [] else Ops(entries[..|entries| - 1]) + Op(entries[|entries| - 1])
  }

  /** Region `i` of a sectioned template belongs to section `x`. */
  lemma RegionSection(l: Layout, i: nat) returns (x: Section)
    requires Sectioned(l) && i < |l.regions|
    ensures l.regions[i].open == Start(x) && l.regions[i].close == End(x)
  {
    x :| l.regions[i].open == Start(x) && l.regions[i].close == End(x);
  }

  /** Giving one section new inner text keeps the template sectioned. */
  lemma SectionedSetInner(l: Layout, x: Section, v: string)
    requires Sectioned(l) && Clean(v, Markers)
    ensures Sectioned(SetInnerAt(l, Start(x), v))
  {
    var l' := SetInnerAt(l, Start(x), v);
    SetInnerWellFormed(l, Markers, Start(x), v);
    forall i | 0 <= i < |l'.regions|
      ensures exists y :: l'.regions[i].open == Start(y) && l'.regions[i].close == End(y)
    {
      var y := RegionSection(l, i);
      assert l'.regions[i].open == Start(y) && l'.regions[i].close == End(y);
    }
  }

  /** On a sectioned template, the literal splice of section `x` sets that region's inner text. */
  lemma SpliceSection(l: Layout, x: Section, v: string)
    requires Sectioned(l) && Clean(v, Markers)
    ensures Splice(Render(l), Start(x), End(x), v) == Render(SetInnerAt(l, Start(x), v))
  {
    MarkersDistinct();
    SectionMarkers();
    forall i | 0 <= i < |l.regions|
      ensures l.regions[i].close != Start(x)
      ensures l.regions[i].open == Start(x) ==> l.regions[i].close == End(x)
    {
      var y := RegionSection(l, i);
    }
    SpliceLayout(l, Markers, Start(x), End(x), v);
  }

  /** One entry of mergeSections on a sectioned template is the region assignment `Op`. */
  lemma StepLayout(l: Layout, entry: (string, string))
    requires Sectioned(l) && '$' !in entry.1 && Clean(entry.1, Markers)
    ensures MergeEntry(Render(l), entry) == Render(Fold(l, Op(entry)))
    ensures Sectioned(Fold(l, Op(entry)))
  {
    var key := ToUpper(entry.0);
    if Sections(key).Some? {
      var x :| key == Name(x);
      var c := entry.1;
      var v := "\n" + c + "\n";
      MarkersAreAnchors();
      CleanFramed(c, Markers);
      ReplaceSectionShape(Render(l), x, c);
      SpliceSection(l, x, v);
      SectionedSetInner(l, x, v);
      assert Fold(l, Op(entry)) == Fold(SetInnerAt(l, Start(x), v), []);
    }
  }

  /** mergeSections on a sectioned template assigns the regions of the known keys, in order. */
  lemma {:induction false} MergeLayout(l: Layout, entries: seq<(string, string)>)
    requires Sectioned(l) && Plain(entries)
    ensures MergeAll(Render(l), entries) == Render(Fold(l, Ops(entries)))
    ensures Sectioned(Fold(l, Ops(entries)))
    decreases |entries|
  {
    if entries != [] {
      var front := entries[..|entries| - 1];
      var last := entries[|entries| - 1];
      assert Plain(front) by {
        forall i | 0 <= i < |front|
          ensures '$' !in front[i].1 && Clean(front[i].1, Markers)
        {
          assert front[i] == entries[i];
        }
      }
      MergeLayout(l, front);
      StepLayout(Fold(l, Ops(front)), last);
      FoldAppend(l, Ops(front), Op(last));
    }
  }

  /**
   * Frame of a whole merge: the text outside the section regions and all markers stay as they
   * were; each region holds the content of the last entry for its section, if there is one.
   */
  lemma MergeRegions(l: Layout, entries: seq<(string, string)>)
    requires Sectioned(l) && Plain(entries)
    ensures var l' := Fold(l, Ops(entries));
      && MergeAll(Render(l), entries) == Render(l')
      && l'.head == l.head && |l'.regions| == |l.regions|
      && forall i :: 0 <= i < |l.regions| ==>
           l'.regions[i] == Assign(l.regions[i], LastFor(Ops(entries), l.regions[i].open))
  {
    MergeLayout(l, entries);
    FoldRegions(l, Ops(entries));
  }

  /** Merging the same entries a second time changes nothing. */
  lemma MergeIdempotent(l: Layout, entries: seq<(string, string)>)
    requires Sectioned(l) && Plain(entries)
    ensures MergeAll(MergeAll(Render(l), entries), entries) == MergeAll(Render(l), entries)
  {
    var l' := Fold(l, Ops(entries));
    MergeLayout(l, entries);
    MergeLayout(l', entries);
    FoldIdempotent(l, Ops(entries));
  }

  /** The assignments of two entries are those of the first, then those of the second. */
  lemma OpsTwo(first: (string, string), second: (string, string))
    ensures Ops([first, second]) == Op(first) + Op(second)
    ensures Ops([second]) == Op(second)
  {
    assert [first, second][..1] == [first];
    assert [first][..0] == [] && [second][..0] == [];
    assert Ops([first]) == [] + Op(first) == Op(first);
    assert Ops([second]) == [] + Op(second) == Op(second);
  }

  /** Of two entries for the same section (in any case), the later one decides the content. */
  lemma LaterEntryWins(l: Layout, first: (string, string), second: (string, string))
    requires Sectioned(l) && Plain([first, second])
    requires ToUpper(first.0) == ToUpper(second.0)
    ensures MergeAll(Render(l), [first, second]) == MergeAll(Render(l), [second])
  {
    assert Plain([second]) by {
      assert [second][0] == [first, second][1];
    }
    MergeLayout(l, [first, second]);
    MergeLayout(l, [second]);
    OpsTwo(first, second);
    forall o
      ensures LastFor(Ops([first, second]), o) == LastFor(Ops([second]), o)
    {
      LastForAppend(Op(first), Op(second), o);
      SameKeyOps(first, second, o);
    }
    FoldLastWins(l, Ops([first, second]), Ops([second]));
  }

  /** Two entries for the same section assign the same region, if any. */
  lemma SameKeyOps(first: (string, string), second: (string, string), o: string)
    requires ToUpper(first.0) == ToUpper(second.0)
    ensures LastFor(Op(second), o).None? ==> LastFor(Op(first), o).None?
  {
    if Sections(ToUpper(first.0)).Some? {
      var markers := Sections(ToUpper(first.0)).value;
      assert Op(first) == [(markers.start, "\n" + first.1 + "\n")];
      assert Op(second) == [(markers.start, "\n" + second.1 + "\n")];
      assert Op(first)[1..] == [] && Op(second)[1..] == [];
    }
  }

  /** Entries for different sections can be applied in either order. */
  lemma EntriesCommute(l: Layout, first: (string, string), second: (string, string))
    requires Sectioned(l) && Plain([first, second])
    requires ToUpper(first.0) != ToUpper(second.0)
    ensures MergeAll(Render(l), [first, second]) == MergeAll(Render(l), [second, first])
  {
    assert Plain([second, first]) by {
      assert [second, first][0] == [first, second][1] && [second, first][1] == [first, second][0];
    }
    MergeLayout(l, [first, second]);
    MergeLayout(l, [second, first]);
    OpsCommute(first, second);
    FoldLastWins(l, Ops([first, second]), Ops([second, first]));
  }

  lemma OpsCommute(first: (string, string), second: (string, string))
    requires ToUpper(first.0) != ToUpper(second.0)
    ensures forall o :: LastFor(Ops([first, second]), o) == LastFor(Ops([second, first]), o)
  {
    OpsTwo(first, second);
    OpsTwo(second, first);
    forall o
      ensures LastFor(Op(first) + Op(second), o) == LastFor(Op(second) + Op(first), o)
    {
      LastForAppend(Op(first), Op(second), o);
      LastForAppend(Op(second), Op(first), o);
      OpsDisjoint(first, second, o);
    }
  }

  /** Entries for different sections never assign the same region. */
  lemma OpsDisjoint(first: (string, string), second: (string, string), o: string)
    requires ToUpper(first.0) != ToUpper(second.0)
    ensures LastFor(Op(first), o).None? || LastFor(Op(second), o).None?
  {
    MarkersDistinct();
    if Sections(ToUpper(first.0)).Some? && Sections(ToUpper(second.0)).Some? {
      var x :| ToUpper(first.0) == Name(x);
      var y :| ToUpper(second.0) == Name(y);
      assert Op(first) == [(Start(x), "\n" + first.1 + "\n")];
      assert Op(second) == [(Start(y), "\n" + second.1 + "\n")];
      assert Op(first)[1..] == [] && Op(second)[1..] == [];
      assert x != y;
    }
  }

  // ---------------------------------------------------------------------------------------------
  // validateLatex

  /** The number of occurrences of `c` in `s`: `(s.match(/c/g) || []).length`. */
  function CountChar(s: string, c: char): (n: nat)
    ensures n == multiset(s)[c]
  {
    if s == [] then 0
    else
      assert s == [s[0]] + s[1..];
      (if s[0] == c then 1 else 0) + CountChar(s[1..], c)
  }

  /** The condition under which validateLatex warns: as many `{` as `}` do not occur. */
  function UnbalancedBraces(s: string): (r: bool)
    ensures r <==> multiset(s)['{'] != multiset(s)['}']
  {
    CountChar(s, '{') != CountChar(s, '}')
  }

  /** `validateLatex(s)`: false for the empty string, true otherwise; unbalanced braces only warn. */
  function ValidateLatex(s: string): (r: bool)
    ensures r <==> s != ""
  {
    if s == "" then false
    else true
  }
}
