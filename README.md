# Template marker substitution, modelled in Dafny

The resume builder merges generated LaTeX into a user's template by text substitution between
comment markers. This project models that engine and proves properties of it. The engine exists
in two modules with different marker conventions, and they are kept apart here.

- `src/utils/templateProcessor.js` is the processor the wizard uses. It has three operations:
  - `mergeSections` replaces the span from `% MARKER_BEGIN_X` to the nearest following
    `% MARKER_END_X` by the two markers around the new content, each on its own line. It does this
    for SUMMARY, SKILLS and PROJECTS, in that order, and only for sections with non-empty content.
  - `extractSections` reads each section back, trimmed, when the markers stand on their own lines.
  - `validateMarkers` reports which of the six marker names are absent, in a fixed order.
- `src/utils/latexTemplateProcessor.js` is the alternative processor. Its markers are
  `% BEGIN_X` / `% END_X` for SKILLS, EXPERIENCE, PROJECTS and SUMMARY.
  - `replaceSection` fails on an unknown key. It returns the template unchanged when the marker
    pair is missing. Otherwise it replaces the span with `$1\n<content>\n$3`.
  - `mergeSections` walks the content map in iteration order, upper-cases each key and skips
    unknown keys.
  - `validateLatex` is a non-emptiness check that only warns about unbalanced braces.

Both processors substitute with `String.prototype.replace` and a regular expression. The model
captures that call exactly:

- the first match of the lazy pattern is the first begin marker and the nearest end marker after it
  (`RegexReplace.FindPair`, specified by `RegexReplace.FindPairLeftmost`);
- the replacement string goes through ECMAScript's `$`-pattern expansion (`RegexReplace.Expand`).

Content containing `$` is therefore not always inserted literally. For example, `$$` becomes `$`
(`TemplateProcessor.DollarsCollapse`). In the LaTeX module, `$1` copies the start marker
(`LatexTemplateProcessor.StartMarkerCopied`). The literal splice `RegexReplace.Splice` is the
reference definition. Both processors are proved equal to it for content without `$`.

Whole-merge laws (idempotence, round trip, last entry wins, commutation) are proved on templates
given as a `Layouts.Layout`:

- a head followed by section regions `open inner close tail`;
- each section appears at most once, and no marker token occurs anywhere else.

Markers are "anchors": a `%`, with no further `%`, newline or `$`. Within each convention no
marker is a prefix of another. Under these conditions every marker is found exactly where the
layout puts it. A merge therefore amounts to assigning inner texts to regions (`Layouts.Fold`).

Modules:

- `wrappers.dfy`: Option and Result.
- `strings.dfy`: `indexOf`/`includes`, `trim`, `toUpperCase`.
- `regex_replace.dfy`: the regex replacement and `$` expansion.
- `layouts.dfy`: sectioned templates.
- `template_processor.dfy`: the first processor.
- `latex_template_processor.dfy`: the second processor.

Where the code and its documentation differ, the model follows the code:

- Round trip and idempotence hold only under conditions:
  - the content has no `$` and contains no marker token;
  - the round trip also needs non-empty content, because empty content is skipped by
    `mergeSections`;
  - the template's marker spans do not nest.

  The lemmas carry these conditions as hypotheses. `DollarsCollapse` and `StartMarkerCopied`
  show inputs where the unconditional claims fail.
- For an unknown key, `replaceSection` surfaces an error: it throws in the code and returns `Err`
  in the model.

## Model

| member | source | states |
|---|---|---|
| Strings.IndexOfFirst | src/utils/templateProcessor.js:13 | the search finds the first occurrence of a pattern at or after a position: it occurs there and nowhere earlier; None means it occurs nowhere from there on |
| Strings.IndexOfIs | src/utils/templateProcessor.js:13 | conversely, an occurrence with none before it is the one the search returns |
| Strings.ContainsIffIndexOf | src/utils/templateProcessor.js:70 | `includes` holds exactly when the first-occurrence search finds the token |
| Strings.Trim | src/utils/templateProcessor.js:48 | `trim` returns text that neither starts nor ends with ECMAScript whitespace, and leaves already-trimmed text alone |
| Strings.TrimInfix | src/utils/templateProcessor.js:48 | `trim` keeps the infix of its input between a whitespace-only prefix and a whitespace-only suffix |
| Strings.ToUpper | src/utils/latexTemplateProcessor.js:76 | `toUpperCase` keeps the length and maps each character by its upper case |
| Strings.ToUpperIdempotent | src/utils/latexTemplateProcessor.js:76 | upper-casing an upper-cased key changes nothing |
| RegexReplace.FindPairLeftmost | src/utils/templateProcessor.js:13 | the lazy `open[\s\S]*?close` match is an occurrence of open followed by close, and it is the leftmost start with the nearest close; None exactly when no such pair exists |
| RegexReplace.FindPairFirstOpen | src/utils/templateProcessor.js:13 | the text before the match holds no begin marker |
| RegexReplace.SpliceFrame | src/utils/templateProcessor.js:12-15 | a splice keeps everything up to the end of the begin marker and from the end marker on, byte for byte |
| RegexReplace.ExpandNoDollar | src/utils/templateProcessor.js:14 | a replacement string without `$` is inserted as it is |
| RegexReplace.ExpandSplitAtNewline | src/utils/templateProcessor.js:14 | no `$` pattern reaches across a newline: a replacement splits into independently expanded parts at one |
| RegexReplace.ExpandFramed | src/utils/templateProcessor.js:14 | in `open\n<content>\nclose` only the content is subject to `$` expansion |
| RegexReplace.ExpandDoubleDollar | src/utils/templateProcessor.js:14 | on the replacement `a$$b`, for any match, the expansion is `a$b` |
| RegexReplace.ReplaceFramed | src/utils/templateProcessor.js:12-15 | the replace call leaves the text unchanged without a marker pair; otherwise it gives prefix + begin + `\n` + expanded content + `\n` + end + suffix, which is the literal splice for `$`-free content |
| RegexReplace.ExpandGroups | src/utils/latexTemplateProcessor.js:60 | `$1\n<content>\n$3` expands to group 1, newline, expanded content, newline, group 3 |
| RegexReplace.ReplaceGrouped | src/utils/latexTemplateProcessor.js:51-60 | with the three-group pattern the replacement keeps both markers and the surrounding text, expands only the content, and is the literal splice for `$`-free content |
| RegexReplace.RegexEscape | src/utils/latexTemplateProcessor.js:48-49 | escaping changes nothing in text without special characters, and never shortens it |
| Layouts.LocatePair | src/utils/templateProcessor.js:13 | in `x + open + m + close + y`, with no open in `x` and no close in `m`, the match is exactly that open and that close |
| Layouts.CaptureLines | src/utils/templateProcessor.js:43-45 | the `open\n([\s\S]*?)\nclose` match exists exactly when the markers occur on their own lines in that order; the capture is the text between the leftmost such begin marker and the nearest such end marker after it |
| Layouts.CaptureFramed | src/utils/templateProcessor.js:43-48 | the capture of `x + open\n c \nclose + y` is exactly `c` when `x` has no open marker and `c` no close marker |
| Layouts.SpliceIdempotent | src/utils/latexTemplateProcessor.js:51-60 | splicing the same inner text twice is splicing it once when that text holds no end marker |
| TemplateProcessor.MarkersAreAnchors | src/utils/templateProcessor.js:13-30 | the six marker tokens are comment anchors, none a prefix of another |
| TemplateProcessor.MarkersDistinct | src/utils/templateProcessor.js:60-67 | begin and end markers of all sections are pairwise different |
| TemplateProcessor.MergeSections | src/utils/templateProcessor.js:7-35 | the three conditional replacements compute the merge: summary, skills, projects, in that order |
| TemplateProcessor.ReplaceMarkedShape | src/utils/templateProcessor.js:11-16 | one section step keeps the text before the first begin marker and after the nearest end marker, keeps both markers and puts the content on its own lines between them; unchanged when there is no pair; the literal splice for `$`-free content |
| TemplateProcessor.WholeSection | src/utils/templateProcessor.js:11-16 | a template that is one marker pair becomes begin + `\n` + expanded content + `\n` + end |
| TemplateProcessor.DollarsCollapse | src/utils/templateProcessor.js:14 | merging content `a$$b` into a one-section template inserts `a$b` |
| TemplateProcessor.MergeStepNoOp | src/utils/templateProcessor.js:11-32 | a step with absent or empty content, no begin marker, or no end marker after the first begin leaves the document unchanged |
| TemplateProcessor.MergeReadsOnlySectionKeys | src/utils/templateProcessor.js:10-32 | keys other than summary, skills and projects, and empty contents, do not influence the merge |
| TemplateProcessor.MergeSingle | src/utils/templateProcessor.js:10-32 | merging a single non-empty section is that section's replacement alone |
| TemplateProcessor.StepLayout | src/utils/templateProcessor.js:11-16 | on a sectioned template one step assigns the section's region the framed content and keeps the template sectioned |
| TemplateProcessor.MergeLayout | src/utils/templateProcessor.js:7-35 | on a sectioned template the merge is the region assignment of the provided sections, in order |
| TemplateProcessor.LastForOps | src/utils/templateProcessor.js:10-32 | the merge assigns a section's region its framed content exactly when the section is provided |
| TemplateProcessor.MergeRegions | src/utils/templateProcessor.js:7-35 | frame: the head, the region count, all markers and all unprovided regions stay; each provided region holds `\n` + content + `\n` |
| TemplateProcessor.MergedRegion | src/utils/templateProcessor.js:11-32 | after the merge a provided section's region is its markers around the framed content, tail unchanged |
| TemplateProcessor.MergeIdempotent | src/utils/templateProcessor.js:7-35 | merging the same sections twice equals merging once |
| TemplateProcessor.ExtractOne | src/utils/templateProcessor.js:43-51 | a section reads back exactly when its markers sit on their own lines in order; the value is the trimmed text between the leftmost own-line begin marker and the nearest own-line end marker after it |
| TemplateProcessor.ExtractSections | src/utils/templateProcessor.js:42-52 | each of the three fields is present exactly when that section's markers sit on their own lines, and holds the trimmed text between the leftmost own-line begin marker and the nearest own-line end marker after it |
| TemplateProcessor.ExtractFramed | src/utils/templateProcessor.js:43-48 | the text between a first begin line and the next end line reads back trimmed |
| TemplateProcessor.RoundTrip | src/utils/templateProcessor.js:11-48 | extracting a section after merging non-empty content into a template with its marker pair gives the content trimmed |
| TemplateProcessor.RoundTripLayout | src/utils/templateProcessor.js:7-51 | after a whole merge into a sectioned template every provided section present in the template reads back as its content trimmed |
| TemplateProcessor.Missing | src/utils/templateProcessor.js:69-71 | the filter keeps exactly the names whose token is absent, each as often as it occurs in the input, in their original order |
| TemplateProcessor.RequiredNames | src/utils/templateProcessor.js:60-67 | the required list is exactly the begin and end names of the three sections |
| TemplateProcessor.AllPresent | src/utils/templateProcessor.js:69-74 | nothing is missing exactly when both markers of every section occur |
| TemplateProcessor.ValidateMarkers | src/utils/templateProcessor.js:59-77 | valid iff the missing list is empty iff all six tokens occur; the missing list is the absent names in the required order |
| TemplateProcessor.MissingAll | src/utils/templateProcessor.js:69-71 | when no token occurs the filter keeps every name |
| TemplateProcessor.EmptyTemplateMissesAll | src/utils/templateProcessor.js:59-77 | an empty template is invalid and misses all six names in the fixed order |
| TemplateProcessor.OnlyEndSkillsMissing | src/utils/templateProcessor.js:59-77 | a template lacking only the skills end marker reports exactly that name |
| TemplateProcessor.ReversedMarkersValidate | src/utils/templateProcessor.js:69-74 | presence only: ends placed before their begins still validate |
| LatexTemplateProcessor.Sections | src/utils/latexTemplateProcessor.js:9-26 | the table knows exactly the four section keys, each with markers `% BEGIN_` and `% END_` followed by the key |
| LatexTemplateProcessor.MarkersAreAnchors | src/utils/latexTemplateProcessor.js:9-26 | the eight marker tokens are comment anchors, none a prefix of another |
| LatexTemplateProcessor.MarkersDistinct | src/utils/latexTemplateProcessor.js:9-26 | start and end markers of all sections are pairwise different |
| LatexTemplateProcessor.EscapeIsIdentity | src/utils/latexTemplateProcessor.js:48-49 | escaping the markers leaves them unchanged, so the pattern matches them literally |
| LatexTemplateProcessor.ReplaceSection | src/utils/latexTemplateProcessor.js:36-61 | an error exactly for keys outside the table; the template unchanged when its markers are missing |
| LatexTemplateProcessor.ReplaceSectionKnown | src/utils/latexTemplateProcessor.js:51-60 | for a known key the result is the replace call, whose own no-match case agrees with the explicit test |
| LatexTemplateProcessor.ReplaceSectionShape | src/utils/latexTemplateProcessor.js:51-60 | for a known key the result is prefix + start + `\n` + expanded content + `\n` + end + suffix, or the template itself without a marker pair; the literal splice for `$`-free content |
| LatexTemplateProcessor.StartMarkerCopied | src/utils/latexTemplateProcessor.js:60 | content `$1` inserts a copy of the start marker |
| LatexTemplateProcessor.ReplaceSectionEmpty | src/utils/latexTemplateProcessor.js:60 | empty content is not skipped: the span becomes exactly `\n\n` |
| LatexTemplateProcessor.ReplaceSectionIdempotent | src/utils/latexTemplateProcessor.js:51-60 | replacing a section twice with the same content equals replacing it once, when the content has no end marker |
| LatexTemplateProcessor.MergeEntry | src/utils/latexTemplateProcessor.js:74-79 | an entry whose upper-cased key is unknown leaves the document unchanged; for a known key replaceSection succeeds, so the loop never throws |
| LatexTemplateProcessor.MergeSections | src/utils/latexTemplateProcessor.js:71-83 | the loop applies the entries one after another in iteration order |
| LatexTemplateProcessor.MergeAllAppend | src/utils/latexTemplateProcessor.js:72-80 | merging `a` then `b` equals merging `a + b` |
| LatexTemplateProcessor.MergeAllUnknown | src/utils/latexTemplateProcessor.js:76-79 | entries whose keys are not sections in any case leave the document unchanged |
| LatexTemplateProcessor.MergeEntryUpper | src/utils/latexTemplateProcessor.js:76 | an entry acts exactly as the same entry with its key upper-cased |
| LatexTemplateProcessor.StepLayout | src/utils/latexTemplateProcessor.js:76-78 | on a sectioned template one entry assigns its section's region the framed content and keeps the template sectioned |
| LatexTemplateProcessor.MergeLayout | src/utils/latexTemplateProcessor.js:71-83 | on a sectioned template the merge is the region assignment of the known entries, in order |
| LatexTemplateProcessor.MergeRegions | src/utils/latexTemplateProcessor.js:71-83 | frame: the head and the region count stay; each region holds the framed content of the last entry for its section, or its old text |
| LatexTemplateProcessor.MergeIdempotent | src/utils/latexTemplateProcessor.js:71-83 | merging the same entries twice equals merging once |
| LatexTemplateProcessor.LaterEntryWins | src/utils/latexTemplateProcessor.js:74-79 | of two entries for the same section, in any letter case, only the later one matters |
| LatexTemplateProcessor.EntriesCommute | src/utils/latexTemplateProcessor.js:74-79 | entries for different sections give the same result in either order |
| LatexTemplateProcessor.CountChar | src/utils/latexTemplateProcessor.js:95-96 | the global match count is the number of occurrences of the character |
| LatexTemplateProcessor.UnbalancedBraces | src/utils/latexTemplateProcessor.js:95-101 | the warning condition: the text holds different numbers of `{` and `}` |
| LatexTemplateProcessor.ValidateLatex | src/utils/latexTemplateProcessor.js:91-104 | valid exactly when the text is non-empty, so unbalanced braces never make it invalid |

## Left out

- React components, API routes, Netlify functions, `test-server.js` and `next.config.js` are UI, network and configuration plumbing outside the substitution engine.
- The `console.warn` calls at src/utils/latexTemplateProcessor.js:55 and :99 have no modelled effect. `UnbalancedBraces` gives the condition of the second one.
- Inputs other than strings are not modelled: non-string section values, and null or undefined templates or content maps. A falsy template for `validateLatex` is modelled as the empty string.
- Object semantics are not modelled. The content map is the sequence `Object.entries` yields. Inherited properties are not modelled: `replaceSection` with a key such as `constructor` throws a TypeError instead, which the model covers by the same `Err`.
- Strings.ToUpper: maps ASCII letters, dotless i and long s, and keeps every other character. Those are the only characters whose upper case can turn a key into a table key. Full Unicode case mapping is not modelled.
- Strings are sequences of characters, not UTF-16 code units. The markers and keys are ASCII, so positions agree for them.
- TemplateProcessor.RoundTrip: requires content without `$` or the section's end marker. With `$` patterns the expansion alters the content (see DollarsCollapse), so the unconditional round trip does not hold.
- TemplateProcessor.RoundTripLayout: stated only for sectioned templates and contents free of `$` and marker tokens.
- TemplateProcessor.MergeIdempotent: stated only for sectioned templates and contents free of `$` and marker tokens. Content such as `$&` re-inserts the previous span and breaks idempotence.
- TemplateProcessor.MergeRegions: stated only for sectioned templates and contents free of `$` and marker tokens.
- LatexTemplateProcessor.ReplaceSectionIdempotent: additionally requires content without `$`. `$&` and `$2` insert the previous span, so they break idempotence.
- LatexTemplateProcessor.MergeIdempotent: stated only for sectioned templates and entry contents free of `$` and marker tokens.
- LatexTemplateProcessor.MergeRegions: stated only for sectioned templates and entry contents free of `$` and marker tokens.
- LatexTemplateProcessor.LaterEntryWins: stated for two entries on a sectioned template with plain contents. MergeRegions states the frame for any number of entries, under the same conditions.
- LatexTemplateProcessor.EntriesCommute: stated for two adjacent entries on a sectioned template with plain contents.
- Named capture groups (`$<name>`) are not modelled: neither pattern has any, so `$<` stays literal.
