# Catch extraction and CSS custom data, modelled in Dafny

This project models two pieces of the cfmleditor extension (TypeScript).

**`parseCatches`** (`src/entities/catch.ts`) lists the exception handlers of a
CFML document as `CatchInfo` records: an exception type, a variable name and
the range of the handler's body. It has two modes.

- Script mode runs the global regular expression `scriptCatchPattern` over the
  sanitized text, or over the part of it inside an optional range. For every
  `} catch (Type name) {` header it finds, the body runs from just after the
  header's `{` to the matching `}`. The brace matcher finds that `}`.
- Tag mode keeps each `<cfcatch>` tag that has a body. It reads the `type`
  and `name` attributes, which default to `any` and `cfcatch`. It then runs
  script mode over every `<cfscript>` region and appends those results in
  region order.

**`CSSDataProvider`** (`src/entities/css/dataProvider.ts`) loads a custom-data
object into four lists: properties, at-directives, pseudo-classes and
pseudo-elements. It keeps every entry whose `name` is a string, in order, and
hands the lists out unchanged.

Modules:

| file | module | contents |
|---|---|---|
| wrappers.dfy | `Wrappers` | `Option`, `Result` |
| text.dfy | `Text` | offsets and ranges, the pattern's character classes, line starts |
| braces.dfy | `Braces` | the brace matcher that finds where a catch body ends |
| pattern.dfy | `Pattern` | regular expressions as data, a declarative match predicate `Fits` and a greedy matcher |
| catch_pattern.dfy | `CatchPattern` | `scriptCatchPattern`, its capture groups, and the global `exec` loop |
| catch.dfy | `Catch` | `parseCatches`, both modes |
| catch_properties.dfy | `CatchProperties` | what the returned entries satisfy, and how the parts compose |
| catch_examples.dfy | `CatchExamples` | worked documents |
| css_data.dfy | `CssData` | the CSS data provider |

Modelling choices:

- **Positions.** A position is its character offset. `offsetAt` clamps to the
  text's length.
- **Failure.** `Position.translate(0, -1)` throws at column 0. `parseCatches`
  does not catch it, so the model returns `Failure(NegativeColumn(offset))`.
- **The pattern.** It is a list of elements. `Fits(t, p, b)` says that the
  boundaries `b` split `t` into pieces that fit the elements.
  `CatchPattern.MatchAtIff` proves that the greedy matcher returns exactly
  these boundaries. This relies on the pattern never needing to backtrack
  (`CatchHeaderDeterministic`).
- **The scan.** `ScanFrom` models the `while (match = exec(text))` loop:
  each search starts where the previous match ended.
  `ScanComplete` and `NoMatchInside` show that no header is skipped.
- **Helpers outside the model.** The tag parser and the script-region
  detector are not part of this model. Their results are parameters of
  `ParseCatches`. The brace matcher's source is not part of this model
  either. `Braces.ClosingOffset` models it concretely: a depth counter that
  starts at 1 right after the `{`.
- **The CSS data.** It is untyped JSON, modelled as a JavaScript value.
  Reading a property of `null` or `undefined` throws a `TypeError`. Reading a
  missing property gives `undefined`. The four type guards `isPropertyData`,
  `isAtDirective`, `isPseudoClassData` and `isPseudoElementData` are the same
  test, so the model defines it once, as `IsEntry`. The provider's invariant
  (every kept entry is named) is the subset type `CSSDataProvider`.

**Where the comment and the pattern disagree.** The comment at catch.ts:88
says the type is optional in Lucee, so `} catch (e) { ... }` would be a
header with no type. But the pattern at catch.ts:89 requires a type token
followed by whitespace and a name, so an untyped header does not match at
all. The `"any"` fallback at catch.ts:119 is therefore never taken, because
capture group 1 is never empty. The model follows the pattern:
`CatchExamples.UntypedExample` proves that `} catch (e) { }` yields no entry.

## Model

| member | source | states |
|---|---|---|
| Braces.ClosingOffset | src/entities/catch.ts:123 | the brace matcher returns the offset just after the `}` that brings the depth back to zero, or the end of the text exactly when no `}` ever closes the block |
| Braces.ClosingOffsetUnique | src/entities/catch.ts:123 | any offset that closes the block is the one the matcher returns |
| Braces.ClosedBodyBalanced | src/entities/catch.ts:123 | a closed body ends just before a `}`, is brace-balanced, and no prefix of it closes more braces than it opens |
| Pattern.MatchFromComplete | src/entities/catch.ts:89 | for a pattern that never needs backtracking, the greedy matcher finds every match that the declarative semantics admits, with the same group boundaries |
| CatchPattern.CatchHeaderDeterministic | src/entities/catch.ts:89 | no element of the catch pattern can take a character its successor needs, so a match never requires backtracking |
| CatchPattern.CatchHeaderShape | src/entities/catch.ts:89 | the pattern has fourteen pieces, its shortest match has twelve characters, and no piece after the first can contain a `}` |
| CatchPattern.HeaderDelimiters | src/entities/catch.ts:89 | a match starts with `}`, then `catch` in any letter case, and ends with `{` |
| CatchPattern.HeaderGroups | src/entities/catch.ts:89 | group 1 is a non-empty run of `[A-Za-z0-9_.$]` and group 2 is an identifier `[_$a-zA-Z][$\w]*`, in that order |
| CatchPattern.MatchAtIff | src/entities/catch.ts:89 | the anchored matcher returns `b` exactly when `b` are the boundaries of a match at that offset, so a match at an offset is unique |
| CatchPattern.NoMatchInside | src/entities/catch.ts:89 | no match can start strictly inside another match |
| CatchPattern.TypeGroup | src/entities/catch.ts:119 | the captured exception type is a non-empty type token |
| CatchPattern.NameGroup | src/entities/catch.ts:120 | the captured variable name is an identifier |
| CatchPattern.FindFrom | src/entities/catch.ts:118 | one `exec` returns the leftmost match at or after `lastIndex`, and null only when no match starts there or later |
| CatchPattern.ScanFrom | src/entities/catch.ts:116-118 | the exec loop yields matches in text order that do not overlap, each a genuine match |
| CatchPattern.ScanComplete | src/entities/catch.ts:116-118 | every offset at which the pattern matches starts one of the matches the loop yields |
| Catch.ScopeOf | src/entities/catch.ts:107-113 | with no range the whole text at offset 0 is scanned; with an in-document range, the text between its offsets is scanned, starting at its start offset |
| Catch.BodyStart | src/entities/catch.ts:122 | the body starts just after the header's own closing `{` (the pattern's last element), at least twelve characters after the scope's start and inside the scanned text |
| Catch.ScriptClause | src/entities/catch.ts:119-136 | a header yields an entry whose type and name are the two groups; the body spans from the header's end to just before the closing `}`; the call fails exactly when the matcher's result is at column 0 |
| Catch.ScriptClauses | src/entities/catch.ts:118-137 | the entries of a list of headers are their clauses in order, and the list fails exactly when one clause fails |
| Catch.ScriptCatches | src/entities/catch.ts:115-137 | script mode yields one entry per match the scan finds, each with a type token and an identifier |
| Catch.TagCatch | src/entities/catch.ts:142-164 | a tag without a body yields nothing; otherwise it yields its body range, the `type` attribute or `any`, and the `name` attribute or `cfcatch` |
| Catch.TagCatches | src/entities/catch.ts:139-165 | an entry is in the tag-mode result exactly when some tag yields it, with at most one entry per tag |
| Catch.Gather | src/entities/catch.ts:169-173 | concatenating per-region results succeeds exactly when every region succeeds |
| Catch.GatherFrom | src/entities/catch.ts:169-173 | every entry of the concatenation comes from some region |
| Catch.ScriptRegions | src/entities/catch.ts:167-173 | the script-region pass succeeds exactly when script mode succeeds on every region, and yields only script-mode entries |
| Catch.ParseCatches | src/entities/catch.ts:104-177 | script mode is exactly the scan of the (optionally restricted) text; tag mode succeeds exactly when every script region does, and yields the tag entries in tag order followed by the region pass's entries, which are only script-mode entries |
| CatchProperties.BodyRange | src/entities/catch.ts:123-128 | the range from just after a `{` to one before the matcher's result is a closed or an open body, and starts exactly after the `{` unless that `{` is the document's last character |
| CatchProperties.ClauseBody | src/entities/catch.ts:122-128 | a body is either closed or open; a closed body starts right after the header's `{`; an open body starts there too, except when the `{` ends the document, where it starts on the `{` itself |
| CatchProperties.ClauseFailure | src/entities/catch.ts:123-127 | a clause fails only when its block is never closed and the document ends with a line break; the failure names the end of the document |
| CatchProperties.ScriptCatchBody | src/entities/catch.ts:115-137 | every script-mode entry has a closed or an open body |
| CatchProperties.ScriptCatchesOrdered | src/entities/catch.ts:116-137 | script-mode entries come in text order, with strictly increasing body starts |
| CatchProperties.ScriptCatchesInRange | src/entities/catch.ts:110-122 | with a range, every body starts inside it, at least eleven characters after its start |
| CatchProperties.ScriptCatchesSound | src/entities/catch.ts:118-136 | every script-mode entry is the clause of a header in the scanned text |
| CatchProperties.ScriptCatchesComplete | src/entities/catch.ts:118-136 | every header in the scanned text yields an entry |
| CatchProperties.TagCatchesAppend | src/entities/catch.ts:142-165 | tag mode keeps tag order: the entries of two tag lists are the entries of each, concatenated |
| CatchProperties.TagCatchesCount | src/entities/catch.ts:142-145 | tag mode yields exactly one entry per tag with a body |
| CatchProperties.GatherAppend | src/entities/catch.ts:169-173 | gathering two lists of successful results gives the two gathered lists, concatenated |
| CatchProperties.ScriptRegionsAppend | src/entities/catch.ts:168-173 | the region pass over two lists of ranges is the passes over each, concatenated |
| CatchProperties.ScriptRegionsNone | src/entities/catch.ts:168-173 | with no script range, the region pass adds nothing |
| CatchProperties.ScriptRegionsOne | src/entities/catch.ts:168-173 | one script range contributes exactly script mode over that range; with `ScriptRegionsAppend` this fixes the whole region pass as the per-range results in range order |
| CatchExamples.TypedExample | src/entities/catch.ts:115-137 | `}catch(a.B e){}` yields type `a.B`, name `e`, and the empty body between the braces |
| CatchExamples.OpenAtEndExample | src/entities/catch.ts:123-128 | a header whose `{` is the last character yields a body range covering that `{`, because the editor's range puts its ends in order |
| CatchExamples.OpenThenNewlineExample | src/entities/catch.ts:127 | the same header followed by a newline makes the call fail at the end of the document |
| CatchExamples.UntypedExample | src/entities/catch.ts:88-89 | `} catch (e) { }` has no exception type and yields no entry |
| CssData.Member | src/entities/css/dataProvider.ts:76 | reading a property throws exactly on `null` or `undefined`; an object's own field that is present is returned, and any other value reads as `undefined` |
| CssData.IsEntry | src/entities/css/dataProvider.ts:73-95 | the guards throw exactly on a nullish item, and otherwise hold exactly for an object with a string `name` |
| CssData.PushEntries | src/entities/css/dataProvider.ts:42-48 | one category's loop appends the named items in order, and throws reading `name` exactly when some item is nullish |
| CssData.AddData | src/entities/css/dataProvider.ts:41-70 | loading succeeds exactly when the data and all visited items are not nullish; each list then grows by that category's named items, and the error names the property read |
| CssData.NewProvider | src/entities/css/dataProvider.ts:21-23 | a new provider holds exactly each category's named entries of its data |
| CssData.ProvideProperties | src/entities/css/dataProvider.ts:25-27 | the accessor hands out exactly the provider's property list, and every property in it has a string name |
| CssData.ProvideAtDirectives | src/entities/css/dataProvider.ts:29-31 | the accessor hands out exactly the provider's at-directive list, and every at-directive in it has a string name |
| CssData.ProvidePseudoClasses | src/entities/css/dataProvider.ts:33-35 | the accessor hands out exactly the provider's pseudo-class list, and every pseudo-class in it has a string name |
| CssData.ProvidePseudoElements | src/entities/css/dataProvider.ts:37-39 | the accessor hands out exactly the provider's pseudo-element list, and every pseudo-element in it has a string name |
| CssData.Extended | src/entities/css/dataProvider.ts:41-70 | appending each category's named entries preserves the provider's invariant |
| CssData.EntriesNamed | src/entities/css/dataProvider.ts:43-47 | every kept entry is named |
| CssData.EntriesMembers | src/entities/css/dataProvider.ts:43-47 | a value is kept exactly when it is among the items and is named |
| CssData.EntriesAppend | src/entities/css/dataProvider.ts:43-47 | the filter keeps order: the entries of a concatenation are the entries of each part, concatenated |
| CssData.EntriesCount | src/entities/css/dataProvider.ts:43-47 | no named item is dropped: the kept list is as long as the number of named items |
| CssData.OtherFieldsIrrelevant | src/entities/css/dataProvider.ts:41-70 | the categories are independent: changing any other field of the data object leaves a category's entries unchanged |
| CssData.NonArrayField | src/entities/css/dataProvider.ts:41-68 | a category whose field is absent or not an array contributes no items and no entries |
| CssData.EntriesOfNamed | src/entities/css/dataProvider.ts:43-47 | a list of named values is kept whole |
| CssData.EntriesIdempotent | src/entities/css/dataProvider.ts:43-47 | filtering twice is filtering once |
| CssData.ReloadKeepsLists | src/entities/css/dataProvider.ts:25-47 | a provider's own lists, loaded again as data, are kept whole |
| CssData.ExampleData | src/entities/css/dataProvider.ts:41-55 | an item without a string name and a non-array field are skipped, not errors |
| CssData.ExampleNullItem | src/entities/css/dataProvider.ts:63-68 | a `null` pseudo-element item makes loading throw |

## Left out

- The tag parser (`parseTags`) and the script-region detector (`getCfScriptRanges`) are not part of this model. `ParseCatches` takes their results as the parameters `tags` and `scriptRanges`. How `docRange` restricts them is up to those helpers.
- The brace matcher (`getClosingPosition`) is not part of this model. `Braces.ClosingOffset` models it on the sanitized text as a `{`/`}` depth counter seeded at 1 just after the `{`, with the end of the text when the block is unterminated.
- The column-0 test before `translate(0, -1)` reads line breaks from the sanitized text, while the source's position comes from the editor document's own lines. The model assumes the sanitizer keeps every `\r` and `\n` in place. A sanitizer that swallowed a final newline would make the source throw where the model succeeds; `ScriptClause`'s failure condition, `CatchProperties.ClauseFailure` and `CatchExamples.OpenThenNewlineExample` rest on this assumption.
- The line and column form of positions is left out. Positions are character offsets, and lines matter only for the column-0 test of `translate(0, -1)`. Offsets count UTF-16 code units in the editor and characters here.
- `validateRange` returns a range object, which is always truthy, so the condition at catch.ts:110 reduces to whether a range was passed. The model does not check that the range lies inside the document; its end offsets are clamped as `offsetAt` clamps them.
- Catch.ScriptCatches: every call starts its scan at offset 0. In the source the pattern is a shared global object. After a call that throws partway, its `lastIndex` stays at the last match's end, so the next call would start its scan there. The model does not carry that state between calls.
- The catch-property metadata table (catch.ts:1-86) and its object types are constant data that `parseCatches` does not use, so they are left out.
- CssData.Member reads only an object's own fields. Inherited or getter-defined `name` properties, proxies and array holes are left out.
- CssData.AddData: on failure the source has already pushed some entries before throwing. The model returns the error and drops the half-filled provider. Only the constructor calls `addData`, so that object is never reachable.
- Numbers are modelled as reals. The provider only tests whether a value is a string, so floating point plays no part.
