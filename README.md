# Template tooling of a static site, modelled in Dafny

The site keeps its shared page parts in three template files: the head
metadata, the header with the navigation, and the footer. Pages refer to them
through the placeholders `<%= head %>`, `<%= header %>` and `<%= footer %>`.
Four pieces of JavaScript work on them, and this project models each one.

- **Batch build** (`build.js`). It recreates `dist`. Then, for every `.html`
  name in the working directory, it reads the page. It writes every page it
  read into `dist`: a page holding a placeholder after the three global
  replacements in the order head, header, footer, and any other page
  unchanged. Each page sits in its own `try`, and `processedCount` counts the
  pages written.
- **Dev-server plugin** (`vite.config.js`). Its `transformIndexHtml` handler
  applies the same three replacements, with no guard, to every page it serves.
  It uses templates read once, when the configuration is loaded.
- **Migration converter** (`convert-to-templates.js`). It first copies every
  candidate page into `html-backup`. Then it rewrites each page in three
  steps: the head region after the title, the navigation block and the footer
  block. Each step becomes its placeholder unless it already holds it. A page
  is written back, and counted, only when a step changed it.
- **Duplicate cleanup** (`cleanup-duplicates.js`). In every candidate page
  that uses the head placeholder, it removes a charset tag and a viewport tag
  that stand between `<head>` and `<title>`. It writes and counts a page only
  when its text changed.

The modules follow that structure:

- `Text` holds the character classes (ECMAScript `\s`, line terminators, ASCII
  case folding for the `i` flag) and the literal matching.
- `Files` holds file names, listings and a per-file failure oracle.
- `Substitution` holds the global replacement `ReplaceAll` and its `$`
  expansion.
- `Build`, `DevServer`, `Regions` + `Convert`, and `Cleanup` model the four
  scripts.

Each regular expression is modelled as an explicit "find the leftmost match"
function. Each such function comes with a lemma saying that its result is a
match, that no match starts earlier, and how far it reaches from its start:
a lazy part stops at the first occurrence of what follows it, and a greedy
whitespace run takes every whitespace character there is.

The file system is a `map<string, seq<char>>`. The directory listing is an
input, in whatever order the host returns it. Each script is an imperative
method whose loop keeps the invariants that give its counters and the new
directory. A `Faults` value says which reads, writes and copies fail.

The code is modelled as written. Three guarantees the scripts aim at hold
only in part there:

- **The backup phase.** The converter aims to back up every candidate. In
  the code, a `copyFileSync` that throws ends the whole script, so the
  candidates after it are not backed up, but no page is converted either. `Convert.ConvertSite` returns `crashed`
  for this case.
- **Converter idempotence.** A second run is meant to change nothing. The
  model proves it only for documents whose regions are laid out as
  `Convert.Layout` states (see "Left out").
- **Cleanup idempotence.** A second run is meant to change nothing. The
  model proves it when every viewport tag is closed before the next `<` (see
  "Left out").

## Model

| member | source | states |
|---|---|---|
| Text.Contains | build.js:29-31 | `includes`: exact, case-sensitive containment, the search of `Text.FindFromSpec` from position 0. |
| Text.FindFromSpec | build.js:29-31 | `FindFrom` returns a position where the literal occurs, and no occurrence starts between the search start and it. `None` means none starts at or after the search start. `includes` is this search from position 0. |
| Text.WsEndSpec | cleanup-duplicates.js:27 | A greedy `\s*` stops at the first non-whitespace character. Everything it passed is whitespace. |
| Files.Select | build.js:18 | The filtered listing holds exactly the listed names that satisfy the filter, never more names than the listing, and no name twice when the listing has none twice. |
| Files.IsConvertCandidate | convert-to-templates.js:12-16 | The converter's filter: an `.html` name starting with neither `example-` nor `build-test`; related to the cleanup filter by `Files.ConvertCandidatesAreCleanupCandidates`. |
| Files.IsCleanupCandidate | cleanup-duplicates.js:7-10 | The cleanup's filter: an `.html` name not starting with `build-test`; `example-` pages are included. |
| Files.ConvertCandidatesAreCleanupCandidates | convert-to-templates.js:12-16 | Every converter candidate is a cleanup candidate, and every cleanup candidate is an `.html` name. They differ exactly on the `.html` names starting with `example-` and not with `build-test`. |
| Files.PrefixStep | build.js:24 | In a listing without repeats, the name visited at step `i` was not visited at an earlier step. |
| Substitution.ReplaceAll | build.js:34 | A global `replace` of a literal token by a literal text, specified by `Substitution.ReplaceAllSplit`, `ReplaceAllLength`, `NoTokenUnchanged` and `ReplaceAllLeavesNone`. |
| Substitution.ReplaceAllSplit | build.js:34 | A text without the token is returned unchanged. Otherwise the text before the first occurrence is kept verbatim, that occurrence becomes the fragment, and the rest is processed the same way. |
| Substitution.ReplaceAllLength | build.js:34-36 | The output length is the input length plus the number of occurrences times (fragment length − token length). |
| Substitution.CountZero | build.js:29-31 | The occurrence count is zero exactly when `includes` is false. |
| Substitution.NoTokenUnchanged | build.js:34 | A text without the token passes through `replace` unchanged. |
| Substitution.WholeTokenReplaced | build.js:34 | A text that is exactly the token becomes exactly the fragment. |
| Substitution.ReplaceAllLeavesNone | build.js:34-36 | Replacing `tok` by an inert fragment leaves no `tok`. It also creates no occurrence of another token the text did not hold. |
| Substitution.EmptyFragmentJoinsNeighbours | build.js:34 | With an empty fragment, `<%= he<%= head %>ad %>` becomes `<%= head %>`: a placeholder can survive its own replacement. |
| Substitution.ExpandLiteral | build.js:34 | A replacement string without `$` is inserted verbatim. |
| Substitution.Expand | build.js:34 | The text a replacement string inserts, following GetSubstitution (ECMA-262, section 22.1.3.19.1) for a pattern without groups; specified by `Substitution.ExpandLiteral` and `ExpandEscaped`. |
| Substitution.ExpandEscaped | build.js:34 | `$$` inserts a single `$`: for every text, the replacement string with each `$` doubled inserts exactly that text, whatever the match. |
| Substitution.InsertedLiteral | build.js:13-15 | Templates without `$` are covered by the expansion and are inserted as read. |
| Substitution.Substitute | build.js:34-36 | The three global replacements in the order head, header, footer; specified by the three lemmas below. |
| Substitution.SubstitutePassThrough | build.js:34-36 | The three replacements return a page without placeholders unchanged. |
| Substitution.SubstituteComplete | build.js:34-36 | With safe templates, no placeholder remains after the three replacements. |
| Substitution.SubstituteIdempotent | build.js:34-36 | With safe templates, applying the three replacements twice gives the same text as once. |
| Build.BuildContent | build.js:29-36 | What the build writes for one page: the guard, then the three replacements; specified by `Build.GuardRedundant`, `BuildCopiesPlainPage` and `BuildLeavesNoPlaceholder`. |
| Build.GuardRedundant | build.js:29-36 | The `includes` guard only saves work. The build writes what the three replacements would give on every page. |
| Build.BuildCopiesPlainPage | build.js:29-44 | A page without placeholders is written into `dist` byte for byte. |
| Build.BuildLeavesNoPlaceholder | build.js:34-36 | With safe templates, no page in `dist` holds a placeholder. |
| Build.HtmlFiles | build.js:18 | The build visits exactly the listed names ending in `.html`, each once. |
| Build.BuildPage | build.js:26-36 | The loop body's reassigned `content` ends as the guarded three-replacement result. |
| Build.BuildFile | build.js:25-49 | A page is written exactly when its read and its write both succeed. It is written with the loop body's content. A failure leaves `dist` as it was. |
| Build.BuildStep | build.js:24-46 | One iteration adds at most the visited name to `dist`, and adds it exactly when it was written. So the count grows by one exactly when a page was written. |
| Build.BuildPages | build.js:22-50 | After the loop, `dist` holds exactly the visited pages that were read and written, with their content. `processedCount` is the number of them. |
| Build.BuildSite | build.js:7-50 | After the build, no entry of the old `dist` survives unless the build wrote it again. `dist` holds exactly the `.html` pages that were read and written, each with its substituted content, and `processedCount` is their number. A failure on one page does not affect another. |
| DevServer.Handler | vite.config.js:16-24 | The handler as a function of the page alone; specified by the lemmas below. |
| DevServer.HandlerAgreesWithBuild | vite.config.js:16-24 | For every page, the handler returns what the batch build writes for it with the same templates. |
| DevServer.HandlerPassThrough | vite.config.js:18-23 | A page without placeholders is served unchanged. |
| DevServer.HandlerComplete | vite.config.js:19-21 | With safe templates, no placeholder remains in a served page. |
| DevServer.HandlerIdempotent | vite.config.js:19-21 | With safe templates, handling a handled page changes nothing. |
| DevServer.HandlerNotIdempotentForEmptyHead | vite.config.js:19-21 | Templates without placeholder text are not enough for idempotence. With an empty head template, the first pass turns `<%= he<%= head %>ad %>` into `<%= head %>` and the second pass into the empty text. |
| Regions.HeadAtSpec | convert-to-templates.js:35 | At a given `<title>`, the head pattern's match is a match, with the nearest `</title>` on the same line and the nearest `</head>` after it. |
| Regions.HeadFromSpec | convert-to-templates.js:35 | The head search from a position finds the leftmost match, or reports that none starts there or later. |
| Regions.HeadMatchOf | convert-to-templates.js:35 | The head pattern's match on a page, specified by `Regions.HeadMatchSpec`. |
| Regions.HeadMatchSpec | convert-to-templates.js:35-36 | The head pattern matches exactly when some `<title>`…`</title>` on one line is followed by `</head>`. Its match is the leftmost and, at that start, the shortest. |
| Regions.NavMatch | convert-to-templates.js:48 | The navigation pattern's match on a page, specified by `Regions.NavMatchSpec`. |
| Regions.NavMatchSpec | convert-to-templates.js:48-49 | The navigation match starts at the whitespace before the first landmark comment and runs to the first `</nav>` after it; no match starts earlier, and one starting in that whitespace uses the same landmark. It ends after the whole whitespace run that follows `</nav>`, at a character that is not whitespace or at the end of the page. With no result there is no match. |
| Regions.FindClosingSpec | convert-to-templates.js:61 | The closing-tags search returns a position holding `</body>`, whitespace and `</html>`, with the end after `</html>`, and no such position lies before it; with no result there is none. |
| Regions.FooterMatch | convert-to-templates.js:61 | The footer pattern's match on a page, specified by `Regions.FooterMatchSpec`. |
| Regions.FooterMatchSpec | convert-to-templates.js:61-62 | The footer match starts at the whitespace before the first footer comment. It ends after the first following `</body>`, whitespace and `</html>`. It is the leftmost and shortest. |
| Regions.GuardedEdit | convert-to-templates.js:37-44 | A callback raises `modified` exactly when the text actually changes. |
| Regions.HeadStep | convert-to-templates.js:34-45 | The head step raises `modified` exactly when it changes the page. |
| Regions.HeadStepPassThrough | convert-to-templates.js:36 | When the head pattern matches nowhere, the head step returns the page unchanged and does not raise `modified`. |
| Regions.NavStepPassThrough | convert-to-templates.js:49 | When the navigation pattern matches nowhere, the navigation step returns the page unchanged and does not raise `modified`. |
| Regions.FooterStepPassThrough | convert-to-templates.js:62 | When the footer pattern matches nowhere, the footer step returns the page unchanged and does not raise `modified`. |
| Regions.NavStep | convert-to-templates.js:47-58 | The navigation step raises `modified` exactly when it changes the page. |
| Regions.FooterStep | convert-to-templates.js:60-71 | The footer step raises `modified` exactly when it changes the page. |
| Regions.InsertsCarryTokens | convert-to-templates.js:41-67 | Each replacement text the callbacks return holds its placeholder, so the guard recognises the step's own output. |
| Regions.HeadMatchAfterEdit | convert-to-templates.js:35-44 | After the head step, the head pattern still matches the same title element. Its `</head>` now follows the inserted placeholder line. |
| Regions.HeadStepIdempotent | convert-to-templates.js:34-45 | The head step leaves its own output unchanged and does not raise `modified`. |
| Regions.NavStepIdempotent | convert-to-templates.js:47-58 | With at most one navigation landmark, the navigation step leaves its own output unchanged. |
| Regions.FooterStepIdempotent | convert-to-templates.js:60-71 | With at most one footer landmark, the footer step leaves its own output unchanged. |
| Convert.ConvertDocument | convert-to-templates.js:34-71 | The three steps run in order on the page. `modified` is false exactly when no step changed the page, and then the page is unchanged. |
| Convert.NavStepLeavesNoMark | convert-to-templates.js:48-57 | A navigation rewrite removes the only navigation landmark. |
| Convert.FooterStepLeavesNoMark | convert-to-templates.js:61-70 | A footer rewrite removes the only footer landmark. |
| Convert.ConvertSplits | convert-to-templates.js:34-71 | On a document made of a head part, a body part and a rest, each step rewrites only its own part. |
| Convert.ConvertKeepsLayout | convert-to-templates.js:34-71 | Conversion keeps the three-part layout. It is the invariant the idempotence proof uses. |
| Convert.ConvertIdempotent | convert-to-templates.js:39-67 | Converting a converted document changes nothing and raises no `modified`. |
| Convert.ConvertPage | convert-to-templates.js:31-71 | The loop body's reassigned `content` and shared `modified` flag end as the three-step result. |
| Convert.BackUp | convert-to-templates.js:21-23 | `ok` is true exactly when every candidate can be copied. Each backup entry is a verbatim copy of its page or an older entry. When `ok` is true, every candidate's backup equals its content before the run. |
| Convert.RewrittenAreConverted | convert-to-templates.js:73-79 | The pages the loop rewrote are exactly the converted pages: candidates that were read, changed by a step and written. |
| Convert.ConvertFile | convert-to-templates.js:29-82 | A page is rewritten and counted exactly when it was read, a step changed it and its write succeeded. Otherwise the directory is unchanged. |
| Convert.ConvertAll | convert-to-templates.js:26-83 | After the loop, the rewritten pages hold their converted text and every other page is untouched. `convertedCount` is the number of pages rewritten. |
| Convert.ConvertSite | convert-to-templates.js:7-83 | The script crashes exactly when some candidate cannot be copied. A crash converts nothing. Otherwise every candidate is backed up verbatim first, exactly the converted pages change, and `convertedCount` counts them. |
| Cleanup.GtFromSpec | cleanup-duplicates.js:27 | The `[^>]*>` run ends at the first `>`, and there is no `>` before it. |
| Cleanup.MetaAt | cleanup-duplicates.js:27 | The cleanup pattern's match at one position, specified by `Cleanup.MetaAtSpec`. |
| Cleanup.MetaAtSpec | cleanup-duplicates.js:27 | The matcher at a position returns a match exactly when the text there is `<head>`, whitespace, the charset tag, whitespace, the viewport tag up to its first `>`, whitespace and `<title>`, in any letter case. |
| Cleanup.MetaFrom | cleanup-duplicates.js:26-29 | The global scan's next match, specified by `Cleanup.MetaFromFound`, `MetaFromNoneBefore` and `MetaFromNone`. |
| Cleanup.MetaFromFound | cleanup-duplicates.js:26-29 | The global scan's next match is a match at the position it reports. |
| Cleanup.MetaFromNoneBefore | cleanup-duplicates.js:26-29 | No match starts between the scan position and the match the scan reports. |
| Cleanup.MetaFromNone | cleanup-duplicates.js:26-29 | When no match starts at or after a position, the scan from there finds none. |
| Cleanup.CleanAll | cleanup-duplicates.js:26-29 | The global replacement by the two groups: each match found by the scan keeps `<head>` with its whitespace and `<title>`, and loses what lies between; the scan resumes after `<title>`. Specified by `Cleanup.MetaAtSpec` (what a match is), `CleanChangesIffMatch`, `CleanFromShrinks`, `CleanFromLeavesNoMatch` and `CleanIdempotent`. |
| Cleanup.CleanFromShrinks | cleanup-duplicates.js:26-29 | The replacement never lengthens the text, and it strictly shortens it when there is a match. |
| Cleanup.CleanChangesIffMatch | cleanup-duplicates.js:26-33 | The replacement changes the text exactly when the pattern matches somewhere. Everything before the first match is kept. |
| Cleanup.CleanFromLeavesNoMatch | cleanup-duplicates.js:26-29 | When viewport tags are closed, no match remains after the scan. |
| Cleanup.CleanIdempotent | cleanup-duplicates.js:26-29 | When viewport tags are closed, a second pass finds no match and changes nothing. |
| Cleanup.CleanOutcome | cleanup-duplicates.js:21-33 | `modified` is raised exactly when the text changed. A page without the head placeholder is never changed. |
| Cleanup.CleanOutcomeModified | cleanup-duplicates.js:21-33 | A page is modified exactly when it holds the head placeholder and the pattern matches in it. |
| Cleanup.CleanPage | cleanup-duplicates.js:17-34 | The loop body's `content`, `original` and `modified` end as the guarded replacement's outcome. |
| Cleanup.CleanFile | cleanup-duplicates.js:15-43 | A page is written and counted exactly when it was read, it changed and its write succeeded. Otherwise the directory is unchanged. |
| Cleanup.DoneAreCleaned | cleanup-duplicates.js:36-40 | The pages the loop wrote are exactly the cleaned pages, and each holds the cleaned text. |
| Cleanup.CleanPages | cleanup-duplicates.js:12-44 | After the loop, written pages hold their cleaned text, every other page is untouched, and `cleanedCount` is the number written. |
| Cleanup.CleanupSite | cleanup-duplicates.js:7-44 | Exactly the cleaned candidates are rewritten, with the meta tags removed. Every other file, including those that failed, is untouched. `cleanedCount` counts the rewritten ones. |

## Left out

- Console output: the progress, error and summary lines are not modelled.
- Directory enumeration order: the listing is an input. No result depends on its order, except one: when a backup copy fails, which candidates were copied before the script ended depends on the order.
- `resolve`, `join` and `process.cwd`: files are keyed by their bare names.
- UTF-8 decoding and UTF-16: a page is a sequence of Unicode scalar values. JavaScript strings are sequences of UTF-16 code units, so a character outside the Basic Multilingual Plane is one character here and two code units there. Lengths, as in `Substitution.ReplaceAllLength` and `Cleanup.CleanFromShrinks`, count scalar values. Matching is the same either way, as every literal and character class of the patterns lies in the Basic Multilingual Plane.
- Template files that fail to load: in both `build.js` and `vite.config.js` this throws at top level. The templates are given values.
- `existsSync`, `rmSync` and `mkdirSync` of `dist` and `html-backup`: they are modelled as `dist` starting empty and backups going into the existing backup map. A failure of these calls, which ends the script, is not modelled.
- The recursive copy of `assets` into `dist` (`build.js:53-57`): a directory tree copy with no text logic.
- The Vite wiring (`defineConfig`, plugin registration, `order: 'pre'`, `rollupOptions`, `server.open`). So is the host that calls the handler, including concurrent requests. The templates are immutable values, so the handler is a function of the page alone.
- Substitution.Expandable: a template holding `` $` `` or `$'` is outside the model. Build, dev-server and substitution members require `Expandable`; `$$`, `$&` and every other `$` form are modelled.
- Substitution.SubstituteComplete: it requires `SafeTemplates`, which is stronger than "no template holds placeholder text". `Substitution.EmptyFragmentJoinsNeighbours` and `DevServer.HandlerNotIdempotentForEmptyHead` show that the weaker condition is not enough.
- Convert.ConvertIdempotent: it requires `Layout`, so pages without a head match (no title element on one line followed by `</head>`) are not covered. The document must split into three parts: a head part ending at the head match's `</head>`, with no navigation or footer landmark; a middle part ending with `>`, with at most one navigation landmark, whose block and trailing whitespace end before that `>`, and with no footer landmark; and a rest with no navigation landmark and at most one footer landmark. "At most one landmark of each kind" is not enough. Suppose a navigation landmark sits inside the title line, and a later title element on one line with a `</head>` after it follows. The navigation rewrite puts line breaks into the first title line, so on the second run the head pattern matches the later title. This counterexample is not stated as a lemma.
- Cleanup.CleanIdempotent: it requires that the attribute run of every viewport tag holds no `<` before its `>`. A weaker condition would do: that no such run reaches into a later `<head>`. For pages with a viewport tag whose attribute run holds a `<`, the model says nothing about a second pass.
- Build.BuildSite: the inserted template texts are expanded once, before the loop. `replace` expands them again on every page, with the same result.
