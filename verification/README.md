# Homebrew tap update scripts, modelled in Dafny

The tap keeps Homebrew formulas for Python command-line tools in step with
their releases on PyPI. Two scripts do the work:

- `scripts/check_updates.py` reads each formula's class name, current version
  and PyPI project name out of its Ruby text (`extract_formula_info`). It then
  asks PyPI for the latest release (`check_formula_update`) and reports an
  update with the release's first `sdist` `.tar.gz` archive and its digest.
- `scripts/update_formulas.py` rewrites a formula for an update (`update_formula`):
  - it substitutes the new archive url's path into every
    `url "https://files.pythonhosted.org/packages/…"` of the formula, those of
    its resource blocks included. Only when the new url is not then in the
    text does it put the new url into every url ending in `.tar.gz`;
  - it then rewrites the text line by line. Every line containing `url `
    becomes `  url "<new url>"`, unless the line directly above it is exactly
    `resource`. The first `sha256` line after such a url line becomes the
    new digest, unless a line containing `resource ` comes first;
  - optionally it removes the `resource` blocks and inserts new ones. The new
    blocks are built from the package's `pip freeze` output
    (`get_package_dependencies`) and the PyPI documents of the dependencies
    (`get_tarball_info`, `generate_resource_block`). They are sorted by name
    and inserted before every `def install` line; a formula without one
    gets none of them. The removal pattern wants a url line
    indented by four spaces. The line pass has already rewritten each
    block's url line to a two-space indent, so as written the old blocks
    are not matched and stay in the formula, next to the new ones.

The model follows the scripts' text processing, with the simplifications
listed under "Left out", and passes in everything they fetch or run:

- the formula text;
- the decoded PyPI documents, or `None` for a failed request;
- the captured `pip freeze` output, or `None` when a subprocess step failed;
- the version order of `packaging`, as two parameters: a partial parser and a
  `<=`.

Each fixed regular expression is a deterministic matcher. Each matcher has a
soundness and a completeness lemma against the pattern's language, so "the
matcher finds exactly the regex's matches" is proved, not assumed. `re.sub` is
one generic engine (`Substitute`): a leftmost, non-overlapping scan. It is
characterised once by lemmas and used for all four substitutions.

The writer (`FormulaWriter`) takes a `Variant`. `AsWritten` is the script as
it stands. `Corrected` is the same program with the three corrections listed
under "Findings":
- the url substitutions replace only their first match, the formula's own
  url;
- the second url substitution replaces the whole quoted url;
- the line pass spares a url line under any line mentioning `resource`.

Modules, one per file: `Wrappers`, `Text` (Python string operations),
`Matchers` and `Archive` (the search patterns), `PyPI`, `FormulaReader`,
`UpdateCheck`, `Deps`, `DepOrder`, `Resources`, `UrlRules`, `Substitute`,
`LinePass`, `FormulaWriter` and `RoundTrip` (what the writer puts in, the
checker reads back).

Where the scripts' behaviour differs from the prose description of the
repository, the model follows the scripts:
- Versions are compared with `packaging`'s order. When either version fails to
  parse, the scripts only test the two strings for equality. There is no rule that
  keeps pre-releases out.
- Resource blocks are rebuilt from `pip freeze`. They are not each compared
  with their own latest release.

## Model

| member | source | states |
|---|---|---|
| `Matchers.MatchTokensSound` | scripts/check_updates.py:43-66 | Every match the greedy token matcher reports spells the pattern: one piece per token, each piece matched by its token, the pieces lying in the text one after another from `i` |
| `Matchers.MatchTokensComplete` | scripts/check_updates.py:43-66 | For a pattern in which every run is followed by a token that cannot continue it, every way of spelling the pattern at `i` is the one the greedy matcher reports, so no backtracking is needed |
| `Matchers.ClassAtSound` | scripts/check_updates.py:43 | Whatever `ClassAt` reports at `i` comes from pieces that spell `class\s+(\w+)\s+<\s+Formula` there, and it is the piece of the group `(\w+)` |
| `Matchers.ClassAtComplete` | scripts/check_updates.py:43 | Every spelling of the class pattern at `i` is found by `ClassAt`, with the group's piece as the capture |
| `Matchers.ClassSpelledOut` | scripts/check_updates.py:43 | A spelling of the class pattern is `class`, white space, a non-empty run of word characters, white space, `<`, white space and `Formula`, in the text at `i` |
| `Matchers.QuotedAtSound` | scripts/check_updates.py:50 | Whatever `QuotedAt` reports is a match of `<keyword>\s+"([^"]+)"` whose group is the reported value |
| `Matchers.QuotedAtComplete` | scripts/check_updates.py:64 | Every match of `url\s+"([^"]+)"` or `version\s+"([^"]+)"` is found: its five pieces are the keyword, the white space, the quote, the value and the quote, the capture is the value and the match ends after the closing quote |
| `Matchers.SearchFrom` | scripts/check_updates.py:43-53 | `re.search`: the reported match is the leftmost at or after `from`; `None` means no position matches |
| `Matchers.Search` | scripts/check_updates.py:43-66 | A capture is reported exactly when some position matches, and it is the capture of the leftmost match |
| `Archive.ArchiveTail` | scripts/check_updates.py:57 | A reported name and version make the url end in `/<name>-<version>.tar.gz`, possibly followed by one newline; the name and version contain no `/` and the version no `-` |
| `Archive.ArchiveTailComplete` | scripts/check_updates.py:57 | Any url ending in such a tail yields exactly that name and version, so the greedy search has only one candidate |
| `Archive.PypiTail` | scripts/check_updates.py:57-60 | A result is a match of the checker's PyPI-url pattern: a `[a-zA-Z0-9_-]+` name and a `\d+\.\d+(\.\d+)?(\.\w+)?` version, anchored at the end |
| `Archive.PypiTailComplete` | scripts/check_updates.py:57-60 | Every match of that pattern is the one `PypiTail` reports |
| `Archive.UrlTail` | scripts/update_formulas.py:129-133 | A result is a match of the writer's pattern `/([a-zA-Z0-9_-]+)-[\d.]+\.tar\.gz$` |
| `Archive.UrlTailComplete` | scripts/update_formulas.py:129-133 | Every match of the writer's pattern is the one `UrlTail` reports |
| `FormulaReader.ExtractFormulaInfo` | scripts/check_updates.py:38-75 | `None` when there is no class line or no url. The name is the lower-cased class name. With a PyPI tail, the version and normalised name come from the url; otherwise the name is the formula's and the version is the first `version "..."`. `None` only when neither source gives a version |
| `FormulaReader.VersionComesFromUrlTail` | scripts/check_updates.py:55-60 | When the first url ends in a PyPI-shaped tail, that tail decides version and PyPI name, whatever `version` lines the formula has |
| `PyPI.FirstSdistFrom` | scripts/update_formulas.py:45-47 | The first entry at or after `from` that is an `sdist` `.tar.gz`, with none qualifying before it; `None` when none qualifies |
| `PyPI.FirstSdist` | scripts/check_updates.py:123-128 | The loop stops at the first `sdist` `.tar.gz` entry |
| `PyPI.TarballInfo` | scripts/update_formulas.py:30-49 | `Some` exactly when the fetch succeeded and some entry qualifies; the url and digest are those of the first qualifying entry |
| `UpdateCheck.NotNewer` | scripts/check_updates.py:112-120 | The version test: `latest <= current` when both versions parse, string equality otherwise. The same version is never newer, whenever `le` holds between its parse and itself |
| `UpdateCheck.CheckUpdate` | scripts/check_updates.py:104-141 | No update on a failed fetch, when `latest <= current`, when either version fails to parse and the strings are equal, or when no archive (or only an empty url) is found. Otherwise there is an update, carrying the formula's fields, the latest version and the first qualifying archive |
| `UpdateCheck.SameVersionIsNoUpdate` | scripts/check_updates.py:112-120 | For a reflexive `le`, a release equal to the formula's version is never an update, whether or not it parses |
| `Deps.DepOf` | scripts/update_formulas.py:93 | `line.split("==")` into two parts gives a pair whose freeze line is the line. The name ends at the first `==`, and neither part contains `==` |
| `Deps.FilterFreeze` | scripts/update_formulas.py:91-96 | Fails exactly when a line containing `==` does not unpack into two parts, and reports such a line. On success, every pair comes from a freeze line and is not skipped |
| `Deps.FilterFreezeKeeps` | scripts/update_formulas.py:92-96 | Every well-formed line whose name is not skipped gives a dependency |
| `Deps.FilterFreezeInOrder` | scripts/update_formulas.py:91-96 | The dependencies come out in the order of their lines (their freeze lines are a subsequence of the input) |
| `Deps.DepsOf` | scripts/update_formulas.py:93 | The pairs of well-formed lines give those lines back as freeze lines |
| `Deps.FilterFreezeExact` | scripts/update_formulas.py:91-96 | On success the result is exactly the pairs of the kept lines, one per kept line and in order, repeated lines included. A line is kept when it contains `==` and its name is not skipped |
| `Deps.PackageDependencies` | scripts/update_formulas.py:52-98 | A failed subprocess step gives no dependencies. Otherwise the stripped output is split into lines and filtered; no result is `pip`, `setuptools`, `wheel` or the package itself |
| `DepOrder.StrLessAsymmetric` | scripts/update_formulas.py:191 | Python's `<` on strings is asymmetric |
| `DepOrder.StrLessTotal` | scripts/update_formulas.py:191 | Two strings neither of which is less than the other are equal |
| `DepOrder.StrLessTransitive` | scripts/update_formulas.py:191 | `<` on strings is transitive |
| `DepOrder.StrNotLessTransitive` | scripts/update_formulas.py:191 | `<=` on strings is transitive |
| `DepOrder.StrLessIrreflexive` | scripts/update_formulas.py:191 | No string is less than itself |
| `DepOrder.SortedPairs` | scripts/update_formulas.py:191 | In a sorted list, every earlier key is `<=` every later key, not only neighbours |
| `DepOrder.Insert` | scripts/update_formulas.py:191 | Insertion adds exactly one element: same multiset plus `d` |
| `DepOrder.InsertSorted` | scripts/update_formulas.py:191 | Insertion keeps a list sorted by lower-cased name |
| `DepOrder.InsertStable` | scripts/update_formulas.py:191 | Insertion puts `d` before the elements sharing its key and leaves the order of all others as it was |
| `DepOrder.SortDeps` | scripts/update_formulas.py:191 | `sorted` returns a permutation of its input |
| `DepOrder.SortDepsSortedStable` | scripts/update_formulas.py:191 | `sorted(deps, key=lambda x: x[0].lower())` is ordered by key and stable: for every key, the dependencies with that key keep their input order |
| `Resources.RenderBlock` | scripts/update_formulas.py:112-115 | The block is its four lines, header, `url`, `sha256` and `end`, joined by newlines; `Resources.RenderedBlockLines` and `Resources.RenderedBlockParses` split it back and read it back |
| `Resources.GenerateResourceBlock` | scripts/update_formulas.py:101-108 | A block exists exactly when a source archive is found |
| `Resources.GeneratedBlockParses` | scripts/update_formulas.py:101-115 | A generated block, after a newline, is read back by the removal pattern as the lower-cased, hyphenated name with the archive's url and digest |
| `Resources.GeneratedBlockLines` | scripts/update_formulas.py:110-115 | Without newlines in the fields, a generated block is exactly its four lines |
| `Resources.RenderedBlockLines` | scripts/update_formulas.py:112-115 | The block splits into its four lines: header, `url`, `sha256` and `end` |
| `Resources.BlockSpan` | scripts/update_formulas.py:184 | The removal pattern matches at `i` exactly when a block is read there; the match is the block's text |
| `Resources.BlockAtSound` | scripts/update_formulas.py:184 | A block read at `i` is a match of `\n  resource "[^"]+" do\n    url "[^"]+"\n    sha256 "[^"]+"\n  end` there |
| `Resources.BlockAtComplete` | scripts/update_formulas.py:184 | Every match of the removal pattern is read back with the same three fields |
| `Resources.RenderedBlockParses` | scripts/update_formulas.py:112-115 | A generated block with well-formed fields, after a newline, is matched by the removal pattern whatever follows it |
| `Resources.ReindentedBlockMissed` | scripts/update_formulas.py:184 | A block whose url line starts with two spaces instead of four, as the line pass leaves it, is not matched by the removal pattern |
| `UrlRules.HostedUrlSplit` | scripts/update_formulas.py:138 | `tarball_url.split("packages/")` of a hosted url whose path has no `packages/` gives the host part and the path |
| `UrlRules.HostedUrlAtSound` | scripts/update_formulas.py:137 | A reported match is `url`, white space, a quote, the files.pythonhosted.org packages prefix and a quote-free path, then a quote |
| `UrlRules.HostedUrlAtComplete` | scripts/update_formulas.py:137 | Every match of the first url pattern is found, with its first group and its end |
| `UrlRules.ArchiveUrlAtSound` | scripts/update_formulas.py:145 | A reported match is `url "...` ending in `.tar.gz"`, with first group `url` and the white space and quote |
| `UrlRules.ArchiveUrlAtComplete` | scripts/update_formulas.py:145 | Every match of `(url\s+")[^"]+(\.tar\.gz")` is found, with its group and end |
| `Substitute.Sub` | scripts/update_formulas.py:136-203 | `re.sub` returns a text without matches unchanged; `Substitute.RewriteLeftmost` and `Substitute.SubOnce` say what it does to a match |
| `Substitute.RewriteUnchanged` | scripts/update_formulas.py:136-203 | `re.sub` leaves a stretch without matches unchanged |
| `Substitute.RewriteLeftmost` | scripts/update_formulas.py:136-203 | `re.sub` copies the text before the leftmost match, replaces the match and resumes after its end |
| `Substitute.SubOnce` | scripts/update_formulas.py:136-203 | With one match in the text, `re.sub` replaces just that match |
| `Substitute.SubFirst` | scripts/update_formulas.py:136-148 | `re.sub` with `count=1`, the corrected substitution: a text without matches comes back unchanged; `Substitute.SubFirstLeftmost` says what it does to the first match |
| `Substitute.SubFirstLeftmost` | scripts/update_formulas.py:136-148 | With `count=1`, the text before the leftmost match is copied, the match is replaced, and everything after it is kept, later matches included |
| `Substitute.RewriteLaidOut` | scripts/update_formulas.py:136-203 | `re.sub` on a text laid out as gaps without a match and matches between them copies every gap and replaces every match, however many there are |
| `Substitute.SubLaidOut` | scripts/update_formulas.py:136-203 | The same for a whole text: the result is the gaps interleaved with the replacements |
| `Substitute.SubHostedUrls` | scripts/update_formulas.py:136-140 | As written, every hosted url of a formula gets the new path, the urls of resource blocks as much as the formula's own |
| `Substitute.HostedUrlFirst` | scripts/update_formulas.py:136-140 | With `count=1`, the formula's first hosted url gets the new path; the rest of the text, later hosted urls included, is kept |
| `Substitute.ArchiveUrlFixedFirst` | scripts/update_formulas.py:144-148 | With `count=1` and the intended template, the first url ending in `.tar.gz` becomes exactly the new url; the rest of the text is kept |
| `Substitute.RemoveBlocks` | scripts/update_formulas.py:183-187 | A formula holding any number of old blocks, with no other match of the removal pattern, loses all of them; the text between them is what is left |
| `Substitute.HostedUrlOnce` | scripts/update_formulas.py:136-140 | A formula whose one hosted url has path `prior` gets the new path instead; nothing else changes |
| `Substitute.ArchiveUrlOnce` | scripts/update_formulas.py:144-148 | A formula whose one match of the second url pattern is at `k` gets that match replaced by the template filled in with `url`, the white space and the quote; nothing else changes |
| `Substitute.ArchiveUrlDoubledAsWritten` | scripts/update_formulas.py:144-148 | As written, a formula whose one archive url is replaced by a url ending in `.tar.gz` ends up with `.tar.gz.tar.gz` |
| `Substitute.ArchiveUrlFixedOnce` | scripts/update_formulas.py:144-148 | With the intended template, the quoted url becomes exactly the new url; nothing else changes |
| `Substitute.RemoveNothing` | scripts/update_formulas.py:183-187 | A text without resource blocks is left as it is |
| `Substitute.RemoveAt` | scripts/update_formulas.py:183-187 | Removing the only block cuts exactly its text out |
| `Substitute.RemoveOnly` | scripts/update_formulas.py:183-187 | Removing the only generated block of `a + "\n" + block + b` leaves `a + b` |
| `Substitute.InsertOnce` | scripts/update_formulas.py:197-203 | With one `\n  def install`, a blank line, the resources text and a newline go right before it |
| `Substitute.InsertNowhere` | scripts/update_formulas.py:199-203 | A text without `\n  def install` comes back from the insertion unchanged |
| `Substitute.InsertEvery` | scripts/update_formulas.py:199-203 | In a text laid out as marker-free gaps and any number of `\n  def install`, the resources text goes before every marker |
| `LinePass.PassIsRewrite` | scripts/update_formulas.py:152-172 | The loop with its two flags rewrites each line to a description without flags: url lines become the new url line, the main digest line the new digest, other lines are kept |
| `LinePass.PassStep` | scripts/update_formulas.py:157-172 | One iteration emits the line's flag-free rewrite, and the two flags keep their meaning for the next line |
| `LinePass.RewriteLines` | scripts/update_formulas.py:152-172 | The pass keeps the number of lines, and line `i` becomes `Rewritten(lines, i)` |
| `LinePass.PassFrom` | scripts/update_formulas.py:157-172 | Every iteration emits exactly one line |
| `LinePass.AtMostOneMainSha` | scripts/update_formulas.py:163-167 | At most one line is rewritten as the main `sha256` line |
| `LinePass.UrlLineOverwrittenAsWritten` | scripts/update_formulas.py:157-161 | As written, every line containing `url ` becomes the main url line unless the line above it is exactly `resource` |
| `LinePass.ResourceUrlOverwrittenAsWritten` | scripts/update_formulas.py:158 | As written, the url line `    url "<old>"` of every resource block, under its header `  resource "<name>" do`, becomes the main url line, which differs from it |
| `LinePass.ResourceUrlKeptCorrected` | scripts/update_formulas.py:158 | With the intended guard, a line right under a line mentioning `resource` is kept, unless it is a digest line |
| `FormulaWriter.ResourceBlocks` | scripts/update_formulas.py:190-195 | At most one block per dependency. When every dependency has a source archive, there is exactly one block per dependency, in order |
| `FormulaWriter.ResourceBlocksExact` | scripts/update_formulas.py:190-195 | The blocks are exactly those generated for the dependencies that have a source archive, one each and in order |
| `FormulaWriter.ResourceBlocksGenerated` | scripts/update_formulas.py:190-195 | Every block in the list is the block generated for one of the dependencies |
| `FormulaWriter.ReSub` | scripts/update_formulas.py:136-148 | Both forms of the substitution leave a text without matches unchanged; as written they replace every match (`Substitute.SubHostedUrls`), corrected only the first (`Substitute.SubFirstLeftmost`) |
| `FormulaWriter.PlaceUrl` | scripts/update_formulas.py:136-148 | The url substitution raises exactly when the new url has no `packages/`. The text it produces is given for a formula with one hosted url (`PlaceHostedUrl`), with several hosted urls (`PlaceHostedUrls` as written, `PlaceMainHostedUrl` corrected), and with no hosted url and one url ending in `.tar.gz` (`PlaceArchiveUrl`) |
| `FormulaWriter.PlaceHostedUrl` | scripts/update_formulas.py:136-143 | A formula whose only hosted url has path `prior`, updated to a hosted url with path `path`, gets the new path there and nothing else changes; the new url is then in the text, so the second pattern is not tried |
| `FormulaWriter.PlaceHostedUrls` | scripts/update_formulas.py:136-143 | As written, a formula laid out as gaps and one or more hosted urls gets the new path in every one of them, and the second substitution is skipped |
| `FormulaWriter.PlaceMainHostedUrl` | scripts/update_formulas.py:136-143 | Corrected, only the formula's first hosted url gets the new path, whatever follows it; the hosted urls of resource blocks keep theirs, and the second substitution is skipped |
| `FormulaWriter.PlaceFound` | scripts/update_formulas.py:143 | When the first substitution already puts the new url into the text, its result is kept |
| `FormulaWriter.PlaceArchiveUrl` | scripts/update_formulas.py:136-148 | A formula with no hosted url, without the new url and with one url ending in `.tar.gz`: that url is replaced. As written, the matched `.tar.gz"` follows the new url; corrected, the quoted url is exactly the new url |
| `FormulaWriter.PassLines` | scripts/update_formulas.py:152-174 | When the new url and digest have no newline, the text keeps its number of lines and line `i` becomes `Rewritten(lines, i)` under the variant's guard |
| `FormulaWriter.ReplaceResources` | scripts/update_formulas.py:181-203 | With no old block and one `def install`, the sorted blocks, joined by blank lines, go right before it after a blank line, and the rest of the text is kept. `ReplaceResourcesBlocks`, `ReplaceResourcesNoInstall` and `ReplaceResourcesEveryInstall` state the cases of several old blocks and of zero or several markers |
| `FormulaWriter.ReplaceResourcesBlocks` | scripts/update_formulas.py:181-203 | With any number of old blocks, and the removal pattern matching nowhere else, every old block is removed and the sorted new blocks go before the one `def install` of what is left |
| `FormulaWriter.ReplaceResourcesNoInstall` | scripts/update_formulas.py:181-203 | When what is left after removing the old blocks has no `\n  def install`, the insertion matches nowhere: the old blocks are gone and the new ones are dropped, so the result is that text |
| `FormulaWriter.ReplaceResourcesEveryInstall` | scripts/update_formulas.py:181-203 | The insertion has no `count`: when what is left holds any number of `\n  def install`, the blank line, the new blocks and a newline go before every one of them |
| `FormulaWriter.UpdateFormula` | scripts/update_formulas.py:118-206 | With `AsWritten`, the script; with `Corrected`, the same steps using the three corrections. Gives up exactly when the url has no package tail, and raises `IndexError` exactly when the tail is there but `packages/` is not. `ValueError` only comes from a malformed freeze line. Otherwise it writes the line pass's result, followed by resource replacement when resources are requested and dependencies were found |
| `RoundTrip.UpdateReadsBack` | scripts/update_formulas.py:118-206 | A formula whose own hosted url is its only one, below lines without `url`, updated to a PyPI url without touching its resources: the writer writes a text, and the checker reads that text back with the new url's version and normalised project name, in either variant |
| `RoundTrip.PassThenRead` | scripts/update_formulas.py:150-174 | After the line pass over a formula whose first `url ` line follows lines without `url`, the checker's url search finds the new url, and a class declaration above it is still found |
| `RoundTrip.ReadInfo` | scripts/check_updates.py:38-75 | A text with a class declaration whose first url is a PyPI url is read with that url's version and normalised project name |
| `FormulaWriter.PassLinesKeepsLines` | scripts/update_formulas.py:152-174 | For either guard, the as-written list-membership test or the corrected substring test: when the new url and digest have no newline, the rewritten text splits back into the rewritten lines, one per line of the input |
| `Text.Split` | scripts/update_formulas.py:152 | `s.split(sep)` gives at least one piece. Joining the pieces with `sep` gives `s` back, and no piece contains `sep` |
| `Text.SplitJoin` | scripts/update_formulas.py:174 | Splitting on a character undoes joining with it when no piece contains that character |
| `Text.SplitPieces` | scripts/update_formulas.py:138 | `s.split(sep)[1]` exists exactly when `sep` occurs in `s` |
| `Text.IndexFrom` | scripts/update_formulas.py:158 | `t in s`: the first occurrence at or after `from`, or `None` when there is none |
| `Text.StripStart` | scripts/update_formulas.py:91 | `lstrip()` removes exactly the leading white space |
| `Text.StripEnd` | scripts/update_formulas.py:91 | `rstrip()` removes exactly the trailing white space |

## Left out

- Network access: `get_pypi_info`, the requests in `get_tarball_info` and the archive download with SHA-256 hashing in `get_tarball_sha256` (scripts/check_updates.py:78-101). Documents are passed in as values and a failed request as `None`.
- The virtual environment and the three `subprocess.run` calls (scripts/update_formulas.py:54-86). Their captured output is passed in.
- Reading and writing formula files, `main`, argument parsing, the JSON updates file and the messages printed to standard error.
- `packaging.version.Version`. PEP 440 parsing and ordering are parameters (`parse`, `le`) of `UpdateCheck.CheckUpdate`.
- Unicode. `\w`, `\d` and `str.lower()` are modelled on ASCII only; `\s` is Python's set of white-space characters.
- `KeyError` on a PyPI document missing `info`, `urls`, `packagetype`, `filename`, `url` or `digests`. The document is a typed value that always has them.
- `UpdateCheck.CheckUpdate`: an empty but successful PyPI document counts as a document, though `if not pypi_info` treats it like a failed request.
- `FormulaWriter.UpdateFormula`: the `new_version` argument is not a parameter. It is only used for the `pip install` the freeze output stands for.
- Backslash escapes in the replacement templates. The new url and the resources text are inserted literally, which is what the scripts mean unless those values contain `\`.
- `Resources.GeneratedBlockParses`: the block is only pinned down as read back by the removal pattern when its fields are quote-free and non-empty.
- `RoundTrip.UpdateReadsBack`: stated only for a formula whose own hosted url is its only hosted url, with no `url` on the lines above it, and for an update that does not replace resources.
- `FormulaWriter.PlaceArchiveUrl`: the text is given for one url ending in `.tar.gz`; several are covered only through `Substitute.SubLaidOut`.
- `Resources.GeneratedBlockLines`: the block is only pinned down line by line when the fields have no newline. The formatted text itself is always `RenderBlock`.

## Findings

| source | as written | input that shows it | evidently intended | confidence | as-written member | corrected member |
|---|---|---|---|---|---|---|
| scripts/update_formulas.py:158 | `"resource" not in lines[max(0, i - 1) : i]` tests whether the previous line is exactly `resource` | lines `  resource "dep" do` and `    url "https://x/dep-1.0.tar.gz"`: the resource's url line is overwritten with the main url | a url line right after a line mentioning `resource` is left alone | high, not executed | `LinePass.ResourceUrlOverwrittenAsWritten` | `LinePass.ResourceUrlKeptCorrected` |
| scripts/update_formulas.py:136-140 | `re.sub` without `count` puts the new path into every hosted url of the formula | a formula with a hosted main url and a resource block with a hosted url: both get the new package's url, and the resource keeps its old `sha256` | only the formula's own url, the first one, gets the new path | high, not executed | `FormulaWriter.PlaceHostedUrls` | `FormulaWriter.PlaceMainHostedUrl` |
| scripts/update_formulas.py:144-148 | the template `\g<1>{tarball_url}\2` puts the matched `.tar.gz"` back after a url that already ends in `.tar.gz` | a formula whose only url is written `url` TAB `"https://example.org/pkg-1.0.tar.gz"` (no `url ` on the line, so the line pass does not overwrite it), updated to a url ending in `.tar.gz`: the written url ends in `.tar.gz.tar.gz` | the quoted url is replaced by the new url | high, not executed | `Substitute.ArchiveUrlDoubledAsWritten` | `Substitute.ArchiveUrlFixedOnce` |
