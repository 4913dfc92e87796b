# Lyzr Markdown and GitHub readers, modelled in Dafny

This project models the Markdown reader of the `lyzr` utilities
(`LyzrMarkdownReader`) and its GitHub variant (`LyzrGithubReader`), and proves
what they do.

The Markdown reader does three things:

- It can rewrite a document before splitting it. Each rewrite is switched on
  or off separately, and hyperlinks go before images. Hyperlinks
  `[caption](url)` are replaced by their caption. Image embeds `![[...]]` are
  deleted.
- It splits the document into (header, body) pairs. The pass goes line by
  line. A heading line (one or more `#` and then whitespace) starts a new
  pair, except when the current header's body is still empty: then the
  `continue` skips it (see below).
- It turns each pair into a record with an id, a text and a metadata
  dictionary.

The GitHub reader first writes the file's path and MD5 digest into the
metadata dictionary. It then either returns the whole rewritten file as one
record, or hands the dictionary to the Markdown reader.

Modules:

- `Wrappers`: `Option`, the model of Python's `None`-or-value.
- `TextRewrites`: the three regular-expression substitutions and the header
  clean-up, each written by hand:
  - inline tags `<.*?>`;
  - hyperlinks `\[(.*?)\]\((.*?)\)`;
  - image embeds `!{1}\[\[(.*)\]\]`;
  - removal of every `#`, then Python's `str.strip()`.

  The `.` of these patterns never matches a newline. `*?` is lazy and
  backtracks, and `*` is greedy. Whitespace is exactly the set of Python's
  `str.isspace()`.
- `Sections`: the splitter as functions.
  - `SplitLines` is `str.split("\n")`.
  - `IsHeadingLine` is `re.match(r"^#+\s", line)`.
  - `Step` is one pass of the loop body, including its `continue`, and `Scan`
    folds `Step` over the lines.
  - `SplitSections` is the whole of `markdown_to_tups`.
- `MarkdownReading`: the reader's fields and methods, plus the dictionary as
  a `Metadata` object.
  - `MarkdownToTups` runs the loop of the source. It is proved equal to
    `SplitSections`.
  - `LoadData` builds the records. Every record shares a non-empty caller
    dictionary. Otherwise each record gets its own new empty one.
- `GithubReading`: `GithubReader`, which mutates the caller's dictionary in
  place.

Some behaviour of the code is easy to miss:

- **Heading after an empty-bodied heading.** A heading line that arrives
  while the current header's body is still empty is skipped by the
  `continue`, and the earlier header stays active. So the text
  `"# A\n# B\nBody\n"` gives one pair with header `A` and body `"Body\n\n"`,
  not header `B`
  (`Sections.SecondHeadingSkipped`, `Sections.HeadingAfterEmptyHeadingDropped`).
- **Trailing newline.** A text that ends in `"\n"` splits into one more,
  empty, line, and that line appends one more `"\n"` to the last body. A
  last body with a line in it therefore ends in `"\n\n"`; one with no line
  is just `"\n"`, as for `"# A\n"`. The empty text gives the body `"\n"`
  (`Sections.TwoHeadedSections`, `Sections.EmptyTextSection`).
- **Ids are not unique.** A header-derived id is the file name, `_`, and the
  header with each space made `_`. So `a b` and `a_b` collide
  (`MarkdownReading.HeaderIdsCollide`).
- **Tag stripping comes last.** Bodies hold no heading line when the scan
  builds them, but removing a tag afterwards can make one: the body line
  `<b># B` comes out as `# B` (`Sections.TagStripCanExposeHeading`,
  `Sections.BoldHeadingExample`).
- **The digest key.** The GitHub reader stores the digest under
  `md5_hash`.

## Model

| member | source | states |
|---|---|---|
| Sections.SplitLines | lyzr/utils/markdown_reader.py:24 | `split("\n")` gives at least one line, and no line holds a newline |
| Sections.SplitLinesCount | lyzr/utils/markdown_reader.py:24 | there is one more line than there are newlines in the text |
| Sections.TerminatedSplitLines | lyzr/utils/markdown_reader.py:24 | re-appending `"\n"` to every line gives back the text plus one `"\n"`, so splitting loses nothing |
| Sections.SplitLinesAtNewline | lyzr/utils/markdown_reader.py:24 | splitting `x + "\n" + y` is splitting `x`, then splitting `y` |
| Sections.SplitLinesCons | lyzr/utils/markdown_reader.py:24 | splitting a newline-free line, `"\n"` and a rest gives the line, then the lines of the rest |
| Sections.LeadingHashes | lyzr/utils/markdown_reader.py:30 | the count is the length of the run of `#` that opens the line |
| Sections.HeadingLineMatchesPattern | lyzr/utils/markdown_reader.py:30 | a line is a heading line iff some non-empty prefix of `#` is followed by a whitespace character, the backtracking reading of `^#+\s` |
| Sections.HeadingExamples | lyzr/utils/markdown_reader.py:30 | `#`, `#Title` and ` # x` are not heading lines; `# Title` and `##\tSub` are |
| Sections.ScanKeepsScanned | lyzr/utils/markdown_reader.py:29-40 | the loop emits nothing before a header, keeps every emitted pair headed with a body ending in `"\n"`, and keeps the pending body empty or ending in `"\n"` |
| Sections.ScanCounts | lyzr/utils/markdown_reader.py:29-40 | emitted pairs plus the active header never outnumber the heading lines read |
| Sections.ScanAppend | lyzr/utils/markdown_reader.py:29-40 | the loop over `a + b` is the loop over `a`, then over `b` from where it stopped |
| Sections.ScanWithoutHeading | lyzr/utils/markdown_reader.py:39-40 | before any heading line (no header active, nothing emitted), lines without a heading only append each line and `"\n"` to the body |
| Sections.SectionCount | lyzr/utils/markdown_reader.py:24-41 | there is always at least one pair, and at most max(1, number of heading lines) |
| Sections.WithoutHeadingOneSection | lyzr/utils/markdown_reader.py:24-51 | a text without heading lines gives exactly one pair: no header, and the text plus `"\n"` with its tags stripped |
| Sections.EmptyTextSection | lyzr/utils/markdown_reader.py:24-51 | the empty text gives the single pair (None, `"\n"`) |
| Sections.HeadingAfterEmptyHeadingDropped | lyzr/utils/markdown_reader.py:32-34 | a heading line right after a heading line is dropped: the pairs equal those of the lines without it |
| Sections.SecondHeadingSkipped | lyzr/utils/markdown_reader.py:32-38 | heading, heading, body line gives one pair, under the FIRST heading, with body line + `"\n\n"` |
| Sections.PreambleDiscarded | lyzr/utils/markdown_reader.py:26-38 | lines before the first heading line change nothing: the pairs are those of the text after them |
| Sections.HeadedSectionsWellFormed | lyzr/utils/markdown_reader.py:30-47 | once a heading was seen, every header is present, holds no `#` and no surrounding whitespace, and every pair but the last has a body ending in `"\n"` |
| Sections.HeadersFromHeadingLines | lyzr/utils/markdown_reader.py:37-47 | every header is some heading line of the text with `#` removed and stripped, and is not tag-stripped |
| Sections.ScanKeepsHeadersAmong | lyzr/utils/markdown_reader.py:31-37 | the loop only ever makes a heading line of the input the header |
| Sections.PlainLinesNoHeading | lyzr/utils/markdown_reader.py:30 | a run of lines is heading-free (`PlainLines`) exactly when it counts no heading line (`HeadingCount` is 0) |
| Sections.PlainLinesAppend | lyzr/utils/markdown_reader.py:39-40 | a run of lines is heading-free iff both of its parts are |
| Sections.ScanKeepsBodiesPlain | lyzr/utils/markdown_reader.py:29-40 | the loop never puts a heading line into a body |
| Sections.RawBodiesHoldNoHeadingLine | lyzr/utils/markdown_reader.py:29-41 | no body of the scan, before tag stripping, has a heading line among its lines |
| Sections.TwoHeadedSections | lyzr/utils/markdown_reader.py:24-47 | two headings with one line each give two pairs; the last body gets `"\n\n"` from the final empty line |
| Sections.NormalizeSimpleHeading | lyzr/utils/markdown_reader.py:45 | `##` + space + a name free of `#` and of outer whitespace normalises to the name |
| Sections.RemoveHashesSkipsHashes | lyzr/utils/markdown_reader.py:45 | a leading run of `#` leaves no trace in `re.sub("#", "", ...)` |
| Sections.RemoveHashesOfHashFree | lyzr/utils/markdown_reader.py:45 | text without `#` is unchanged by `re.sub("#", "", ...)` |
| Sections.IsHeadingLine | lyzr/utils/markdown_reader.py:30 | a heading line has at least two characters and starts with `#` |
| Sections.Step | lyzr/utils/markdown_reader.py:30-40 | one pass of the loop emits at most one pair, only on a heading line while a header with a non-empty body is active, and that pair is the active one; a heading line leaves an empty body and either becomes the header or, by the `continue`, leaves the active one; any other line leaves the pairs and the header alone and appends itself and `"\n"` to the body |
| Sections.ScanHeadingHeadingLine | lyzr/utils/markdown_reader.py:29-40 | heading, heading, a plain line and the final empty line leave nothing emitted, the FIRST heading active and the plain line + `"\n\n"` as its body (one `Step` at a time: the helper lemmas `Sections.StepOpensHeader`, `Sections.StepSkipsHeading`, `Sections.StepAppendsLine`) |
| Sections.ScanTwoHeadings | lyzr/utils/markdown_reader.py:29-40 | heading, line, heading, line and the final empty line emit the first pair with body line + `"\n"`, and leave the second heading active with body line + `"\n\n"` (through `Sections.ScanHeadingLinePair`, built from `Sections.StepOpensHeader` and `Sections.StepAppendsLine`) |
| Sections.Scan | lyzr/utils/markdown_reader.py:29-40 | the loop only adds pairs: every pair emitted stays, unchanged and in order |
| Sections.RawSections | lyzr/utils/markdown_reader.py:29-41 | there is at least one pair; a header-less first pair is the only pair; every pair but the last has a header and a body ending in `"\n"` |
| Sections.NormalizeHeader | lyzr/utils/markdown_reader.py:45 | a normalised header holds no `#`, has no whitespace at either end, and every character of it comes from the heading line |
| Sections.NormalizeSections | lyzr/utils/markdown_reader.py:43-47 | there is one pair out for each pair in |
| Sections.HeadedSectionsOfLines | lyzr/utils/markdown_reader.py:41-47 | once the loop has seen a heading, every raw pair has a header and the result is the raw pairs normalised |
| Sections.NormalizedHeaders | lyzr/utils/markdown_reader.py:43-47 | every header that comes out is present, free of `#` and trimmed (pair by pair through the helper lemma `Sections.NormalizedAt`) |
| Sections.NormalizedBodiesEnd | lyzr/utils/markdown_reader.py:45 | a body ending in `"\n"` still ends in `"\n"` after normalisation (pair by pair through `Sections.NormalizedAt`) |
| Sections.StripBodies | lyzr/utils/markdown_reader.py:48-51 | there is one pair out for each pair in, and each header is kept as it is |
| Sections.SectionsOfLines | lyzr/utils/markdown_reader.py:41-53 | there is at least one pair, and either every pair has a header or there is exactly one pair and it has none |
| Sections.SplitSections | lyzr/utils/markdown_reader.py:22-53 | `markdown_to_tups` gives at least one pair, and either every pair has a header or there is exactly one pair and it has none |
| Sections.SectionBodiesTagFree | lyzr/utils/markdown_reader.py:44-51 | no body that comes out holds a tag `<.*?>` could still delete |
| Sections.OneLineBody | lyzr/utils/markdown_reader.py:39-40 | a one-line body holds no heading line exactly when its line is not a heading line |
| Sections.StripLeadingTag | lyzr/utils/markdown_reader.py:45 | a tag that closes on its own line is deleted from the front of the text, and stripping goes on after it |
| Sections.TagStripCanExposeHeading | lyzr/utils/markdown_reader.py:29-50 | `<tag>` followed by a heading line is no heading line, so it stays in a body, and tag stripping turns that body into the heading line: bodies are heading-free before tag stripping, not after |
| Sections.BoldHeadingExample | lyzr/utils/markdown_reader.py:29-50 | the body `"<b># B\n"` holds no heading line, but after tag stripping it does |
| MarkdownReading.MarkdownReader.MarkdownToTups | lyzr/utils/markdown_reader.py:22-53 | the loop with its `continue`, final append and post-processing returns exactly `SplitSections` of the text |
| TextRewrites.FindOnLine | lyzr/utils/markdown_reader.py:45 | the found position holds the character, with no newline and no earlier occurrence before it; None only when a newline comes before every occurrence |
| TextRewrites.FindOnLineAt | lyzr/utils/markdown_reader.py:45 | the search returns the first occurrence when no newline precedes it |
| TextRewrites.IsSpaceClass | lyzr/utils/markdown_reader.py:30 | space, tab, newline and carriage return are whitespace for `\s` and `strip()`; `#`, `<` and `[` are not |
| TextRewrites.StripTags | lyzr/utils/markdown_reader.py:45 | deleting tags never makes the text longer |
| TextRewrites.StripTagsWithoutAngle | lyzr/utils/markdown_reader.py:45-50 | text without `<` is unchanged by tag stripping |
| TextRewrites.StripTagsLeavesNoTag | lyzr/utils/markdown_reader.py:45-50 | after stripping, no `<` is followed by `>` on the same line |
| TextRewrites.StripTagsOfTagFree | lyzr/utils/markdown_reader.py:45-50 | text without a single-line tag is unchanged |
| TextRewrites.StripTagsIdempotent | lyzr/utils/markdown_reader.py:45-50 | stripping twice is stripping once |
| TextRewrites.StripTagsKeepsNewlines | lyzr/utils/markdown_reader.py:45-50 | stripping never removes or adds a newline |
| TextRewrites.StripTagsKeepsFinalNewline | lyzr/utils/markdown_reader.py:45-50 | a body ending in `"\n"` still ends in `"\n"` after stripping |
| TextRewrites.RemoveHashes | lyzr/utils/markdown_reader.py:45 | the result holds no `#` |
| TextRewrites.RemoveHashesKeepsOthers | lyzr/utils/markdown_reader.py:45 | every character but `#` is kept, as often as it occurs in the input |
| TextRewrites.RemoveHashesKeepsChars | lyzr/utils/markdown_reader.py:45 | every character kept was in the input |
| TextRewrites.RemoveHashesAppend | lyzr/utils/markdown_reader.py:45 | deleting the `#`s of `a + b` is deleting those of `a`, then those of `b` |
| TextRewrites.Strip | lyzr/utils/markdown_reader.py:45 | `strip()` never makes the text longer and leaves no whitespace at either end |
| TextRewrites.StripLeavesStretch | lyzr/utils/markdown_reader.py:45 | what `strip()` keeps is one contiguous stretch of the input, and everything it drops before and after that stretch is whitespace |
| TextRewrites.StripKeepsChars | lyzr/utils/markdown_reader.py:45 | every character `strip()` keeps was in the input |
| TextRewrites.TrimStart | lyzr/utils/markdown_reader.py:45 | the result is a suffix of the input, and only whitespace was removed before it |
| TextRewrites.TrimEnd | lyzr/utils/markdown_reader.py:45 | the result is a prefix of the input, and only whitespace was removed after it |
| TextRewrites.StripRemovesHashesAndSpace | lyzr/utils/markdown_reader.py:45 | a normalised header holds no `#`, has no surrounding whitespace, and every character of it comes from the heading line |
| TextRewrites.LastDoubleBracket | lyzr/utils/markdown_reader.py:56 | the greedy `(.*)\]\]` ends at the LAST `]]` of the line |
| TextRewrites.LineEnd | lyzr/utils/markdown_reader.py:56 | the match may run up to the next newline or the end of the text, and no further |
| TextRewrites.RemoveImagesWithoutMarker | lyzr/utils/markdown_reader.py:55-58 | text without `![[` is unchanged by `remove_images` |
| TextRewrites.RemoveImages | lyzr/utils/markdown_reader.py:55-58 | the rewrite never makes the text longer |
| TextRewrites.ImageEmbedRemoved | lyzr/utils/markdown_reader.py:55-58 | an embed `![[target]]` with a one-line target is deleted entirely, and the rewrite goes on after it, when the rest neither continues with `]` nor holds another `]]` on the same line |
| TextRewrites.ImageRemovedAt | lyzr/utils/markdown_reader.py:55-58 | an embed opening the text and closing with the last `]]` of its line is deleted, and the rewrite resumes after it |
| TextRewrites.EmbedCloses | lyzr/utils/markdown_reader.py:56 | the greedy group stops at a `]]` that no other `]]` follows on the same line |
| TextRewrites.GreedyImageTakesTextBetween | lyzr/utils/markdown_reader.py:56 | two embeds on one line are deleted as one match, together with the text between them: the greedy `.*` runs to the last `]]` of the line |
| TextRewrites.LinkAt | lyzr/utils/markdown_reader.py:61 | a found link is a caption without newline, then `](`, a URL without newline, and the FIRST `)` after the `](` |
| TextRewrites.LinkAtPassesOver | lyzr/utils/markdown_reader.py:61 | every `](` the search passes over before the link it finds has no `)` after it on its line |
| TextRewrites.LinkAtNoneMeansNoLink | lyzr/utils/markdown_reader.py:61 | no link is found only when every `](` up to the end of the line has no `)` after it on its line |
| TextRewrites.LinkAtIsLazy | lyzr/utils/markdown_reader.py:61 | group 1 is the shortest that works: there is no `](` at all between the start and the `](` found |
| TextRewrites.LinkFound | lyzr/utils/markdown_reader.py:61 | in `[caption](url)`, with no `](` or newline in the caption and no `)` or newline in the URL, the match ends group 1 at the caption's `]` and the link at the URL's `)` |
| TextRewrites.LinkAtSkipsLabel | lyzr/utils/markdown_reader.py:61 | when no newline and no `](` lie between `from` and `close`, searching from `from` finds the same link as searching from `close`: the lazy group 1 backtracks over a `]` that is not followed by `(` |
| TextRewrites.CaptionKeepsLoneBracket | lyzr/utils/markdown_reader.py:61 | `[a]b](c)` becomes `a]b`: a lone `]` stays in the caption |
| TextRewrites.RemoveHyperlinksWithoutBracket | lyzr/utils/markdown_reader.py:60-63 | text without `[` is unchanged by `remove_hyperlinks` |
| TextRewrites.RemoveHyperlinksKeepsBracketFreePrefix | lyzr/utils/markdown_reader.py:60-63 | a prefix without `[` is kept as it is, and the rewrite goes on after it |
| TextRewrites.RemoveHyperlinks | lyzr/utils/markdown_reader.py:60-63 | the rewrite never makes the text longer |
| TextRewrites.RemoveHyperlinksOfPieces | lyzr/utils/markdown_reader.py:60-63 | a text made of plain pieces without `[` or `]` and of well-formed links `[caption](url)` (caption without `]` or newline, URL without `)` or newline) rewrites to the plain pieces with each link replaced by its caption, and no `]` is left |
| TextRewrites.LinkReplacedByLabel | lyzr/utils/markdown_reader.py:60-63 | `[caption](url)` becomes `caption`, and the rest of the text is rewritten after it, when the caption holds no `](` and no newline and the URL no `)` or newline |
| MarkdownReading.Preprocess | lyzr/utils/markdown_reader.py:71-74 | the rewrites never make the text longer; with both switches off the text is kept, with one switch on only that rewrite is applied |
| MarkdownReading.PreprocessPlainText | lyzr/utils/markdown_reader.py:65-76 | text without `[` and `!` passes both rewrites unchanged, whatever the switches |
| MarkdownReading.MarkdownReader.constructor | lyzr/utils/markdown_reader.py:11-20 | the reader keeps the two switches it is given, both on by default |
| MarkdownReading.MarkdownReader.ParseTups | lyzr/utils/markdown_reader.py:65-76 | the content (or the file's text when there is none) is rewritten, hyperlinks first and images second, each only when switched on, then split; there is at least one pair |
| MarkdownReading.MarkdownReader.LoadData | lyzr/utils/markdown_reader.py:78-102 | one record per pair, in order, with the pair's id and text; a non-empty caller dictionary is shared by all records, otherwise each record gets its own new empty dictionary |
| MarkdownReading.MarkdownReader.BuildRecords | lyzr/utils/markdown_reader.py:85-100 | record k has pair k's id and text, and the metadata of `extra_info or {}` |
| MarkdownReading.ReplaceSpaces | lyzr/utils/markdown_reader.py:89 | same length, each space made `_`, every other character kept, no space left |
| MarkdownReading.ReplaceSpacesIdempotent | lyzr/utils/markdown_reader.py:89 | replacing spaces twice is replacing them once |
| MarkdownReading.DocId | lyzr/utils/markdown_reader.py:88-92 | without a present, non-empty header the id is the random one; with a present, non-empty header it is the file name, `_`, then the header with each space replaced by `_` and every other character kept, position by position |
| MarkdownReading.HeaderIdsCollide | lyzr/utils/markdown_reader.py:88-92 | a header with a space and its `_` spelling give the same id, so ids are not unique |
| MarkdownReading.DocText | lyzr/utils/markdown_reader.py:97 | without a header the text is the body; with one it is a blank line, the header, `"\n"` and the body, and each can be read back out of it |
| MarkdownReading.Metadata.Put | lyzr/utils/github_reader.py:30-31 | storing a key changes that key only |
| GithubReading.Tagged | lyzr/utils/github_reader.py:29-31 | the dictionary gains `original_file_path` = the file and `md5_hash` = the digest, and keeps every other key and value |
| GithubReading.GithubReader.constructor | lyzr/utils/github_reader.py:16-18 | the reader keeps the single-document switch and passes the rewrite switches on |
| GithubReading.GithubReader.Default | lyzr/utils/github_reader.py:16-18 | by default: sections, with hyperlink and image removal on |
| GithubReading.GithubReader.LoadData | lyzr/utils/github_reader.py:20-44 | the caller's dictionary (or a new one) is tagged in place and shared by every record. In single-document mode there is one record: id = the file, text = the rewritten file text, content ignored. Otherwise the records are the Markdown reader's, with at least one of them |

## Left out

- File reading is not modelled: the file's text is the parameter `fileText`. This covers `open(...).read()` in `parse_tups` and in single-document mode. Decoding errors and missing files are left out with it.
- `get_md5` is not modelled. Its hash is computed over chunked reads by a library, and the digest arrives as the parameter `md5Hex`.
- `uuid.uuid4()` is not modelled. The id of the k-th record without a header is `randomId(k)`, an oracle parameter, and nothing is claimed about its uniqueness.
- Paths are not modelled: a path is the string `str(file)` would give.
- `Document` and `BaseReader` of `llama_index` become the datatype `Record`, and the base-class constructor arguments are dropped.
- Metadata values other than strings are not modelled: the dictionary maps strings to strings.
- `LyzrGithubReader` subclasses `LyzrMarkdownReader`. Here `GithubReader` holds a `MarkdownReader` with the same two switches and calls its `LoadData`.
- `parse_tups`'s `filepath` and `errors` arguments and `load_data`'s `file` appear only as the text and the string they contribute. `errors` is unused in the source.
- `clone_or_pull_repository` and `on_rm_error` (git network calls, chmod and unlink) are not part of this model, and neither is lyzr/utils/document_reading.py (wrappers over directory readers and temporary directories).
- setup.py and the cookbook example script are not part of this model.
- Sections.ScanKeepsBodiesPlain, Sections.RawBodiesHoldNoHeadingLine: the heading-free property of bodies is stated before tag stripping only, because it does not hold after it: `Sections.TagStripCanExposeHeading` shows a tag whose removal turns a body line into a heading line.
