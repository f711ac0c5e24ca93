# pdfdoi: text blocks, identifier heuristics and the first-hit driver

pdfdoi finds the DOI or arXiv identifier of a scientific article in a PDF. It has three parts:

- It reads the layout tree a PDF layout library produces for each page.
- It glues horizontally adjacent text fragments into text blocks (`extract_text_blocks`).
- It runs three regular-expression passes over each block (`extract_article_ids`) and returns the first identifier it finds (`extract_article_id`).

Each regex capture is first cleaned of known trailing garbage (`cleanup_article_id`). Each block is first repaired of a mis-decoded slash (`standardize_text`).

This project models those parts in Dafny:

- `Pdf` (pdf.dfy) holds the layout tree and block reconstruction:
  - The tree is the datatype `Node = Text(box, content) | Container(children) | Other`.
  - `Fold`/`Blocks` specify what the generator yields, as a finite sequence.
  - `ExtractTextBlocks` is the loop itself, with its accumulator `text` and previous-item marker. It recurses into containers, and it is proved to return `Blocks`.
- `PdfProperties` (pdf_properties.dfy) holds what the blocks are:
  - each block is non-empty;
  - close fragments merge;
  - distant fragments split;
  - an `Other` item separates;
  - without containers no text is lost or duplicated;
  - a container behaves as the code is written.
- `Heuristics` (heuristics.py's model, heuristics.dfy) has these parts:
  - One greedy matcher per regular expression (`MatchAt`), proved to return a match that the declarative predicate `Matches` describes.
  - The `re.findall` scan (`FindAll`, over a generic `FindAllWith`).
  - The garbage table and its cut-out loop (`CleanupArticleId`).
  - The mojibake table and its replace loop (`StandardizeText`).
  - The three passes concatenated (`ExtractArticleIds`).
- `HeuristicsProperties` (heuristics_properties.dfy) proves these:
  - The matchers are complete and greedy.
  - Captures have the shape of their group.
  - Standardization is exact and idempotent.
  - Cleanup: what it removes, and when it changes nothing.
  - The order and tagging of the extracted identifiers.
- `HeuristicsExamples` (heuristics_examples.dfy) proves what `ExtractArticleIds` returns for three whole texts: a DOI ending a sentence, an arXiv identifier with a mixed-case tag, and a DOI whose slash was mis-decoded.
- `Strings` (strings.dfy) holds the string primitives:
  - runs of a character class;
  - literal occurrences;
  - Python's `str.replace` (`ReplaceAll`) with its laws.
- `Driver` (driver.dfy) holds `ExtractArticleId`: the page loop with `enumerate`, the `break` at `max_page`, the block loop, and the early return. It is proved equal to the head of the concatenation of the identifiers of all scanned pages and blocks (`FirstArticleId`).
- `DriverProperties` (driver_properties.dfy) holds which pages count and what a result looks like.
- `Wrappers` (wrappers.dfy) holds `Option`.

The model follows the code as written, including its quirks:

- The gap threshold is `space_tol * min(width, height)` of the current text item (pdfdoi/pdf.py:70). It is not taken from the previous item, which is what the docstring of `space_tol` says (pdfdoi/pdf.py:50-52).
- The gap is tested only when the previous sibling was a text item (pdfdoi/pdf.py:71).
- The container branch reuses the name `text` as its loop variable (pdfdoi/pdf.py:77). For a container that yields blocks, this has three effects:
  - The pending text is lost.
  - Each sub-block is yielded.
  - The last sub-block stays pending, so it is joined by the text that follows and yielded again.

  So `[Text "a", Container [Text "b"]]` yields `["b", "b"]` (`PdfProperties.ContainerExample`), and `[Text "a", Container [Text "b"], Text "c"]` yields `["b", "bc"]` (`PdfProperties.ContainerThenText`).
- An empty container between two text items hides the gap between them, so they merge however far apart they are (`PdfProperties.EmptyContainerHidesGap`).

Regular expressions are modelled as follows:

- The `.` in `doi.org/` is unescaped, so it is any character except a newline.
- IGNORECASE applies to the three identifier patterns. The garbage patterns are matched case-sensitively.
- In the garbage patterns `$` is the end of the string. Captures never hold a newline (`HeuristicsProperties.CapturesSingleLine`), so `$` before a final newline never arises.

Pages form an abstract input sequence: each page is the sequence of its layout object's children. A document that may not be extracted is the empty sequence.

## Model

| member | source | states |
|---|---|---|
| Pdf.ExtractTextBlocks | pdfdoi/pdf.py:40-86 | The generator loop, with its accumulator, previous item, flushes and recursive container branch, returns exactly the block sequence `Blocks` of the children. |
| PdfProperties.HDistanceSymmetric | pdfdoi/pdf.py:71 | The horizontal distance between two boxes does not depend on which one is the current item. |
| PdfProperties.HDistanceGap | pdfdoi/pdf.py:71 | For well-formed boxes where one ends before the other begins, the distance is the width of the gap between them, in both directions. |
| PdfProperties.BlocksNonEmpty | pdfdoi/pdf.py:72-86 | Every yielded block is a non-empty string, including the blocks re-yielded from containers. |
| PdfProperties.StepNonEmpty | pdfdoi/pdf.py:69-83 | One iteration of the child loop adds only non-empty blocks to the output. |
| PdfProperties.FoldNonEmpty | pdfdoi/pdf.py:68-83 | The whole child loop keeps every yielded block non-empty. |
| PdfProperties.FoldAppend | pdfdoi/pdf.py:68-83 | The loop over `a + b` is the loop over `b` resumed from the state after `a`. |
| PdfProperties.FoldCloseRun | pdfdoi/pdf.py:69-75 | Text items each within the current item's threshold of the previous one yield nothing. They append their contents, in order, to the pending text. |
| PdfProperties.BlocksOfCloseRun | pdfdoi/pdf.py:69-86 | A flat run of close text items yields exactly one block, the in-order concatenation of their contents, unless that concatenation is empty, in which case it yields nothing. |
| PdfProperties.DistantRunTail | pdfdoi/pdf.py:70-71 | The tail of a run of distant items is again such a run, and its first item splits from the head. |
| PdfProperties.FoldDistantRun | pdfdoi/pdf.py:70-75 | Distant non-empty text items, after a pending text that they split from, yield the pending text and then one block per item. |
| PdfProperties.BlocksOfDistantRun | pdfdoi/pdf.py:70-86 | A flat run of non-empty text items, each gap above the threshold, yields one block per item, in order. |
| PdfProperties.StepTextAfterNonText | pdfdoi/pdf.py:71-83 | After a non-text item, or at the start, a text item never splits: its content joins the pending text, whatever the gap. |
| PdfProperties.FoldOutPrefix | pdfdoi/pdf.py:68-83 | Blocks already yielded are passed through unchanged by the rest of the loop. |
| PdfProperties.FlushFromOutput | pdfdoi/pdf.py:79-86 | After a non-text item with nothing pending, the remaining children yield exactly what they would yield on their own. |
| PdfProperties.OtherSeparates | pdfdoi/pdf.py:79-83 | An `Other` item between two child lists makes their blocks independent: the output is the blocks of the left part followed by the blocks of the right part. |
| PdfProperties.OtherSplitsCloseItems | pdfdoi/pdf.py:69-83 | Two non-empty text fragments that merge when adjacent are yielded as two blocks when an `Other` item stands between them, for every `space_tol`. |
| PdfProperties.ConcatFlush | pdfdoi/pdf.py:85-86 | The final flush loses no pending text. |
| PdfProperties.StepConcat | pdfdoi/pdf.py:69-82 | A non-container step adds the item's content to the yielded and pending text taken together. |
| PdfProperties.FoldConcat | pdfdoi/pdf.py:68-83 | Without containers, the yielded blocks plus the pending text are the text contents so far, in order. |
| PdfProperties.BlocksPreserveText | pdfdoi/pdf.py:68-86 | For children without containers, the concatenated blocks equal the concatenated text contents: nothing is lost or duplicated. |
| PdfProperties.ContainerReplays | pdfdoi/pdf.py:76-78 | A container that yields nothing leaves the output and the pending text as they were. A container that yields blocks discards the pending text, replays its blocks in order, and yields its last block once more at the flush. |
| PdfProperties.ContainerExample | pdfdoi/pdf.py:76-86 | `[Text "a", Container [Text "b"]]` yields `["b", "b"]`. |
| PdfProperties.ContainerThenText | pdfdoi/pdf.py:76-86 | `[Text "a", Container [Text "b"], Text "c"]` yields `["b", "bc"]`: the pending `a` is lost, `b` is yielded, and `b` stays pending to be joined by `c`. |
| PdfProperties.EmptyContainerHidesGap | pdfdoi/pdf.py:71-83 | Two non-empty fragments with an empty container between them merge into one block for every box and `space_tol`. The same two fragments side by side split when the gap exceeds the threshold. |
| PdfProperties.HelloWorld | pdfdoi/pdf.py:70-75 | Two fragments three units apart merge under `space_tol` 1.0 and split under `space_tol` 0.1. |
| Heuristics.DoiSuffixEnd | pdfdoi/heuristics.py:4-5 | The greedy matcher of `\d+\.\d+/[a-z0-9-._;()/]+` returns an end at which the pattern matches and at which the last character class cannot continue. |
| Heuristics.MatchAt | pdfdoi/heuristics.py:4-6 | The match found at `i` for each of the three patterns is a match of that regular expression, with its group inside the text. The group cannot be extended. |
| HeuristicsProperties.DoiSuffixEndComplete | pdfdoi/heuristics.py:4-5 | Whenever the suffix pattern matches at `i`, the matcher succeeds there and ends at least as far. |
| HeuristicsProperties.MatchAtComplete | pdfdoi/heuristics.py:4-6 | Whenever a pattern matches at `i`, the matcher succeeds there, with the same group start and an end at least as far. |
| HeuristicsProperties.DoiMatchComplete | pdfdoi/heuristics.py:4 | This is completeness for `doi[:/]?\s*(...)`. The optional separator and the whitespace the matcher skips end exactly where the suffix starts. |
| HeuristicsProperties.ArxivMatchComplete | pdfdoi/heuristics.py:6 | This is completeness for `arxiv:(\d+\.\d+)`. |
| HeuristicsProperties.MatchAtExact | pdfdoi/heuristics.py:4-6 | The matcher succeeds at `i` if and only if the regular expression matches at `i`. |
| HeuristicsProperties.MatchAtLongest | pdfdoi/heuristics.py:4-6 | The match found is the greedy one: every match at `i` has the same group start and ends no further. |
| Heuristics.FindAllWithMatches | pdfdoi/heuristics.py:36-44 | The `findall` scan, for any matcher, reports only the matcher's own matches, at or after the start, left to right and without overlap. |
| Heuristics.FindAllWithLeftmost | pdfdoi/heuristics.py:36-44 | The scan skips no match: every position where the matcher matches starts a reported match or lies inside one. |
| Heuristics.FindAllWithFirst | pdfdoi/heuristics.py:36-44 | The first reported match is the match at the leftmost matching position, and the scan resumes where it ends. |
| Heuristics.MatchAtAdvances | pdfdoi/heuristics.py:36-44 | Every match the three matchers find starts where it is tried and ends after that, within the text, so the scan terminates. |
| Heuristics.FindAllMatches | pdfdoi/heuristics.py:36-44 | Every match `re.findall` reports for a pattern is that pattern's match at its start, and the matches do not overlap, in left-to-right order. |
| Heuristics.FindAllLeftmost | pdfdoi/heuristics.py:36-44 | `re.findall` skips no match of the pattern. |
| Heuristics.FindAllFirst | pdfdoi/heuristics.py:36-44 | The first result of `re.findall` is the leftmost match of the pattern, and the rest are the matches found from its end on. |
| Heuristics.FindAllAtEnd | pdfdoi/heuristics.py:36-44 | A search that starts at the end of the text finds nothing. |
| HeuristicsProperties.FindAllNonEmpty | pdfdoi/heuristics.py:36-45 | A pass reports something if and only if its pattern matches somewhere in the text. |
| HeuristicsProperties.DoiSuffixSlice | pdfdoi/heuristics.py:4-5 | A span the suffix pattern matches, once cut out, is a whole DOI suffix. |
| HeuristicsProperties.CaptureShape | pdfdoi/heuristics.py:4-6 | A DOI capture is digits, a dot, digits, a slash and a non-empty run of DOI characters. An arXiv capture is digits, a dot and digits. |
| HeuristicsProperties.CapturesShape | pdfdoi/heuristics.py:36-46 | Every string a pass of `re.findall` returns has its pattern's group shape. |
| HeuristicsProperties.CapturesSingleLine | pdfdoi/heuristics.py:4-6 | No capture contains a newline. |
| Heuristics.SearchGarbage | pdfdoi/heuristics.py:9-13 | Each garbage pattern's search matches as follows. It finds a span that reaches the end of the string. `\.$` matches exactly when there is a trailing period. `;publishedonline.*$` matches exactly when the literal occurs, and the span starts at its first occurrence. `availableonlineathttp$` matches exactly when it is a suffix. |
| Heuristics.Cut | pdfdoi/heuristics.py:63-66 | Cutting out the first match of a garbage pattern leaves a prefix of the string. The prefix is strictly shorter exactly when the pattern matched. |
| Heuristics.CleanupWith | pdfdoi/heuristics.py:62-66 | Applying a list of garbage patterns once each, in order, yields a prefix of the input, never longer. |
| Heuristics.CleanupArticleId | pdfdoi/heuristics.py:58-67 | The loop over the garbage table computes `Cleanup` of the identifier. |
| Strings.FindFrom | pdfdoi/heuristics.py:11 | The search for a literal returns its leftmost occurrence at or after `from`, or reports that there is none. |
| HeuristicsProperties.CleanupSteps | pdfdoi/heuristics.py:62-66 | The cleanup is the trailing-period pass, then the `;publishedonline` pass, then the `availableonlineathttp` pass, each applied once. |
| HeuristicsProperties.CleanupFixpoint | pdfdoi/heuristics.py:9-13 | The cleanup leaves an identifier unchanged if and only if it has no trailing period, no `;publishedonline`, and no `availableonlineathttp` suffix. |
| HeuristicsProperties.NoSemicolonNoPublished | pdfdoi/heuristics.py:11 | Text without `;` holds no `;publishedonline`. |
| HeuristicsProperties.CutTrailingDot | pdfdoi/heuristics.py:10 | The first pass removes exactly one trailing period. |
| HeuristicsProperties.CutAvailableOnline | pdfdoi/heuristics.py:12 | The last pass removes a trailing `availableonlineathttp`. |
| HeuristicsProperties.CutAvailableOnlineEither | pdfdoi/heuristics.py:12 | The last pass removes `availableonlineathttp` only when it is a suffix, and otherwise changes nothing. |
| HeuristicsProperties.CleanupTrailingDot | pdfdoi/heuristics.py:10-12 | An identifier with one trailing period and no other garbage loses exactly that period. |
| HeuristicsProperties.TrailingDotBeforeTail | pdfdoi/heuristics.py:10 | A trailing period after `;publishedonline` is cut from the tail and leaves the marker in place. |
| HeuristicsProperties.PublishedOnlineCut | pdfdoi/heuristics.py:11 | The second pass cuts from the first `;publishedonline` to the end, whatever `;` come before it. |
| HeuristicsProperties.PublishedOnlineNotBefore | pdfdoi/heuristics.py:11 | A prefix without `;publishedonline`, followed by text that starts with `;` or with a character foreign to the marker, holds no occurrence that starts inside the prefix. |
| HeuristicsProperties.CleanupPublishedOnline | pdfdoi/heuristics.py:10-12 | Everything from the first `;publishedonline` on is removed. A case-sensitive `availableonlineathttp` left at the end is removed too. |
| HeuristicsProperties.CleanupAvailableOnline | pdfdoi/heuristics.py:12 | A trailing `availableonlineathttp` is removed from an identifier without `;publishedonline`. |
| HeuristicsProperties.AvailableOnlineAddsNoPublished | pdfdoi/heuristics.py:11-12 | Appending `availableonlineathttp` does not create a `;publishedonline`. |
| HeuristicsProperties.ArxivNumberClean | pdfdoi/heuristics.py:9-13 | An arXiv number holds no garbage, so the cleanup returns it unchanged. |
| HeuristicsProperties.CleanupExampleDot | pdfdoi/heuristics.py:10 | `10.1000/xyz123.` becomes `10.1000/xyz123`. |
| HeuristicsProperties.CleanupExampleTwoDots | pdfdoi/heuristics.py:10 | `10.1000/xyz123..` becomes `10.1000/xyz123.`: each pattern is applied once. |
| HeuristicsProperties.CleanupExamplePublished | pdfdoi/heuristics.py:11 | `10.1/x;publishedonline2019.` becomes `10.1/x`. |
| HeuristicsProperties.CleanupExampleSemicolon | pdfdoi/heuristics.py:11 | `10.1002/x;2-a;publishedonline2019` becomes `10.1002/x;2-a`: a `;` inside the DOI is kept. |
| HeuristicsProperties.CleanupExampleAvailable | pdfdoi/heuristics.py:10-12 | `10.1/x.availableonlineathttp` becomes `10.1/x.`: the period pass runs before the suffix pass. |
| Heuristics.StandardizeText | pdfdoi/heuristics.py:49-55 | The loop over the mojibake table computes `Standardize` of the text. |
| Strings.ReplaceAllIdentity | pdfdoi/heuristics.py:54 | `str.replace` leaves text without the pattern unchanged. |
| Strings.ReplaceAllAtFirst | pdfdoi/heuristics.py:54 | `str.replace` keeps the text before the first occurrence, turns that occurrence into the replacement, and continues after it. |
| Strings.ReplaceAllKeepsClearPrefix | pdfdoi/heuristics.py:54 | A prefix in which no occurrence starts is copied unchanged. |
| Strings.ReplaceAllRemoves | pdfdoi/heuristics.py:54 | With a replacement that shares no character with the pattern, no occurrence survives. |
| Strings.ReplaceAllKeepsPrefix | pdfdoi/heuristics.py:54 | A prefix of the result made of characters foreign to the replacement was copied from the input. |
| HeuristicsProperties.StandardizeIsReplace | pdfdoi/heuristics.py:15-17 | With its one-entry table, `standardize_text` is one replace of `å…¾` by `/`. |
| HeuristicsProperties.StandardizeRepairsAll | pdfdoi/heuristics.py:53-55 | No `å…¾` survives standardization. |
| HeuristicsProperties.StandardizeRepairsFirst | pdfdoi/heuristics.py:53-55 | The first `å…¾` becomes `/`, the text before it is kept even when it holds `å` or `…`, and the rest is standardized the same way: every former occurrence becomes `/`. |
| HeuristicsProperties.MojibakeNotBefore | pdfdoi/heuristics.py:54 | A prefix without `å…¾`, followed by text that starts with `å`, holds no occurrence that starts inside the prefix. |
| HeuristicsProperties.StandardizeKeepsClean | pdfdoi/heuristics.py:53-55 | Text without `å…¾` is returned unchanged. |
| HeuristicsProperties.StandardizeIdempotent | pdfdoi/heuristics.py:53-55 | Standardizing twice is standardizing once. |
| HeuristicsProperties.TaggedStartsWith | pdfdoi/heuristics.py:37-46 | Every yielded identifier starts with its pass's prefix. |
| HeuristicsProperties.ExtractArticleIdsTagged | pdfdoi/heuristics.py:36-46 | Every identifier starts with `doi:` or `arxiv:`, and once an arXiv identifier appears only arXiv identifiers follow: all DOI hits come before all arXiv hits. |
| HeuristicsProperties.ExtractArticleIdsCount | pdfdoi/heuristics.py:36-46 | There is one identifier per match of each pass: hits of different passes are not deduplicated. |
| HeuristicsProperties.ExtractArticleIdsFound | pdfdoi/heuristics.py:34-46 | A block yields an identifier if and only if one of the three patterns matches somewhere in its standardized text. |
| HeuristicsProperties.ExtractArticleIdsFirstDoi | pdfdoi/heuristics.py:34-38 | When the plain DOI pattern matches, the first identifier is `doi:` followed by the cleaned capture of its leftmost match. |
| HeuristicsExamples.FirstDoiAfterRepair | pdfdoi/heuristics.py:34-38 | When the repaired text has its first `doi` where the DOI pattern matches to its end, the first identifier is `doi:` and that capture, cleaned. |
| HeuristicsExamples.OnlyArxivOf | pdfdoi/heuristics.py:34-46 | A clean text with no `doi` and a single `arxiv:`, where the arXiv pattern matches to the end, yields exactly one identifier, `arxiv:` and the capture. |
| HeuristicsExamples.ExtractSeeDoi | pdfdoi/heuristics.py:34-46 | `See doi:10.1000/xyz123.` gives first `doi:10.1000/xyz123`: the sentence's period is cleaned off. |
| HeuristicsExamples.ExtractSeeArxiv | pdfdoi/heuristics.py:34-46 | `Preprint arXiv:1901.01234` gives exactly `["arxiv:1901.01234"]`: the tag is matched ignoring case and written in lower case. |
| HeuristicsExamples.BrokenSlashRepaired | pdfdoi/heuristics.py:15-17 | `doi:10.1000å…¾xyz` is repaired to `doi:10.1000/xyz`. |
| HeuristicsExamples.ExtractBrokenSlash | pdfdoi/heuristics.py:34-46 | `doi:10.1000å…¾xyz` gives first `doi:10.1000/xyz`: the slash is repaired before matching. |
| HeuristicsProperties.ArxivHitsUncleaned | pdfdoi/heuristics.py:44-46 | The cleanup never changes an arXiv capture. |
| Driver.ScanLimit | pdfdoi/__main__.py:40-42 | The page loop stops at the first index equal to `max_page`: no page before it has that index, and the number scanned is either `max_page` or the page count. A negative `max_page` is never reached. |
| Driver.FlattenFirst | pdfdoi/__main__.py:44-46 | After empty lists, the first element of the concatenation is the first element of the first non-empty list. |
| Driver.ExtractArticleId | pdfdoi/__main__.py:39-47 | The nested loops with the `break` and the early return give the head of the concatenation, over scanned pages, then blocks, then per-pass hits, of all identifiers, and `None` when there is none. |
| DriverProperties.PagesBeyondLimitIgnored | pdfdoi/__main__.py:40-42 | With `0 <= max_page`, pages at index `max_page` or later are never examined: documents that agree on the first `max_page` pages give the same result. |
| DriverProperties.MaxPageZero | pdfdoi/__main__.py:41-42 | `max_page == 0` always gives `None`. |
| DriverProperties.NegativeMaxPageScansAll | pdfdoi/__main__.py:41 | A negative `max_page` never equals a page index, so every page is scanned. |
| DriverProperties.NoPages | pdfdoi/__main__.py:40-47 | A document with no pages gives `None`, and that is not an error. |
| DriverProperties.PageIdsTagged | pdfdoi/__main__.py:43-44 | Every identifier of a page starts with `doi:` or `arxiv:`. |
| DriverProperties.ResultTagged | pdfdoi/__main__.py:44-46 | A result other than `None` starts with `doi:` or `arxiv:`. |

## Left out

- `extract_pages` (pdfdoi/pdf.py:11-37) is not modelled. It parses the PDF and interprets pages through pdfminer. Pages are an input sequence instead, and a document that may not be extracted is the empty sequence.
- pdfminer's `width`, `height`, `hdistance` and `get_text` belong to a library that is not part of this model. They become functions on a box and the `content` field of a text leaf, following pdfminer's definitions.
- pdfminer's class hierarchy is not modelled. An object that is both `LTText` and `LTContainer` is a `Text` leaf, because the text test comes first.
- pdfdoi/crossref.py `query_bibtex` is left out: it is an HTTP request to CrossRef.
- `main`, `run` and `parse_args` are left out. They cover signals, argument parsing, opening files and printing.
- Generators are modelled as finite sequences, without their laziness. The "first hit" is the head of the concatenation. The early return of `ExtractArticleId` stops its own loops, and it calls the complete `ExtractTextBlocks` once per page.
- `extract_article_ids` is modelled as the function `ExtractArticleIds`. Its three passes have no loop or state worth a method.
- Python's Unicode `\d` and `\s`, and IGNORECASE folding outside ASCII (such as U+212A), are left out. Digits, whitespace and case-insensitivity are ASCII only.
- Coordinates and `space_tol` are Dafny `real`, so IEEE floating-point rounding is not modelled.
- `$` before a final newline is not modelled: `$` is taken as the end of the string. Captures never contain a newline (`CapturesSingleLine`), so the two readings agree on every capture.
