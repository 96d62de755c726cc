# URL extractor — a verified model of its extraction core

`url_extractor_program.py` reads HTML pages or files and pulls out every link
written as an `href="…"` or `src="…"` attribute. Each link gets two labels:

- a **type**: "Complete URL", "Protocol-Relative" or "Absolute Path";
- a **category**: Image, Video, Audio, Document, Script/Style, Archive,
  Anchor Link, Email Link, Phone Link or Webpage.

It then counts the links per source and exports three things: the flattened
rows, a per-source summary sheet, and a console total.

This Dafny project models the core of that program. The four parts below are
modelled as the source writes them. Pure code becomes functions; the loops
become methods, with invariants tying them to those functions.

- `patterns.dfy` (module `Patterns`): the three attribute patterns and
  `finditer`.
  - `IsMatch` is the regular expression read declaratively.
  - `MatchAt` is a deterministic matcher. It tries `href` before `src`, and
    `https://` before `http://` and `ftp://`, as Python does with the greedy
    `s?` in `(?:https?|ftp)://`. At most one alternative can fit at a
    position anyway (`LiteralFitsUnique`), so the order of trial does not
    change the result.
  - `MatchAtCorrect` proves the two agree in both directions.
  - `Scan` is the left-to-right `finditer` loop over the match attempts at
    each position.
- `categorizer.dfy` (module `Categorizer`): `categorize_url`, with the six
  extension patterns written out as predicates. The predicates encode these
  regular-expression details:
  - `.` does not match a line feed;
  - `$` matches at the end of the string or before a final line feed;
  - IGNORECASE folds ASCII letters.
- `extractor.dfy` (module `Extractor`): `extract_urls`. `ExtractUrls` runs
  three append loops and the `seen`-set loop. Its result is proved equal to
  the function `Extract`, and the lemmas state what `Extract` guarantees.
- `aggregator.dfy` (module `Aggregator`):
  - the content-to-record part of `process_source` and its counting loop;
  - the zero-filled summary rows of `export_to_excel`;
  - the flattened rows of both exports;
  - the grand total and the alphabetical breakdown of `print_summary`.
- `text.dfy` (module `Text`) and `wrappers.dfy` (module `Wrappers`) hold the
  character classes, ASCII case folding and `Option`.

Python's `\s` on `str` patterns is modelled by its ASCII part: the characters
`\t`…`\r` and `\x1c`…`\x20`.

Some consequences of the code as written, each proved in the model:

- **Extension followed by a fragment.** The extension patterns end in
  `(?:\?.*)?$`, so a fragment after the extension defeats them:
  `/img/photo.jpg#frag` is not an Image and `file.pdf#page=2` is not a
  Document. Both fall through to Anchor Link
  (`Categorizer.FragmentAfterImage`, `Categorizer.FragmentAfterDocument`).
- **`mailto:` and `tel:` links.** No attribute pattern accepts a value that
  starts with `mailto:` or `tel:`, so the `mailto:` value of
  `<a href="mailto:test@x.com">` is never extracted
  (`Extractor.NoMailtoTelOrFragment`). An extracted URL is an Email
  Link only when `mailto:` appears later inside it, and likewise for `tel:`.
- **Category name.** The script and style category is the string
  `Script/Style`, which is what `Category.Name` returns.
- **Failed sources.** The test is `not html_content`, so content that was
  read but is empty also produces the failure record
  (`Aggregator.ProcessSource`).

## Model

| member | source | states |
|---|---|---|
| Patterns.MatchAtCorrect | url_extractor_program.py:30-50 | The deterministic matcher succeeds at a position with end `e` and group `v` exactly when the pattern's parts can be laid over the text there: attribute name, `=` between optional whitespace, a quote, optional whitespace, prefix, value characters, and a closing quote of either kind. So at a position there is at most one match. |
| Patterns.MatchAtSound | url_extractor_program.py:30-50 | Every match the matcher reports fits the declarative pattern. |
| Patterns.MatchAtComplete | url_extractor_program.py:30-50 | Every way the declarative pattern fits is the one the matcher reports. |
| Patterns.LiteralFitsUnique | url_extractor_program.py:31 | At one position at most one alternative of `href`/`src`, or of the scheme prefixes, can fit case-insensitively. |
| Patterns.MatchValueWellFormed | url_extractor_program.py:30-50 | A captured value starts with its pattern's prefix, followed by at least one more character, and contains no quote, whitespace or `>`. |
| Patterns.ScanSound | url_extractor_program.py:131 | Every value the `finditer` scan yields from a position is the group of a successful attempt at or after that position. |
| Patterns.ScanComplete | url_extractor_program.py:131 | If some attempt at or after the start succeeds, the scan yields at least one value. |
| Patterns.FindIterSound | url_extractor_program.py:30-50 | Every value of `finditer` is captured by a match of the pattern somewhere in the text, and is well formed. |
| Patterns.FindIterEmpty | url_extractor_program.py:30-50 | `finditer` finds nothing exactly when the pattern matches nowhere in the text. |
| Patterns.FindIterWellFormed | url_extractor_program.py:30-50 | All values of `finditer` are well formed for their pattern. |
| Patterns.FindIterEmptyContent | url_extractor_program.py:131 | Empty text yields no matches. |
| Patterns.MatchAt | url_extractor_program.py:30-50 | The deterministic matcher at one position: on success its end lies after the position and within the text, and `MatchAtCorrect` ties its answer to the pattern. |
| Patterns.Scan | url_extractor_program.py:131 | The `finditer` loop over the table of attempts: it takes a successful attempt's group and resumes at its end, otherwise moves one position on. It yields at most one value per remaining position. |
| Patterns.FindIter | url_extractor_program.py:131 | `[m.group(1) for m in pattern.finditer(s)]`: the scan of the attempts at every position of `s` from 0, so at most one value per position. |
| Patterns.WellFormedStart | url_extractor_program.py:30-50 | A well-formed value has at least two characters. A complete URL starts with `h` or `f` in either case; a protocol-relative URL starts with `//`; an absolute path starts with `/`. |
| Categorizer.Categorize | url_extractor_program.py:93-119 | The category returned is one whose rule applies to the URL, and no rule earlier in the fixed precedence applies. Webpage always applies, so the function is total. |
| Categorizer.CategorizeUnique | url_extractor_program.py:93-119 | Any category whose rule applies while every earlier rule fails is the one returned. Together with `Categorize`'s contract, this makes "the first applicable rule" an if-and-only-if. |
| Categorizer.NameInjective | url_extractor_program.py:99-119 | The ten category strings are distinct, so counting by string and counting by category agree. |
| Categorizer.ExtensionRule | url_extractor_program.py:54-59 | One extension pattern: some `.ext` of the list, matched ignoring case, followed by an optional `?` and a tail without line feed, then the end or a final line feed. A URL it holds for contains a `.`. |
| Categorizer.ExtensionRuleWithoutNewline | url_extractor_program.py:54-59 | For a URL without line feeds, an extension rule holds iff some case-insensitive `.ext` of its list is followed by the end of the URL or by `?`. |
| Categorizer.ExtensionRuleWithoutQuery | url_extractor_program.py:54-59 | For a URL without line feed or `?`, an extension rule holds iff the URL ends in `.ext`. |
| Categorizer.NoDotNearEnd | url_extractor_program.py:54-59 | A URL without line feed or `?` whose last five characters hold no `.` matches no extension rule. |
| Categorizer.NoQueryExtension | url_extractor_program.py:54-59 | With a single `?` and no `.` from five characters before it onwards, no extension rule applies. |
| Categorizer.FragmentAfterImage | url_extractor_program.py:99-113 | `/img/photo.jpg#frag` is categorised as Anchor Link, not Image. |
| Categorizer.FragmentAfterDocument | url_extractor_program.py:105-113 | `file.pdf#page=2` is categorised as Anchor Link, not Document. |
| Categorizer.DocumentRuleIgnoresCaseAndQuery | url_extractor_program.py:57 | The Document rule holds for `/files/Report.PDF?v=2`: the extension is matched ignoring case, and a query string may follow it. |
| Categorizer.SingleDotExtension | url_extractor_program.py:54-59 | For a URL without line feeds whose only `.` is at position `d`, an extension rule holds iff some extension of its list follows that dot, ignoring case, and is followed by the end or by `?`. |
| Categorizer.NoExtensionAfterDot | url_extractor_program.py:54-59 | For such a URL, if the two letters after the dot begin none of the list's extensions, the rule fails. |
| Categorizer.QueriedDocumentNoEarlierRule | url_extractor_program.py:54-56 | The Image, Video and Audio rules fail for `/files/Report.PDF?v=2`. |
| Categorizer.QueriedDocumentCategory | url_extractor_program.py:93-119 | `categorize_url("/files/Report.PDF?v=2")` is Document: the earlier rules fail and the Document rule holds despite the upper case and the query. |
| Extractor.Candidates | url_extractor_program.py:127-155 | The list built by the three passes, in order: complete URLs, protocol-relative URLs, then the kept absolute paths. Every tuple is categorised by `categorize_url` of its URL. |
| Extractor.Dedup | url_extractor_program.py:157-168 | The `seen`-set filter: it keeps a tuple when no earlier kept tuple has its URL. Its result is no longer than its input and holds only input tuples. |
| Extractor.Extract | url_extractor_program.py:121-171 | `extract_urls` as a function: the candidates with duplicates removed. There are at most as many as candidates, each categorised by `categorize_url` of its URL. |
| Extractor.ExtractUrls | url_extractor_program.py:121-171 | The method's result equals `Extract` of the content: the three passes in order, then removal of duplicates. |
| Extractor.AppendPass | url_extractor_program.py:131-146 | A `finditer` loop appends, in scan order, every captured value with the pass's type and its category. |
| Extractor.AppendPaths | url_extractor_program.py:149-155 | The third loop appends only the values for which `AlreadyFullUrl` is false, in scan order. |
| Extractor.RemoveDuplicates | url_extractor_program.py:157-168 | The `seen`-set loop computes `Dedup` of the candidate list. |
| Extractor.KeepPaths | url_extractor_program.py:152 | A value is kept iff it was captured and does not start with `http://`, `https://`, `ftp://` or `//`. |
| Extractor.DedupUrls | url_extractor_program.py:159-168 | The deduplicated list contains exactly the URL strings of the candidates: nothing is lost and nothing is added. |
| Extractor.DedupDistinct | url_extractor_program.py:159-168 | The URLs of the deduplicated list are pairwise distinct. |
| Extractor.DedupFirstSeen | url_extractor_program.py:159-168 | Each kept tuple is the first candidate with its URL. The kept tuples appear in the order of those first occurrences. |
| Extractor.FirstIndex | url_extractor_program.py:159-168 | Returns the position of the first candidate with the given URL: it holds that URL and no earlier one does. |
| Extractor.TagMember | url_extractor_program.py:131-146 | A tuple belongs to a pass's output iff it has the pass's type and one of its values, categorised by `categorize_url`. |
| Extractor.CandidateMember | url_extractor_program.py:131-155 | A tuple is a candidate iff its pass captured its URL, the third pass's filter keeps it, and its category is `categorize_url` of its URL. |
| Extractor.ValueDeterminesType | url_extractor_program.py:30-50 | A value well formed for two patterns, and kept by the filter when one of them is the absolute-path pattern, determines the pattern. So the three passes never capture the same URL. |
| Extractor.ExtractSound | url_extractor_program.py:121-171 | Every output tuple comes from its pass, its category is `categorize_url` of its URL, and its URL starts with its pass's prefix and contains no quote, whitespace or `>`. |
| Extractor.ExtractedEntry | url_extractor_program.py:121-171 | `ExtractSound` for a single output tuple. |
| Extractor.ExtractComplete | url_extractor_program.py:121-171 | Every value a pass captures and keeps is in the output, with that pass's type and its category. |
| Extractor.ExtractDistinct | url_extractor_program.py:159-168 | The output URLs are pairwise distinct. |
| Extractor.AbsolutePathSingleSlash | url_extractor_program.py:149-155 | An Absolute Path tuple's URL starts with exactly one `/`. So it never starts with `http://`, `https://`, `ftp://` or `//`. |
| Extractor.NoMailtoTelOrFragment | url_extractor_program.py:30-50 | No output URL starts with `mailto:` or `tel:` in any case, or with `#`. |
| Extractor.ExtractEmptyContent | url_extractor_program.py:121-171 | Empty content yields an empty list. |
| Aggregator.ProcessSource | url_extractor_program.py:187-213 | Empty content gives total 0, no tuples, no counts and the error "Failed to retrieve content". Other content gives tuples equal to `Extract` of the content, total equal to their number, counts equal to their tally, and no error. In both cases the counts sum to the total. |
| Aggregator.Tally | url_extractor_program.py:201-204 | The `category_counts` dictionary after counting the tuples in order. Every key has a count between 1 and the number of tuples. |
| Aggregator.CountCategories | url_extractor_program.py:201-204 | The counting loop yields the tally of the tuples' categories. |
| Aggregator.TallyCounts | url_extractor_program.py:201-204 | The tally has a key exactly for each category that occurs. Each value is that category's number of occurrences. |
| Aggregator.TallyTotal | url_extractor_program.py:201-209 | The counts of the tally sum to the number of tuples, which is `total_urls`. |
| Aggregator.BuildSummary | url_extractor_program.py:260-277 | There is one row per source, in order, with its name and total. Each row's category columns are exactly the categories counted in any source. Each holds that source's count, or 0 when the source lacks the category. |
| Aggregator.CollectCategories | url_extractor_program.py:271-273 | The inner loop collects the union of every source's category keys. |
| Aggregator.ZeroFilledCounts | url_extractor_program.py:274-275 | The row gets exactly the given categories as keys, each with `counts.get(cat, 0)`. |
| Aggregator.Vocabulary | url_extractor_program.py:271-273 | The `all_categories` set: the union of the category keys of the sources. It includes every source's keys. |
| Aggregator.VocabularyMember | url_extractor_program.py:271-273 | A category is in the summary vocabulary iff some source has a count for it. |
| Aggregator.Flatten | url_extractor_program.py:250-257 | The `data` list of both exports: each source's tuples as rows, the sources in order. It ends with exactly the last source's rows. The CSV export builds it at lines 222-231. |
| Aggregator.FlattenRows | url_extractor_program.py:250-257 | The nested loops produce `Flatten` of the results: sources in order, each source's tuples in order. The CSV export at lines 222-231 runs the same loops. |
| Aggregator.FlattenMember | url_extractor_program.py:222-231 | A row is exported iff it is some source's name with one of that source's tuples, given by its type and category strings. |
| Aggregator.GrandTotal | url_extractor_program.py:305 | `sum(r['total_urls'] for r in results)`: no source's total exceeds it. |
| Aggregator.GrandTotalRows | url_extractor_program.py:305 | For consistent records, the grand total equals the number of exported rows. |
| Aggregator.GrandTotalCounts | url_extractor_program.py:305 | For consistent records, the grand total equals the sum of all category counts of all sources. |
| Aggregator.Breakdown | url_extractor_program.py:315-318 | `sorted(category_counts.items())`: the present categories with their counts, in strictly increasing order of category name, so no name appears twice. `BreakdownSpec` gives the contents. |
| Aggregator.BreakdownSpec | url_extractor_program.py:315-318 | The per-source breakdown lists exactly the `(category, count)` pairs of the counts, in strictly increasing order of category name. |
| Aggregator.AlphabeticalOrderSorted | url_extractor_program.py:317 | The ten category names strictly increase in Python's string order in the sequence used for sorting. |

## Left out

- Fetching and reading (`fetch_html_from_url`, `read_html_file`, lines 61-91) are network and file I/O. `ProcessSource` takes the content as a parameter.
- The `urlparse` scheme test and the progress `print` in `process_source` (lines 179-184) are a library call and console output. They only choose how the content is obtained.
- The models leave out these export and console steps:
  - the pandas DataFrames, `to_csv`, `to_excel` and `ExcelWriter`;
  - the file paths built from `BASE_DIR`;
  - the Excel-to-CSV fallback and its `.xlsx`→`.csv` file-name rewrite;
  - every `print`.
  
  Only the row lists and summary maps they consume are modelled.
- `load_sources_from_file`, `main` and the `datetime` time stamp are orchestration and I/O.
- The model covers only ASCII whitespace and case folding. This leaves out:
  - Python's Unicode whitespace for `\s` beyond ASCII (for example U+00A0 or U+2028);
  - Unicode case folding under IGNORECASE (for example U+017F matching `s`, or U+212A matching `k`).
- Aggregator.BuildSummary: the summary row's category keys are a Dafny map. The model does not capture the column order, which depends on Python's set iteration order; only the set of columns and their values is stated.
- Aggregator.ProcessSource: the category counts are keyed by `Category` rather than by its name string. `Categorizer.NameInjective` shows the two keyings agree.
