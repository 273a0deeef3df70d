# Sentence counting and reader dispatch of `insert_data.py`

This project models the two pure helpers of the document-ingestion script
`insert_data.py` of a retrieval chatbot, and proves properties of them:

- `cut_sent(para)` is the length function the text chunker uses. It counts
  sentences by rewriting the paragraph with four `re.sub` passes. Each pass
  puts a newline after sentence-ending punctuation: the full-width terminals
  `。！？` and the ASCII `?`, a run of six ASCII dots, a run of two ellipses
  `……`, and a terminal followed by a closing quote `”’`. It then strips
  trailing whitespace and returns the number of pieces that
  `split("\n")` yields.
- `data_loader(file)` picks the document reader for a file from its extension
  (`os.path.splitext(file)[-1]`), or returns `None` when no reader applies.

Layout:

- `wrappers.dfy` (`Wrappers`): `Option`.
- `strings.dfy` (`Strings`): character counting, `str.split` on one character
  and its inverse `str.join`, `str.rstrip()` with Python's whitespace set, and
  the relation "a text is another with newlines inserted".
- `regex_sub.dfy` (`RegexSub`): Python's `re.sub` for patterns of the form
  `(A)(B)` replaced by `\1\n\2`, where `A` and `B` are fixed-length runs of
  character classes. The scan is leftmost and non-overlapping, and resumes
  after each match. The rewrite is proved equal to an independent reference
  (`Weave`), which inserts a newline before every break index the scan
  selects. It is also proved to miss no match and to only insert newlines.
- `cut_sent.dfy` (`SentenceCounter`): the four passes of `cut_sent` and the
  count, with what each pattern matches in plain terms and where breaks fall.
- `cut_sent_examples.dfy` (`SentenceCounterExamples`): concrete counts.
- `splitext.dfy` (`PathSplit`): `os.path.splitext` under POSIX rules.
- `data_loader.dfy` (`Loader`) and `data_loader_examples.dfy`
  (`LoaderExamples`): the dispatch table and concrete paths.

`A. B. C. D. E. F.` counts as one sentence: an ASCII `.` is not among the
terminals, and only a run of six dots breaks
(`SentenceCounterExamples.LatinFullStops`).

The extension `.oc` in the Word branch (insert_data.py:38) is kept as written.

## Model

| member | source | states |
|---|---|---|
| Strings.Split | insert_data.py:28 | `split` on one character gives one piece more than there are separators; no piece holds the separator; joining the pieces with it gives the text back |
| Strings.SplitJoin | insert_data.py:28 | splitting a join of separator-free pieces (at least one) returns exactly those pieces |
| Strings.SplitSepFree | insert_data.py:28 | a text without the separator splits into the single piece holding the whole text |
| Strings.SplitPrefix | insert_data.py:28 | a separator-free prefix before the first separator becomes the first piece, and the rest splits on its own |
| Strings.OccurrencesAppend | insert_data.py:28 | the separator count of a concatenation is the sum of the parts' counts |
| Strings.RStrip | insert_data.py:26 | `rstrip()` returns a prefix of the text that is empty or does not end in whitespace, and everything it removes is whitespace |
| Strings.IsSpace | insert_data.py:26 | the whitespace set `rstrip()` removes, Python's `str.isspace`; `RStrip`, `RStripKeeps` and `RStripIdempotent` state what stripping it does |
| Strings.RStripKeeps | insert_data.py:26 | a text that does not end in whitespace is left unchanged by `rstrip()` |
| Strings.RStripIdempotent | insert_data.py:26 | stripping an already stripped text changes nothing |
| Strings.NewlinesInsertedTrans | insert_data.py:21-24 | inserting newlines twice is inserting newlines, so the four passes together only insert newlines |
| Strings.NewlinesInsertedChars | insert_data.py:21-24 | after newlines are inserted, every character is a newline or a character of the original |
| Strings.NewlinesInsertedCount | insert_data.py:21-24 | inserting newlines keeps every other character's count, and adds exactly the length growth to the newline count |
| Strings.NewlinesInsertedAppend | insert_data.py:21-24 | inserting newlines into two texts separately inserts newlines into their concatenation, so untouched stretches can be reasoned about piecewise |
| RegexSub.SubFrom | insert_data.py:21-24 | `re.sub`'s rewrite from a scan position; `SubFromLength`, `SubFromCount`, `SubFromNoMatch` and `SubIsWeave` state its length, newline count, idle case and equality with the reference |
| RegexSub.Sub | insert_data.py:21-24 | one `re.sub` pass over the whole text; `SubIsWeave`, `SubInsertsNewlines`, `SubKeepsEnds` and `SubKeepsBlock` state what it does |
| RegexSub.StartsFrom | insert_data.py:21-24 | the match positions of `re.sub`'s scan lie inside the text, increase, and do not overlap |
| RegexSub.StartsMatch | insert_data.py:21-24 | every reported position is a real match of the pattern |
| RegexSub.StartsMaximal | insert_data.py:21-24 | the scan misses no match: a matching position is reported or lies inside an earlier reported match |
| RegexSub.StartsApart | insert_data.py:21-24 | any two reported matches, not only consecutive ones, lie at least a pattern length apart |
| RegexSub.NoStartInside | insert_data.py:21-24 | no reported match starts strictly inside another reported match |
| RegexSub.MatchGetsBreak | insert_data.py:21-24 | a match not overlapped by an earlier one gets a newline between its two groups |
| RegexSub.BreakInMatch | insert_data.py:21-24 | every inserted newline sits between the two groups of a real match, strictly inside the text |
| RegexSub.SubIsWeave | insert_data.py:21-24 | the substitution equals the reference text with one newline woven in before each break index and nothing else changed |
| RegexSub.SubInsertsNewlines | insert_data.py:21-24 | the replacement `\1\n\2` only inserts newlines: deleting them gives the input back |
| RegexSub.SubFromLength | insert_data.py:21-24 | each match lengthens the text by exactly one character |
| RegexSub.SubFromCount | insert_data.py:21-24 | each match adds exactly one newline |
| RegexSub.SubFromNoMatch | insert_data.py:21-24 | a text where the pattern matches nowhere is returned unchanged |
| RegexSub.SubKeepsEnds | insert_data.py:21-24 | no newline is put before the first or after the last character |
| RegexSub.WeaveSplit | insert_data.py:21-24 | the reference rewrite of a text splits at any index into the rewrite of the part before and the rewrite of the rest |
| RegexSub.SubKeepsBlock | insert_data.py:21-24 | a stretch the pass puts no newline inside stays together in the rewrite, with only newlines inserted into the text before it |
| SentenceCounter.Rewrite | insert_data.py:21-24 | the four passes in order; `RewriteInsertsNewlines` and the `…InRewrite` lemmas state what they do together |
| SentenceCounter.RewriteInsertsNewlines | insert_data.py:21-24 | the four passes only insert newlines and keep the first and last character |
| SentenceCounter.CutSent | insert_data.py:17-28 | the count is at least one, and it is one more than the number of newlines left after the passes and `rstrip()` |
| SentenceCounter.CutSentBlank | insert_data.py:17-28 | an empty or all-whitespace paragraph counts as one sentence |
| SentenceCounter.CutSentUnmarked | insert_data.py:17-28 | text without a terminal `。！？?`, newline, six-dot run or two-ellipsis run counts as one sentence |
| SentenceCounter.SingleMark | insert_data.py:21 | the first pattern; `SingleMarkMatch`, `SingleMarkBreak`, `MarkGetsBreak` and `SingleMarkIdle` state what it matches and where it breaks |
| SentenceCounter.SixDots | insert_data.py:22 | the second pattern; `SixDotsMatch` and `SixDotsIdle` state what it matches |
| SentenceCounter.TwoEllipses | insert_data.py:23 | the third pattern; `TwoEllipsesMatch` and `TwoEllipsesIdle` state what it matches |
| SentenceCounter.QuotedMark | insert_data.py:24 | the fourth pattern; `QuotedMarkMatch`, `QuotedMarkBreak`, `QuoteGetsBreak` and `QuotedMarkIdle` state what it matches and where it breaks |
| SentenceCounter.SingleMarkMatch | insert_data.py:21 | the first pattern matches exactly a terminal followed by any character other than a closing quote, a newline included |
| SentenceCounter.SixDotsMatch | insert_data.py:22 | the second pattern matches exactly six ASCII dots followed by a character other than a closing quote |
| SentenceCounter.TwoEllipsesMatch | insert_data.py:23 | the third pattern matches exactly two ellipses followed by a character other than a closing quote |
| SentenceCounter.QuotedMarkMatch | insert_data.py:24 | the fourth pattern matches exactly a terminal, a closing quote, then a character outside `，。！？?` |
| SentenceCounter.SingleMarkBreak | insert_data.py:21 | the first pass breaks only right after a terminal and never in front of a closing quote |
| SentenceCounter.MarkGetsBreak | insert_data.py:21 | a terminal followed by a non-quote gets a break, unless the scan consumed it as part of the match just before |
| SentenceCounter.ConsumedMarkBreaks | insert_data.py:21 | a character the first pass consumed as the second of the match just before gets no break after it: with `MarkGetsBreak`, a terminal followed by a non-quote gets a break if and only if that match did not consume it |
| SentenceCounter.QuotedMarkBreak | insert_data.py:24 | the last pass breaks only after a closing quote that follows a terminal, before a non-clause mark |
| SentenceCounter.QuoteGetsBreak | insert_data.py:24-25 | every terminal–quote–non-clause-mark triple gets its break after the quote, since such matches never overlap |
| SentenceCounter.BreakFollowsMark | insert_data.py:21-24 | a newline from any pass follows a character `BreaksAfter` names for that pass: a terminal, six dots, two ellipses or a quoted terminal; never after a lone `!` or `.`, never between a terminal and its quote, and only the last pass breaks after a closing quote |
| SentenceCounter.SingleMarkIdle | insert_data.py:21 | the first pass leaves a text without terminals unchanged |
| SentenceCounter.QuotedEndInRewrite | insert_data.py:21-24 | after all four passes a terminal and the closing quote right after it are still adjacent, and the text on either side only gets newlines inserted |
| SentenceCounter.QuotedBreakInRewrite | insert_data.py:21-25 | after all four passes a terminal–quote–non-clause-mark triple has the terminal and the quote adjacent, then exactly one newline, then the third character; the text on either side only gets newlines inserted |
| SentenceCounter.MarkBreakInRewrite | insert_data.py:21-24 | after all four passes a terminal followed by a non-quote, and not consumed by the first pass's match just before, is followed by exactly one newline and then that character; the text on either side only gets newlines inserted |
| SentenceCounter.ConsumedMarkInRewrite | insert_data.py:21-24 | the other direction: a terminal the first pass consumed in the match just before (the `！` in `。！`) is still directly followed by the next character after all four passes; so a terminal followed by a non-quote ends a sentence if and only if it was not consumed |
| SentenceCounter.BareQuoteInRewrite | insert_data.py:21-24 | a closing quote that no terminal precedes is not a sentence end: after all four passes it is still directly followed by the next character |
| SentenceCounter.ClauseTripleInRewrite | insert_data.py:21-24 | a terminal, a closing quote and one of `，。！？?` stay adjacent through all four passes: no pass breaks inside them |
| SentenceCounter.SixDotsBreakInRewrite | insert_data.py:21-24 | six dots not preceded by a dot and followed by a non-quote are, after all four passes, still adjacent and followed by exactly one newline and then that character |
| SentenceCounter.TwoEllipsesBreakInRewrite | insert_data.py:21-24 | two ellipses not preceded by an ellipsis and followed by a non-quote are, after all four passes, still adjacent and followed by exactly one newline and then that character |
| SentenceCounter.LoneDotInRewrite | insert_data.py:21-24 | an ASCII dot not preceded by a dot is still directly followed by the next character after all four passes |
| SentenceCounter.PlainInRewrite | insert_data.py:21-24 | a stretch whose characters before the last are neither terminal, dot, ellipsis nor closing quote stays whole through all four passes |
| SentenceCounter.AsciiBangInRewrite | insert_data.py:21-24 | the ASCII `!`, unlike `！`, is not a terminal: it is still directly followed by the next character after all four passes |
| SentenceCounter.KeepPlain | insert_data.py:21-24 | one pass keeps whole a stretch in which no character before the last is one the pass breaks after |
| Strings.NewlinesInsertedEnd | insert_data.py:21-24 | inserting newlines into a text that does not end in a given non-newline character does not make it end in it |
| SentenceCounter.SixDotsIdle | insert_data.py:22 | the second pass leaves a text without dots unchanged |
| SentenceCounter.TwoEllipsesIdle | insert_data.py:23 | the third pass leaves a text without ellipses unchanged |
| SentenceCounter.QuotedMarkIdle | insert_data.py:24 | the fourth pass leaves a text without terminals or without closing quotes unchanged |
| SentenceCounterExamples.OneBreakCount | insert_data.py:26-28 | two newline-free pieces joined by one newline, not ending in whitespace, keep exactly that newline through `rstrip()` |
| SentenceCounterExamples.EmptyText | insert_data.py:26-28 | the empty paragraph counts as one sentence, as `''.split('\n')` is `['']` |
| SentenceCounterExamples.AdjacentMarks | insert_data.py:21 | `a。！b` counts two: the `！` is consumed by the match of `。`, so only one break is inserted |
| SentenceCounterExamples.NewlineAfterMark | insert_data.py:21 | `。\nb` counts three: `[^”’]` matches the newline, so a second newline is inserted |
| SentenceCounterExamples.TrailingMark | insert_data.py:21-28 | `好。` counts one: a terminal at the very end has nothing after it to match |
| SentenceCounterExamples.QuotedSentence | insert_data.py:21-25 | `好。”然` counts two: the break goes after the closing quote, not between it and the terminal |
| SentenceCounterExamples.LatinFullStops | insert_data.py:21-28 | `A. B. C. D. E. F.` counts one: lone ASCII dots do not end sentences |
| SentenceCounterExamples.SixDotsEllipsis | insert_data.py:22 | `a......b` counts two |
| PathSplit.RFind | insert_data.py:36 | the index found holds the character, and no later index does; -1 when it is absent |
| PathSplit.SplitExt | insert_data.py:36 | root and extension make up the path; a non-empty extension is one dot followed by neither dot nor `/` |
| PathSplit.Ext | insert_data.py:36 | `splitext(path)[-1]` is a suffix of the path, empty or one `.` followed by neither `.` nor `/` |
| PathSplit.ExtHasStem | insert_data.py:36 | an extension is split off only when the final component of the root has a character other than a dot |
| PathSplit.ExtOfLastSuffix | insert_data.py:36 | after a root with a stem, the extension is exactly the last `.name` suffix |
| Loader.ReaderFor | insert_data.py:36-47 | the if/elif chain on an extension picks exactly the kind whose extension set holds it, and `None` when no kind lists it |
| Loader.DataLoader | insert_data.py:35-48 | the reader kind is the one whose extension set holds the path's extension, and there is none exactly when no kind lists it |
| Loader.ExtensionsDisjoint | insert_data.py:36-47 | no extension appears in two branches, so the branch order does not matter |
| Loader.DataLoaderLastSuffix | insert_data.py:36-47 | only the last suffix decides the reader, whatever dots the rest of the path has |
| LoaderExamples.OcIsWord | insert_data.py:38-39 | any file ending in `.oc` after a stem goes to the Word reader |
| LoaderExamples.UpperCaseExtension | insert_data.py:36 | matching is case-sensitive: a file ending in `.PDF` gets no reader |
| LoaderExamples.DoubleSuffixPdf | insert_data.py:36-37 | `a.txt.pdf` is read as PDF |
| LoaderExamples.BackupOfPdf | insert_data.py:35-48 | `a.pdf.bak` gets no reader |
| LoaderExamples.CsvInDirectory | insert_data.py:44-45 | `data/table.csv` is read as CSV: the directory part does not matter |
| LoaderExamples.HiddenFile | insert_data.py:35-48 | `.pdf` has no extension, as a leading dot does not start one, so no reader |
| LoaderExamples.NoExtension | insert_data.py:35-48 | `README` has no extension and no reader |
| LoaderExamples.DotInDirectory | insert_data.py:35-48 | `x.pdf/readme` has no reader: a dot in a directory name is not an extension |

## Left out

- `data_import` (insert_data.py:51-80) is not modelled. It globs a directory, builds a `CharacterTextSplitter` that uses `cut_sent` as its length function, loads each file, computes embeddings and writes them to a Qdrant store. Every step is file-system, model or database I/O in outside libraries.
- The chunking by `CharacterTextSplitter` (insert_data.py:56-61, 74) belongs to an outside library. Only its length function, `cut_sent`, is modelled.
- Loader.DataLoader returns the branch of the if/elif chain that is taken, not the reader object, and ignores exceptions from the reader constructors, which belong to outside libraries. `PyPDFLoader` and `Docx2txtLoader` check that the path is a file and raise `ValueError` when it is not. `JSONLoader(file)` (insert_data.py:43) is called without its required `jq_schema` argument, so every `.json` path raises `TypeError`; the model still returns `Json` for it. The bare `except` of `data_import` (insert_data.py:70-72) swallows all of these exceptions and skips the file.
- The per-file `try`/`except` and the failure message (insert_data.py:67-72) are not modelled. They are error reporting around I/O. A `None` from `data_loader` makes the following `load()` call raise inside that `try`, so the file is skipped.
- PathSplit.SplitExt models the POSIX `posixpath.splitext` on text paths only. The Windows rules (`\` and drive letters) and byte-string paths are not modelled.
- Strings.RStrip uses a fixed whitespace set, the characters for which Python's `str.isspace` is true. It does not follow later Unicode versions.
- Characters are Unicode scalar values. Python strings may also hold lone surrogates; these are not modelled.
- Only the four fixed patterns of `cut_sent` are modelled by the regular-expression engine `RegexSub`. These are fixed-length classes with a two-group replacement. General regular expressions, and `re`'s pattern cache, are not modelled.
