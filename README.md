# EPUB to delimited text: a verified model

This project models the text pipeline of a small EPUB-to-text converter.

The extraction engine (`epub2txt`) finds the reading order of a package and parses each content part. Parsing reduces a part to its string value. With formatting on, the engine first rewrites the emphasis tags `<em>`, `<i>`, `<strong>` and `<b>` into sentinel tokens. After parsing, it turns the tokens into the control characters U+000F (SHIFT-IN) and U+000E (SHIFT-OUT). With cleaning on, it strips every line and drops the lines left empty. It returns the chapter texts as a list or joined with newlines. On the way it publishes the book's title, the flattened table of contents, the spine ids and the metadata groups as attributes.

The conversion driver (`convert`) does the following:

- calls the engine with formatting on, and retries once with formatting off when the markup does not parse;
- reduces the metadata groups to title, author, language, genre and description;
- builds the default chapter selection and lets the reader toggle entries;
- derives the output file name;
- assembles the output text: a header block, then one record per selected chapter. Each record starts with U+001E and has every U+FEFF removed.

Layout:

- `text.dfy` (module `Text`): the Python `str` operations the code relies on, with Python's semantics. These are `replace`, `split` on one character, `join`, `isspace`, `strip` and `splitlines`.
- `results.dfy` (module `Results`): `Option`, `Result`, and the exceptions that can escape the pipeline.
- `epub2txt.dfy` (module `Epub2txt`): the engine.
- `convert.dfy` (module `Convert`): the driver.

The package reader is not modelled. A package is given as a `Book` value: title, table-of-contents tree, spine, metadata groups and item contents. The XML parser followed by the string-value query is the parameter `textOf` (type `Parser`), and it may fail with `XmlSyntaxError`.

## Model

| member | source | states |
|---|---|---|
| Epub2txt.Flatten | epub2txt/epub2txt.py:52-59 | definition of the depth-first flattening of the table of contents; its properties are stated by `FlattenLeaves`, `FlattenAppend` and `FlattenFlat` |
| Epub2txt.FlattenLeaves | epub2txt/epub2txt.py:52-59 | an entry is in the flattened list exactly when it is a leaf somewhere in the tree |
| Epub2txt.FlattenAppend | epub2txt/epub2txt.py:52-59 | flattening a concatenation of subtrees gives the concatenation of their flattenings, so the leaves come out depth first, left to right |
| Epub2txt.FlattenFlat | epub2txt/epub2txt.py:52-59 | a list of leaves (strings and entries are leaves, never taken apart) flattens to itself |
| Epub2txt.Titles | epub2txt/epub2txt.py:110 | definition of the title attribute read from each flattened entry, in order; its properties are stated by `Values` and `PublishedTitles` |
| Epub2txt.Hrefs | epub2txt/epub2txt.py:112 | definition of the href attribute read from each flattened entry, in order; its properties are stated by `Values` and `PublishedHrefs` |
| Epub2txt.Uids | epub2txt/epub2txt.py:117 | definition of the uid attribute read from each flattened entry, in order; its properties are stated by `Values` and `PublishedUids` |
| Epub2txt.Values | epub2txt/epub2txt.py:110-117 | reading an attribute from every entry succeeds exactly when every entry has it, and then yields the values in order, one per entry |
| Epub2txt.ZipLongest | epub2txt/epub2txt.py:122 | the pairs list has the length of the longer of the titles and the hrefs |
| Epub2txt.ZipLongestPairs | epub2txt/epub2txt.py:122 | pair k holds title k and href k, with `""` past the end of the shorter list |
| Epub2txt.SpineIds | epub2txt/epub2txt.py:125 | one id per spine entry; id k is the first component of spine entry k |
| Epub2txt.Contents | epub2txt/epub2txt.py:132 | the content list exists exactly when every spine id names an item; it then has one content per spine entry, in spine order; otherwise the error names the first missing id |
| Epub2txt.Published | epub2txt/epub2txt.py:108-130 | definition of the attributes one call publishes; its properties are stated by `PublishedTitles`, `PublishedHrefs`, `PublishedUids`, `FirstCallUntitled` and `PublishedStable` |
| Epub2txt.Refresh | epub2txt/epub2txt.py:109-119 | definition of the try-block rule: the new values when the comprehension succeeds, the previous ones when it raises; its properties are stated by `PublishedTitles`, `PublishedHrefs`, `PublishedUids` and `PublishedStable` |
| Epub2txt.PublishedTitles | epub2txt/epub2txt.py:108-114 | when every leaf has a title, the titles are those of the leaves in order; when some leaf lacks one, both the titles and the hrefs keep their previous values |
| Epub2txt.PublishedHrefs | epub2txt/epub2txt.py:108-114 | once the titles are read, the hrefs are those of the leaves when every leaf has one, and keep their previous value otherwise |
| Epub2txt.PublishedUids | epub2txt/epub2txt.py:116-119 | the uids are those of the leaves when every leaf has one, and keep their previous value otherwise, whatever happened to the titles |
| Epub2txt.FirstCallUntitled | epub2txt/epub2txt.py:108-122 | on the first call, when a leaf lacks its title, the titles and hrefs keep their initial empty values and the published `toc` is empty |
| Epub2txt.PublishedStable | epub2txt/epub2txt.py:109-130 | a second call on the same package publishes the same attributes as the first, whatever the first started from |
| Epub2txt.ExtractPart | epub2txt/epub2txt.py:142-153 | with formatting off, the content goes to the parser unchanged and the result is the parser's |
| Epub2txt.Translate | epub2txt/epub2txt.py:143-151 | definition of the eight-step replace chain; its properties are stated by `TranslatePlain` and the four run lemmas |
| Epub2txt.TranslatePlain | epub2txt/epub2txt.py:143-151 | markup without `<` passes the replace chain unchanged |
| Epub2txt.Restore | epub2txt/epub2txt.py:156-158 | definition of the token rewrite; its properties are stated by `RestorePlain`, `RestoreChars` and the four run lemmas |
| Epub2txt.RestorePlain | epub2txt/epub2txt.py:156-158 | text without `_` passes the token rewrite unchanged |
| Epub2txt.RestoreChars | epub2txt/epub2txt.py:156-158 | the token rewrite brings in no character besides U+000F and U+000E |
| Epub2txt.EmphasisRun | epub2txt/epub2txt.py:143-158 | `<em>x</em>` becomes SHIFT-IN token, x, SHIFT-OUT token, and then U+000F x U+000E |
| Epub2txt.ItalicRun | epub2txt/epub2txt.py:143-158 | `<i>x</i>` becomes SHIFT-IN token, x, SHIFT-OUT token, and then U+000F x U+000E |
| Epub2txt.StrongRun | epub2txt/epub2txt.py:143-158 | `<strong>x</strong>` becomes two SHIFT-IN tokens, x, two SHIFT-OUT tokens, and then U+000F U+000F x U+000E U+000E |
| Epub2txt.BoldRun | epub2txt/epub2txt.py:143-158 | `<b>x</b>` becomes two SHIFT-OUT tokens, x, two SHIFT-OUT tokens, and then U+000E U+000E x U+000E U+000E; both tags map to the closing token |
| Epub2txt.NoTokenInside | epub2txt/epub2txt.py:150-157 | the SHIFT-IN token never occurs in the rewritten bold run, so the SHIFT-IN rewrite leaves it alone |
| Epub2txt.Clean | epub2txt/epub2txt.py:161-166 | definition of the cleaning of one text; its properties are stated by `CleanLineSource`, `CleanLinesShape`, `CleanLinesAreStripped`, `CleanSplitlines`, `CleanIdempotent`, `CleanKeepsNonSpace`, `CleanKeepsSentinels` and `CleanChars` |
| Epub2txt.CleanLines | epub2txt/epub2txt.py:164 | definition of the list comprehension: each line stripped, the empty ones dropped, in order; its properties are stated by `CleanLineSource`, `CleanLinesShape`, `CleanLinesFixed` and `CleanLinesChars` |
| Epub2txt.CleanLineSource | epub2txt/epub2txt.py:164 | kept line j is the strip of some input line k: a contiguous slice of that line, with only whitespace cut off around it, so no whitespace inside a line is removed |
| Epub2txt.CleanLinesShape | epub2txt/epub2txt.py:164 | the kept lines are non-empty and equal to their own strip; they hold no line boundary when the input lines hold none; together they keep every non-whitespace character of the input, in order |
| Epub2txt.CleanLinesAreStripped | epub2txt/epub2txt.py:161-166 | every line of a cleaned text is non-empty and equal to its own strip |
| Epub2txt.CleanSplitlines | epub2txt/epub2txt.py:164-165 | splitting a cleaned text into lines gives back exactly the kept lines |
| Epub2txt.CleanIdempotent | epub2txt/epub2txt.py:161-166 | cleaning a cleaned text returns it unchanged |
| Epub2txt.CleanKeepsNonSpace | epub2txt/epub2txt.py:161-166 | cleaning removes only whitespace: the non-whitespace characters are kept, in order |
| Epub2txt.CleanKeepsSentinels | epub2txt/epub2txt.py:156-166 | cleaning keeps the number of U+000F and U+000E characters |
| Epub2txt.CleanChars | epub2txt/epub2txt.py:164-165 | a cleaned text holds only characters of the text and `"\n"`; no other line boundary survives |
| Epub2txt.CleanAll | epub2txt/epub2txt.py:161-166 | one cleaned text per text, in order |
| Epub2txt.CleanEach | epub2txt/epub2txt.py:161-166 | the cleaning loop replaces every text by its cleaned form |
| Epub2txt.ParseParts | epub2txt/epub2txt.py:140-159 | the parsing loop returns the texts of all parts, or the error of the first part that fails |
| Epub2txt.ExtractAll | epub2txt/epub2txt.py:140-159 | definition of what the parsing loop returns or raises; its properties are stated by `ExtractAllAligned`, `ExtractAllOk` and `ExtractAllErr`, and `ParseParts` is proved to compute it |
| Epub2txt.ExtractAllAligned | epub2txt/epub2txt.py:140-159 | the loop completes exactly when every part parses; it then yields one text per part, in order; otherwise its error is that of the first failing part |
| Epub2txt.ExtractAllOk | epub2txt/epub2txt.py:140-159 | the loop completes exactly when every part parses, with one text per part in order |
| Epub2txt.ExtractAllErr | epub2txt/epub2txt.py:140-159 | a loop that raises raises the error of a part before which every part parsed |
| Epub2txt.Shape | epub2txt/epub2txt.py:168-171 | definition of the output shape: the list itself, or its texts joined with `"\n"`; its properties are stated by `ExtractionAligned` and `ExtractionJoined` |
| Epub2txt.Extraction | epub2txt/epub2txt.py:132-171 | definition of what one call returns or raises; its properties are stated by `ExtractionAligned`, `ExtractionFails` and `ExtractionJoined`, and `Epub2txt` is proved to compute it |
| Epub2txt.ExtractionAligned | epub2txt/epub2txt.py:132-169 | with the list output, the call succeeds exactly when every spine id names an item and every part parses; it then returns one text per spine entry, in spine order, cleaned when asked |
| Epub2txt.ExtractionFails | epub2txt/epub2txt.py:132-155 | a call that raises reports either the first spine id that names no item, or, when every id names one, the parse failure of the first spine item that does not parse; nothing is returned |
| Epub2txt.ExtractionJoined | epub2txt/epub2txt.py:168-171 | the string output is the list output joined with single newlines; both fail together |
| Epub2txt.NoControlIntroduced | epub2txt/epub2txt.py:142-156 | with formatting off, a U+000E or U+000F in chapter k was already in its content, for a parser that yields that character only from a document holding it |
| Epub2txt.Epub2txt | epub2txt/epub2txt.py:108-171 | the call publishes the attributes of `Published` and returns or raises what `Extraction` says |
| Convert.Chapters | convert.py:16-19 | definition of the chapter list taken from a list-shaped result, or the error it raises; its property is stated by `ReadChapters` |
| Convert.ReadChapters | convert.py:15-19 | the retry happens exactly when the formatted run raises a parse error; the chapters are those of the formatted run, or of the unformatted run after a retry, whose failure propagates; the attributes are those of one call |
| Convert.ChaptersHaveNoSeparator | convert.py:16-19 | cleaned chapters hold no U+001E, so the record separator cannot occur inside a chapter |
| Convert.Prefix | convert.py:34 | the slice `[0:2]` has min(2, length) characters and is a prefix of the tag |
| Convert.AllFields | convert.py:27-28 | definition of the visiting order of the nested loops: the fields of each group in turn, groups in order; its properties are stated by `AllFieldsAppend` and `AllFieldsAround`, and `ReduceMetadata` is proved to visit them in this order |
| Convert.Reduce | convert.py:21-38 | definition of the outcome of the reduction over all fields; its properties are stated by `ReduceLastWins`, `ReduceFails` and `LanguageIsCut`, and `ReduceMetadata` is proved to compute it |
| Convert.Fold | convert.py:21-38 | visiting the fields never sets the description, and the only error is `IndexError` |
| Convert.Absorb | convert.py:29-36 | definition of the effect of one field on the metadata; its properties are stated by `SlotAbsorb`, `Fold` and `ReduceFails` |
| Convert.SlotAbsorb | convert.py:29-36 | a field overwrites the slot of its own name with its (cut) first value and leaves the other slots alone |
| Convert.SlotSet | convert.py:27-36 | a slot is set exactly when some field has its name |
| Convert.SlotLast | convert.py:27-36 | a set slot holds the value of a field of its name that no later field of that name follows |
| Convert.ReduceLastWins | convert.py:27-36 | each of title/author/language/genre is set exactly when some field has its name, and then holds the first value of the LAST such field (cut to two characters for the language) |
| Convert.ReduceFails | convert.py:29-36 | the reduction raises exactly when a field it reads has no value |
| Convert.LanguageIsCut | convert.py:33-34 | the language holds at most two characters, a prefix of some language field's first value |
| Convert.ReduceMetadata | convert.py:21-38 | the nested loops compute the reduction over all fields of all groups, in order |
| Convert.Position | convert.py:67 | a Python index n-1 within bounds reaches a valid position, counting from the end when negative |
| Convert.ChapterSelection.constructor | convert.py:53-59 | one flag per spine entry; flag i is false exactly when spine id i is one of the four structural pages |
| Convert.ChapterSelection.Toggle | convert.py:65-67 | an index within bounds flips that one flag; any other raises `IndexError` and changes nothing |
| Convert.ToggleOnlyOne | convert.py:67 | a toggle keeps the length and changes flag j exactly when j is the toggled position |
| Convert.PositionInMenu | convert.py:62-67 | for the numbers shown in the menu, 1 to the number of chapters, the toggled flag is the one at index n-1 |
| Convert.OutputName | convert.py:71-73 | definition of the output file name; its properties are stated by `OutputNameOfExtension` and `OutputNameWithoutDot` |
| Convert.OutputNameOfExtension | convert.py:71-73 | `stem.ext`, with no dot in ext, becomes `./output/stem.txt`; the other components are kept |
| Convert.OutputNameWithoutDot | convert.py:71-73 | a path without a dot becomes `./output/txt` |
| Convert.Show | convert.py:77-81 | definition of how an f-string formats a field: its value, or `None` when unset; its property is used by `HeaderHasNoSeparator` |
| Convert.Header | convert.py:76-82 | definition of the header block; its property is stated by `HeaderHasNoSeparator`, and `RecordsSplit` recovers it from the file text |
| Convert.HeaderHasNoSeparator | convert.py:76-82 | the header holds U+001E only when a metadata value does |
| Convert.Bomless | convert.py:87 | splitting at U+FEFF and joining with nothing removes every U+FEFF and keeps everything else |
| Convert.Entry | convert.py:85-88 | definition of the three writes for one selected chapter: U+001E, the chapter without U+FEFF, and `"\n"`; its properties are stated by `WriteText` and `RecordsSplit` |
| Convert.Kept | convert.py:83-84 | definition of the selected chapters, in increasing index order; its properties are stated by `KeptIndices` |
| Convert.KeptIndices | convert.py:83-84 | the kept chapters are chapters[idx[0]], chapters[idx[1]], … for strictly increasing indices; each of them is selected, and every selected index is among them |
| Convert.Records | convert.py:83-88 | definition of the records of the selected chapters; its properties are stated by `RecordsSplit`, `RecordsHaveNoMark` and `RecordsIgnoreUnselected`, and `WriteText` is proved to write them |
| Convert.WriteText | convert.py:75-88 | the file text is the header followed by the entry of each selected chapter, in increasing order |
| Convert.RecordsSplit | convert.py:76-88 | splitting the file text at U+001E gives the header, then for each selected chapter in order its text without U+FEFF plus `"\n"` |
| Convert.RecordsHaveNoMark | convert.py:83-88 | no U+FEFF follows the header |
| Convert.RecordsIgnoreUnselected | convert.py:83-88 | unselected chapters contribute nothing: changing them leaves the text unchanged |
| Text.Replace | epub2txt/epub2txt.py:143-158 | definition of `str.replace`: every occurrence, left to right, without overlap; its properties are stated by `ReplaceChars`, `TranslatePlain`, `RestorePlain` and the run lemmas |
| Text.Split | convert.py:71 | definition of `str.split` on one character; its properties are stated by `JoinSplit`, `JoinSplitRemoves` and `SplitLast` |
| Text.Join | epub2txt/epub2txt.py:165 | definition of `str.join`; its properties are stated by `JoinSplit`, `JoinSplitRemoves`, `SplitlinesJoin` and `JoinSplitlines` |
| Text.IsSpace | epub2txt/epub2txt.py:164 | definition of the characters for which `str.isspace()` holds, which decide what `strip` and the emptiness test remove; its properties are stated by `StripShape`, `NonSpaceAllSpace` and `BreakIsSpace` |
| Text.IsLineBreak | epub2txt/epub2txt.py:164 | definition of the boundaries `str.splitlines()` recognises; its properties are stated by `SplitlinesNoBreaks`, `BreakIsSpace` and `CleanChars` |
| Text.Strip | epub2txt/epub2txt.py:164 | definition of `str.strip` with no argument; its properties are stated by `StripShape` and `StripIdempotent` |
| Text.Splitlines | epub2txt/epub2txt.py:164 | definition of `str.splitlines`; its properties are stated by `SplitlinesJoin`, `JoinSplitlines` and `SplitlinesNonSpace` |
| Text.JoinSplit | convert.py:71-73 | joining the pieces of a split with the separator gives back the string |
| Text.JoinSplitRemoves | convert.py:87 | joining the pieces of a split with nothing removes every separator |
| Text.SplitLast | convert.py:71-72 | a split where the last separator is followed by b ends with b |
| Text.StripShape | epub2txt/epub2txt.py:164 | a stripped line is one contiguous slice of the line, with only whitespace cut off before and after it; it is empty or starts and ends with non-whitespace; its non-whitespace characters are the line's |
| Text.StripIdempotent | epub2txt/epub2txt.py:164 | stripping twice is stripping once |
| Text.SplitlinesJoin | epub2txt/epub2txt.py:164-165 | lines that are non-empty and hold no boundary, joined with `"\n"`, split back into the same lines |
| Text.SplitlinesNonSpace | epub2txt/epub2txt.py:164 | the non-whitespace characters of a text survive splitting it into lines, in order |
| Text.JoinSplitlines | epub2txt/epub2txt.py:164-165 | a text whose every line boundary is a single `"\n"`, and that does not end with one, is given back by joining its lines with `"\n"` |
| Text.ReplaceChars | epub2txt/epub2txt.py:144-158 | every character a replacement produces comes from the text or from the replacement |

## Left out

- The network fetch and its timeout, and reading the EPUB container. These are I/O and a foreign library. The package is an input value.
- XML parsing and the string-value query. These are a foreign library. They are the parameter `textOf`, which may fail with `XmlSyntaxError`.
- UTF-8 decoding and re-encoding of each content part is the identity on strings. A part that is not valid UTF-8, which would raise when decoded, is not modelled.
- The decorator that attaches attributes to the function is modelled as a returned `Attrs` record. The record's initial values are empty strings. An empty string behaves like an empty list in the later `zip_longest`, so all of them are empty sequences.
- The runtime test for iterables is replaced by the `TocNode` tree type. A plain string leaf has a `title` method in Python, so reading `.title` from it yields a method object. The model instead treats every leaf as an entry whose attributes are present or missing.
- Metadata values are strings. A `None` value, which makes the `[0:2]` slice raise `TypeError`, is not modelled. Neither are the attribute dictionaries that accompany each value.
- The following are not modelled: logging, the debug flag, reading the command-line argument, every printed line, the menu loop, reading input and converting it with `int()` (which may raise `ValueError`), and opening and writing the output file. Only one toggle step is modelled, and the file's content is a returned string.
- The script's top-level sequencing is not one member. Its steps are `ReadChapters`, `ReduceMetadata`, the `ChapterSelection` constructor and `Toggle`, `OutputName` and `WriteText`.
- Convert.WriteText: requires a flag for every chapter. The script builds one flag per spine entry, and `ExtractionAligned` shows the list call returns one chapter per spine entry. The `IndexError` that more chapters than flags would raise is therefore not modelled.
- Epub2txt.EmphasisRun: stated only for text x with no `<` and no `_`. That is a sufficient condition for a text node free of the sentinel tokens, narrower than the exact one.
- Epub2txt.ItalicRun: stated only for text x with no `<` and no `_`. That is a sufficient condition for a text node free of the sentinel tokens, narrower than the exact one.
- Epub2txt.StrongRun: stated only for text x with no `<` and no `_`. That is a sufficient condition for a text node free of the sentinel tokens, narrower than the exact one.
- Epub2txt.BoldRun: stated only for text x with no `<` and no `_`. That is a sufficient condition for a text node free of the sentinel tokens, narrower than the exact one.
- Epub2txt.NoControlIntroduced: assumes the parser returns U+000E or U+000F only when the document holds that character. XML 1.0 forbids a character reference to either one, so no escape can produce them. The parser itself is not modelled, so this is a hypothesis and not a proved fact.
- Four behaviours of the code could be expected to work otherwise; the model follows the code:
  - A parse failure aborts the whole call; there is no per-chapter recovery with empty text.
  - A failure of the unformatted retry propagates.
  - The metadata reduction keeps the last occurrence of a field, not the first, and raises `IndexError` on a field with no value.
  - Cleaning strips both ends of each line, not only the trailing whitespace.
