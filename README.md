# Enron message parsing and keyword filtering, in Dafny

This project models the two functions of `main.py` that make decisions:

- `parse_email` turns one raw Enron message text into a record with fifteen header fields and a body.
- `filter_df_on_keyword` keeps the rows of a data frame whose chosen column contains a keyword, ignoring case.

The model is split into four modules:

- `Wrappers` (`wrappers.dfy`) holds `Option` (Python's `None`) and `Result` (a raised exception).
- `Text` (`text.dfy`) holds the character-level pieces:
  - the whitespace class shared by the regular-expression `\s` and `str.strip()`;
  - `Strip`, which is `str.strip()`;
  - the scans that greedy `\s*` and `(.*)` perform;
  - `FindFrom`, a literal leftmost substring search.
- `EmailParser` (`email_parser.dfy`) holds the parser.
  - `ParseEmail` is a method. Like the source, it starts from a dictionary that maps every header to `None`, then fills it in a loop over the header table in table order, then sets `Body`.
  - Its loop invariant states which headers are already filled.
  - Its postcondition ties every key to the specification functions `ExtractField` and `SplitBody`. `ExtractField(content, name)` is `SearchField(content, name + ":")`, the result of `re.search(r'Name:\s*(.*)')`.
  - Lemmas pin those functions down: leftmost match, greedy group, stripped single line, body after the first blank line.
- `KeywordFilter` (`keyword_filter.dfy`) holds the filter. Like pandas, it computes a boolean mask (`Mask`) and then applies boolean indexing (`Select`). A missing column gives `Failure(KeyError(column))`.

The parser models what the code does, including four behaviours that a reader of the header table might not expect:

- It searches the whole text, including the body and the `X-` lines (`FromFoundInsideXFrom`).
- Its search is case-sensitive (`LowerCaseHeaderNotFound`).
- It lets the whitespace after the colon run across line breaks, past blank lines and indentation, to the next non-space (`EmptyValueTakesNextLine`).
- It only strips the body; it does not collapse line breaks (`LaterSeparatorStaysInBody` keeps the inner `"\n\n"`).

Whitespace is the ASCII part of Python's `str.isspace()`: code points 9 to 13 and 28 to 32.

## Model

| member | source | states |
|---|---|---|
| EmailParser.ParseEmail | main.py:23-51 | the record has exactly the fifteen header keys plus `Body`; every header holds the search result for `Name:` (`None` when absent); `Body` holds the split result; no input makes it fail |
| EmailParser.SearchField | main.py:44-46 | `re.search(r'Name:\s*(.*)')` with group 1 stripped: `None` when the literal is absent, otherwise the stripped group taken after the leftmost occurrence; its meaning is pinned down by `SearchFieldIsLeftmostMatch` and `SearchFieldFromMatch` |
| EmailParser.ExtractField | main.py:24-46 | the value stored for one header: the search for that header's literal `Name:` from the header table |
| EmailParser.GroupValue | main.py:44-46 | group 1 of `\s*(.*)` matched from a position, stripped; see `GroupValueOfGreedyGroup` |
| EmailParser.SplitBody | main.py:48-49 | `re.split(r'\n\n', content, maxsplit=1)` followed by `strip()` of the second piece, or `None` with a single piece; see `SplitBodyStripsRest` |
| Text.Strip | main.py:46 | `str.strip()`: the result never starts or ends with whitespace; see `StripIsSlice` for what it keeps |
| Text.FindFrom | main.py:44 | a literal search from a position: a reported position holds an occurrence at or after the start; see `FindFromNoneIffAbsent` and `FindFromSkipsNothing` |
| EmailParser.SearchFieldNoneIffAbsent | main.py:41-46 | a header stays `None` exactly when its literal `Name:` occurs nowhere in the text |
| EmailParser.SearchFieldIsLeftmostMatch | main.py:44-46 | a found value comes from a match at the leftmost occurrence of `Name:`; greedy `\s*` there covers only whitespace and stops at a non-space; `(.*)` runs to the next line break; the value is that group, stripped |
| EmailParser.SearchFieldFromMatch | main.py:44-46 | conversely, any such greedy match at the leftmost occurrence determines the stored value as its stripped group |
| EmailParser.SearchFieldIsStrippedLine | main.py:25-46 | a stored header value holds no line break and has no leading or trailing whitespace |
| EmailParser.GroupValueIsStrippedLine | main.py:46 | the stripped group `(.*)` holds no line break and has no surrounding whitespace |
| EmailParser.GroupValueOfGreedyGroup | main.py:44-46 | the stripped group is `Strip` of the text that the greedy `\s*(.*)` match assigns to group 1 |
| EmailParser.GroupValueFromGreedyGroup | main.py:44-46 | any greedy `\s*(.*)` match from a position gives the same stripped group |
| EmailParser.EmptyValueTakesNextLine | main.py:44-46 | when only blanks follow `Name:` on its line and a later line holds a non-space after nothing but whitespace, `\s*` crosses the line break, any blank lines and any indentation; the value is that line, stripped, never empty (`"Subject:\n\nhello"` gives `hello`) |
| EmailParser.ValueAfterSpaceRun | main.py:44-46 | when only whitespace lies between `Name:` and a non-space, the value is the line starting at that non-space, stripped, and not empty |
| EmailParser.FromFoundInsideXFrom | main.py:27-46 | the search is not anchored: `From` takes its value from an `X-From:` line that comes first |
| EmailParser.LowerCaseHeaderNotFound | main.py:27-44 | the search is case-sensitive: `from:` does not match header `From` |
| EmailParser.SplitBodyNoneIffNoSeparator | main.py:48-49 | `Body` is `None` exactly when the text holds no `"\n\n"` |
| EmailParser.SplitBodyStripsRest | main.py:48-49 | with the first `"\n\n"` at `k`, `Body` is the text after it, stripped |
| EmailParser.FirstSeparatorAfterHead | main.py:48 | in `head + "\n\n" + tail` with no separator in `head`, the first separator is the added one, or one character earlier when `head` ends with a line break |
| EmailParser.BodyAfterFirstSeparator | main.py:48-49 | for such a text, `Body` is `tail` stripped, whatever `tail` holds |
| EmailParser.BodyIgnoresHeaderBlock | main.py:48-49 | the text before the first separator never affects `Body` |
| EmailParser.LaterSeparatorStaysInBody | main.py:48-49 | the split happens once (`maxsplit=1`): a second `"\n\n"` stays inside `Body` unchanged |
| EmailParser.BlankBodyIsEmpty | main.py:48-49 | a separator followed only by whitespace gives the empty body, not `None` |
| Text.FindFromNoneIffAbsent | main.py:44 | the search reports nothing exactly when the literal occurs nowhere from the start position on |
| Text.FindFromSkipsNothing | main.py:44 | a reported position has no earlier occurrence after the start position |
| Text.FindFromFindsFirst | main.py:44 | a search from the start reports the leftmost occurrence |
| Text.FirstOccurrenceIsFound | main.py:44 | the leftmost occurrence is what a search from the start reports |
| Text.SkipSpaceSkipsSpace | main.py:25-39 | greedy `\s*` passes over whitespace only |
| Text.SkipSpaceUnique | main.py:25-39 | greedy `\s*` ends exactly where the whitespace run ends |
| Text.LineEndCrossesNoBreak | main.py:25-39 | `(.*)` passes over no line break |
| Text.LineEndUnique | main.py:25-39 | `(.*)` ends exactly at the first line break or the end of the text |
| Text.TrimEndCutsSpace | main.py:46 | `strip()` cuts only whitespace from the end |
| Text.TrimEndUnique | main.py:46 | the trailing cut ends exactly where the trailing whitespace starts |
| Text.StripCharacterization | main.py:46 | `strip()` of text that has no surrounding whitespace, wrapped in whitespace, gives back exactly that text |
| Text.StripOfSlice | main.py:46 | stripping a slice keeps exactly the part from its first non-space to the start of its trailing whitespace |
| Text.StripIsSlice | main.py:46 | `strip()` returns a slice of its argument and cuts only whitespace on both sides |
| Text.StripOfStripped | main.py:46 | text without surrounding whitespace is returned unchanged |
| Text.StripIdempotent | main.py:46 | stripping twice is stripping once |
| Text.StripSkipsLeadingSpace | main.py:49 | a leading whitespace character never reaches the result of `strip()` |
| Text.TrimmedLineIsStripped | main.py:46 | a one-line group starting at a non-space stays free of line breaks and is stripped once its trailing whitespace is cut |
| KeywordFilter.ContainsIgnoringCase | main.py:84 | `.str.contains(keyword, case=False)` on one cell: the lowered keyword occurs in the lowered cell; see `ContainsIgnoringCaseMeaning` |
| KeywordFilter.Keep | main.py:84 | one mask entry: the cell is present and non-null (`na=False`) and contains the keyword ignoring case |
| KeywordFilter.Mask | main.py:84 | the boolean mask of the column, one entry per row |
| KeywordFilter.Select | main.py:84 | boolean indexing `df[mask]`: never more rows than it got; see `SelectAtPositions` for exactly which |
| KeywordFilter.FilterOnKeyword | main.py:83-84 | raises `KeyError` exactly when the column is missing; otherwise keeps the same columns and returns no more rows than it got |
| KeywordFilter.FilterKeepsExactlyMatchingRows | main.py:84 | the result lists, in increasing input order, exactly the rows whose cell is non-null and contains the keyword ignoring case |
| KeywordFilter.ContainsIgnoringCaseMeaning | main.py:84 | a cell matches exactly when, at some position, every keyword character equals the cell character after lower-casing both |
| KeywordFilter.ContainsIgnoresCase | main.py:84 | lower-casing the cell or the keyword beforehand does not change the answer |
| KeywordFilter.LowerStringIdempotent | main.py:84 | lower-casing twice is lower-casing once |
| KeywordFilter.PositionsListMaskedEntries | main.py:84 | boolean indexing lists a position exactly when its mask entry is true |
| KeywordFilter.SelectAtPositions | main.py:84 | boolean indexing returns the elements at the true positions, in order |
| KeywordFilter.Positions | main.py:84 | the true positions of a mask are in range and strictly increasing |
| KeywordFilter.SelectDistributes | main.py:84 | boolean indexing of a concatenation is the concatenation of the parts' results |
| KeywordFilter.FilterDistributes | main.py:84 | filtering the rows of two frames put together filters each of them and keeps their order |
| KeywordFilter.SelectAll | main.py:84 | an all-true mask keeps every row |
| KeywordFilter.FilterOnKeywordIdempotent | main.py:84 | filtering the result again with the same keyword and column changes nothing |

## Left out

- `extract_enron_dataset` (main.py:6-20) is left out: it only checks the file system and unpacks an archive.
- `create_dataframe` (main.py:54-81) is left out: it walks directories, reads files, and loads or saves a CSV cache. The `Person` column it adds after parsing is simply one more column of the input frame.
- The module-level calls (main.py:86-101) are left out: they only apply the two modelled functions to loaded frames and print. Their keywords hold no regular-expression metacharacters.
- KeywordFilter.FilterOnKeyword: matches the keyword as a literal substring. pandas treats it as a regular expression by default. The two agree on keywords without metacharacters.
- KeywordFilter.ContainsIgnoringCase: ignores case by ASCII lower-casing. Python's case-insensitive matching also folds non-ASCII letters.
- Text.IsSpace: covers the ASCII whitespace only. Python's `str.isspace()` also accepts non-ASCII spaces (such as U+0085 and U+00A0) for both `\s` and `strip()`.
- Only the one pattern shape `Name:\s*(.*)` and the literal `"\n\n"` split are modelled, not a general regular-expression engine. The `re.MULTILINE` flag has no effect on these patterns, since they use neither `^` nor `$`.
- A record is a map, so the order of the dictionary's keys is not modelled.
- The data frame is a set of column names plus a sequence of rows. The pandas index labels, dtypes and the `.str` accessor's error for a non-text column are not modelled. A cell missing from a row reads as null.
- Reloading the cached CSV turns empty strings into nulls. That happens in `create_dataframe`, which is not part of this model.
