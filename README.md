# Movie database, modelled in Dafny

`movie.cpp` is a console movie manager. A `Movie` record has:
- six base fields: title, year, director, genre, cast and plot summary;
- per-user ratings and reviews.

`Movie::toString` writes a record's base fields as one JSON-like line, and `Movie::fromString` is meant to read such a line back. A `MovieDatabase` keeps one ordered library of records per username. It supports:
- adding, editing, deleting, searching, sorting and filtering records;
- rating and reviewing the first record with a given title;
- recommending titles the user rated, counted across all libraries;
- importing, exporting, loading and saving records as lines of text.

This project models all of that except the interactive menu.

Modules:
- `Wrappers` (`wrappers.dfy`): an `Option` type that supports `:-`.
- `Text` (`text.dfy`):
  - decimal integers as `<<` and `to_string` write them, and a reader that is their exact inverse;
  - field splitting at a delimiter;
  - lexicographic string order, the `<` of `std::string`.
- `Movies` (`movie.dfy`):
  - the record; `ToString`, the exact line `toString` produces; `WriteMovie`, its loop as the source runs it;
  - `Decode`, a prefix-matching parser that consumes the literals `toString` writes, which is the decoder the comments in `fromString` describe;
  - the round trip between the two.
- `LegacyCodec` (`legacy_codec.dfy`): `fromString` as written. This is a string-stream cursor with eof and fail bits, fixed skip counts, `getline`, `peek`, `>>` and `substr`. Three findings about it are proved here.
- `Sorting` (`sorting.dfy`): `std::sort` modelled as a sort by a comparator that yields a sorted permutation, with no promise about ties.
- `Library` (`library.dfy`): what each `MovieDatabase` operation computes, written as functions on values, together with the lemmas relating them.
- `Database` (`database.dfy`): `class MovieDatabase`.
  - Its field `userLibraries: map<string, seq<Movie>>` is updated in place by methods with the source's loops and early returns.
  - Each method's `ensures` ties the new state, and what it returns, to the `Library` functions.
  - A method that reaches a library through `userLibraries[username]` leaves that key present, as `operator[]` does.
  - Output the source prints is returned instead:
    - an optional record;
    - a sequence of records;
    - a sequence of `(title, count)` pairs;
    - a "found" flag for "Movie not found!";
    - the lines a file would receive.

Files are sequences of lines. The constructor takes the stored lines, and `SaveToFile` returns the lines it would write.

## Model

| member | source | states |
|---|---|---|
| Movies.NewMovie | movie.cpp:21-22 | the constructor sets the six base fields and leaves the ratings and reviews empty |
| Movies.ToString | movie.cpp:24-40 | the body is the definition, to compare with these lines: the literals, each field in order, the year in decimal, the cast as a quoted comma-separated list; `WriteMovie`, `ToStringFrame` and `DecodeIff` state its properties |
| Movies.WriteMovie | movie.cpp:24-40 | the stream loop that puts ", " after every cast entry but the last builds exactly `ToString(m)` |
| Movies.CastListSnoc | movie.cpp:32-35 | a further cast name adds ", " and the quoted name, with no separator after the last |
| Movies.CastListStep | movie.cpp:31-36 | each loop step appends the separator, when it is not the first name, and the quoted name |
| Movies.CastListShape | movie.cpp:31-36 | an empty cast writes nothing between the brackets; a non-empty one starts and ends with a quote |
| Movies.LiteralsAsStreamed | movie.cpp:26-38 | each literal the parser consumes is the concatenation of the pieces `toString` streams |
| Movies.ToStringFrame | movie.cpp:26-38 | every line starts with `{"title": "` and ends with `"}` |
| Movies.ToStringIgnoresAnnotations | movie.cpp:24-40 | ratings and reviews are never written: changing them does not change the line |
| Text.NatToString | movie.cpp:28 | decimal digits of a natural number, with no leading zero except for 0 itself |
| Text.IntToString | movie.cpp:28 | the body is the definition, to compare with these lines: `<<` of an `int` (and `to_string`, movie.cpp:162): a '-' for a negative value, then the digits of its magnitude; `ReadIntToString` proves it is read back |
| Text.ReadInt | movie.cpp:49 | a decimal integer read from the front of a string: the text consumed is exactly its decimal form, and no digit follows |
| Text.ReadIntToString | movie.cpp:28 | reading back what `<< year` wrote gives the year and leaves the rest untouched |
| Text.ReadIntAt | movie.cpp:49 | a sign, a canonical digit string and a non-digit give exactly that value and leave the rest |
| Text.CanonicalRoundTrip | movie.cpp:28 | a digit string without a leading zero is the decimal form of its value |
| Text.SplitAt | movie.cpp:47 | splitting at the first delimiter: None exactly when the delimiter is absent; the part before does not contain it |
| Text.SplitAtField | movie.cpp:47 | a field without the delimiter is read back whole |
| Text.Expect | movie.cpp:46-62 | a literal is consumed exactly when the text starts with it |
| Text.StrLessIrreflexive | movie.cpp:142 | `std::string` less-than is irreflexive |
| Text.StrLessTransitive | movie.cpp:142 | `std::string` less-than is transitive |
| Text.StrLessTrichotomy | movie.cpp:142 | of two different strings, one is less |
| Text.StrLess | movie.cpp:142 | the body is the definition, to compare with these lines: `std::string` less-than, lexicographic, with a proper prefix less than the longer string; the three lemmas above prove it a strict total order |
| Movies.ParseNames | movie.cpp:55-61 | the names read are exactly those whose quoted, comma-separated list is the consumed text |
| Movies.ParseCast | movie.cpp:54-61 | the cast read is exactly the one whose list is the consumed text, possibly empty |
| Movies.Decode | movie.cpp:41-65 | a decoded line is exactly `toString` of the decoded record, which has no quote in any field and no ratings or reviews |
| Movies.ParseNamesCastList | movie.cpp:55-61 | a non-empty list of quote-free names written by `toString` is read back whole |
| Movies.ParseNamesStep | movie.cpp:55-61 | reading a list of two or more names reads the first, then the rest as before |
| Movies.DecodeToString | movie.cpp:24-65 | decoding `toString` of a quote-free record gives its six base fields back, with empty ratings and reviews |
| Movies.DecodeIff | movie.cpp:24-65 | `Decode(line) == Ok(m)` if and only if `line == ToString(m)` and `m` is quote-free and unannotated |
| Movies.DecodeRejectsNonNumericYear | movie.cpp:48-49 | a year that does not start with a digit or '-' makes the line invalid |
| LegacyCodec.Ignore | movie.cpp:46 | `ignore(n)` advances n characters; with fewer left it stops at the end and sets eofbit; on a failed stream it only sets failbit |
| LegacyCodec.GetLine | movie.cpp:47 | when the delimiter occurs, `getline` returns the text before its first occurrence and consumes that delimiter; otherwise it returns the rest, sets eofbit, and fails only when it extracted nothing; on a failed stream it leaves the target unchanged |
| LegacyCodec.Peek | movie.cpp:59 | `peek` does not move the cursor |
| LegacyCodec.ExtractInt | movie.cpp:49 | `>>` never moves the cursor backwards and keeps the text |
| LegacyCodec.StripQuotes | movie.cpp:57 | `substr(1, size-2)` drops one character at each end; on an empty string it throws |
| LegacyCodec.CastLoop | movie.cpp:56-61 | the loop only appends to the cast |
| LegacyCodec.SkipCountsVersusLiterals | movie.cpp:46-62 | only the year skip matches its literal; the others fall two or three characters short |
| LegacyCodec.FromString | movie.cpp:41-65 | the body is the definition, to compare with these lines: the stream steps of `fromString` in order, with its skip counts; an uncaught `substr` throw is `OutOfRange`; the two lemmas below state what it does to `toString` lines |
| LegacyCodec.SourceSkipsBlankTitle | movie.cpp:46-47 | as written, every line `toString` produces is read back with the title " ", so the round trip fails for any other title |
| LegacyCodec.CastLoopSplitsLastActor | movie.cpp:56-61 | as written, the last cast name is read up to the comma inside `], "plotSummary"` and keeps a trailing quote |
| LegacyCodec.CastLoopFirstName | movie.cpp:56-61 | when a name, its quotes and `]` are followed by a comma, the first name kept is the name with a trailing quote |
| LegacyCodec.CastLoopDropsFirstLetter | movie.cpp:56-61 | as written, with two names the second is read without its first character and with a trailing quote, because `ignore(2)` runs after the ',' is consumed |
| LegacyCodec.CastLoopSkipFirst | movie.cpp:56-61 | a quoted first name followed by ", " is kept whole, and the skip of two leaves the cursor on the next name's first character |
| LegacyCodec.CastLoopLaterName | movie.cpp:56-61 | a name read from its first character up to `"]` and a ',' is kept without that character and with a trailing quote |
| LegacyCodec.CastLoopNext | movie.cpp:56-61 | when the character after the name read is not `]`, the loop keeps the name, skips two characters and reads on |
| LegacyCodec.GetLineAt | movie.cpp:47 | `getline` returns text free of the delimiter that stops just before one, and consumes that delimiter |
| LegacyCodec.StripEnds | movie.cpp:57 | `substr(1, size-2)` drops exactly the first and the last character |
| LegacyCodec.StripLaterName | movie.cpp:57 | stripping `name"]` leaves the name without its first character, with a trailing quote |
| Sorting.InsertSorted | movie.cpp:141 | inserting into a sorted sequence keeps it sorted and adds exactly that element |
| Sorting.SortBy | movie.cpp:141-155 | the result is sorted by the comparator and is a permutation of the input |
| Sorting.PermutationDistinct | movie.cpp:201-204 | a permutation of a sequence without repeats has none |
| Library.LibraryOf | movie.cpp:70 | a user without a library reads as having an empty one |
| Library.Touch | movie.cpp:113 | `userLibraries[username]` creates that library if absent and changes nothing else |
| Library.FirstMatch | movie.cpp:129-135 | the index of the first record with that title: None exactly when no record has it |
| Library.UpdateFirst | movie.cpp:113-118 | only the first title match changes, at the same index, and the library's length is kept; with no match nothing changes |
| Library.Apply | movie.cpp:113-184 | an edit yields the new record; a rating appends to that user's ratings; a review sets that user's review; a rating or review changes nothing else |
| Library.RateAppendsOne | movie.cpp:173 | a rating appends exactly one entry to that user's ratings and keeps every other user's |
| Library.RateTwiceAccumulates | movie.cpp:170-175 | two ratings of the same title keep both, in order, and change no other record |
| Library.ReviewTwiceOverwrites | movie.cpp:180-185 | a second review of the same title replaces the first |
| Library.AnnotationKeepsFirstMatch | movie.cpp:170-188 | rating or reviewing keeps the same record as the first title match |
| Library.AddThenFind | movie.cpp:108-110 | a record added under a new title is what a search for that title finds |
| Library.EditReplaces | movie.cpp:112-119 | an edit puts the new record at the first match, whatever its title, and changes no other record |
| Library.ReviewSets | movie.cpp:180-188 | a review stores its text under that user on the first match, and changes no other field and no other record |
| Library.EditThenFind | movie.cpp:112-119 | after an edit that keeps the title, the new record sits at the old position and is what a search finds |
| Library.Select | movie.cpp:123-125 | a selection is no longer than its input |
| Library.SelectCounts | movie.cpp:123-125 | a selection keeps each element that passes, as often as it occurred, and nothing else |
| Library.SelectAppend | movie.cpp:123-125 | selection distributes over concatenation, so order is kept |
| Library.SelectNone | movie.cpp:123-125 | a selection that nothing passes is empty |
| Library.SelectAll | movie.cpp:123-125 | a selection that everything passes is the whole sequence |
| Library.Without | movie.cpp:121-126 | no remaining record has the title; every other record is kept as often as it occurred |
| Library.WithoutKeepsOrder | movie.cpp:121-126 | deleting keeps each non-matching record in place relative to the others and drops each match |
| Library.WithoutIdempotent | movie.cpp:121-126 | deleting twice is deleting once |
| Library.Filtered | movie.cpp:159-168 | a record is selected exactly when it is in the library and its chosen field equals the value, with the year compared as `to_string` |
| Library.Matches | movie.cpp:161-164 | the body is the definition, to compare with these lines: the filter condition, with the year compared as its decimal text |
| Library.FilterUnknownCriterion | movie.cpp:159-168 | an unknown criterion selects nothing |
| Library.FilterTitleEmptyIff | movie.cpp:128-168 | filtering by title is empty exactly when a search for that title finds nothing |
| Library.KeyOf | movie.cpp:140-156 | exactly "title", "year", "director" and "genre" select a sort key, and each selects the key on that field |
| Library.KeyLess | movie.cpp:141-155 | the body is the definition, to compare with these lines: the four comparison lambdas: `<` on title, year, director or genre |
| Library.AscendingIsTotalPreorder | movie.cpp:141-155 | each source comparator is a strict weak order, so sorting by it is well defined |
| Library.CountRated | movie.cpp:194-198 | a positive count needs a record with that title that the user rated |
| Library.RatedBy | movie.cpp:195-196 | the body is the definition, to compare with these lines: the user has an entry in the record's ratings and it is not empty |
| Library.CountAllRemove | movie.cpp:193-200 | the sum over libraries does not depend on the order they are visited in |
| Library.CountRatedSnoc | movie.cpp:194-198 | one more record adds one to its title's count exactly when the user rated it |
| Library.CountAllAdd | movie.cpp:193-200 | visiting one more library adds that library's count to every title |
| Library.CountAllPositive | movie.cpp:193-200 | a positive total needs a rated record in one of the libraries |
| Library.TotalRated | movie.cpp:192-200 | the body is the definition, to compare with these lines: the sum over every library of `CountRated`, which `CountAllRemove` shows does not depend on visiting order |
| Library.NothingRatedCountsZero | movie.cpp:190-209 | if the user rated nothing, every title counts zero |
| Library.ByCountDescendingIsTotalPreorder | movie.cpp:202-204 | the recommendation comparator is a total preorder |
| Library.CollectAppend | movie.cpp:214-218 | what the lines contribute distributes over concatenation |
| Library.DecodedAppend | movie.cpp:214-218 | importing two runs of lines yields the first run's records, then the second's |
| Library.DecodedPlusSkipped | movie.cpp:214-218 | every line is blank, skipped or imported |
| Library.AppendTo | movie.cpp:216 | the records are appended to that user's library only; with no records the store is unchanged, so no entry is created |
| Library.AppendToSnoc | movie.cpp:214-218 | appending record by record equals appending all at once |
| Library.ImportIntoSnoc | movie.cpp:214-218 | one more line appends what it contributes |
| Library.ImportInto | movie.cpp:211-220 | the body is the definition, to compare with these lines: the records of the non-empty lines that decode, appended in order to that user's library; `ImportStep` and `ImportIntoSnoc` relate it to the loop |
| Library.ImportStep | movie.cpp:214-218 | the import loop's step: a line adds its record, or one to the skipped count, or nothing |
| Library.Exported | movie.cpp:225-227 | one `toString` line per record, in library order |
| Library.BaseAll | movie.cpp:64 | the text form keeps every record's base fields and nothing else |
| Library.EntryOfToString | movie.cpp:24-65 | a quote-free record's line imports as exactly its base record and is never skipped |
| Library.ExportImportRoundTrip | movie.cpp:211-232 | importing an exported, quote-free library gives back its records without annotations, and skips no line |
| Library.ExportedAppend | movie.cpp:225-227 | exporting distributes over concatenation |
| Library.StrLeIsTotalPreorder | movie.cpp:88 | ascending key order is a total preorder |
| Library.SaveLines | movie.cpp:85-97 | the body is the definition, to compare with these lines: each listed user's export, one after another; `SaveLinesExported` and `SaveThenLoad` state its properties |
| Library.SaveLinesExported | movie.cpp:88-92 | the saved lines are the export of all libraries, one after another |
| Library.SavedLinesDecode | movie.cpp:73-92 | for a store with no double quote in any field, the saved lines decode to the saved records' base fields, in save order, with ratings and reviews dropped |
| Library.LoadRecords | movie.cpp:73-83 | loading lines into an empty store puts their records, if any, into "default" and creates no other library |
| Library.SaveThenLoad | movie.cpp:73-106 | saving and loading again puts every record into "default", in the saved order, with ratings and reviews dropped |
| Database.SortedKeys | movie.cpp:88 | the map's keys, each once, in ascending order |
| Database.ExportLines | movie.cpp:89-91 | the output loop writes exactly the export of the records |
| Database.MovieDatabase.constructor | movie.cpp:100-102 | a new database holds the stored lines' records in "default" |
| Database.MovieDatabase.LoadFromFile | movie.cpp:73-83 | the stored lines are imported into "default" |
| Database.MovieDatabase.ImportMovies | movie.cpp:211-220 | each non-empty line that decodes is appended to the user's library, in order; the rest are counted |
| Database.MovieDatabase.AddMovie | movie.cpp:108-110 | the record is appended to the user's library, which is created if absent; other libraries are unchanged |
| Database.MovieDatabase.ChangeFirst | movie.cpp:113-118 | the loop changes only the first title match, and reports whether there was one |
| Database.MovieDatabase.EditMovie | movie.cpp:112-119 | only the first title match is replaced, in place; with no match only the library's creation happens |
| Database.MovieDatabase.RateMovie | movie.cpp:170-178 | the rating is appended on the first title match; "not found" exactly when there is none |
| Database.MovieDatabase.ReviewMovie | movie.cpp:180-188 | the review is set on the first title match; "not found" exactly when there is none |
| Database.MovieDatabase.DeleteMovie | movie.cpp:121-126 | the library becomes its non-matching records, in order; other libraries are unchanged |
| Database.MovieDatabase.SearchMovie | movie.cpp:128-136 | the first record with that title, or None exactly when there is none |
| Database.MovieDatabase.SortMovies | movie.cpp:138-157 | a known criterion leaves a permutation sorted by that key; any other leaves the library as it was |
| Database.MovieDatabase.FilterMovies | movie.cpp:159-168 | the records whose chosen field equals the value, in library order |
| Database.MovieDatabase.ExportMovies | movie.cpp:222-232 | one `toString` line per record of the user's library |
| Database.MovieDatabase.SaveToFile | movie.cpp:85-97 | every library's lines, users in ascending key order |
| Database.MovieDatabase.CountRatings | movie.cpp:192-200 | per title, the number of records rated by the user across all libraries; every entry is at least 1 |
| Database.CountLibrary | movie.cpp:194-198 | the inner loop adds, per title, the number of this library's records the user rated; no entry drops below 1 |
| Database.MovieDatabase.RecommendMovies | movie.cpp:190-209 | titles of the rated records with their counts: each count right and at least 1, every such title present once, counts non-increasing, empty when nothing is rated |
| Database.RecommendationsFromEntries | movie.cpp:201-204 | sorting the frequency entries keeps exactly those entries |

## Left out

- `main` (movie.cpp:234-344): the menu and console prompts are input handling only.
- File handles, their open and close and the "Unable to open file for writing." message: files are sequences of lines. `LoadFromFile` and the constructor take the stored lines; `ExportMovies` and `SaveToFile` return the lines written.
- The destructor (movie.cpp:104-106) calls `saveToFile`. The model has no destructor; `SaveToFile` and `SaveThenLoad` cover what it writes.
- Database.MovieDatabase.ImportMovies: uses the corrected decoder and skips a line it rejects, returning how many it skipped. The source's `fromString` never rejects a line: it appends a garbled record instead, or, when a cast entry read is empty, `substr` throws `std::out_of_range`, which nothing catches, so the program ends (`LegacyCodec.Outcome.OutOfRange`).
- Database.MovieDatabase.LoadFromFile: the same deviation as `ImportMovies`.
- Sorting.SortBy: promises a sorted permutation and nothing about the order of ties, because `std::sort` is not stable.
- `std::map` order: `SaveToFile` visits users in ascending key order, which agrees with `std::map`. `RecommendMovies` does not state the order of titles with equal counts.
- Strings are sequences of characters, and `std::string` is a sequence of bytes. Comparison agrees: `std::string` compares bytes as `unsigned char`, and byte order of UTF-8 text is code-point order, the order `StrLess` uses.
- LegacyCodec.FromString: `ignore(n)` (movie.cpp:46-62) and `substr(1, size-2)` (movie.cpp:57) count bytes in the source and characters in the model, so on text with characters outside ASCII the model and the source skip different amounts. The findings rest only on the ASCII literals `toString` writes.
- `int` is unbounded. The 32-bit year, rating and frequency counter, and their overflow, are not modelled.
- LegacyCodec.ExtractInt: its value is not bounded to 32 bits, so an out-of-range year does not set failbit.
- `>>` corner cases are outside the corrected decoder: leading white space, a '+' sign, leading zeros and "-0". It accepts only the decimal form `<<` writes.
- A newline inside a field would split one record across two lines when written; the model keeps a record on one line.
- Movies.DecodeToString: needs no double quote in any string field or cast name, because the format cannot escape one. Commas in cast names are allowed.
- LegacyCodec.Ignore: running out of text sets eofbit without failbit, as in common standard libraries.

## Findings

| source | as written | input that shows it | evidently intended | confidence | as-written member | corrected member |
|---|---|---|---|---|---|---|
| movie.cpp:46-47 | `ss.ignore(9)` skips 9 characters of the 11-character `{"title": "` | any record, e.g. title "Alien": the stream stops on the space before the opening quote, so `getline` reads " " | skip the whole prefix, so the title is read back | not executed | LegacyCodec.SourceSkipsBlankTitle | Movies.DecodeToString |
| movie.cpp:56-61 | the cast loop reads the last name up to the next ',' and strips one character at each end | cast ["B"]: the loop reads `"B"]` and keeps `B"` | stop each name at its closing quote, so the cast is read back | not executed | LegacyCodec.CastLoopSplitsLastActor | Movies.ParseNamesCastList |
| movie.cpp:60 | `ss.ignore(2)` runs after `getline` has already consumed the ',' | cast ["Ann", "Bob"]: the skip takes the space and the opening quote, so the second name is read as `Bob"]` and kept as `ob"` | skip only the space left after the consumed ',', so the next name is read with its opening quote and stripped back to the name | not executed | LegacyCodec.CastLoopDropsFirstLetter | Movies.ParseNamesCastList |
