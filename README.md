# EasyPrintServer INF and share-name helpers, modelled in Dafny

EasyPrintServer is a small Windows tool that installs a network printer. It
shares the printer and can deploy it through a group policy. This project
models the parts of it that compute over text:

- **The INF model-name extractor** (`InfModelExtractor`). It works on the lines
  of a Windows driver INF file:
  - it finds the `[Section]` blocks;
  - it builds a case-insensitive string table from `[Strings]`;
  - it reads the device-list base names from `[Manufacturer]`;
  - it expands each base name to every header equal to it or starting with
    `<base>.`;
  - it takes the left side of every `token = install-section` line in those
    sections;
  - it resolves `"literal"` and `%KEY%` tokens;
  - it returns the display names, de-duplicated ignoring case and sorted.
- **The fallback scraper** (`InfModelHelper`). It collects the quoted text of
  every line that looks like `"Model Name" = ...`.
- **The string helpers of the driver-and-share page** (`DriverAndSharePage`):
  - the share-name sanitiser;
  - the quoting of values pasted into single-quoted PowerShell literals;
  - the filter that turns the `Name|DistinguishedName` lines of the Active
    Directory query into organisational-unit choices.

Every stage that the program writes as a loop is a `method` with its loop, proved
equal to a specification function on values. The properties are stated as
lemmas about those functions. Shared building blocks live in their own modules:

- `Text`: the .NET string operations the code calls — `Trim`,
  `IsNullOrWhiteSpace`, `IndexOf`, `Split` and `OrdinalIgnoreCase`.
- `NameSet`: the case-insensitive `HashSet`/`Distinct` and the final `OrderBy`.
- `Lists`: the two shapes of list the loops build by appending.

Some loops of the extractor are methods of their own, called where the source
runs them:

- `CopyUntilHeader` is the second (copying) loop of `GetSectionLines`;
- `HeadersBelongingTo` is the inner loop of `ParseManufacturerSections`;
- `CollectDisplayNames` is the outer loop of `ExtractModelDisplayNames`, and
  `AddDisplayNames` its inner loop.

Three behaviours of the code are easy to miss, and the model keeps them:

- `ResolveToken` takes its quoted branch for any trimmed token that starts and
  ends with `"`, with no length check (InfModelExtractor.cs:134). A lone `"`
  therefore goes to `TrimQuotes`, which returns it unchanged, so it resolves to
  `"`.
- `ParseStringsSection` stores nothing for a line whose value is blank once its
  quotes are trimmed (InfModelExtractor.cs:57-60), so `Key = ""` defines no
  entry.
- `OrderBy` uses the culture comparer; the model sorts ordinally (see Left out).

The optional value (`Option`, standing for a .NET `null`) lives in a module of
its own, `Wrappers`.

## Model

| member | source | states |
|---|---|---|
| `InfModelExtractor.HeaderName` | EasyPrintServer/InfModelExtractor.cs:95-98 | the section name of a header is exactly the text between the brackets of its trimmed line |
| `InfModelExtractor.FindHeader` | EasyPrintServer/InfModelExtractor.cs:160-168 | the search loop's answer: the first header equal to `[name]` ignoring case at or after a position, with none before it, or -1 when there is none |
| `InfModelExtractor.SectionEnd` | EasyPrintServer/InfModelExtractor.cs:171-176 | the copying loop stops at the first header-shaped line (trimmed text starting with `[` and ending with `]`) or at the end of the file |
| `InfModelExtractor.SectionLines` | EasyPrintServer/InfModelExtractor.cs:155-179 | a section body never contains a header line, and a file without a `[name]` header has an empty body |
| `InfModelExtractor.GetSectionLines` | EasyPrintServer/InfModelExtractor.cs:155-179 | the two loops return exactly the body of the first `[name]` section |
| `InfModelExtractor.CopyUntilHeader` | EasyPrintServer/InfModelExtractor.cs:170-176 | the copying loop returns the lines from its start up to, not including, the next header line |
| `InfModelExtractor.SectionIsBetweenHeaders` | EasyPrintServer/InfModelExtractor.cs:161-176 | the body is exactly the lines strictly between the FIRST matching header and the next header line (or the end) |
| `InfModelExtractor.StripComments` | EasyPrintServer/InfModelExtractor.cs:181-186 | the result is a prefix of the line without `;`, cut exactly at the first `;`; it is the whole line when there is no `;` |
| `InfModelExtractor.StripCommentsIdempotent` | EasyPrintServer/InfModelExtractor.cs:181-186 | stripping comments twice is the same as once |
| `InfModelExtractor.TrimQuotes` | EasyPrintServer/InfModelExtractor.cs:188-194 | a trimmed text that starts and ends with `"` and has length at least 2 loses exactly one layer of quotes; any other trimmed text is returned as it is |
| `InfModelExtractor.TrimQuotesDropsAbsent` | EasyPrintServer/InfModelExtractor.cs:188-194 | de-quoting never introduces a character the input did not have |
| `InfModelExtractor.TrimQuotesUndoesQuote` | EasyPrintServer/InfModelExtractor.cs:188-194 | quoting any text and de-quoting it gives the text back |
| `InfModelExtractor.TrimQuotesNotIdempotent` | EasyPrintServer/InfModelExtractor.cs:188-194 | one layer only: `""a""` becomes `"a"`, and only a second call gives `a` |
| `InfModelExtractor.Lookup` | EasyPrintServer/InfModelExtractor.cs:141-146 | `TryGetValue` under the case-insensitive comparer hits exactly when the folded key is present; a hit in a well-formed table is the non-blank value of an entry whose key equals the asked key ignoring case |
| `InfModelExtractor.LookupIgnoresCase` | EasyPrintServer/InfModelExtractor.cs:141-146 | keys equal ignoring case look up the same value |
| `InfModelExtractor.Store` | EasyPrintServer/InfModelExtractor.cs:60 | a dictionary store under the case-insensitive comparer: the key now maps to the new value, every key that differs ignoring case keeps its value, and the table stays well formed |
| `InfModelExtractor.StringEntry` | EasyPrintServer/InfModelExtractor.cs:46-59 | a line whose first `=` is missing or at index 0 defines nothing; a defined key is trimmed, non-blank and has no `=` or `;`; a defined value is non-blank and has no `;`; `StringEntryOf` states which key and value every comment-free line defines |
| `InfModelExtractor.StringEntryOf` | EasyPrintServer/InfModelExtractor.cs:46-59 | for every line `l = v` without a comment and with no `=` in `l` (`v` may hold more `=`): the key is `l` trimmed and the value is `v` trimmed and de-quoted, and nothing is defined when `l` or the de-quoted value is blank |
| `InfModelExtractor.BuildTable` | EasyPrintServer/InfModelExtractor.cs:44-61 | the table holds only non-blank keys and values, each under its folded key |
| `InfModelExtractor.ParseStringsSection` | EasyPrintServer/InfModelExtractor.cs:38-64 | the loop builds the table of the `[Strings]` section entry by entry; a file without `[Strings]` gives an empty table |
| `InfModelExtractor.LastDefinitionWins` | EasyPrintServer/InfModelExtractor.cs:59-60 | last wins: a key's value is the one on the last line that defines it (ignoring case) |
| `InfModelExtractor.UndefinedKeyMissing` | EasyPrintServer/InfModelExtractor.cs:44-61 | a key that no line defines is not in the table |
| `InfModelExtractor.BaseName` | EasyPrintServer/InfModelExtractor.cs:73-87 | a base name is non-blank and has no `,` or `;`; a line without `=` declares none; `BaseNameOf` states which base every comment-free line declares |
| `InfModelExtractor.BaseOfLine` | EasyPrintServer/InfModelExtractor.cs:74-87 | a trimmed line declares nothing without an `=`; a declared base is non-blank and comma-free, and free of `;` when the line is |
| `InfModelExtractor.BaseOfRight` | EasyPrintServer/InfModelExtractor.cs:81-87 | a blank right side or a blank first field declares nothing; a declared base is non-blank and comma-free, and free of `;` when the right side is |
| `InfModelExtractor.BaseNameOf` | EasyPrintServer/InfModelExtractor.cs:73-87 | for every line `l = b` or `l = b,rest` without a comment and with no `=` in `l` and no `,` in `b`: the base name is `b` trimmed and de-quoted, whatever `l` is (blank included), and none is declared when that is blank |
| `InfModelExtractor.FirstField` | EasyPrintServer/InfModelExtractor.cs:83-84 | the first comma field, trimmed and de-quoted, holds no `,`, and no `;` when the right side has none |
| `InfModelExtractor.FirstFieldOf` | EasyPrintServer/InfModelExtractor.cs:83-84 | the first field of `b` or of `b,rest` (no `,` in `b`) is `b` trimmed and de-quoted, and it is empty when the whole right side is blank |
| `InfModelExtractor.HeadersBelongingTo` | EasyPrintServer/InfModelExtractor.cs:93-105 | the header scan of one base name returns the headers that equal it or start with `<base>.`, ignoring case, in file order |
| `InfModelExtractor.HeadersMatchingMembers` | EasyPrintServer/InfModelExtractor.cs:93-105 | a name is found for base `b` exactly when it is the name of a header of the file that belongs to `b` |
| `InfModelExtractor.ParseManufacturerSections` | EasyPrintServer/InfModelExtractor.cs:66-109 | the loops return the headers of every declared base name, de-duplicated ignoring case |
| `InfModelExtractor.CollectedMembers` | EasyPrintServer/InfModelExtractor.cs:71-106 | before de-duplication, a name is collected exactly when it names a header of the file that belongs to a base name some `[Manufacturer]` line declares |
| `InfModelExtractor.ManufacturerSectionsExact` | EasyPrintServer/InfModelExtractor.cs:66-109 | every returned section is a header of the file belonging to a declared base name, and every such header is returned up to letter case |
| `InfModelExtractor.LeftToken` | EasyPrintServer/InfModelExtractor.cs:116-125 | a line whose first `=` is missing or at index 0 yields nothing; a token is trimmed, non-blank and has no `=` or `;`; `LeftTokenOf` states which token every comment-free line yields |
| `InfModelExtractor.LeftTokenOf` | EasyPrintServer/InfModelExtractor.cs:116-125 | for every line `l = v` without a comment and with no `=` in `l`: the token is `l` trimmed, and nothing is yielded when `l` is blank |
| `InfModelExtractor.CommentIgnored` | EasyPrintServer/InfModelExtractor.cs:46 | each of the three line parsers gives the same result on a line as on the line cut at its first `;`, so the `...Of` lemmas cover commented lines too |
| `InfModelExtractor.Tokens` | EasyPrintServer/InfModelExtractor.cs:114-126 | every token of a section is trimmed, non-blank and free of `=` and `;` |
| `InfModelExtractor.ExtractLeftSideTokensFromSection` | EasyPrintServer/InfModelExtractor.cs:111-127 | the iterator's yields, collected in order, are the tokens of the named section's lines |
| `InfModelExtractor.ResolveToken` | EasyPrintServer/InfModelExtractor.cs:129-153 | only a `%KEY%` token can fail to resolve; a `%KEY%` that resolves against a well-formed table gives a non-blank value; a token that starts and ends with `"`, whatever its length, resolves to its de-quoted text; any other token that is not `%KEY%` (`%`, `%%` and `"a` among them) resolves to itself, trimmed |
| `InfModelExtractor.ResolveLoneQuote` | EasyPrintServer/InfModelExtractor.cs:131-135 | a token that trims to a lone `"` resolves to `"`, so it becomes a display name |
| `InfModelExtractor.ResolveQuotedLiteral` | EasyPrintServer/InfModelExtractor.cs:133-135 | a quoted token resolves to its inner text without consulting the table |
| `InfModelExtractor.ResolveKeyReference` | EasyPrintServer/InfModelExtractor.cs:138-149 | `%KEY%` takes the table's value for the trimmed KEY, and otherwise the value for the whole `%KEY%` token |
| `InfModelExtractor.ResolveWithoutTable` | EasyPrintServer/InfModelExtractor.cs:131-152 | with an empty table, exactly the `%KEY%` tokens resolve to nothing |
| `InfModelExtractor.NoStringsSectionDropsKeys` | EasyPrintServer/InfModelExtractor.cs:141-148 | in a file without `[Strings]`, every `%KEY%` token is dropped |
| `InfModelExtractor.NameOf` | EasyPrintServer/InfModelExtractor.cs:29-31 | a token contributes a display name only when it resolves to a non-blank text, and the name is trimmed and non-blank |
| `InfModelExtractor.AddDisplayNames` | EasyPrintServer/InfModelExtractor.cs:26-32 | the inner loop adds the display names of one section's tokens to the case-insensitive set, which stays the de-duplication of every name seen so far |
| `InfModelExtractor.CollectDisplayNames` | EasyPrintServer/InfModelExtractor.cs:22-33 | the loop over the device-list sections leaves in the case-insensitive set the de-duplication of every name their tokens resolve to, section by section |
| `InfModelExtractor.ExtractModelDisplayNames` | EasyPrintServer/InfModelExtractor.cs:11-36 | on the lines of the file, the method returns the candidate names, one per case class (the first seen), sorted |
| `InfModelExtractor.DisplayNamesShape` | EasyPrintServer/InfModelExtractor.cs:22-35 | the result is sorted, has no two entries equal ignoring case, holds only trimmed non-blank names, and holds every candidate name up to case and nothing else |
| `InfModelExtractor.NoManufacturerNoNames` | EasyPrintServer/InfModelExtractor.cs:11-36 | a file without a `[Manufacturer]` header yields no names |
| `InfModelExtractor.ResolvedNamesOrigin` | EasyPrintServer/InfModelExtractor.cs:26-32 | a name comes from a section's tokens exactly when one of those tokens resolves to it |
| `InfModelExtractor.CandidateOrigin` | EasyPrintServer/InfModelExtractor.cs:24-33 | a name is a candidate exactly when some token of some device-list section resolves to it |
| `InfModelExtractor.CandidatesTrimmed` | EasyPrintServer/InfModelExtractor.cs:29-31 | every candidate name is trimmed and non-blank |
| `NameSet.AddSpec` | EasyPrintServer/InfModelExtractor.cs:31 | `HashSet.Add` under the case-insensitive comparer keeps the set free of case duplicates, keeps the spelling already present, and adds the new name only when its class is new |
| `NameSet.DistinctKeepsClasses` | EasyPrintServer/InfModelExtractor.cs:108 | `Distinct` gives entries of the input, no two equal ignoring case, covering every case class of the input |
| `NameSet.DistinctKeepsFirst` | EasyPrintServer/InfModelHelper.cs:24-33 | of several case variants, the first one added is the one kept |
| `NameSet.Sort` | EasyPrintServer/InfModelExtractor.cs:35 | `OrderBy(x => x)` gives a sorted list that is a permutation of its input (ordinal order, see Left out) |
| `NameSet.SortedDistinct` | EasyPrintServer/InfModelExtractor.cs:35 | sorting the set gives a sorted list with the same entries and the same case classes |
| `InfModelHelper.MatchName` | EasyPrintServer/InfModelHelper.cs:22 | a captured name is non-empty and contains no `"` |
| `InfModelHelper.MatchNameExact` | EasyPrintServer/InfModelHelper.cs:22 | the matcher captures a name exactly when the line matches the pattern (white space, `"`, one or more non-`"` characters, `"`, white space, `=`), and the capture is the quoted text of that match |
| `InfModelHelper.MatchFound` | EasyPrintServer/InfModelHelper.cs:22 | a captured name comes with a placement of the pattern on the line whose quoted text it is |
| `InfModelHelper.MatchIsFirst` | EasyPrintServer/InfModelHelper.cs:22 | any placement of the pattern on a line is the one the matcher finds, so the capture is unique |
| `InfModelHelper.Scraped` | EasyPrintServer/InfModelHelper.cs:28-34 | a line contributes a trimmed, non-blank name without `"` |
| `InfModelHelper.GetModelNames` | EasyPrintServer/InfModelHelper.cs:15-39 | the loop gives the set of the lines' names; the sorted result has no two entries equal ignoring case, and every entry is trimmed, non-blank and free of `"` |
| `InfModelHelper.ScrapedNamesOrigin` | EasyPrintServer/InfModelHelper.cs:26-35 | a name is contributed exactly when some line yields it |
| `InfModelHelper.ModelNamesComplete` | EasyPrintServer/InfModelHelper.cs:26-38 | every matching line with a non-blank name is represented, ignoring case, in the result |
| `InfModelHelper.ModelNamesSound` | EasyPrintServer/InfModelHelper.cs:26-38 | every entry of the result is the trimmed name of some matching line |
| `InfModelHelper.ModelNamesKeepFirst` | EasyPrintServer/InfModelHelper.cs:24-33 | of several case variants, the spelling on the earliest line is the one returned |
| `InfModelHelper.NonMatchingLineIgnored` | EasyPrintServer/InfModelHelper.cs:28-29 | a line the pattern does not match, wherever it stands among the lines, changes nothing in the result |
| `DriverAndSharePage.SafeChar` | EasyPrintServer/DriverAndSharePage.xaml.cs:589-594 | letters, digits, `_` and `-` are kept; every other character becomes `_` |
| `DriverAndSharePage.Sanitize` | EasyPrintServer/DriverAndSharePage.xaml.cs:587-594 | the mapped text has the input's length and only allowed characters, and it is the input itself when that has only allowed characters |
| `DriverAndSharePage.ReplaceDouble` | EasyPrintServer/DriverAndSharePage.xaml.cs:597 | one `Replace("__", "_")` pass strictly shortens a text containing `__` and leaves any other text unchanged |
| `DriverAndSharePage.Collapse` | EasyPrintServer/DriverAndSharePage.xaml.cs:596-597 | the collapsed text contains no `__`, keeps the first character and adds no character |
| `DriverAndSharePage.ReplaceDoubleCollapse` | EasyPrintServer/DriverAndSharePage.xaml.cs:596-597 | each pass of the loop keeps what the underscore runs collapse to, so the loop ends with every run of `_` reduced to one |
| `DriverAndSharePage.TrimStartUnderscores` | EasyPrintServer/DriverAndSharePage.xaml.cs:599 | only leading `_` are dropped, and the result does not start with `_` |
| `DriverAndSharePage.TrimStartSuffix` | EasyPrintServer/DriverAndSharePage.xaml.cs:599 | what `TrimStart('_')` keeps is the end of its input |
| `DriverAndSharePage.TrimEndUnderscores` | EasyPrintServer/DriverAndSharePage.xaml.cs:599 | the result is the prefix left after dropping only trailing `_`, and it does not end with `_` |
| `DriverAndSharePage.TrimUnderscores` | EasyPrintServer/DriverAndSharePage.xaml.cs:599 | `Trim('_')` never lengthens and leaves no `_` at either end |
| `DriverAndSharePage.Untruncated` | EasyPrintServer/DriverAndSharePage.xaml.cs:584-602 | the name before the length cap is never empty |
| `DriverAndSharePage.MakeSafeShareName` | EasyPrintServer/DriverAndSharePage.xaml.cs:582-608 | the method computes the sanitiser's result: 1 to 60 allowed characters, never `__`, never a leading `_` |
| `DriverAndSharePage.SafeShareNameShape` | EasyPrintServer/DriverAndSharePage.xaml.cs:596-605 | every result has 1 to 60 allowed characters, no `__`, no leading `_`, and ends with `_` only when the 60-character cap cut it |
| `DriverAndSharePage.UntruncatedShape` | EasyPrintServer/DriverAndSharePage.xaml.cs:584-602 | before the cap, the name has only allowed characters, no `__` and no `_` at either end |
| `DriverAndSharePage.SafeShareNameDefault` | EasyPrintServer/DriverAndSharePage.xaml.cs:584-602 | a null or blank input, and an input none of whose characters is a letter, a digit or `-` (so each becomes `_`, an `_` included), gives `Printer` |
| `DriverAndSharePage.AllReplacedSanitizesAway` | EasyPrintServer/DriverAndSharePage.xaml.cs:587-599 | when every character maps to `_` (none is a letter, a digit or `-`), the runs collapse and the trim leaves nothing |
| `DriverAndSharePage.UnderscoresGiveDefault` | EasyPrintServer/DriverAndSharePage.xaml.cs:584-602 | `_ _` gives `Printer`: its characters all map to `_`, collapse and trim away |
| `DriverAndSharePage.SafeShareNameFixedPoint` | EasyPrintServer/DriverAndSharePage.xaml.cs:582-608 | the sanitiser returns its input unchanged exactly when the input is a valid share name: 1 to 60 allowed characters, no `__`, no `_` at either end |
| `DriverAndSharePage.SafeShareNameTwice` | EasyPrintServer/DriverAndSharePage.xaml.cs:263-269 | sanitising a sanitised name again, as the page does for the policy name, changes it only by dropping the `_` that a cut left at its end |
| `DriverAndSharePage.CutNameResanitized` | EasyPrintServer/DriverAndSharePage.xaml.cs:582-608 | a 60-character name of allowed characters without `__`, starting with a non-`_` and ending with `_`, comes back without that last `_` |
| `DriverAndSharePage.Escape` | EasyPrintServer/DriverAndSharePage.xaml.cs:463 | every ASCII apostrophe (U+0027) of the escaped text sits in a pair of two; text without one is unchanged |
| `DriverAndSharePage.EscapePs` | EasyPrintServer/DriverAndSharePage.xaml.cs:463 | a null string becomes the empty text, and every ASCII apostrophe of a result sits in a pair |
| `DriverAndSharePage.EscapeRoundTrip` | EasyPrintServer/DriverAndSharePage.xaml.cs:463 | replacing each `''` by `'` in the escaped text gives back the original string |
| `DriverAndSharePage.EscapeInjective` | EasyPrintServer/DriverAndSharePage.xaml.cs:463 | two different strings never escape to the same text |
| `DriverAndSharePage.EscapeMissesTypographicQuote` | EasyPrintServer/DriverAndSharePage.xaml.cs:463 | `a’b` escapes to itself, and its `’` (U+2019) is a PowerShell single quote without a partner |
| `DriverAndSharePage.EscapeQuotes` | EasyPrintServer/DriverAndSharePage.xaml.cs:463 | the corrected escape leaves every PowerShell single quote (U+0027, U+2018 to U+201B) in a pair, and text without one unchanged |
| `DriverAndSharePage.EscapeQuotesRoundTrip` | EasyPrintServer/DriverAndSharePage.xaml.cs:463 | PowerShell reads the corrected escape back as the original string |
| `DriverAndSharePage.EscapeQuotesAgrees` | EasyPrintServer/DriverAndSharePage.xaml.cs:463 | on text whose only quotes are ASCII apostrophes, the corrected escape is the one the code computes |
| `DriverAndSharePage.DropReturn` | EasyPrintServer/DriverAndSharePage.xaml.cs:437 | a piece that ends with `\r` (the `\r` of a `\r\n` break) loses one character, and any other piece is kept as it is |
| `DriverAndSharePage.DropReturnRestores` | EasyPrintServer/DriverAndSharePage.xaml.cs:437 | the character dropped is that final `\r`: putting it back gives the piece |
| `DriverAndSharePage.Pieces` | EasyPrintServer/DriverAndSharePage.xaml.cs:437 | the split yields at least one piece, the empty ones included (`OutputLines` drops those) |
| `DriverAndSharePage.PiecesNoBreak` | EasyPrintServer/DriverAndSharePage.xaml.cs:437 | output without `\n` is one piece, the whole output |
| `DriverAndSharePage.PiecesBreak` | EasyPrintServer/DriverAndSharePage.xaml.cs:437 | output `a` + `\n` + `b`, with no `\n` in `a`, splits into `a` less a final `\r`, then the pieces of `b` |
| `DriverAndSharePage.OutputLines` | EasyPrintServer/DriverAndSharePage.xaml.cs:437 | `Split` with `RemoveEmptyEntries`: a text is an output line exactly when it is a non-empty piece of the split |
| `DriverAndSharePage.OutputLinesChars` | EasyPrintServer/DriverAndSharePage.xaml.cs:437 | every character of a kept output line is a character of the output, and never `\n` |
| `DriverAndSharePage.OutputLineOccurs` | EasyPrintServer/DriverAndSharePage.xaml.cs:437 | every kept output line is a run of consecutive characters of the output |
| `DriverAndSharePage.ParseOuLine` | EasyPrintServer/DriverAndSharePage.xaml.cs:442-449 | an item's name and distinguished name are trimmed, non-blank and free of `\|` |
| `DriverAndSharePage.ParseOuLineExact` | EasyPrintServer/DriverAndSharePage.xaml.cs:442-449 | a line yields an item exactly when it has a single `\|` with non-blank text on both sides, and the item is that text, trimmed |
| `DriverAndSharePage.ParseOnlyBar` | EasyPrintServer/DriverAndSharePage.xaml.cs:442-449 | a line with a single `\|` and non-blank text on both sides yields that text, trimmed |
| `DriverAndSharePage.LoadOuItems` | EasyPrintServer/DriverAndSharePage.xaml.cs:433-450 | a failed query or blank output gives no items; otherwise the loop gives the items of the non-empty output lines, in order |
| `DriverAndSharePage.OuItemsOrigin` | EasyPrintServer/DriverAndSharePage.xaml.cs:440-450 | an item is offered exactly when some line yields it |
| `DriverAndSharePage.OuItemsAppend` | EasyPrintServer/DriverAndSharePage.xaml.cs:440-450 | items keep the order of their lines: those of earlier lines come first |
| `DriverAndSharePage.NoBarNoItems` | EasyPrintServer/DriverAndSharePage.xaml.cs:434-437 | output without a `\|` (blank output in particular) yields no items, so the early return on blank output changes nothing |

## Left out

- Reading the file (`File.ReadAllLines`) is not modelled. The model starts from
  the lines already read. The `catch` that turns an I/O error into an empty list
  is not modelled either.
- `PowerShellRunner` is not part of this model: it launches processes. So is all
  PowerShell script construction and result handling on the page (installing
  drivers, adding the printer, deploying the policy, listing drivers).
  `LoadOuItems` takes the query's exit code and standard output as parameters.
  An absent (null) standard output behaves like blank output.
- What `LoadOUsIfPossible` does with the items is not modelled: the combo box is
  filled only when there is at least one item.
- `Logger`, the window and the other pages are not part of this model. They are
  file appends under a lock, UI code, a network ping and message boxes.
- `OrderBy(x => x)` uses the culture-sensitive string comparer. The model sorts
  by ordinal (character code) order and proves only "sorted by that order".
- The culture-sensitive `StartsWith`/`EndsWith` calls with `"["`, `"]"`, `"\""`
  and `"%"` are modelled as ordinal comparisons of one character.
- `char.IsWhiteSpace`, regular-expression `\s` and `string.Trim` are restricted
  to TAB through CR, SPACE, U+0085 and U+00A0. `char.IsLetterOrDigit` is
  restricted to ASCII letters and digits. `OrdinalIgnoreCase` is an ASCII
  upper-case fold. Other Unicode letters and spaces are outside the model.
- Strings are sequences of Unicode scalar values, not UTF-16 code units. A
  character outside the Basic Multilingual Plane is one `_` in the model's
  sanitiser, where .NET's per-code-unit `char.IsLetterOrDigit` makes two `_`
  of its surrogate pair; the collapse of `__` makes the results equal. Since no
  surrogate survives the `Select`, the 60-character cut never splits a pair in
  either.
- Script construction is not modelled, so no script in the model carries the
  output of `EscapePs` or of the corrected `EscapeQuotes`; both are modelled
  and proved on the text they return.
- `ExtractLeftSideTokensFromSection` is a lazy iterator. The model collects its
  yields into a sequence.

## Findings

| source | as written | input that shows it | evidently intended | confidence | as-written member | corrected member |
|---|---|---|---|---|---|---|
| EasyPrintServer/DriverAndSharePage.xaml.cs:463 | `EscapePs` doubles only the ASCII apostrophe U+0027 | `a’b` (with U+2019) comes back unchanged; PowerShell also takes U+2018, U+2019, U+201A and U+201B for a single quote, so the `’` ends the `'...'` literal the text is pasted into | every character PowerShell takes for a single quote is doubled, so the literal holds the text exactly | not executed | `DriverAndSharePage.EscapeMissesTypographicQuote` | `DriverAndSharePage.EscapeQuotes` |
