# ABVDGet core, modelled in Dafny

ABVDGet downloads language records from the Austronesian Basic Vocabulary
Database (and its Bantu, Mayan and Uto-Aztecan siblings), parses the XML
the server returns into a language record, lexicon records and a location,
and reads saved JSON files back into `Record` objects. Its cognate parser
turns the free-text cognacy field of a lexicon entry into a list of cognate
classes. This project models that core and proves what it does:

- `py.dfy` (module `Py`): the Python values the core handles (None, bool,
  int, str and other objects), and the string built-ins it relies on.
  These are `str.strip`, `str.split`, `str.replace`, `int()` on text and
  `"%d"`, each pinned down by lemmas about its result. Examples: `int()`
  reads back what `"%d"` writes, joining the pieces of a split gives the
  text back, and `replace` copies the text up to the first occurrence of
  the pattern, puts the replacement there and carries on after it.
- `cognates.dfy` (module `Cognates`): `CognateParser`. The decision one
  call to `parse_cognate` makes is the function `Resolve`. The class
  `CognateParser` owns the `unique_id` counter and is proved to act as
  `Resolve` says. Every token it mints is new. Fields written as codes
  ("1, 2?", " 15 ") are described by the `Written` datatype. The parser is
  proved to return the certain codes of such a field in strict mode and
  every code in lenient mode.
- `cognate_examples.dfy`: the behaviours the repository's tests pin down,
  proved about the model.
- `tools.dfy` (module `Tools`): `clean` and `slugify`.
- `abvd_record.dfy` (module `AbvdRecord`): `Record.is_loan`,
  `Record.get_taxon` and `ABVDatabase.to_record`, with `int()` on a JSON
  value.
- `abvd_downloader.dfy` (module `AbvdDownloader`): the `Downloader`
  constructor and `is_valid_language`.
- `abvd_parser.dfy` (module `AbvdParser`): the four record shape tests, the
  record loop of `Parser.parse` as an imperative `Parse` method, and the
  checks after it. `Parse` is proved equal to a recursive definition, and
  that definition is characterised outright. It succeeds exactly when every
  record has a known shape, there is exactly one language record and at
  least one lexicon record. It then holds that language record, the lexicon
  records in document order and the last location. When it raises, it
  raises at the first faulty record.
- `abvd_database.dfy` (module `AbvdDatabase`): the `ABVDatabase` class.
  It has the loaded files, the lexicon cache `_lexicon_by_file`, the
  `"filename"` key `get_details` writes into each language entry, and
  `records`. Its methods `get_details`, `get_lexicon`, `get_nlexemes`,
  `get_ncognates` and `process` are each proved against a function of the
  old state. The caching behaviour is proved as lemmas: the cache keeps what
  a call yielded, and a failing call leaves a partial list behind.
- `abvd_examples.dfy`: the record and downloader behaviours the tests pin
  down.

Python's `unicodedata.normalize('NFKD', …)` followed by dropping combining
characters has no Dafny counterpart. `Slugify` and `GetTaxon` therefore take
it as a parameter `fold: string -> string`, and every property about them
holds for any such function.

Some behaviour follows the code, not the documentation:

- `Loan == 0` is not a loan, because Python's `0 == False`.
- `True` and `False` are accepted as language ids, because `bool` is a
  subclass of `int`.
- A blank cognacy field such as `" "` yields `[]`, not a fresh token. The
  same holds for a lone `"?"` in lenient mode.
- A `get_lexicon` call that raises part-way leaves the records converted so
  far in the cache, and the next call returns them as if they were the
  whole lexicon (`AbvdDatabase.FailureCachesPrefix`).
- `is_language` demands a `glottocode` tag. Language records without one
  are refused as unknown record types (`AbvdParser.OldLanguageRecordsRefused`).
  The language fixture in `test/test_Parser.py` has no `glottocode` key.

## Model

| member | source | states |
|---|---|---|
| Py.Strip | abvdget/CognateParser.py:38 | `str.strip()`: neither end of the result is whitespace (ASCII and Unicode, as `str.isspace`) and it is no longer than the input |
| Py.Split | abvdget/CognateParser.py:38 | `str.split(sep)`: at least one piece, no piece holds the separator, the first piece is a prefix of the text |
| Py.JoinSplit | abvdget/CognateParser.py:38 | joining the pieces of a split with the separator gives back the original text |
| Py.ReplaceChar | abvdget/CognateParser.py:36 | `str.replace` of one character: same length, each occurrence replaced and nothing else changed |
| Py.ReplaceCharConcat | abvdget/tools.py:20-21 | replacing one character distributes over concatenation |
| Py.DeleteChar | abvdget/CognateParser.py:47 | `str.replace(c, "")`: no `c` remains, every other character present before is present after, and text without `c` is unchanged |
| Py.ReplaceAll | abvdget/tools.py:16 | `str.replace(pat, rep)`: a character in neither the text nor the replacement is not in the result |
| Py.ReplaceAllSkip | abvdget/tools.py:16 | a stretch of text where no occurrence of the pattern starts is copied unchanged, and replacing carries on after it |
| Py.ReplaceAllHit | abvdget/tools.py:16 | an occurrence at the front is replaced and the scan resumes after it, so occurrences never overlap |
| Py.ReplaceAllFirst | abvdget/tools.py:16 | `(a + pat + b).replace(pat, rep) == a + rep + b.replace(pat, rep)` when no occurrence of `pat` starts inside `a` |
| Py.ReplaceAllMissing | abvdget/tools.py:16 | text that lacks some character of the pattern is unchanged |
| Py.Str | abvdget/CognateParser.py:29-31 | `str(v)`: text is itself, an int is its `"%d"` numeral, None is "None" |
| Py.Equal | abvdget/ABVD.py:74 | Python `==`: equal values compare equal; an int or bool compares equal only to an int or bool of the same numeric value; anything else only to itself |
| Py.ParseInt | abvdget/CognateParser.py:54 | `int()` on text succeeds iff the stripped text is digits with an optional sign; a '-' gives a value at most 0, otherwise at least 0 |
| Py.IntToDecimal | abvdget/CognateParser.py:21 | `"%d"`: a non-empty trimmed text, an optional '-' then digits |
| Py.ParseDecimal | abvdget/CognateParser.py:54 | `int()` reads back every integer that `"%d"` writes |
| Py.ParseLeadingZeros | abvdget/CognateParser.py:54 | `int()` reads a numeral with leading zeros as its value: "007" is 7 |
| Py.ParsePlusSign | abvdget/CognateParser.py:54 | `int()` reads a numeral with an explicit '+' as its value: "+5" is 5 |
| Py.ParseRejectsForeignChar | abvdget/CognateParser.py:52-56 | `int()` rejects any text holding a character that is not whitespace, a digit or a sign |
| Cognates.UniqueToken | abvdget/CognateParser.py:21 | `"u_%d"`: the token is "u_" followed by the counter's numeral |
| Cognates.UniqueTokenReadsBack | abvdget/CognateParser.py:21 | the numeral after "u_" reads back as the counter value |
| Cognates.UniqueTokenInjective | abvdget/CognateParser.py:21 | different counter values give different `u_<n>` tokens |
| Cognates.Normalise | abvdget/CognateParser.py:36 | every '.' and '/' becomes ','; every other character and the length are kept |
| Cognates.SubCodes | abvdget/CognateParser.py:36-38 | splitting on the three separators gives at least one piece, each without surrounding whitespace |
| Cognates.StripAll | abvdget/CognateParser.py:38 | piece i of the result is piece i of the input, stripped |
| Cognates.DropDubious | abvdget/CognateParser.py:42-45 | keeps exactly the values without '?' and no more pieces than given; empty iff every piece is dubious; unchanged when none is |
| Cognates.DropDubiousConcat | abvdget/CognateParser.py:42 | the filter works piece by piece and keeps the order: filtering `a + b` is filtering `a` followed by filtering `b` |
| Cognates.DeleteMarks | abvdget/CognateParser.py:47 | piece i of the result is piece i with every '?' removed |
| Cognates.DropEmpty | abvdget/CognateParser.py:50 | keeps exactly the non-empty values and no more pieces than given; unchanged when none is empty |
| Cognates.DropEmptyConcat | abvdget/CognateParser.py:50 | the filter works piece by piece and keeps the order: filtering `a + b` is filtering `a` followed by filtering `b` |
| Cognates.Survivors | abvdget/CognateParser.py:40-50 | the pieces that reach the number check are non-empty and free of '?', no more than were split; in strict mode they are exactly the non-empty pieces without '?' |
| Cognates.ToInts | abvdget/CognateParser.py:52-56 | succeeds iff every piece is an integer, and then gives each piece's value in order |
| Cognates.Resolve | abvdget/CognateParser.py:23-60 | a fresh token iff the value is None, '', s/S or x/X, or every piece is dubious in strict mode. It raises on a non-text value iff the value is not None/''/s/x; it raises a broken combined cognate iff the text starts with ','. It raises not-numeric only when checking. Codes are integers when checking and texts otherwise |
| Cognates.ResolveSurvivors | abvdget/CognateParser.py:40-58 | for a text that gets no fresh token: without checking, the surviving pieces as texts in order; with checking, it raises not-numeric iff some survivor is not an integer, and otherwise code i is the value of survivor i |
| Cognates.NormaliseInterleave | abvdget/CognateParser.py:36 | pieces joined by any of '.', '/' and ',' normalise to the pieces joined by ',' |
| Cognates.FieldSubCodes | abvdget/CognateParser.py:36-38 | a field written as padded codes with separators splits into exactly those codes |
| Cognates.StrictAllDoubtful | abvdget/CognateParser.py:40-45 | in strict mode a field whose codes are all marked '?' gets a fresh token |
| Cognates.StrictWrittenField | abvdget/CognateParser.py:40-56 | in strict mode a field with at least one certain code yields exactly its certain codes, in order |
| Cognates.LenientWrittenField | abvdget/CognateParser.py:47-58 | in lenient mode a written field yields every code, certain or not, in order |
| Cognates.BlankField | abvdget/CognateParser.py:38-58 | a field of whitespace only yields no codes and no fresh token, in both modes |
| Cognates.UncheckedSingle | abvdget/CognateParser.py:57-58 | without checking, a text without separators or '?' comes back as itself, stripped |
| Cognates.ForeignCharRaises | abvdget/CognateParser.py:52-56 | when checking, a text holding a letter (and no '?') raises not-numeric with the raw text |
| Cognates.CognateParser.constructor | abvdget/CognateParser.py:3-15 | the three flags are kept and the counter starts at 0 |
| Cognates.CognateParser.GetNextUnique | abvdget/CognateParser.py:17-21 | with uniques, the counter goes up by one and the new token `u_<n>` was never issued before; without, nothing changes and `[]` is returned |
| Cognates.CognateParser.ParseCognate | abvdget/CognateParser.py:23-60 | the result is what `Resolve` decides: a fresh, never-issued token (or `[]` without uniques), the codes, or the error; the counter moves only for a fresh token |
| CognateExamples.DubiousSubsetStrict | test/test_CognateParser.py:25-26 | "1, 2?" gives [1] in strict mode |
| CognateExamples.DubiousSubsetLenient | test/test_CognateParser.py:64-66 | "1, 2?" gives [1, 2] in lenient mode |
| CognateExamples.AllDubiousStrict | test/test_CognateParser.py:30-32 | "1?, 2?" gets a fresh token in strict mode |
| CognateExamples.MarkOnlyStrict | test/test_CognateParser.py:23 | "?" gets a fresh token in strict mode |
| CognateExamples.MarkOnlyLenient | abvdget/CognateParser.py:47-50 | "?" gives no codes and no fresh token in lenient mode |
| CognateExamples.FifteenStrict | test/test_CognateParser.py:98-100 | "15" gives [15] |
| CognateExamples.LetterRaises | test/test_CognateParser.py:71-73 | "A" raises when checking |
| CognateExamples.LetterUnchecked | test/test_CognateParser.py:75-76 | "A" comes back as text without checking |
| CognateExamples.IntegerValueRaises | test/test_CognateParser.py:80-82 | the integer 1, not text, raises |
| CognateExamples.TokenNames | test/test_CognateParser.py:51-55 | the first two tokens are "u_1" and "u_2" |
| CognateExamples.SharedCounter | test/test_CognateParser.py:84-110 | one strict parser with uniques, fed two coded entries, an empty one, a coded one and an empty one, gives the codes, the codes, u_1, the codes, then u_2 |
| Tools.Clean | abvdget/tools.py:3-7 | None gives ''; the result has no tab or newline and no surrounding whitespace |
| Tools.CleanKeeps | abvdget/tools.py:3-7 | text that is already clean comes back unchanged |
| Tools.CleanIdempotent | abvdget/tools.py:3-7 | cleaning twice is cleaning once |
| Tools.CleanDropsBreak | abvdget/tools.py:7 | a tab or newline anywhere in the text is dropped as if it were never there |
| Tools.CleanNoBreakSpace | abvdget/tools.py:7 | `strip()` also removes Unicode whitespace: a trailing no-break space is cleaned away |
| Tools.CutAt | abvdget/tools.py:11-12 | the part before the first separator holds no separator |
| Tools.Cut | abvdget/tools.py:11-13 | the cut name holds no '[', '/', '(' or ')'; its value is given by CutDeletesParens, CutAtSlash and SlugifyIgnoresBracketed |
| Tools.Depunct | abvdget/tools.py:16-19 | none of '-', ':', '?', '’', '\'', ',', '.' remains and no character is added |
| Tools.Finish | abvdget/tools.py:16-21 | after the character-by-character steps no space, punctuation from lines 16-19 or 'ß' remains |
| Tools.Tidy | abvdget/tools.py:16-21 | no space, punctuation from lines 16-19 or 'ß' remains |
| Tools.DepunctConcat | abvdget/tools.py:16-19 | deleting the punctuation distributes over concatenation |
| Tools.FinishConcat | abvdget/tools.py:16-21 | the character-by-character steps distribute over concatenation |
| Tools.TidyNoHyphen | abvdget/tools.py:16 | without a hyphen the " - " replacement changes nothing |
| Tools.TidyConcat | abvdget/tools.py:16-21 | on hyphen-free text the clean-up works piece by piece |
| Tools.TidyFullStop | abvdget/tools.py:19 | a full stop is deleted and each side is cleaned up on its own |
| Tools.TidySpace | abvdget/tools.py:20 | a space becomes '_' and each side is cleaned up on its own |
| Tools.TidySharpS | abvdget/tools.py:21 | 'ß' becomes 'V' and each side is cleaned up on its own |
| Tools.TidyDash | abvdget/tools.py:16 | the first " - " becomes a single '_' and each side is cleaned up on its own |
| Tools.TidyPlain | abvdget/tools.py:16-21 | text with nothing to delete or replace is unchanged |
| Tools.Slugify | abvdget/tools.py:10-22 | the slug holds no space, none of the removed punctuation and no 'ß'; its value is given by SlugifyPlain, SlugifyDashed, SlugifyParenthesised and the Tidy lemmas |
| Tools.SlugifyIgnoresBracketed | abvdget/tools.py:11 | everything from the first '[' on is ignored |
| Tools.CutAtSlash | abvdget/tools.py:11-12 | cutting a name followed by '/' and more gives the stripped name |
| Tools.CutAtPlain | abvdget/tools.py:11-12 | without '[' or '/', lines 11-12 only strip the name |
| Tools.CutDeletesParens | abvdget/tools.py:11-13 | without '[' or '/', the cut name is the stripped name with every '(' and ')' deleted |
| Tools.CutParenthesised | abvdget/tools.py:11-13 | "a (b)" is cut to "a b" when neither part holds '[', '/', '(' or ')' |
| Tools.SlugifyParenthesised | abvdget/tools.py:10-22 | the slug of "a (b)" is the clean-up of "a b" |
| Tools.SlugifyIgnoresAfterSlash | abvdget/tools.py:12 | everything from the first '/' on is ignored |
| Tools.SlugifyPlain | abvdget/tools.py:10-22 | a trimmed name with nothing to remove, which the folding leaves plain, is its own slug |
| Tools.SlugifyDashed | abvdget/tools.py:10-22 | two plain words joined by " - " have the words joined by '_' as their slug |
| Tools.SlugifyAklanon | test/test_tools.py:32 | "Aklanon - Bisayan" has the slug "Aklanon_Bisayan" |
| Tools.SlugifyBanggai | test/test_tools.py:25-26 | "Banggai (W.dialect)" has the slug "Banggai_Wdialect" |
| AbvdRecord.IsLoan | abvdget/ABVD.py:69-79 | not a loan exactly when Loan is None, False, 0 or '' |
| AbvdRecord.GetTaxon | abvdget/ABVD.py:81-85 | without an id the taxon is the language. A non-text language, or an id that is not an integer, raises. Otherwise the taxon is the slug of the language, '_' and the id's numeral, and has no spaces |
| AbvdRecord.TaxonGivesLid | abvdget/ABVD.py:81-85 | the field after the taxon's last '_' reads back as the language id |
| AbvdRecord.PyInt | abvdget/ABVD.py:263-265 | `int()`: an int or bool is itself, text converts iff it is an integer numeral, None and other objects raise |
| AbvdRecord.ToRecord | abvdget/ABVD.py:261-272 | succeeds iff every key is present and the three ids convert; the ids are the converted values and the other six fields are copied unchanged |
| AbvdRecord.ToRecordReadsDecimalIds | abvdget/ABVD.py:261-272 | ids stored as decimal text become those integers |
| AbvdDownloader.NewDownloaderAsWritten | abvdget/ABVD.py:93-98 | an unknown database raises with its name; a known one is kept, and the url is always the default |
| AbvdDownloader.UrlArgumentIgnored | abvdget/ABVD.py:98 | a url passed to the constructor is not the url the downloader keeps |
| AbvdDownloader.NewDownloader | abvdget/ABVD.py:93-98 | as the constructor, keeping the url it is given |
| AbvdDownloader.DefaultUrlAgrees | abvdget/ABVD.py:93-98 | with the default url the corrected and the written constructor agree |
| AbvdDownloader.IsValidLanguage | abvdget/ABVD.py:133-138 | a non-integer raises invalid, a dead id of the database raises dead, any other integer is returned |
| AbvdDownloader.DeadOnlyInAustronesian | abvdget/ABVD.py:32-40 | an integer id is refused exactly when the database is austronesian and the id is 261 or 874 |
| AbvdParser.HasKeysDependsOnKeysOnly | abvdget/ABVD.py:145-169 | a shape test looks only at which expected keys are present |
| AbvdParser.HasKeysMonotone | abvdget/ABVD.py:145-169 | adding keys never makes a record fail a shape test it passed |
| AbvdParser.Classify | abvdget/ABVD.py:192-203 | each kind holds iff its test holds and no earlier test does; unknown iff no test holds |
| AbvdParser.Parse | abvdget/ABVD.py:173-211 | the loop's result is the recursive record walk followed by the two checks |
| AbvdParser.WalkStopsAtError | abvdget/ABVD.py:192-203 | once the loop raises, later records change nothing |
| AbvdParser.Lexicons | abvdget/ABVD.py:196-199 | holds only lexicon records of either shape, and every one of them |
| AbvdParser.LastLocation | abvdget/ABVD.py:200-201 | a location record of the document; none iff the document has none |
| AbvdParser.WalkCollects | abvdget/ABVD.py:173-203 | the loop succeeds iff every record is known and at most one is a language; it then holds that language, the lexicon records in order and the last location |
| AbvdParser.ParseSucceeds | abvdget/ABVD.py:173-211 | parse succeeds iff every record is known, exactly one is a language and at least one is a lexicon record; the result then holds them |
| AbvdParser.WalkFault | abvdget/ABVD.py:192-203 | when the loop raises, it raises at the first unknown or second language record, with that record's error |
| AbvdParser.NoGlottocodeIsUnknown | abvdget/ABVD.py:145-150 | a record without glottocode, word_id or latitude is an unknown record type |
| AbvdParser.OldLanguageRecordsRefused | test/test_Parser.py:27-37 | a document whose language record lacks glottocode is refused at that record |
| AbvdDatabase.ToRecordsAll | abvdget/ABVD.py:242-243 | converting a file's entries succeeds iff every entry converts, and yields each entry's record in order |
| AbvdDatabase.ConvertedPrefix | abvdget/ABVD.py:240-243 | the records appended before a raise are the conversions of the leading entries, and the next entry fails |
| AbvdDatabase.ToRecordsFails | abvdget/ABVD.py:242-243 | a failed conversion fails at the first entry that does not convert, with its error |
| AbvdDatabase.ConvertedUnique | abvdget/ABVD.py:242-243 | any list built one converted entry at a time until an entry fails is that prefix |
| AbvdDatabase.StampInvisible | abvdget/ABVD.py:232 | the added "filename" key does not change any converted record |
| AbvdDatabase.Lexicon | abvdget/ABVD.py:238-244 | an error only when nothing is cached; an unloaded, uncached file raises not-loaded; an uncached success holds one record per lexicon entry |
| AbvdDatabase.CacheEntry | abvdget/ABVD.py:239-243 | for an uncached file, the conversions of the leading entries, or empty when the file, its language or its lexicon is missing |
| AbvdDatabase.CacheHoldsLexicon | abvdget/ABVD.py:238-244 | after a successful call the cache holds exactly what it yielded, so the next call yields the same |
| AbvdDatabase.FailureCachesPrefix | abvdget/ABVD.py:238-243 | after a failing call the cache holds a strict prefix of the file's records, and the next call yields that prefix without raising |
| AbvdDatabase.CountCognates | abvdget/ABVD.py:250-255 | at most the number of records; all of them iff no cognacy is None; zero iff every cognacy is None |
| AbvdDatabase.CountCognatesSingle | abvdget/ABVD.py:252-255 | one record counts 1 when its cognacy is not None, otherwise 0 |
| AbvdDatabase.CountCognatesConcat | abvdget/ABVD.py:252-255 | the count over `a + b` is the count over `a` plus the count over `b`; with the single-record case it is the number of records whose cognacy is not None |
| AbvdDatabase.Collect | abvdget/ABVD.py:274-279 | no failure iff every file's step succeeds; a failure is the error of one of the files' steps |
| AbvdDatabase.CollectAll | abvdget/ABVD.py:274-279 | when no file fails, every file's records appear in `records` in load order |
| AbvdDatabase.CollectStops | abvdget/ABVD.py:274-279 | once a file fails, later files change nothing |
| AbvdDatabase.LoadOrderNames | abvdget/ABVD.py:215-226 | the load order lists every input name exactly once, and these are the keys of the loaded files |
| AbvdDatabase.LoadedFilesLast | abvdget/ABVD.py:220-226 | a file holds the content of the last input of its name |
| AbvdDatabase.LoadOrderPrefix | abvdget/ABVD.py:220-226 | loading more files only appends to the order |
| AbvdDatabase.LoadOrderFirst | abvdget/ABVD.py:220-226 | a name takes its place in the order when it is first loaded |
| AbvdDatabase.ABVDatabase.constructor | abvdget/ABVD.py:215-222 | loading the inputs in turn: the files are `LoadedFiles(inputs)` (the last content of each name) in `LoadOrder(inputs)` (first-load order), their keys exactly the input names; cache, stamps and records start empty |
| AbvdDatabase.ABVDatabase.Load | abvdget/ABVD.py:224-226 | the file's content is replaced and no longer carries the added key; a new file joins the end of the load order; cache and records are unchanged |
| AbvdDatabase.ABVDatabase.GetDetails | abvdget/ABVD.py:228-233 | a missing file or language entry raises; otherwise the entry with "filename" added, which stays added |
| AbvdDatabase.ABVDatabase.GetLexicon | abvdget/ABVD.py:238-244 | yields the cached list, or the converted records or the first error; the new cache entry is what was converted before any raise |
| AbvdDatabase.ABVDatabase.ConvertEntries | abvdget/ABVD.py:242-243 | the loop appends entry conversions to the cache until one raises |
| AbvdDatabase.ABVDatabase.GetNLexemes | abvdget/ABVD.py:246-248 | the number of records `get_lexicon` yields, or its error, with its effect on the cache |
| AbvdDatabase.ABVDatabase.GetNCognates | abvdget/ABVD.py:250-255 | the number of yielded records with a cognacy, never more than the lexemes, or the error |
| AbvdDatabase.ABVDatabase.Process | abvdget/ABVD.py:274-279 | `records` is every file's records in load order up to the first failing file, which raises its error |
| AbvdDatabase.ABVDatabase.ProcessFile | abvdget/ABVD.py:276-278 | one file of `process`: its result, the file stamped as `get_details` does, the cache of every other file unchanged |
| AbvdExamples.PlainTaxon | abvdget/ABVD.py:81-85 | a plain name's taxon is the name, '_' and the id |
| AbvdExamples.EnglishTaxon | test/test_Record.py:27-31 | English with id 3 is "English_3", with no id "English" |
| AbvdExamples.ArosiTaxon | test/test_Record.py:33-35 | "Arosi (Oneibia Village)" with id 583 has the taxon "Arosi_Oneibia_Village_583" |
| AbvdExamples.LoanCases | test/test_Record.py:19-25 | '' and None are not loans; "L", "English" and True are |
| AbvdExamples.DownloaderCases | test/test_Downloader.py:14-36 | "uralic" is unknown; "A" and "Maori" are invalid; 261 is dead in austronesian only |

## Left out

- Downloading (`Downloader.get`, `make_url`, `write`, `get_to_file`) is left out: it uses the network, the file system and `%` formatting of the url.
- `lru_cache` on `get`, `get_nlexemes` and `get_ncognates` is left out. For the two counts it changes no result, because `_lexicon_by_file` already keeps what a call yielded.
- The XML parsing of `Parser.parse` (minidom, text nodes, the assertion against a repeated tag) is left out. A document is the sequence of its records, each a map from tag to text or None.
- Reading JSON files in `ABVDatabase.load` is left out. A file is given as its parsed `language` entry and `lexicon` list. Other keys, and JSON values that are not objects or lists where those are expected, are not modelled.
- `get_location`, `get_slug_for` and `save_details` (tab-separated output, float formatting of coordinates) are left out: they only write files.
- `get_lexicon` is a generator, and its body runs only when iterated. The model runs it to the end, as every caller in the core does.
- The mutation of a language entry by `get_details` is modelled by the set of file names whose entry carries the added key. Aliasing between that dictionary and the caller's copy is not modelled.
- NFKD normalisation and the dropping of combining characters in `slugify` are the parameter `fold`. No property of Unicode normalisation is modelled.
- `int()` is modelled on ASCII digits with an optional sign and the whitespace `str.strip()` removes. Underscores between digits and non-ASCII digits are not modelled, nor are floats anywhere.
- The command-line scripts and `abvd_download.py` are not part of this model.
- AbvdDatabase.ABVDatabase.Process: states the records gathered and the result, but not the cache entries and stamps it leaves behind.
- AbvdDatabase.ABVDatabase.ProcessFile: states the result, the new stamps and that other files' cache entries are unchanged, not the new cache entry for this file.
- AbvdDownloader.IsValidLanguage: requires the downloader's database to be a known one, which the constructor guarantees.

## Findings

| source | as written | input that shows it | evidently intended | confidence | as-written member | corrected member |
|---|---|---|---|---|---|---|
| abvdget/ABVD.py:98 | the constructor stores the module constant `URL`, ignoring its `url` argument | `Downloader('bantu', url='http://localhost/%(db)s/%(id)d')` keeps the default url | store the `url` argument | not executed | AbvdDownloader.NewDownloaderAsWritten, shown by AbvdDownloader.UrlArgumentIgnored | AbvdDownloader.NewDownloader |
