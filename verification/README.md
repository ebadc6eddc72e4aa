# drlog: a verified model of its text engine, its indexes and its ADIF records

drlog is a contest logging program. This project models the parts of it that must agree with
something simpler than themselves, and proves that they do, or exactly when they do.

**The text engine** (`text`, `splitting`, `words`, `delimited`, `numbers`, `grouping`, `csv`).
The splitters, tokenisers and delimiter scanners are methods with the loops of the source,
proved against recursive functions on positions; the round trips are lemmas about those
functions. Strings are sequences of characters, and a search that finds nothing is `None`.

**ADIF fields, records and files** (`adif_field`, `adif_values`, `adif_record`, `adif_order`). A
field prints itself with its own length in front; records and files are concatenations. Proved:
exactly which values each type of field accepts, with which error the others are refused, and in
what form they are stored; printed fields are a prefix code; what importing from any tag gives; a
record of printed fields, in any order, comes to the fields that the accepted ones make or to the
first error; a stored record is read back exactly when its values do not hide its end; files of
such records are read back in order; the comparison of stored dates and times as texts is
chronological.

**Indexes, caches and state machines** (`busts`, `valuemap`, `exchange`, `rate`, `procfs`,
`bandmap`, `posters`, `fuzzy`, `scp`, `multiplier`). Each class keeps the fields of the source
and updates them in place; each is proved against a plain set, map or formula, over every run
of its operations. `arithmetic` holds facts about products and quotients.

## Where the code does something else than its comments say

The model follows the code. Each of these is a lemma with the exact condition or a concrete input.

- `words` is said to be squashing on spaces followed by splitting on them. It is, exactly for
  text that is empty or does not begin with a space (`WordsIsSquashThenSplit`).
- `separated_string` puts a separator right after the sign of a negative number exactly when the
  number of digits is a multiple of three (`NegativeSeparated`).
- `delimited_substrings` on characters leaves the closing delimiter out in KEEP mode
  (`DelimitedSubstringsChar`).
- `from_csv` never gets past a character outside quotation marks that is neither a quotation
  mark nor a comma, such as an unquoted digit, a space after a quoted field or a carriage return
  at the end of a line. It ends exactly for the other lines (`ReadsToEnd`, `NeverRead`). Of lines
  of quoted and empty fields it reads back exactly those whose first field is quoted; an empty
  first one is lost (`CellsRoundTrip`).
- `MAP_VALUE_PAIR` computes an index limited to the valid range and does not use it. An index
  below the lower extremum wraps round and selects the last value, not the first; or its product
  is too large for size_t, whose conversion is undefined, which happens for some index exactly
  when there are more values than steps between the extrema (`LimitedIndexAgrees`,
  `SelectedOutside`, `AlwaysFits`, `SelectionUndefined`).
- Overwriting the last index of a `value_map` shows at every index beyond it (`OverwriteRun`).
- `rate_meter::qsos(t)` reads the entry at or after t and `qsos_and_score(t)` the one at or
  before it: they agree exactly when t has an entry (`QsosAgrees`).
- `calculate_rate` multiplies in 32 bits: it is the rate of the window exactly when the product
  fits (`RateCountsWindow`).
- `n_posters_database` counts a poster once for every minute, so its number of posters is that
  of the different posters exactly when none posted the call twice (`CountsPostersOncePerMinute`).
- `is_value_needed` answers that a value is not in the set of needed values (`IsValueNeeded`).
- `scp_database` does not clear its cache when a call is added or removed, so a longer key after
  a shorter one can be answered from old calls (`AnswerRight`, `AddedCallMissed`).
- `scp_database::remove_call` reports only its last erasure, so it says false for a removed call
  whose last pair of characters occurs earlier in it; `scp_databases::remove_call` then goes on
  to the next database. It also runs through the databases first to last, not in reverse
  priority as its comment says (`ScpDatabase.RemoveCall`, `ScpDatabases.RemoveCall`).
- `multiplier::remove_worked` erases a value from the total over all bands and modes although
  it is still worked on another mode and band (`RemoveKeepsConsistent`, `RemoveLosesTotal`).
- `multiplier::n_worked` counts a value with an asterisk, which is no multiplier, once no such
  value is known any more: known, worked and removed from the known ones, it counts
  (`CountOverRuns`, `ForgottenCounted`).
- `adif3_record::value(name, value)` is said to set the value; a field that is already there
  keeps its old one (`SetValue`).
- `adif3_record::import_and_eat` looks for the end of a record by pairing `<` with the next `>`,
  ignoring lengths. A value with a stray `<` can swallow the end of its record, and a tag of
  five characters that is not the end of a record is looked at for ever (`EorFound`,
  `RecordLost`, `HidingValues`).
- `adif3_file` drops a last record that no character follows (`UnterminatedRecordLost`).
- A number of an ADIF field is to have digits, but a lone sign, a lone point and the two together
  are accepted, and nothing else without digits (`NumberWithoutDigits`).
- A positive integer of an ADIF field is to be greater than zero, but zero and the empty text are
  accepted exactly when no range for the field keeps zero out (`ZeroAccepted`).

## Model

| member | source | states |
|---|---|---|
| `Splitting.SplitString` | include/string_functions.h:843-873 | the two loops of the character splitter, for every text |
| `Splitting.JoinOfSplit` | include/string_functions.h:843-873 | joining the pieces of any text gives it back, and no piece holds the separator |
| `Splitting.SplitOfJoin` | include/string_functions.h:1182-1195 | splitting the join of separator-free pieces gives them back, for every list but the one empty piece |
| `Splitting.SplitUnique` | include/string_functions.h:843-873 | no other cutting of the text into separator-free pieces exists |
| `Splitting.Join` | include/string_functions.h:1182-1195 | the joining loop puts the separator between elements, and nowhere else |
| `Splitting.SplitStringOn` | include/string_functions.h:816-834 | the string splitter ends, for every non-empty separator, and cuts at leftmost non-overlapping occurrences |
| `Splitting.JoinOfSplitOn` | include/string_functions.h:816-834 | its pieces hold no separator, and joined they are the text, less one separator at its very end |
| `Splitting.SplitOnAgreesWithSplit` | include/string_functions.h:816-834 | for a one-character separator it is the character splitter with its empty last piece dropped exactly when the text ends in the separator |
| `Splitting.SplitStringIntoRecords` | include/string_functions.h:881-907 | the record loop, in both modes |
| `Splitting.RecordsRefineSplit` | include/string_functions.h:881-907 | records are the pieces but the last, with or without their marker; kept records and the marker-free rest are the whole text |
| `Words.ListWords` | include/string_functions.h:777-809 | the words are the non-empty pieces of the split, then one empty element exactly when a word is followed by a space at the end of the text; the loop ends on every text |
| `Words.WordsIsSquashThenSplit` | include/string_functions.h:771-777 | the documented equivalence with squashing and splitting holds exactly for text that is empty or starts with no space |
| `Words.StartsOfWords` | src/string_functions.cpp:573-601 | the positions found are where the words begin, each followed only by spaces up to the next |
| `Words.NthWord` | src/string_functions.cpp:635-653 | word number n, counted from wrt, or nothing when there is none |
| `Words.RemoveTrailing` | include/string_functions.h:660-668 | the longest beginning of the text that does not end in the character |
| `Delimited.DelimitedSubstrings` | include/string_functions.h:1100-1128 | the scanner on strings, with its local and global offsets, in both modes; it ends when one delimiter is not empty |
| `Delimited.DelimitedSubstringsChar` | include/string_functions.h:1137-1165 | the scanner on characters agrees with it, except that KEEP leaves the closing delimiter out |
| `Delimited.ScanIsTheDecomposition` | include/string_functions.h:1100-1128 | the pieces are those of the one and only decomposition of the text into fillers, delimited pieces and a tail in which nothing more is delimited |
| `Delimited.CharScan` | include/string_functions.h:1137-1165 | for characters: the parts give the text back, no filler has the opening one, no piece the closing one, and in the tail no opening one is followed by a closing one |
| `Delimited.ScanOfDelimited` | include/string_functions.h:1535-1536 | scanning a concatenation of delimited strings gives them back exactly when none of them closes early |
| `Delimited.ScanOfDelimitedChar` | include/string_functions.h:1544-1545 | with character delimiters, exactly when no string holds the closing one |
| `Numbers.ValueOfDecimal` | include/string_functions.h:230-239 | a printed number denotes that number, without leading zeros |
| `Numbers.ToIntReads` | include/string_functions.h:174-181 | the number read is that of the digits after a sign or none, up to what is no digit; zero without digits or when it does not fit in 32 bits |
| `Numbers.ToIntOfDecimal` | include/string_functions.h:174-181 | reading a printed number back as an int gives it exactly when it fits |
| `Numbers.ToIntOfToString` | include/string_functions.h:174-181 | the same of a number of either sign, printed with a sign exactly when it is below zero |
| `Grouping.SeparatedString` | include/string_functions.h:1297-1314 | the grouping loops put the separator before every third digit from the right |
| `Grouping.SeparatedIsBaseThousand` | include/string_functions.h:1297-1314 | split on the separator, the k-th group from the right is digit k in base 1000; all groups but the first have three digits |
| `Grouping.SeparatedRoundTrip` | src/string_functions.cpp:422-428 | deleting the separators gives the printed number back, sign included |
| `Grouping.NegativeSeparated` | include/string_functions.h:1297-1314 | a negative number is its sign and its grouped absolute value exactly when its digits are not a multiple of three |
| `Csv.FromCsv` | src/string_functions.cpp:41-103 | the reader's loop, over its position, partial value and inside-quotes flag, with never ending as an outcome |
| `Csv.ReadsToEnd` | src/string_functions.cpp:80-99 | the reader ends exactly when outside quotation marks, that is after an even number of them, the line has nothing but commas |
| `Csv.NeverRead` | src/string_functions.cpp:80-99 | three ordinary lines that it never finishes |
| `Csv.CellsRead` | src/string_functions.cpp:41-103 | a line of quoted and empty fields is read as their values, less an empty first one |
| `Csv.CellsRoundTrip` | src/string_functions.cpp:41-103 | so all are read back exactly when the first is quoted |
| `Csv.DuplicateChar` | src/string_functions.cpp:157-174 | the loop doubles every occurrence of the character |
| `Csv.CsvRoundTrip` | src/string_functions.cpp:41-103 | quoted fields with their quotes doubled, joined by commas, are read back, whatever they contain |
| `Busts.IsBustCall` | src/string_functions.cpp:971-1018 | the loops decide whether two calls are one substitution, omission, insertion or inversion apart |
| `Busts.EditsPlaceByPlace` | src/string_functions.cpp:971-1018 | place by place, an omission shifts what follows it and an inversion swaps two neighbours |
| `Busts.OneEditSymmetric` | src/string_functions.cpp:971-1018 | being a bust is symmetric and irreflexive |
| `Busts.PairIndexIdentifies` | include/autocorrect.h:217-218 | for calls without a plus sign two indices are equal exactly when the unordered pairs are |
| `Busts.PairIndexAmbiguous` | include/autocorrect.h:217-218 | two different pairs of calls with plus signs that share an index |
| `Busts.BustsDatabase.KnownBust` | include/autocorrect.h:238-239 | adds the index to the known busts and leaves the rest |
| `Busts.BustsDatabase.KnownNonBust` | include/autocorrect.h:242-243 | adds the index to the known non-busts and leaves the rest |
| `Busts.BustsDatabase.IsHit` | src/autocorrect.cpp:299-316 | looking the pair up first answers what the bust test would, and the pair is cached on the right side |
| `Busts.SamePairSameAnswer` | src/autocorrect.cpp:299-316 | any two calls that share an index have the same answer |
| `Busts.IndicesAreUnorderedPairs` | include/autocorrect.h:220-243 | over every run of insertions an index is present exactly when its unordered pair was inserted |
| `Busts.BustMap` | include/string_functions.h:1654-1670 | the half-matrix of pairs yields the whole relation: b for a exactly when they are elements at different places and a bust of each other |
| `ValueMap.ElementMonotone` | include/macros.h:1824-1831 | the element number never falls as the index rises |
| `ValueMap.ElementAtEnds` | include/macros.h:1824-1831 | it is the first at one end, the last from the other end on |
| `ValueMap.Blocks` | include/macros.h:1824-1831 | below the range each element is selected by exactly one interval of indices |
| `ValueMap.BlockSize` | include/macros.h:1824-1831 | each interval has floor or ceiling of range over number of elements indices |
| `ValueMap.BlockEnds` | include/macros.h:1824-1831 | the intervals fill the range from 0 to its end |
| `ValueMap.AllHit` | include/macros.h:1824-1831 | every element is selected exactly when the range has at least as many indices as elements |
| `ValueMap.ExtremaCommute` | include/macros.h:1856-1874 | the extrema may be given in either order, and the value is that of the single form |
| `ValueMap.SelectedOutside` | include/macros.h:1856-1874 | the first value at the lower extremum; from the upper extremum on and, by wrap-around, below the lower one the last value, exactly where the product fits in size_t, and nothing defined otherwise |
| `ValueMap.AlwaysFits` | include/macros.h:1826-1831 | the selection is defined for every index exactly when there are no more values than steps between the extrema |
| `ValueMap.FitsBetween` | include/macros.h:1826-1831 | between the extrema it always is |
| `ValueMap.SelectionUndefined` | include/macros.h:1826-1831 | an index for which it is not |
| `ValueMap.LimitedIndexAgrees` | include/macros.h:1863-1869 | using the limited index would change nothing exactly for a single value, or for an index not below the lower extremum whose selection is defined |
| `ValueMap.SelectedBetween` | include/macros.h:1824-1831 | between the extrema a value is selected by exactly the indices of its block, counted from the lower extremum |
| `ValueMap.SelectedMonotone` | include/macros.h:1818-1834 | from the lower extremum on, where a larger index selects a value a smaller one does, and no later one |
| `ValueMap.ValueTable.constructor` | include/macros.h:1902-1925 | the loop fills the table with the selected value of every index in the range |
| `ValueMap.ValueTable.Lookup` | include/macros.h:1943-1951 | reads the table, its last entry beyond the range |
| `ValueMap.ValueTable.Overwrite` | include/macros.h:1969-1972 | changes the one entry in range and nothing otherwise |
| `ValueMap.TableIsMapValue` | include/macros.h:1902-1951 | the precomputed table answers what the formula does, up to the end of the range, and beyond it exactly where the formula is defined |
| `ValueMap.OverwriteRun` | include/macros.h:1969-1972 | after any run of overwrites an index, cut down to the end of the range, answers the last value written there, and otherwise what the formula gives there |
| `Exchange.InvertMapping` | include/macros.h:1688-1697 | the nested loops with their non-overwriting insertion send each value to the least key whose set holds it |
| `Exchange.InverseUnique` | include/macros.h:1688-1697 | that describes exactly one map |
| `Exchange.RegroupingRestores` | include/macros.h:1688-1697 | regrouping the inverse restores every entry exactly when the sets are disjoint |
| `Exchange.ExchangeFieldValues.AddCanonicalValue` | src/rules.cpp:91-97 | a new canonical value is its own first legal value; a known one is left alone |
| `Exchange.ExchangeFieldValues.AddValue` | src/rules.cpp:105-111 | adds the value, and the canonical value if it is new |
| `Exchange.ExchangeFieldValues.NValues` | include/rules.h:179-180 | the number of values that are legal for the canonical value |
| `Exchange.ExchangeFieldValues.CanonicalValues` | src/rules.cpp:118-125 | the loop collects exactly the keys |
| `Exchange.ExchangeFieldValues.AllValues` | include/rules.h:207-215 | the loop collects exactly the values of all the sets |
| `Exchange.ExchangeFieldValues.IsLegalValue` | include/rules.h:235-236 | legal exactly when legal for some canonical value |
| `Exchange.LegalityAgrees` | include/rules.h:207-244 | being legal, being among all values and being in the inverse coincide |
| `Exchange.AddsRun` | src/rules.cpp:91-111 | after any run of additions a value is legal exactly when it was added, or is a canonical value added to |
| `Rate.RateMeter.Insert` | include/rate.h:85-88 | inserts with the next count unless the epoch is known |
| `Rate.KeysOverRuns` | include/rate.h:85-96 | after any run the epochs are those inserted |
| `Rate.CountsOverRuns` | include/rate.h:85-96 | in any order of insertions the counts are a permutation of 1 to the number of entries, and a repeated epoch changes nothing |
| `Rate.EntryOverRuns` | include/rate.h:85-88 | in any order of insertions an entry keeps the points first inserted with its epoch, and as its count the number of different epochs by then |
| `Rate.AnswersOverRuns` | src/rate.cpp:61-79 | asked about a time in the past, the answer is the points and the count of the last epoch up to it, or zeros before all epochs |
| `Rate.CurrentOverRuns` | src/rate.cpp:24-29 | asked about now or later, those of the last epoch of all |
| `Rate.RankedOverRuns` | include/rate.h:85-96 | inserted in order of time, each count is the number of entries up to its epoch |
| `Rate.CountsRise` | include/rate.h:111-114 | so counts rise with time and the current count is the size |
| `Rate.ScoreCounts` | src/rate.cpp:61-79 | the past count is the number of entries up to that time |
| `Rate.QsosAgrees` | src/rate.cpp:33-43 | the two ways to ask for a past count agree exactly when the time has an entry |
| `Rate.QsosIsNext` | src/rate.cpp:33-43 | the query by lower bound answers with the count of the first epoch that is not earlier, and reads past the map exactly when there are only earlier ones; zero without epochs, the present count for now |
| `Rate.RateMeter.CurrentQsos` | include/rate.h:111-114 | the count of the last epoch, zero when there is none |
| `Rate.RateMeter.CurrentScore` | include/rate.h:117-120 | the points of the last epoch, zero when there is none |
| `Rate.RateIsDifference` | src/rate.cpp:91-107 | both figures of a rate are differences of answers, modulo 2^32 and scaled; right exactly when the difference is not negative and the product fits in 32 bits |
| `Rate.PointsOverRuns` | src/rate.cpp:91-107 | over runs the points of a rate are those by the last epoch less those by the start of the window |
| `Rate.WindowDifference` | src/rate.cpp:91-107 | the difference of two counts is the number of entries in the window |
| `Rate.RateCountsWindow` | src/rate.cpp:91-107 | the normalised rate is the window's count scaled, exactly when the product fits in 32 bits |
| `Procfs.ProcStat.StatVec` | src/procfs.cpp:21-30 | reads only when more than the interval has passed since the last read |
| `Procfs.ReadsAreApart` | src/procfs.cpp:21-30 | over any run consecutive reads are more than the interval apart, and the cache is that of the last one |
| `Procfs.ReadsTakeTime` | src/procfs.cpp:21-30 | k more reads take at least k times the interval and a tick |
| `Procfs.AnswersAreFresh` | src/procfs.cpp:21-30 | every answer comes from a read at most the interval old |
| `Procfs.FirstCallReads` | src/procfs.cpp:21-30 | a first call later than the interval reads |
| `Procfs.ReadsAreFew` | src/procfs.cpp:21-30 | a run that spans a time D makes at most 1 + D / (interval + 1) reads |
| `Bandmap.NeededMultDetails.Add` | include/bandmap.h:166-169 | adds the value; something is needed |
| `Bandmap.NeededMultDetails.IsValueNeeded` | include/bandmap.h:193-194 | true for a value outside a non-empty set of needed values |
| `Bandmap.NeededMultDetails.Remove` | include/bandmap.h:202-212 | removes the value, and says so; nothing is needed once the set is empty |
| `Bandmap.NeededMultDetails.Clear` | include/bandmap.h:231-235 | empties the set and forgets that the status is known |
| `Bandmap.NeededOverRuns` | include/bandmap.h:142-235 | over every run the flag is that the set is not empty, and the set is the additions not removed or cleared since |
| `Bandmap.BandmapEntry.IsNeededMult` | include/bandmap.h:540-541 | needed exactly when one of the three sets is not empty |
| `Bandmap.BandmapEntry.TimeOfEarlierBandmapEntry` | include/bandmap.h:655-656 | takes over the time of the replaced entry, or of its own predecessor |
| `Bandmap.BandmapEntry.TimeSinceThisOrEarlierInserted` | include/bandmap.h:577-578 | the age is measured from the predecessor when there is one |
| `Bandmap.ChainAge` | include/bandmap.h:577-578 | through any chain of replacements the age is measured from the first entry whose time is not zero |
| `Bandmap.NothingBefore` | include/bandmap.h:655-656 | up to that entry there is no predecessor |
| `Posters.NPostersDatabase.TestCall` | src/bandmap.cpp:124-152 | the early-exit count answers whether the call has enough posters in all minutes together |
| `Posters.NPostersDatabase.Add` | src/bandmap.cpp:97-109 | the post is recorded, and the known good calls stay exactly those with enough posters |
| `Posters.NPostersDatabase.Prune` | src/bandmap.cpp:155-186 | exactly the posts older than the width go, and the known good calls are rebuilt right |
| `Posters.PostAdds` | src/bandmap.cpp:97-109 | a post never lowers a count and changes only its own call's |
| `Posters.OneMoreTime` | src/bandmap.cpp:132-149 | the count over the minutes is the sum of the counts of each |
| `Posters.CountsPostersOncePerMinute` | src/bandmap.cpp:132-149 | the count is that of the different posters exactly when none posted the call in two minutes, and never less |
| `Fuzzy.CallsignChars` | include/string_functions.h:51 | the characters of calls are exactly the digits, the capital letters and the stroke |
| `Fuzzy.FuzzyDatabase.Add` | include/fuzzy.h:86-87 | in the bucket of its clamped length, the plain set gains the call |
| `Fuzzy.FuzzyDatabase.InitFromCalls` | include/fuzzy.h:78-79 | the plain set gains all the calls |
| `Fuzzy.FuzzyDatabase.RemoveCall` | include/fuzzy.h:95-97 | the plain set loses the call; true exactly when it was there |
| `Fuzzy.FuzzyDatabase.Contains` | include/fuzzy.h:103-104 | membership in the plain set |
| `Fuzzy.FuzzyDatabase.Clear` | include/fuzzy.h:113-114 | the plain set is empty |
| `Fuzzy.FuzzyDatabase.Matches` | src/fuzzy.cpp:39-58 | for keys of three or more characters, each a digit, a capital letter or a stroke, the patterns made in one bucket find exactly the calls of the whole database one character away; for others nothing |
| `Fuzzy.OneAwayMatches` | src/fuzzy.cpp:51-55 | matching some pattern and not being the key is differing in exactly one character; such calls share a bucket |
| `Fuzzy.OneAwayMeans` | src/fuzzy.cpp:51-55 | being one away is having the same length and all characters but one, which is no line end in the call |
| `Fuzzy.MatchIsBust` | src/fuzzy.cpp:39-58 | every fuzzy match is a possible bust of the key |
| `Fuzzy.FuzzyDatabases.RemoveCall` | src/fuzzy.cpp:68-75 | the call goes from the last database that holds it and from no other |
| `Fuzzy.FuzzyDatabases.Matches` | src/fuzzy.cpp:83-92 | the matches of the union |
| `Scp.ScpDatabase.Add` | src/scp.cpp:31-35 | the index by pairs of characters stays that of the plain set with the call; shorter calls are not kept |
| `Scp.ScpDatabase.RemoveCall` | src/scp.cpp:41-54 | the index loses the call; true exactly when it was there and its last pair occurs nowhere earlier in it |
| `Scp.ScpDatabase.IsIn` | include/scp.h:96-97 | testing the first pair alone decides membership |
| `Scp.ScpDatabase.Lookup` | src/scp.cpp:69-109 | short, cached and indexed lookups answer, and cache, what they would on the plain set: a step of the runs below, as every operation is |
| `Scp.ScpDatabase.Clear` | src/scp.cpp:112-124 | empties the set, its own cache and those of its parents |
| `Scp.ScpDatabases.AddDb` | src/scp.cpp:129-132 | the database is consulted from now on, and becomes a child; the cache stays |
| `Scp.ScpDatabases.ClearCache` | src/scp.cpp:186-190 | clears the cache, those of the databases and those of all their parents |
| `Scp.NarrowMatches` | src/scp.cpp:83-94 | filtering the matches of a contained key gives the matches of the key |
| `Scp.CacheOverRuns` | src/scp.cpp:69-109 | over every run the cache holds the matches of its key among the calls present when it was last filled |
| `Scp.AnswerRight` | src/scp.cpp:69-109 | a lookup is right exactly when it is no hit or no call that contains the key has come or gone on balance |
| `Scp.UndisturbedAnswerRight` | src/scp.cpp:69-109 | so it is right while no call containing the key is added or removed after the cache was filled |
| `Scp.AddedCallMissed` | src/scp.cpp:31-35 | a run in which an added call is not found |
| `Scp.ScpDatabases.Lookup` | src/scp.cpp:135-183 | several databases answer as one with the union of their calls, through a cache of the same kind |
| `Scp.UnionOverRuns` | src/scp.cpp:129-196 | over every run of changes to the databases, lookups and clearings, they and their cache are in the state of one database that becomes their union |
| `Scp.UnionAnswerRight` | src/scp.cpp:129-196 | so a lookup is right exactly when it is no hit or no call that contains the key has come to or gone from the union on balance |
| `Scp.ScpDatabases.RemoveCall` | include/scp.h:147-148 | the call goes from each database up to the first that reports its removal: all of them when its last pair repeats |
| `Multiplier.NamesCounted` | include/bands-modes.h:52-66 | the grid has a column for every band and a row for every mode |
| `Multiplier.AddKeepsConsistent` | src/multiplier.cpp:81-104 | adding keeps every total, per mode, per band and over all, equal to what its cells hold |
| `Multiplier.RemoveKeepsLines` | src/multiplier.cpp:127-160 | removing keeps the totals per mode and per band right |
| `Multiplier.RemoveKeepsConsistent` | src/multiplier.cpp:127-160 | it keeps the total over all right exactly when the value is left on the same mode, on the same band or nowhere |
| `Multiplier.RemoveAbsent` | src/multiplier.cpp:120-127 | removing what is not worked there does nothing, as documented, under the same condition only |
| `Multiplier.RemoveLosesTotal` | src/multiplier.cpp:154-158 | a run of two additions and a removal after which a worked value is missing from the total |
| `Multiplier.CellsOverRuns` | src/multiplier.cpp:81-160 | over every run the cells are those of a plain set and the totals per mode and band are right |
| `Multiplier.ConsistentOverRuns` | src/multiplier.cpp:81-160 | runs whose removals meet the condition keep every total right |
| `Multiplier.ConsultedMeans` | src/multiplier.cpp:168-178 | with right totals the one cell looked at says whether the value is worked on this band, if bands count, and mode, if modes count |
| `Multiplier.SizeCountsMults` | src/multiplier.cpp:185-200 | the size of a cell counts its multipliers exactly when it holds no value with an asterisk |
| `Multiplier.MultiplierRecord.AddKnown` | src/multiplier.cpp:34-46 | the known values, and the flag that all are multipliers, after an addition |
| `Multiplier.MultiplierRecord.RemoveKnown` | src/multiplier.cpp:53-60 | the same after a removal |
| `Multiplier.MultiplierRecord.AddWorked` | src/multiplier.cpp:81-104 | the cells of the value after it is worked; no other value changes |
| `Multiplier.MultiplierRecord.UnconditionalAddWorked` | src/multiplier.cpp:114-118 | makes the value known and works it |
| `Multiplier.MultiplierRecord.RemoveWorked` | src/multiplier.cpp:127-160 | the cells of the value after its removal, with the two searches over bands and modes; no other value changes |
| `Multiplier.MultiplierRecord.IsWorked` | src/multiplier.cpp:168-178 | looks at the one cell, if the multiplier is used |
| `Multiplier.MultiplierRecord.NWorked` | src/multiplier.cpp:185-200 | the number of multipliers in the cell, exactly when it holds nothing else or some value with an asterisk is known; otherwise the other values count too |
| `Multiplier.CountOverRuns` | src/multiplier.cpp:34-104 | after any run of additions, removals and workings the count is that of the multipliers exactly when a value with an asterisk is still known or none was worked there while known |
| `Multiplier.CountWhileKept` | src/multiplier.cpp:53-60 | so it always is while no known value with an asterisk is removed |
| `Multiplier.ForgottenCounted` | src/multiplier.cpp:53-60 | a run of three operations after which it is not |
| `AdifField.NormalIsStable` | src/adif3.cpp:28-238 | the standard form of a legal value is legal and its own standard form, for every type of field |
| `AdifField.MadeIsLegal` | src/adif3.cpp:247-260 | a constructed field, constructed again from its own name and value, is the same field |
| `AdifField.ImportedIsLegal` | src/adif3.cpp:271-318 | so is a field that was imported from any text |
| `AdifField.PrefixCode` | include/adif3.h:154-155 | two printed fields that begin the same text have the same name and value and leave the same rest |
| `AdifField.UniqueDecoding` | include/adif3.h:154-155 | so two concatenations of printed fields are the same text exactly when they are of the same names and values |
| `AdifField.ImportTag` | src/adif3.cpp:271-318 | importing at a tag of two or three parts, into a field with a name or none: the field that its name and the stated number of characters make, the error of making it, or nothing when not accepted or named otherwise; whatever number the length part holds |
| `AdifField.ImportField` | src/adif3.cpp:271-318 | for a name in any case, a length in digits and perhaps a type: the field that name and value make, or its error, and the position just after the value |
| `AdifField.ImportOtherTag` | src/adif3.cpp:288-291 | a tag of any other number of parts gives no position and no field |
| `AdifField.ImportNoTag` | src/adif3.cpp:272-284 | neither does a text without a tag; the tag that ends the record is stepped over |
| `AdifField.ImportPrinted` | src/adif3.cpp:271-318 | importing any printed field makes it again, or throws the error of making it |
| `AdifField.ImportOfPrinted` | src/adif3.cpp:271-318 | so a stored field, printed anywhere in a text, is given back, whatever characters its value has, and the reader stops just after the value; a field not accepted is passed over |
| `AdifValues.CaseByAlphabet` | src/adif3.cpp:28-67 | upper and lower case exchange the 26 letters and nothing else |
| `AdifValues.DateVerdict` | src/adif3.cpp:76-109 | a date is accepted exactly when it is the eight digits of a day of the calendar from 1930 on, every fourth year being a leap year; otherwise this error |
| `AdifValues.TimeVerdict` | src/adif3.cpp:212-231 | a time is accepted exactly when it is the four or six digits of a time of day |
| `AdifValues.GridVerdict` | src/adif3.cpp:144-172 | a grid square is accepted exactly when it is two to eight characters, by pairs letters A to R, digits, letters A to X and digits, in either case |
| `AdifValues.NumberVerdict` | src/adif3.cpp:174-189 | a number is accepted exactly when it is not empty and perhaps a minus sign, then digits with at most one point |
| `AdifValues.NumberWithoutDigits` | src/adif3.cpp:174-189 | the accepted numbers without a digit |
| `AdifValues.ZeroAccepted` | src/adif3.cpp:191-203 | the accepted positive integers that are not positive |
| `AdifValues.MakeMeans` | src/adif3.cpp:247-260 | a field is made exactly when its name is known and its value acceptable for its type, and then holds the value in the form stated for that type; otherwise exactly this error |
| `AdifValues.LegalMeans` | src/adif3.cpp:28-238 | the fields that construction leaves are exactly those with an upper-case known name and an acceptable value in its stored form |
| `AdifRecord.InsertKeepsOrder` | src/adif3.cpp:400-401 | inserting a new name keeps the map ordered and adds just that field |
| `AdifRecord.FindEor` | src/adif3.cpp:363-388 | the two loops that look for the end of the record, for every text |
| `AdifRecord.EorFound` | src/adif3.cpp:363-388 | in the text of a printed record they find its end exactly when no value has a five-character tag and the last leaves none open |
| `AdifRecord.HiddenEnd` | src/adif3.cpp:363-388 | the first value with a five-character tag decides: the tag is taken for the end of the record, or looked at for ever |
| `AdifRecord.AdifRecord.ImportAndEat` | src/adif3.cpp:346-406 | the loop over the fields up to the end of the record: the fields, the position after it, or what went wrong |
| `AdifRecord.AdifRecord.ToString` | src/adif3.cpp:414-425 | the printing loop, in the order of names, without import-only fields |
| `AdifRecord.AdifRecord.Value` | include/adif3.h:222-223 | the value of the field, empty when there is none |
| `AdifRecord.AdifRecord.SetValue` | src/adif3.cpp:435-440 | adds a new field; a field that is there is not changed |
| `AdifRecord.FieldsRead` | src/adif3.cpp:393-403 | importing up to the end of a printed record, of fields in any order, adds the accepted ones one by one, or fails as adding them does |
| `AdifRecord.CollectMeans` | src/adif3.cpp:396-402 | fields are added exactly when each can be made and its name is new; or else the first that is not gives the error |
| `AdifRecord.RecordOutcome` | src/adif3.cpp:346-406 | so importing a printed record, with any values that do not hide its end, comes to the fields that the accepted ones make, in order of names, or to the first error, an illegal value's or that of a duplicate name |
| `AdifRecord.LegalRecordOutcome` | src/adif3.cpp:396-402 | for legal fields: it is imported exactly when the accepted names are pairwise different, and otherwise fails with the error of a duplicate |
| `AdifRecord.OtherTagEndsRecord` | src/adif3.cpp:393-405 | a tag without two or three parts ends the import of its record, which keeps the fields before it |
| `AdifRecord.NoRecord` | src/adif3.cpp:346-375 | a text without one of the angle brackets adds nothing |
| `AdifRecord.FieldsReadBack` | src/adif3.cpp:393-403 | importing up to the end of a printed record of stored fields adds the accepted ones, as they are and in order |
| `AdifRecord.RecordRoundTrip` | src/adif3.cpp:346-425 | a printed record, followed by anything, is imported as its exported and accepted fields, up to its last newline, exactly when its values do not hide its end |
| `AdifRecord.PlainIsScannable` | src/adif3.cpp:363-388 | values without a left angle bracket never do |
| `AdifRecord.OpenValueHidesEnd` | src/adif3.cpp:363-388 | a last value that leaves a tag open sends the search past the end of its record |
| `AdifRecord.RecordLost` | src/adif3.cpp:346-406 | with nothing after it such a record is lost whole |
| `AdifRecord.RecordNeverEnds` | src/adif3.cpp:363-388 | a value with a five-character tag that is no end of a record keeps the import from ending |
| `AdifRecord.HidingValues` | src/adif3.cpp:363-388 | concrete values that leave a tag open, have a five-character tag, or are harmless |
| `AdifRecord.ReadFile` | src/adif3.cpp:470-485 | the loop over the records of a file, from the end of its header |
| `AdifRecord.FileReadBack` | src/adif3.cpp:470-485 | every printed record is read, in order and each up to its own end, exactly when no values hide an end; the records are then those printed |
| `AdifRecord.FileRoundTrip` | src/adif3.cpp:545-549 | the same of a whole file with a header, whose end may be in any case of letters |
| `AdifRecord.HeaderlessRoundTrip` | src/adif3.cpp:470-485 | the same of the records alone, when they do not look like the end of a header |
| `AdifRecord.FileOutcome` | src/adif3.cpp:470-485 | reading printed records of any fields gives what each comes to, without the empty ones, exactly when all can be imported; or else stops with the first error |
| `AdifRecord.UnterminatedRecordLost` | src/adif3.cpp:478-483 | a last record that no character follows is imported right and then dropped |
| `AdifOrder.FastStringToInt` | src/adif3.cpp:328-337 | the loop gives the value of a string of digits |
| `AdifOrder.StoredDateAndTime` | src/adif3.cpp:28-112 | a stored date is a day of the calendar, and a stored time a time of day with its seconds |
| `Numbers.LessIsNumeric` | src/adif3.cpp:447-456 | digit strings of one length compare as their values do |
| `AdifOrder.EarlierIsAnOrder` | src/adif3.cpp:447-456 | the comparison of records by date and time is a strict total order on those two texts, fit for sorting |
| `AdifOrder.EarlierIsChronological` | src/adif3.cpp:447-456 | on stored dates and times it is the order of the numbers, a missing one coming first |
| `AdifOrder.EarlierIsBefore` | src/adif3.cpp:447-456 | and for days of the calendar and times of day it is the order of moments, from year to second |

## Left out

- Threads, locks, files, sockets, the clock and the screen: one thread is modelled, and the time, the text of `/proc`, the contents of a file and the minute of a post are parameters.
- Floating point: `MAP_VALUE`, `MAP_VALUE_PAIR` and `value_map` compute a float ratio, which is read as an exact rational. Rounding can also take a product at the very edge of size_t over it.
- Sizes and counts of type size_t or int are unbounded, except where the wrap-around shows: the index below the lower extremum of `MAP_VALUE`, the 32-bit product of `calculate_rate`, and reading an int.
- Busts.BustMap: `is_bust`, which it calls, is not part of this model; any symmetric predicate stands for it.
- Busts.BustsDatabase.IsHit: for calls without a plus sign only, as `PairIndexAmbiguous` shows that other pairs can share an index.
- The single `delimited_substring`, `remove_char_from_delimited_substrings` and the regular-expression, date and time helpers.
- Fuzzy.FuzzyDatabase.Matches: the regular expression is the key with a dot in it, and the dot stands for any character but an end of line.
- Fuzzy.FuzzyDatabases.Add: each database is added once; adding one twice would only repeat its answers.
- `scp_database::operator-=` repeats `remove_call` without its answer.
- Posters.NPostersDatabase.Add: the minimum number of posters is fixed when the database is made, though the source lets it change later.
- AdifField.ImportPrinted: the table of field names, the enumerations and the ranges are data and form a parameter; names are taken to be of two characters or more, without colon or right angle bracket, as all those of the source are. Values longer than the largest int print a length that cannot be read back.
- AdifRecord.RecordOutcome: what is imported when a value hides the end of its record is stated only where that ends the import (`HiddenEnd`, `RecordLost`, `RecordNeverEnds`); of the other cases only that the record is not read up to its own end.
- AdifField.Import: the field is returned instead of updated in place; reading an int from an empty text, which leaves the variable unset in the source, is taken to give zero.
- AdifRecord.ImportRecord: after a length below zero the import goes backwards in the text; that it does is modelled, what follows is not. The loop that never ends is an outcome of its own.
- AdifRecord.FileReadBack: what is exact is that each record is read up to its own end. A last value that holds the text of an end of record spoils that, but the list of records can still come out right.
- The map from call to records of `adif3_file`.
- `bandmap`, `logbook`, `contest_rules` and the running statistics as a whole: their parts above are those with an index or an invariant; the rest is display, input and parsing of configuration.
