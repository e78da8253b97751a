# GamingZunft replay pipeline — a Dafny model

GamingZunft is a static web page that lists casino-stream replays. Its
script `assets/js/app.js` loads a CSV export of the replay log. It turns
each row into a replay record, computes the key figures of the stats panel,
rolls the records up per player for the player grid, and narrows and orders
the replay grid by the search box and the sort menu. This project models
that data pipeline in Dafny and proves properties of it:

- **Text** (`text.dfy`): the parts of the JavaScript string API the script
  uses. These are `trim` (with JavaScript's white-space set), ASCII case
  folding, counting a character, `lastIndexOf`, `replace`, `join` and
  `includes`.
- **Tokenizer** (`tokenizer.dfy`): `detectDelimiter`, the first-line split
  of `csvToItems`, and `parseCSV`. `parseCSV` is modelled twice: as the
  method `ParseCSV`, with the original index loop, and as the scanner
  automaton `Run`/`Parse`. The method is proved equal to the automaton.
  A CSV writer (`Unparse`) is the partner of the parser, and the parser is
  proved to read back every table without an empty row that the writer
  produces.
- **Normalize** (`normalize.dfy`): `normalizeNumber` has two parts. The
  first is the separator rewrite: strip currency signs and white space,
  take the last of ',' and '.' as the decimal mark, remove every thousands
  mark, and turn the first decimal mark into '.'. The
  second is JavaScript's `Number` on the result, read as an exact `real`.
  The module also holds `normalizeDate` (day-month-year to ISO, anything
  else trimmed) and `guessThumb`.
- **Records** (`records.dfy`): `csvToItems`. This covers the header lookup
  with alias names (`idx`/`get`), the blank-row filter, and the
  construction of one record: title, thumbnail, tags and the max-win flag
  with its `/max\s*win/i` test.
- **Sorting** (`sorting.dfy`): the stable descending sort that every
  `arr.sort((a, b) => key(b) - key(a))` in the script performs. It is given
  as a reference insertion sort, proved ordered, a permutation and stable.
- **Stats** (`stats.dfy`): `computeStats`, and the per-player rollup of
  `renderPlayerGrid`. The rollup is a grouping loop into an
  insertion-ordered map, then the entries sorted by total.
- **Filters** (`filters.dfy`): the replays filter (records with a video
  link) and `applyFilters` (search, then the sort option).

The model keeps the code's behaviour where that behaviour is surprising:
- `"1,234"` normalises to 1.234, since a lone comma is a decimal mark.
- On equal keys, the best win and the best multiplier are the later record.
- When every win (or multiplier) is negative, the best win (or multiplier)
  is the empty placeholder `{}`.
- Negative amounts are kept as they are.

## Model

| member | source | states |
|---|---|---|
| Tokenizer.FirstLine | assets/js/app.js:122 | The first line is a prefix of the text with no line feed, ending at the end of the text, at a line feed, or at a CR LF pair whose CR it drops. |
| Tokenizer.DetectDelimiter | assets/js/app.js:66-70 | The delimiter is ',' or ';'. It is ';' exactly when the line holds strictly more semicolons than commas, so a tie gives ','. |
| Tokenizer.DetectJoined | assets/js/app.js:66-70 | A header line of bare cells joined by ',' or ';' is detected as that delimiter, unless it has one cell, in which case ',' is chosen. |
| Tokenizer.Parse | assets/js/app.js:71-88 | The rows the scanner produces never include a row without fields. |
| Tokenizer.RunKeepsRows | assets/js/app.js:73-85 | Scanning more text only appends rows: finished rows are never changed, and no row without fields is added. |
| Tokenizer.ParseCSV | assets/js/app.js:71-88 | The index loop with its quote state returns exactly the rows of the scanner automaton, including the final partial row. |
| Tokenizer.ParseUnparse | assets/js/app.js:71-88 | Any table without empty rows is parsed back to the same table. The table is written with quotes only where needed, quotes doubled inside them, any delimiter other than a quote or a line-break character, and LF or CR LF line ends. |
| Tokenizer.ParseRow | assets/js/app.js:71-88 | One encoded row, with or without a trailing line feed, parses to that row alone. |
| Tokenizer.ParseJoin | assets/js/app.js:71-88 | A line of bare cells joined by the delimiter parses to one row of those cells. |
| Tokenizer.FirstLineOfUnparse | assets/js/app.js:122 | The first line of a written table whose header cells are bare is the header joined by the delimiter, for either line ending. |
| Normalize.ParseDigits | assets/js/app.js:100 | `Number` of a string of decimal digits is its decimal value. |
| Normalize.ParseDecimal | assets/js/app.js:100 | `Number` of digits '.' digits, where at least one side is non-empty, is the whole part plus the fraction. |
| Normalize.ParseNegative | assets/js/app.js:100 | A leading '-' negates the unsigned literal that follows, and NaN stays NaN. |
| Normalize.StripTrim | assets/js/app.js:91 | Removing currency signs and white space gives the same text whether or not the text was trimmed first. |
| Normalize.SeparatorsBoth | assets/js/app.js:93-97 | With both ',' and '.', the mark that occurs last is the decimal mark. Every occurrence of the other mark is removed, and the first decimal mark becomes '.'. Later decimal marks stay, which leaves a text `Number` rejects. |
| Normalize.SeparatorsCommaOnly | assets/js/app.js:98 | With a comma and no dot, the first comma becomes '.'. |
| Normalize.SeparatorsNoComma | assets/js/app.js:99 | Without a comma, the text is handed on unchanged. |
| Normalize.NormalizeGrouped | assets/js/app.js:91-99 | A number with one thousands separator and a decimal mark, in either convention, is rewritten to plain digits, '.', digits. |
| Normalize.NormalizeGroupedValue | assets/js/app.js:89-102 | German "a.b,c" and English "a,b.c", with digit groups a, b and c, both read as the decimal number ab.c. |
| Normalize.NormalizeCommaDecimal | assets/js/app.js:98-101 | A lone comma is a decimal mark: "a,b" reads as a.b. |
| Normalize.NormalizeNegative | assets/js/app.js:89-102 | A leading minus is kept: "-a,b" reads as -(a.b), and it is not clamped to 0. |
| Normalize.NormalizeEmpty | assets/js/app.js:90-101 | A missing value gives 0, and so does the empty text. |
| Normalize.ParseNoDigit | assets/js/app.js:100 | `Number` of a text without digits is 0 when the text is blank and NaN otherwise. |
| Normalize.NormalizeWord | assets/js/app.js:89-101 | Any text without a digit gives 0, whether `Number` reads what is left as 0 or rejects it as NaN. |
| Normalize.NormalizeCommaExample | assets/js/app.js:98-101 | "1,234" gives 1.234, not 1234. |
| Normalize.NormalizeNumber | assets/js/app.js:89-102 | Models `normalizeNumber`: null and anything `Number` rejects give 0. Its properties are stated by NormalizeEmpty, NormalizeGroupedValue, NormalizeCommaDecimal, NormalizeNegative, NormalizeWord and NormalizeCommaExample. |
| Normalize.MatchDateSound | assets/js/app.js:106 | Whatever the date matcher accepts has the day, separator, month, separator, four-digit-year shape, with the reported groups. |
| Normalize.MatchDateComplete | assets/js/app.js:106 | Every text of that shape is accepted, with exactly its groups. |
| Normalize.NormalizeDate | assets/js/app.js:103-109 | Models `normalizeDate`. Its properties are stated by NormalizeDateShape, NormalizeDateOther, NormalizeDateIdempotent and NormalizeDateExample. |
| Normalize.NormalizeDateShape | assets/js/app.js:103-107 | A trimmed day-month-year text becomes year-month-day with zero-padded month and day, ten characters long. |
| Normalize.NormalizeDateOther | assets/js/app.js:103-108 | Any other text is returned trimmed. |
| Normalize.NormalizeDateIdempotent | assets/js/app.js:103-109 | Normalising a normalised date changes nothing. |
| Normalize.NormalizeDateExample | assets/js/app.js:106-107 | "5.3.2024" becomes "2024-03-05". |
| Normalize.GuessThumb | assets/js/app.js:110-118 | Models `guessThumb`. Its properties are stated by GuessThumbCase and GuessThumbExample. |
| Normalize.GuessThumbCase | assets/js/app.js:110-118 | The lookup ignores letter case, always yields one of the three pictures, and gives the default picture for an unknown game. |
| Normalize.GuessThumbExample | assets/js/app.js:110-117 | "Sweet Bonanza" maps to its own picture. |
| Records.IndexOf | assets/js/app.js:128 | The result is -1 exactly when the name is absent; otherwise it is the first position holding the name. |
| Records.Resolve | assets/js/app.js:128-130 | Models the column lookup of `get`: the first candidate name found among the headers. Its properties are stated by ResolveNone and ResolveFirst. |
| Records.Get | assets/js/app.js:129-132 | Models `get`: the cell of the resolved column, or '' when no column is found or the row is too short. AliasExamples shows the aliases used by the builder. |
| Records.ResolveNone | assets/js/app.js:129-131 | No column is found exactly when none of the lower-cased candidate names is a header. |
| Records.ResolveFirst | assets/js/app.js:129-131 | The column found is that of the first candidate name, in the caller's order, that is a header. |
| Records.AliasExamples | assets/js/app.js:139-154 | `palyer` is used when there is no `player` column, and the `videoUrl` alias finds the lower-cased `videourl` header. |
| Records.SplitTagsJoin | assets/js/app.js:144 | Tags that are non-empty, hold no ',' or ';' and do not start with white space split back to the same tags. This holds when they are joined by ',' or ';' followed by optional white space. |
| Records.SplitTagsClean | assets/js/app.js:144 | Every tag produced is non-empty and holds no ',' or ';'. |
| Records.HasMaxWinIff | assets/js/app.js:146-148 | The scanning matcher accepts a text exactly when "max", white space, "win" occurs in it, ignoring case. |
| Records.BuildRecord | assets/js/app.js:136-163 | Models the record built from one data row. Its properties are stated by TitleShape, ThumbShape and BuildRecordShape. |
| Records.TitleShape | assets/js/app.js:137-145 | The title is trimmed. It is the trimmed game when x is 0. Otherwise, for a game that is not blank, it is the game without its leading white space, a space, x, then "x". |
| Records.ThumbShape | assets/js/app.js:141-142 | The thumbnail is never blank and is trimmed. A non-blank user picture is used, trimmed; without one it is the guess from the game. |
| Records.BuildRecordShape | assets/js/app.js:136-163 | A built record has a thumbnail and a trimmed title. Its tags are non-empty and hold no ',' or ';', and its max-win flag holds exactly for a "maxwin" tag or the pattern in the title or the game. |
| Records.DataRowsAppend | assets/js/app.js:135 | Dropping blank rows works row by row and keeps the order of the kept rows. |
| Records.CsvToItems | assets/js/app.js:121-165 | Models `csvToItems`. Its properties are stated by CsvEmpty, CsvHeaderOnly, CsvHeaderLine and CsvOfTable. |
| Records.CsvEmpty | assets/js/app.js:121-125 | An empty text gives no records. |
| Records.DataRowsEmpty | assets/js/app.js:135 | No row is kept exactly when every row is blank. |
| Records.CsvHeaderOnly | assets/js/app.js:121-135 | Any text gives no records exactly when the rows it parses to, under the delimiter detected on its first line, have no non-blank row after the header. This covers an empty text, a header alone, and a header followed by blank rows. |
| Records.CsvHeaderLine | assets/js/app.js:121-135 | A single written header line of bare cells gives no records, for ',' or ';' (with ';', the header needs two cells). |
| Records.CsvOfTable | assets/js/app.js:121-165 | A written table is read back as one record per non-blank data row, in order, built against its header. |
| Sorting.SortDesc | assets/js/app.js:218 | The stable descending sort, as a reference insertion sort. Its properties are stated by SortDescSorted, SortDescPerm, SortDescStable and SortDescOfSorted. |
| Sorting.SortDescSorted | assets/js/app.js:218 | The sorted sequence is ordered by key, largest first. |
| Sorting.SortDescPerm | assets/js/app.js:218 | The sorted sequence holds the same elements, each as often. |
| Sorting.SortDescStable | assets/js/app.js:218 | Elements with equal keys keep their relative order. |
| Sorting.SortDescOfSorted | assets/js/app.js:218 | An input that is already ordered comes back unchanged. |
| Stats.ComputeStats | assets/js/app.js:56-63 | Models `computeStats`. Its properties are stated by ComputeStatsCounts, ComputeStatsBest, Mean, BestOfSpec and TotalOfConcat. |
| Stats.SumOfAppend | assets/js/app.js:57 | The sum over a concatenation is the sum of the sums. |
| Stats.BestIndexSpec | assets/js/app.js:58-59 | The reduce keeps the placeholder exactly when every key is negative. Otherwise it picks a key that is at least 0 and maximal, and no later record has the same key. |
| Stats.BestOfSpec | assets/js/app.js:58-59 | The same property, stated for the record the reduce returns. |
| Stats.Mean | assets/js/app.js:60 | The average multiplier is 0 without records; otherwise, times the count, it gives the sum of the multipliers. |
| Stats.GamesSpec | assets/js/app.js:61 | The distinct games are exactly the non-empty game names of the records, and there are at most as many as records. |
| Stats.ComputeStatsCounts | assets/js/app.js:61-62 | The count is the number of records. The unique-game count is at most that, and 0 exactly when no record names a game. |
| Stats.ComputeStatsBest | assets/js/app.js:58-59 | The best win and best multiplier are the placeholder exactly when every value is negative; otherwise no record beats them. |
| Stats.TotalOfConcat | assets/js/app.js:57 | Total winnings add up over concatenated record lists. |
| Stats.PlayersMember | assets/js/app.js:204-207 | The rollup's players are exactly the non-blank trimmed player names. |
| Stats.PlayersDistinct | assets/js/app.js:204-211 | Each player is listed once. |
| Stats.AnyMaxWinSpec | assets/js/app.js:210 | A player's max-win flag holds exactly when one of that player's records is a max win. |
| Stats.TotalOfAppend | assets/js/app.js:201-210 | A player's total over the stats pool followed by the manual records is the sum of the two totals. |
| Stats.Accumulate | assets/js/app.js:204-211 | After the loop, the map holds exactly the non-blank players, in order of first sight. Each holds its summed wins and OR-ed max-win flags. |
| Stats.Rollup | assets/js/app.js:201-218 | The rows are the per-player entries of both lists, sorted by total with the stable sort. They are ordered by total, a permutation of the entries, and name each player once. |
| Stats.Entries | assets/js/app.js:213-217 | One line per player, in the order the players were first seen. Its length is the number of players, and EntriesDistinct states that each player appears once. |
| Stats.EntriesDistinct | assets/js/app.js:213-217 | No two entries name the same player. |
| Stats.RollupDistinct | assets/js/app.js:213-218 | Any reordering of the entries still names each player once. |
| Filters.FilterMember | assets/js/app.js:337 | An element is kept exactly when it is in the input and passes the test. |
| Filters.FilterAppend | assets/js/app.js:275-281 | Filtering a concatenation filters each part, so order is kept. |
| Filters.FilterIdempotent | assets/js/app.js:337 | Filtering twice by the same test is filtering once. |
| Filters.Replays | assets/js/app.js:337 | Models the replays filter. Its property is stated by ReplaysSpec. |
| Filters.ReplaysSpec | assets/js/app.js:337 | A record is a replay exactly when it is one of the records and its video link is not blank. |
| Filters.QueryIdempotent | assets/js/app.js:271 | The normalised query is a fixed point of trimming and lower-casing. |
| Filters.SearchMember | assets/js/app.js:274-282 | A replay survives the search exactly when it matches the query in title, game, provider, player or tags; an empty query keeps all. |
| Filters.SearchAppend | assets/js/app.js:274-282 | The search decides replay by replay and keeps the order. |
| Filters.ApplyFilters | assets/js/app.js:270-292 | Models `applyFilters`. Its properties are stated by ApplyFiltersMember, ApplyFiltersPerm, ApplyFiltersOrder, ApplyFiltersStable and ApplyFiltersIdentity. |
| Filters.ApplyFiltersMember | assets/js/app.js:270-285 | A replay is shown exactly when it matches the query and, under "maxwin", is a max win. |
| Filters.ApplyFiltersPerm | assets/js/app.js:284-290 | Sorting only reorders: the shown replays are the selected ones, each as often. |
| Filters.ApplyFiltersOrder | assets/js/app.js:284-290 | The order of each option: "maxwin" and "newest" by date descending, "oldest" ascending, "highest-x" by multiplier descending, "biggest-win" by win descending. |
| Filters.ApplyFiltersStable | assets/js/app.js:284-290 | Replays with equal sort keys keep their order. |
| Filters.ApplyFiltersIdentity | assets/js/app.js:270-292 | A blank query with an option that does not sort shows the replays as they are. |

## Left out

- The page itself is not modelled: the DOM, HTML rendering, the theme switch, smooth scrolling, `getInitials`, the badge markup and `badges.js`.
- Loading is not modelled: the CSV fetch, the JSON fallback path and the global `state` object. The model takes the record lists as inputs.
- `formatCurrency` and `formatDate` are not modelled. They only format for display, and rely on the locale and `Intl`.
- NormalizeNumber: values are exact reals, not IEEE doubles. Rounding, `-0`, and the Infinity values that `Number` gives for "Infinity" or huge exponents are not modelled; the model reads "Infinity" as NaN, which gives 0.
- Records.BuildRecord: the number-to-string conversion inside the title is a parameter `show`, because JavaScript's shortest round-trip float printing is not modelled.
- Filters.SortKey: `new Date(text)` is a parameter `dateKey` giving a timestamp for each date text. Invalid dates (NaN), which make the comparator inconsistent, are not modelled.
- Text.ToLower: folds ASCII letters only. This is exact for the `/max\s*win/i` test, but weaker than `toLowerCase` on non-ASCII letters in tags, the search and `guessThumb`.
- Normalize.GuessThumb: keys inherited from `Object.prototype` (such as "constructor") are not modelled. The same applies to the avatar lookup in `Stats.Avatar`.
- Stats.ComputeStats: records are taken with numeric `win` and `x` and a string `player`. The manual records loaded from JSON are not built by `csvToItems`, and the coercions applied to them are not modelled. These are `Number(r.win) || 0` and `Number(r.x) || 0` in `computeStats`, and `(r.player || '')` and `Number(r.win) || 0` in the rollup (`Stats.Rollup`).
