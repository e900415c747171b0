# tsw utilities in Dafny

This project models the pure core of `tsw/util.py`, the utility module of a
scraper for tournament-software draw pages. It covers five groups of code:

- **Score parser.** `dashed_score_to_score` turns a set score such as
  `"6-7(5)"` into `[6, 7, 5]`. `is_score` recognises a leading set score.
  `get_score` reads the `<span>` children of a score cell.
- **Name normalisers.** `get_country` extracts a `[XYZ]` country code.
  `remove_seeds_from_name` deletes seed annotations such as `[1]` and
  `[5/8]` and then trailing whitespace. `clean_name` also deletes country
  tags and whitespace at both ends.
- **Fixture reconstruction.** `get_fixtures_for_draw` picks the round columns
  of a draw table and cleans each cell.
- **Bracket pairing.** `clean_fixtures` pairs the rows of each round into
  matches with a power-of-two stride.
- **Match dating.** `calculate_match_date` finds the date of the round in
  which a winner and a loser were paired.

The modules are:

| module | file | contents |
|---|---|---|
| `Wrappers` | `wrappers.dfy` | `Option` |
| `Text` | `text.dfy` | ASCII `\d`, `\s` and `[A-Z]`; greedy runs; decimal numerals and `int()`; whitespace stripping; the subsequence relation |
| `Patterns` | `patterns.dfy` | the regular expressions `util.py` matches, searches and deletes with, each as a matcher at a position; `re.match`, `re.findall` (leftmost, non-overlapping) and `re.sub(p, "", s)` built from it. The anchored strips `^\s+` and `\s+$` are in `Text` |
| `Scores` | `scores.dfy` | `dashed_score_to_score` and `is_score`; a renderer of set scores and the round trip through the parser |
| `Cells` | `cells.dfy` | the span branch of `get_score` over a small HTML node tree |
| `Names` | `names.dfy` | `get_country`, `remove_seeds_from_name` and `clean_name` |
| `Fixtures` | `fixtures.dfy` | `get_fixtures_for_draw` and `clean_fixtures`, with the bracket it builds as an independent definition |
| `MatchDate` | `match_date.dfy` | `calculate_match_date`, with a reference definition |

Every regular expression of the source is deterministic: a greedy run is
never given back to make the rest of the pattern match. So each match at a
position is a function of the string and the position. `re.findall` is the
leftmost scan that resumes after each match, and `re.sub(p, "", s)` is a
single pass of deletions over the same scan: it deletes exactly the
characters that the scan's matches cover (`RemoveAllDeletesFound`).

Each operation is tied to a partner:

- `dashed_score_to_score` is tied to a renderer of sets (`Render`). Reading
  back any rendered set gives its numbers.
- `get_score` is tied to the cell markup the site writes (`Markup`).
- `clean_name` is tied to bracket-free names, which it only trims. It is
  idempotent on them.
- `remove_seeds_from_name` is tied to names with seeds inserted. A seed
  after a bracket-free prefix is deleted, whatever follows it.
- `clean_fixtures` is tied to the bracket (`Bracket`). In that bracket,
  match `m` of round `k` pairs slots `2m` and `2m + 1` of the stride. The
  rounds halve, and `2^R - 1` matches are played in all.
- `calculate_match_date` is tied to the date of the last round that pairs
  the two names (`LastPairedDate`).

Behaviour that is easy to misread:

- `calculate_match_date` compares names by list membership, so names must
  be equal. It does not do substring containment.
- `get_fixtures_for_draw` looks for `Round` or `Finals` anywhere in a
  header, case-sensitively.
- `calculate_match_date`'s `break` leaves only the loop over one round's matches. So the **last**
  round that pairs the names gives the date, not the first.
- `dashed_score_to_score` returns every set score it finds, so one string
  can give more than three numbers.
- The seed deletions are single passes. `remove_seeds_from_name("[[1]1]")`
  is `"[1]"`, so the function is not idempotent on such inputs.

## Model

| member | source | states |
|---|---|---|
| Text.DecimalValue | tsw/util.py:120 | `int()` of a numeral of `n` digits is below `10**n` |
| Text.LeadingZeroIgnored | tsw/util.py:120 | `int()` ignores a leading zero: `"0" + ds` has the value of `ds` |
| Text.DecimalRoundTrip | tsw/util.py:120 | `int()` of the numeral `Decimal(n)` is `n` again; `Decimal`, the renderer, writes a non-empty run of ASCII digits |
| Text.StripTrailing | tsw/util.py:159 | `\s+$` deletion leaves a prefix that does not end in whitespace, and everything it removed was whitespace |
| Text.StripLeading | tsw/util.py:139 | `^\s+` deletion leaves a suffix that does not start with whitespace, and everything it removed was whitespace |
| Text.StripTrailingSpaces | tsw/util.py:158-159 | whitespace appended to a name is stripped together with the name's own trailing whitespace |
| Patterns.MatchEndIsLongest | tsw/util.py:103-136 | `re.match` at a position, for any of the seven patterns of lines 42, 103, 113, 116, 130, 133 and 136, finds a prefix in the pattern's language, no longer prefix is in it, and there is no match only when no prefix is in it |
| Patterns.SetScoreAtIsLongest | tsw/util.py:113 | `(\d+)\s*\-\s*(\d+)` matches at `i` whenever some prefix of `s[i..]` is in its language, and then reaches at least as far, with the same digit groups |
| Patterns.ScoreEndIsLongest | tsw/util.py:103-104 | `\d+\-\d+` matches a prefix in its language, and no longer prefix is in it |
| Patterns.TiebreakAtIsLongest | tsw/util.py:116 | `\(\s*(\d+)\s*\)` matches exactly the prefix in its language, and its group is the digits between the parentheses |
| Patterns.CountryCodeEndIsLongest | tsw/util.py:42 | `\[([A-Z]{3})\]` matches exactly the prefix in its language, when there is one |
| Patterns.SlashSeedEndIsLongest | tsw/util.py:130 | `\[\d\/\d\]` matches exactly the prefix in its language, when there is one |
| Patterns.SeedEndIsLongest | tsw/util.py:133 | `\[\d\]` matches exactly the prefix in its language, when there is one |
| Patterns.CountryTagEndIsLongest | tsw/util.py:136 | `\[[A-Z]+\]` matches exactly the prefix in its language, when there is one |
| Patterns.FindAll | tsw/util.py:114 | `re.findall` reports match starts in increasing order, a match starts at each of them, and each match ends before the next one starts |
| Patterns.FindAllIsLeftmost | tsw/util.py:114 | every position where a match starts and that no reported match covers is reported |
| Patterns.ScanIsAllStarts | tsw/util.py:114 | when matches cannot overlap, the leftmost non-overlapping scan finds every position where a match starts |
| Patterns.SingleFind | tsw/util.py:42-43 | `findall` reports exactly one match if and only if the pattern matches at exactly one position, and then it reports that position |
| Patterns.RemoveAll | tsw/util.py:130 | `re.sub(p, "", s)` only deletes characters (its result is a subsequence of `s`), and a bracketed pattern leaves a `[`-free string unchanged |
| Patterns.RemoveAllDeletesFound | tsw/util.py:130-136 | `re.sub(p, "", s)` keeps exactly the characters that no match of the leftmost `re.findall` scan covers, in order |
| Patterns.RemoveAllKeepsPlainPrefix | tsw/util.py:130-136 | deleting bracketed tags never changes a `[`-free prefix of the string |
| Patterns.KeepFirst | tsw/util.py:130-136 | a character other than `[` is never deleted by a bracketed pattern and the deletion carries on after it |
| Scores.Flatten | tsw/util.py:115 | `sum(pairs, ())` lists the pairs' numbers in order, two per pair: entries `2j` and `2j + 1` are pair `j` |
| Scores.DashedScoreToScore | tsw/util.py:109-121 | two numbers for every set score found, in the order found, plus one more exactly when a single tiebreak occurs, and that number is the tiebreak's |
| Scores.RenderRoundTrip | tsw/util.py:109-121 | reading back any set written as `a-b` or `a-b(t)`, with any whitespace before the tiebreak, gives `[a, b]` or `[a, b, t]` |
| Scores.OneSet | tsw/util.py:114-120 | a string with one set score and no single tiebreak reads as its two numbers |
| Scores.OneSetAndTiebreak | tsw/util.py:114-120 | a string with one set score and one tiebreak reads as the three numbers |
| Scores.IsScore | tsw/util.py:100-106 | `is_score` holds exactly when the string opens with digits, a dash and a digit; nothing else in the string matters |
| Scores.IsScoreLeadingSet | tsw/util.py:100-121 | a string `is_score` accepts gives at least two numbers, and the first two are the digits before and after the opening dash |
| Scores.PlainSetExample | tests/test_utils.py:79 | `"6-3"` reads as `[6, 3]` |
| Scores.SpacedTiebreakSetExample | tests/test_utils.py:80 | `"6-3 (5)"` reads as `[6, 3, 5]` |
| Scores.TwoDigitsSetExample | tests/test_utils.py:81 | `"10-2"` reads as `[10, 2]` |
| Scores.LongSetExample | tests/test_utils.py:82 | `"14-12"` reads as `[14, 12]` |
| Scores.TiebreakSetExample | tests/test_utils.py:83 | `"6-7(5)"` reads as `[6, 7, 5]` |
| Scores.TwoSetsExample | tsw/util.py:113-120 | `"6-3 7-5"` reads as `[6, 3, 7, 5]`: every set score found is read, in order |
| Cells.Spans | tsw/util.py:92-93 | the direct span children are exactly the children that are spans |
| Cells.ReadSpans | tsw/util.py:93-94 | every span is read, in order, as its first text's score, and the read fails exactly when some span does not open with text |
| Cells.GetScore | tsw/util.py:88-97 | the cell's own contents come back exactly when no child is a span; the result is malformed exactly when some span cannot be read; otherwise there is one score per span, in order |
| Cells.SpansIdempotent | tsw/util.py:92-93 | the span children of the span children are the span children |
| Cells.OnlySpansMatter | tsw/util.py:92-94 | text and other markup between the spans does not change the score of a cell that has spans |
| Cells.MarkupRoundTrip | tsw/util.py:88-97 | a cell written as one span per set reads back as the sets' numbers, in order |
| Cells.TwoSetCellExample | tests/test_utils.py:63 | `<span>6-1</span><span>7-6(5)</span>` reads as `[[6, 1], [7, 6, 5]]` |
| Names.GetCountry | tsw/util.py:40-46 | three upper-case letters or nothing; there is a result exactly when `[XYZ]` occurs at one position only, and the result is the letters at that position |
| Names.TaggedCountry | tsw/util.py:40-46 | a country tag between two bracket-free strings is found |
| Names.NoCountry | tsw/util.py:40-46 | a string with no `[XYZ]` has no country |
| Names.CountryExamples | tests/test_utils.py:25-26 | `"[COL] "` and `" [COL] "` have country `COL` |
| Names.NoCountryExamples | tests/test_utils.py:27-28 | `" [] "` and `" Invalid "` have no country |
| Names.RemoveSeedsFromName | tsw/util.py:147-160 | only deletes characters, leaves no trailing whitespace, and on a bracket-free name only strips trailing whitespace |
| Names.SeededName | tsw/util.py:152-159 | a `[d]` seed inside a bracket-free name is deleted, and so is the whitespace that then ends the name |
| Names.SlashSeededName | tsw/util.py:152-159 | a `[d/e]` seed inside a bracket-free name is deleted, and so is the whitespace that then ends the name |
| Names.SeedDroppedBefore | tsw/util.py:152-156 | a `[d]` seed after a bracket-free prefix is deleted, and the two seed deletions carry on over whatever follows it |
| Names.SlashSeedDroppedBefore | tsw/util.py:152-156 | a `[d/e]` seed after a bracket-free prefix is deleted, and the two seed deletions carry on over whatever follows it |
| Names.TwoSeedsName | tsw/util.py:152-159 | a name with two `[d]` seeds loses both, and the whitespace that then ends it |
| Names.TwoSeedsExample | tsw/util.py:152-159 | `"A [1] B [2]"` becomes `"A  B"` |
| Names.SeedExample | tests/test_utils.py:100-103 | `"Manuel Orozco [1]\t"` becomes `"Manuel Orozco"` |
| Names.SlashSeedExample | tests/test_utils.py:96-99 | `"Pedro Gutiérrez Pedro Gutiérrez [5/8]  "` becomes `"Pedro Gutiérrez Pedro Gutiérrez"` |
| Names.SeedRemovalIsSinglePass | tsw/util.py:152-156 | `"[[1]1]"` keeps the seed that the deletion closes up, and only a second call deletes it |
| Names.DropSeeds | tsw/util.py:129-133 | the two seed deletions only delete characters, and leave a bracket-free name unchanged |
| Names.DropTags | tsw/util.py:135-136 | the tag deletion only deletes characters, and leaves a bracket-free name unchanged |
| Names.Trim | tsw/util.py:138-142 | the trimmed name is one stretch of the input with only whitespace before and after it, and it neither starts nor ends with whitespace |
| Names.CleanName | tsw/util.py:124-144 | only deletes characters, leaves no whitespace at either end, and on a bracket-free name only trims |
| Names.CleanNameKeepsCleanName | tsw/util.py:124-144 | a bracket-free name without surrounding whitespace is returned unchanged |
| Names.CleanNameSettles | tsw/util.py:124-144 | cleaning a bracket-free name twice gives what cleaning it once gives |
| Names.TaggedName | tsw/util.py:124-144 | a name with a `[d]` seed and a `[CODE]` country tag comes back as the rest of the name, trimmed |
| Fixtures.CleanColumn | tsw/util.py:60 | the column keeps its length; each cell becomes, in place, a subsequence of the raw cell with no whitespace at either end, and a bracket-free cell is only trimmed |
| Fixtures.GetFixturesForDraw | tsw/util.py:49-61 | the fixtures are no more than the columns, and each carries a round header |
| Fixtures.FixturesAreRoundColumns | tsw/util.py:52-60 | a column is among the fixtures exactly when it is a round column of the table, cleaned |
| Fixtures.FixtureNamesFromDraw | tsw/util.py:52-60 | every fixture is named after a column of the table |
| Fixtures.FixturesKeepNamesDistinct | tsw/util.py:50-60 | a table whose headers differ gives fixtures whose round names differ |
| Fixtures.FixturesOfAppend | tsw/util.py:52-60 | the fixtures of two tables side by side are their fixtures side by side, in order |
| Fixtures.FixturesOfColumn | tsw/util.py:52-60 | a single column is kept, cleaned, exactly when its header names a round; with `FixturesOfAppend` this fixes the fixtures of every table: its round columns, cleaned, in table order |
| Fixtures.ContainsOccurs | tsw/util.py:54 | Python's `in` on strings holds exactly when the substring sits at some position |
| Fixtures.RoundHeaderNames | tsw/util.py:54 | a header names a round exactly when `Round` or `Finals` sits somewhere in it |
| Fixtures.LowerCaseIsNoRoundHeader | tsw/util.py:54 | the search is case-sensitive: `"round 1"` does not name a round |
| Fixtures.RoundHeaderExamples | tsw/util.py:53 | `"Round 1"` and `"Finals"` name rounds |
| Fixtures.QuarterFinalsIsRoundHeader | tsw/util.py:53 | `"Quarter Finals"` names a round: the test looks for `Finals` anywhere in the header |
| Fixtures.DrawIsNoRoundHeader | tsw/util.py:53 | `"Draw"` does not name a round |
| Fixtures.SlotInRange | tsw/util.py:72-76 | round `k`'s stride stays inside `range(2**k, 2**(R+1), 2**(k+1))` for exactly `2**(R-k)` steps |
| Fixtures.LastSlotValue | tsw/util.py:72-76 | the last row round `k` reads is `2**(R+1) - 2**k` |
| Fixtures.CleanFixtures | tsw/util.py:64-85 | the reconstruction succeeds exactly when every row it reads exists, and then it is the bracket: each round's match `m` pairs stride slots `2m` and `2m + 1` |
| Fixtures.CleanRound | tsw/util.py:69-83 | the inner walk of round `k` of `R` fails exactly when its last row is missing, and otherwise yields `2**(R-k-1)` matches, the pairs of that round in the bracket |
| Fixtures.FitsByLength | tsw/util.py:72-77 | every row the reconstruction reads exists exactly when column `k` of `R` is longer than `2**(R+1) - 2**k` |
| Fixtures.BracketMatch | tsw/util.py:66-83 | round `k` keeps column `k`'s name, and its match `m` is `[col[2**k + 2m * 2**(k+1)], col[2**k + (2m+1) * 2**(k+1)]]` |
| Fixtures.BracketMatchCount | tsw/util.py:64-85 | each round has half the matches of the one before, the final has one, and a draw of `R` rounds has `2**R - 1` matches in all |
| Fixtures.FourPlayerBracket | tsw/util.py:64-85 | an eight-row, two-round table pairs A-B and C-D in the first round and A-C in the final |
| MatchDate.CalculateMatchDate | tsw/util.py:18-30 | the loops over rounds and matches give the reference date: none when no round pairs the names, otherwise the date of the last round in draw order that pairs them (the lemmas below characterise it) |
| MatchDate.UnpairedHasNoDate | tsw/util.py:25-29 | no round pairs the names, so no date is found |
| MatchDate.LastPairingDates | tsw/util.py:25-29 | the last round that pairs the names gives the date, even when an earlier round also pairs them |
| MatchDate.PairsByWholeNames | tsw/util.py:27 | a match pairs the names exactly when both are non-empty and each equals one of the match's players |
| MatchDate.PartNameIsNoPlayer | tsw/util.py:27 | `"Alice"` does not find the player listed as `"Alice Smith"`; the full name does |
| MatchDate.NeedsBothNames | tsw/util.py:27 | a missing or empty winner or loser never finds a date |
| MatchDate.EitherOrder | tsw/util.py:27 | swapping the winner and the loser finds the same date |
| MatchDate.LaterRoundsWin | tsw/util.py:25-29 | rounds appended to a draw decide the date whenever one of them pairs the names |
| MatchDate.AliceAndBob | tsw/util.py:18-30 | a first round pairing Alice and Bob on 2021-01-01 dates their match in either order, and a pair no round holds gets no date |

## Left out

- `get_parameters` (`tsw/util.py:33-37`) only calls `urllib.parse`, a library that is not part of this model.
- `tsw/classes.py`, `tsw/main.py` and `tsw/settings.py` are not part of this model. They hold the fetching, the page objects and the configuration.
- Logging (`LOGGER.debug`, `LOGGER.info`, `LOGGER.warning`) is left out. It has no effect on any result.
- The `dateutil` import is left out. No modelled function uses it.
- The `round_size` check in `get_fixtures_for_draw` only logs a warning, so it is left out and columns of unequal length are kept.
- The `str()` calls in `is_score` and `clean_name` are left out. Inputs are modelled as strings already.
- Python's `\d` and `\s` also match non-ASCII digits and spaces. The model keeps their ASCII members: the digits `0`-`9`, and space, `\t`, `\n`, `\v`, `\f`, `\r` and the separators `\x1c`-`\x1f`.
- The `$` of `\s+$` also matches just before a final newline. Nothing is lost by not modelling this. `\s+` is greedy and a newline is whitespace, so the leftmost match already runs to the end of the string. The deletion is therefore the full strip of trailing whitespace that the model uses.
- HTML parsing (BeautifulSoup) is left out. A score cell is modelled as an already parsed tree of text and element nodes.
- The exception paths are modelled as `Malformed`. In the source, a span with no children raises `IndexError`, and a span whose first child is markup makes `re.findall` raise.
- The dates in a draw are set by code that is not part of this model. `Round.date` is an input.
- A missing `draw_details` in `calculate_match_date` is modelled as the empty draw.
- A missing winner or loser is modelled as `None`.
- Fixtures.GetFixturesForDraw: columns that share a header are kept as separate entries. In the source the draw is a pandas table, so a shared header selects all its same-named columns at once, and the dict holds one entry per header name. `FixturesKeepNamesDistinct` shows that a table with distinct headers gives distinct round names, so the sequence and the dict agree there.
- Fixtures.CleanFixtures: the fixtures dict is modelled as a sequence of named columns in insertion order. Python's `IndexError` for a missing row is modelled as `None`.
