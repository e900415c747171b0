/** The regular expressions tsw/util.py matches, searches and deletes with
    (the anchored whitespace strips `^\s+` and `\s+$` are `StripLeading` and
    `StripTrailing` in `Text`), each as a matcher at a position, with
    Python's `re.findall` (leftmost, non-overlapping scan) and
    `re.sub(pattern, "", s)` (single-pass deletion) on top.

    None of these patterns can profit from backtracking: every greedy
    quantifier either ends the pattern or is followed by a character its own
    class excludes, so the greedy run is the only run that can lead to a
    match, and `MatchEnd` computes the one match Python's engine finds at a
    position. `RemoveAllDeletesFound` ties `re.sub` to the `re.findall` scan:
    it deletes exactly the characters the scan's matches cover. */
module Patterns {
  import opened Wrappers
  import opened Text

  datatype Pattern =
    | SetScore     // (\d+)\s*\-\s*(\d+)
    | Score        // \d+\-\d+
    | Tiebreak     // \(\s*(\d+)\s*\)
    | CountryCode  // \[([A-Z]{3})\]
    | SlashSeed    // \[\d\/\d\]
    | Seed         // \[\d\]
    | CountryTag   // \[[A-Z]+\]

  /** The patterns whose every match starts with `[`. */
  predicate IsBracketed(p: Pattern) {
    p == CountryCode || p == SlashSeed || p == Seed || p == CountryTag
  }

  /** Where the match of `p` that starts at `i` ends, if there is one. */
  function MatchEnd(p: Pattern, s: string, i: nat): (e: Option<nat>)
    ensures e.Some? ==> i < e.value <= |s|
    ensures e.Some? && IsBracketed(p) ==> s[i] == '['
    ensures e.Some? && p == CountryCode ==> e.value == i + 5
  {
    if i >= |s| then None
    else
      match p
      case SetScore =>
        var m := SetScoreAt(s, i);
        if m.Some? then Some(m.value.second.end) else None
      case Score => ScoreEnd(s, i)
      case Tiebreak =>
        var m := TiebreakAt(s, i);
        if m.Some? then Some(m.value.end) else None
      case CountryCode => CountryCodeEnd(s, i)
      case SlashSeed => SlashSeedEnd(s, i)
      case Seed => SeedEnd(s, i)
      case CountryTag => CountryTagEnd(s, i)
  }

  /** A captured group: the characters `s[start..end]`. */
  datatype Group = Group(start: nat, end: nat)

  /** The two captured groups of a match of `(\d+)\s*\-\s*(\d+)`; the match
      ends where the second group does. */
  datatype SetScoreMatch = SetScoreMatch(first: Group, second: Group)

  function SetScoreAt(s: string, i: nat): (m: Option<SetScoreMatch>)
    requires i < |s|
    ensures m.Some? ==> i == m.value.first.start < m.value.first.end < m.value.second.start
                        < m.value.second.end <= |s|
  {
    var a := RunEnd(s, i, Digit);
    var b := RunEnd(s, a, Space);
    if a == i || b == |s| || s[b] != '-' then None
    else
      var c := RunEnd(s, b + 1, Space);
      var d := RunEnd(s, c, Digit);
      if d == c then None else Some(SetScoreMatch(Group(i, a), Group(c, d)))
  }

  function ScoreEnd(s: string, i: nat): (e: Option<nat>)
    requires i < |s|
    ensures e.Some? ==> i < e.value <= |s|
  {
    var a := RunEnd(s, i, Digit);
    if a == i || a == |s| || s[a] != '-' then None
    else
      var d := RunEnd(s, a + 1, Digit);
      if d == a + 1 then None else Some(d)
  }

  /** The captured group of a match of `\(\s*(\d+)\s*\)` and where the match ends. */
  datatype TiebreakMatch = TiebreakMatch(number: Group, end: nat)

  function TiebreakAt(s: string, i: nat): (m: Option<TiebreakMatch>)
    requires i < |s|
    ensures m.Some? ==> i < m.value.number.start < m.value.number.end < m.value.end <= |s|
  {
    if s[i] != '(' then None
    else
      var a := RunEnd(s, i + 1, Space);
      var b := RunEnd(s, a, Digit);
      var c := RunEnd(s, b, Space);
      if b == a || c == |s| || s[c] != ')' then None
      else Some(TiebreakMatch(Group(a, b), c + 1))
  }

  function CountryCodeEnd(s: string, i: nat): (e: Option<nat>)
    requires i < |s|
    ensures e.Some? ==> e.value == i + 5 <= |s| && s[i] == '['
  {
    if i + 5 <= |s| && s[i] == '[' && IsUpper(s[i + 1]) && IsUpper(s[i + 2])
       && IsUpper(s[i + 3]) && s[i + 4] == ']'
    then Some(i + 5) else None
  }

  function SlashSeedEnd(s: string, i: nat): (e: Option<nat>)
    requires i < |s|
    ensures e.Some? ==> e.value == i + 5 <= |s| && s[i] == '['
  {
    if i + 5 <= |s| && s[i] == '[' && IsDigit(s[i + 1]) && s[i + 2] == '/'
       && IsDigit(s[i + 3]) && s[i + 4] == ']'
    then Some(i + 5) else None
  }

  function SeedEnd(s: string, i: nat): (e: Option<nat>)
    requires i < |s|
    ensures e.Some? ==> e.value == i + 3 <= |s| && s[i] == '['
  {
    if i + 3 <= |s| && s[i] == '[' && IsDigit(s[i + 1]) && s[i + 2] == ']'
    then Some(i + 3) else None
  }

  function CountryTagEnd(s: string, i: nat): (e: Option<nat>)
    requires i < |s|
    ensures e.Some? ==> i < e.value <= |s| && s[i] == '['
  {
    if s[i] != '[' then None
    else
      var a := RunEnd(s, i + 1, Upper);
      if a == i + 1 || a == |s| || s[a] != ']' then None else Some(a + 1)
  }

  /* The language of each pattern, as the set of its whole matches.  For
     these patterns the match Python's engine finds at a position is the
     longest prefix of the rest of the string that lies in the language. */

  /** `w[x..y]` consists of `cls` characters. */
  ghost predicate RunOf(w: string, x: nat, y: nat, cls: Class) {
    forall k :: x <= k < y && k < |w| ==> InClass(w[k], cls)
  }

  /** `w` matches `(\d+)\s*\-\s*(\d+)` with the first group `w[..a]`, the dash
      at `b` and the second group `w[c..]`. */
  ghost predicate SetScoreSplit(w: string, a: nat, b: nat, c: nat) {
    0 < a <= b < c < |w| && RunOf(w, 0, a, Digit) && RunOf(w, a, b, Space) && w[b] == '-' &&
    RunOf(w, b + 1, c, Space) && RunOf(w, c, |w|, Digit)
  }

  /** `w` matches `\d+\-\d+` with the dash at `b`. */
  ghost predicate ScoreSplit(w: string, b: nat) {
    0 < b < |w| - 1 && RunOf(w, 0, b, Digit) && w[b] == '-' && RunOf(w, b + 1, |w|, Digit)
  }

  /** `w` matches `\(\s*(\d+)\s*\)` with the group `w[a..b]`. */
  ghost predicate TiebreakSplit(w: string, a: nat, b: nat) {
    0 < a < b < |w| && w[0] == '(' && RunOf(w, 1, a, Space) && RunOf(w, a, b, Digit) &&
    RunOf(w, b, |w| - 1, Space) && w[|w| - 1] == ')'
  }

  ghost predicate InLanguage(p: Pattern, w: string) {
    match p
    case SetScore => exists a, b, c :: SetScoreSplit(w, a, b, c)
    case Score => exists b :: ScoreSplit(w, b)
    case Tiebreak => exists a, b :: TiebreakSplit(w, a, b)
    case CountryCode => |w| == 5 && w[0] == '[' && RunOf(w, 1, 4, Upper) && w[4] == ']'
    case SlashSeed => |w| == 5 && w[0] == '[' && IsDigit(w[1]) && w[2] == '/' && IsDigit(w[3]) && w[4] == ']'
    case Seed => |w| == 3 && w[0] == '[' && IsDigit(w[1]) && w[2] == ']'
    case CountryTag => |w| >= 3 && w[0] == '[' && RunOf(w, 1, |w| - 1, Upper) && w[|w| - 1] == ']'
  }

  /** A run inside `s[i..e]` is the run at the same place in `s`. */
  lemma RunOfSlice(s: string, i: nat, e: nat, x: nat, y: nat, cls: Class)
    requires i <= e <= |s| && x <= y <= e - i
    ensures RunOf(s[i..e], x, y, cls) <==> forall k :: i + x <= k < i + y ==> InClass(s[k], cls)
  {
    var w := s[i..e];
    assert forall k :: x <= k < y ==> w[k] == s[i + k];
    if RunOf(w, x, y, cls) {
      forall k | i + x <= k < i + y
        ensures InClass(s[k], cls)
      {
        assert s[k] == w[k - i];
      }
    }
  }

  /** A run of `cls` characters from `i` to `j` is covered by the greedy run. */
  lemma {:induction false} RunEndCovers(s: string, i: nat, j: nat, cls: Class)
    requires i <= j <= |s|
    requires forall k :: i <= k < j ==> InClass(s[k], cls)
    ensures RunEnd(s, i, cls) >= j
    decreases j - i
  {
    if i < j {
      RunEndCovers(s, i + 1, j, cls);
    }
  }

  /** `(\d+)\s*\-\s*(\d+)`: the match at `i` is in the language, no longer
      prefix of `s[i..]` is, and the groups are the digits before and after
      the dash of any match that ends where it does. */
  lemma SetScoreAtIsLongest(s: string, i: nat)
    requires i < |s|
    ensures SetScoreAt(s, i).Some? ==> InLanguage(SetScore, s[i..SetScoreAt(s, i).value.second.end])
    ensures forall e: nat, a: nat, b: nat, c: nat :: i < e <= |s| && SetScoreSplit(s[i..e], a, b, c) ==>
              SetScoreAt(s, i).Some? && e <= SetScoreAt(s, i).value.second.end &&
              SetScoreAt(s, i).value.first.end == i + a && SetScoreAt(s, i).value.second.start == i + c
  {
    if SetScoreAt(s, i).Some? {
      SetScoreAtSplits(s, i);
    }
    forall e: nat, a: nat, b: nat, c: nat | i < e <= |s| && SetScoreSplit(s[i..e], a, b, c)
      ensures SetScoreAt(s, i).Some? && e <= SetScoreAt(s, i).value.second.end &&
              SetScoreAt(s, i).value.first.end == i + a && SetScoreAt(s, i).value.second.start == i + c
    {
      SetScoreSplitFound(s, i, e, a, b, c);
    }
  }

  lemma SetScoreAtSplits(s: string, i: nat)
    requires i < |s| && SetScoreAt(s, i).Some?
    ensures var m := SetScoreAt(s, i).value;
            SetScoreSplit(s[i..m.second.end], m.first.end - i, RunEnd(s, m.first.end, Space) - i, m.second.start - i)
  {
    var m := SetScoreAt(s, i).value;
    SetScoreAtRuns(s, i);
    SetScoreSplitOfRuns(s, i, m.first.end, RunEnd(s, m.first.end, Space), m.second.start, m.second.end);
  }

  /** The match `SetScoreAt` finds is the chain of greedy runs. */
  lemma SetScoreAtRuns(s: string, i: nat)
    requires i < |s| && SetScoreAt(s, i).Some?
    ensures var a := RunEnd(s, i, Digit);
            var b := RunEnd(s, a, Space);
            var c := RunEnd(s, b + 1, Space);
            b < |s| && s[b] == '-' && SetScoreAt(s, i).value == SetScoreMatch(Group(i, a), Group(c, RunEnd(s, c, Digit)))
  {
  }

  /** Runs laid out in `s` as `(\d+)\s*\-\s*(\d+)` make a split of the slice. */
  lemma SetScoreSplitOfRuns(s: string, i: nat, a: nat, b: nat, c: nat, d: nat)
    requires i < |s| && i < a && a == RunEnd(s, i, Digit) && b == RunEnd(s, a, Space) && b < |s| && s[b] == '-'
    requires c == RunEnd(s, b + 1, Space) && d == RunEnd(s, c, Digit) && c < d
    ensures SetScoreSplit(s[i..d], a - i, b - i, c - i)
  {
    RunOfSlice(s, i, d, 0, a - i, Digit);
    RunOfSlice(s, i, d, a - i, b - i, Space);
    RunOfSlice(s, i, d, b - i + 1, c - i, Space);
    RunOfSlice(s, i, d, c - i, d - i, Digit);
    assert s[i..d][b - i] == s[b];
  }

  lemma SetScoreSplitFound(s: string, i: nat, e: nat, a: nat, b: nat, c: nat)
    requires i < e <= |s| && SetScoreSplit(s[i..e], a, b, c)
    ensures SetScoreAt(s, i).Some? && e <= SetScoreAt(s, i).value.second.end
    ensures SetScoreAt(s, i).value.first.end == i + a && SetScoreAt(s, i).value.second.start == i + c
  {
    SetScoreSplitRuns(s, i, e, a, b, c);
  }

  /** The greedy runs `SetScoreAt` takes stop where the split does. */
  lemma SetScoreSplitRuns(s: string, i: nat, e: nat, a: nat, b: nat, c: nat)
    requires i < e <= |s| && SetScoreSplit(s[i..e], a, b, c)
    ensures RunEnd(s, i, Digit) == i + a && RunEnd(s, i + a, Space) == i + b && s[i + b] == '-'
    ensures RunEnd(s, i + b + 1, Space) == i + c && RunEnd(s, i + c, Digit) >= e
  {
    RunOfSlice(s, i, e, 0, a, Digit);
    RunOfSlice(s, i, e, a, b, Space);
    RunOfSlice(s, i, e, b + 1, c, Space);
    RunOfSlice(s, i, e, c, e - i, Digit);
    assert s[i + a] == s[i..e][a] && s[i + b] == s[i..e][b] && s[i + c] == s[i..e][c];
    RunEndIs(s, i, i + a, Digit);
    RunEndIs(s, i + a, i + b, Space);
    RunEndIs(s, i + b + 1, i + c, Space);
    RunEndCovers(s, i + c, e, Digit);
  }

  /** `\d+\-\d+`: the match at `i` is in the language and no longer prefix of
      `s[i..]` is. */
  lemma ScoreEndIsLongest(s: string, i: nat)
    requires i < |s|
    ensures ScoreEnd(s, i).Some? ==> InLanguage(Score, s[i..ScoreEnd(s, i).value])
    ensures forall e: nat, b: nat :: i < e <= |s| && ScoreSplit(s[i..e], b) ==>
              ScoreEnd(s, i).Some? && e <= ScoreEnd(s, i).value
  {
    if ScoreEnd(s, i).Some? {
      var a := RunEnd(s, i, Digit);
      var d := ScoreEnd(s, i).value;
      RunOfSlice(s, i, d, 0, a - i, Digit);
      RunOfSlice(s, i, d, a - i + 1, d - i, Digit);
      assert s[i..d][a - i] == s[a];
      assert ScoreSplit(s[i..d], a - i);
    }
    forall e: nat, b: nat | i < e <= |s| && ScoreSplit(s[i..e], b)
      ensures ScoreEnd(s, i).Some? && e <= ScoreEnd(s, i).value
    {
      RunOfSlice(s, i, e, 0, b, Digit);
      RunOfSlice(s, i, e, b + 1, e - i, Digit);
      assert s[i + b] == s[i..e][b] && s[i + b + 1] == s[i..e][b + 1];
      RunEndIs(s, i, i + b, Digit);
      RunEndCovers(s, i + b + 1, e, Digit);
    }
  }

  /** `\(\s*(\d+)\s*\)`: the match at `i` is in the language, it is the only
      prefix of `s[i..]` that is, and its group is the digits between the
      parentheses. */
  lemma TiebreakAtIsLongest(s: string, i: nat)
    requires i < |s|
    ensures TiebreakAt(s, i).Some? ==> InLanguage(Tiebreak, s[i..TiebreakAt(s, i).value.end])
    ensures forall e: nat, a: nat, b: nat :: i < e <= |s| && TiebreakSplit(s[i..e], a, b) ==>
              TiebreakAt(s, i) == Some(TiebreakMatch(Group(i + a, i + b), e))
  {
    if TiebreakAt(s, i).Some? {
      TiebreakAtSplits(s, i);
    }
    forall e: nat, a: nat, b: nat | i < e <= |s| && TiebreakSplit(s[i..e], a, b)
      ensures TiebreakAt(s, i) == Some(TiebreakMatch(Group(i + a, i + b), e))
    {
      TiebreakSplitRuns(s, i, e, a, b);
    }
  }

  lemma TiebreakAtSplits(s: string, i: nat)
    requires i < |s| && TiebreakAt(s, i).Some?
    ensures var m := TiebreakAt(s, i).value;
            TiebreakSplit(s[i..m.end], m.number.start - i, m.number.end - i)
  {
    var a := RunEnd(s, i + 1, Space);
    var b := RunEnd(s, a, Digit);
    var c := RunEnd(s, b, Space);
    RunOfSlice(s, i, c + 1, 1, a - i, Space);
    RunOfSlice(s, i, c + 1, a - i, b - i, Digit);
    RunOfSlice(s, i, c + 1, b - i, c - i, Space);
    assert s[i..c + 1][0] == s[i] && s[i..c + 1][c - i] == s[c];
  }

  lemma TiebreakSplitRuns(s: string, i: nat, e: nat, a: nat, b: nat)
    requires i < e <= |s| && TiebreakSplit(s[i..e], a, b)
    ensures TiebreakAt(s, i) == Some(TiebreakMatch(Group(i + a, i + b), e))
  {
    TiebreakSplitEnds(s, i, e, a, b);
  }

  /** The greedy runs `TiebreakAt` takes stop where the split does. */
  lemma TiebreakSplitEnds(s: string, i: nat, e: nat, a: nat, b: nat)
    requires i < e <= |s| && TiebreakSplit(s[i..e], a, b)
    ensures s[i] == '(' && RunEnd(s, i + 1, Space) == i + a && RunEnd(s, i + a, Digit) == i + b
    ensures RunEnd(s, i + b, Space) == e - 1 && s[e - 1] == ')'
  {
    RunOfSlice(s, i, e, 1, a, Space);
    RunOfSlice(s, i, e, a, b, Digit);
    RunOfSlice(s, i, e, b, e - i - 1, Space);
    assert s[i] == s[i..e][0] && s[i + a] == s[i..e][a] && s[i + b] == s[i..e][b];
    assert s[e - 1] == s[i..e][e - i - 1];
    RunEndIs(s, i + 1, i + a, Space);
    RunEndIs(s, i + a, i + b, Digit);
    RunEndIs(s, i + b, e - 1, Space);
  }

  /** `\[([A-Z]{3})\]`: the match at `i` is in the language, and it is the only
      prefix of `s[i..]` that is. */
  lemma CountryCodeEndIsLongest(s: string, i: nat)
    requires i < |s|
    ensures CountryCodeEnd(s, i).Some? ==> InLanguage(CountryCode, s[i..CountryCodeEnd(s, i).value])
    ensures forall e :: i < e <= |s| && InLanguage(CountryCode, s[i..e]) ==> CountryCodeEnd(s, i) == Some(e)
  {
    forall e | i < e <= |s| && InLanguage(CountryCode, s[i..e])
      ensures CountryCodeEnd(s, i) == Some(e)
    {
      var w := s[i..e];
      assert w[1] == s[i + 1] && w[2] == s[i + 2] && w[3] == s[i + 3];
    }
  }

  /** `\[\d\/\d\]`: the match at `i` is in the language, and it is the only
      prefix of `s[i..]` that is. */
  lemma SlashSeedEndIsLongest(s: string, i: nat)
    requires i < |s|
    ensures SlashSeedEnd(s, i).Some? ==> InLanguage(SlashSeed, s[i..SlashSeedEnd(s, i).value])
    ensures forall e :: i < e <= |s| && InLanguage(SlashSeed, s[i..e]) ==> SlashSeedEnd(s, i) == Some(e)
  {
  }

  /** `\[\d\]`: the match at `i` is in the language, and it is the only prefix
      of `s[i..]` that is. */
  lemma SeedEndIsLongest(s: string, i: nat)
    requires i < |s|
    ensures SeedEnd(s, i).Some? ==> InLanguage(Seed, s[i..SeedEnd(s, i).value])
    ensures forall e :: i < e <= |s| && InLanguage(Seed, s[i..e]) ==> SeedEnd(s, i) == Some(e)
  {
  }

  /** `\[[A-Z]+\]`: the match at `i` is in the language, and it is the only
      prefix of `s[i..]` that is. */
  lemma CountryTagEndIsLongest(s: string, i: nat)
    requires i < |s|
    ensures CountryTagEnd(s, i).Some? ==> InLanguage(CountryTag, s[i..CountryTagEnd(s, i).value])
    ensures forall e :: i < e <= |s| && InLanguage(CountryTag, s[i..e]) ==> CountryTagEnd(s, i) == Some(e)
  {
    if CountryTagEnd(s, i).Some? {
      var a := RunEnd(s, i + 1, Upper);
      RunOfSlice(s, i, a + 1, 1, a - i, Upper);
    }
    forall e | i < e <= |s| && InLanguage(CountryTag, s[i..e])
      ensures CountryTagEnd(s, i) == Some(e)
    {
      RunOfSlice(s, i, e, 1, e - i - 1, Upper);
      assert s[i] == s[i..e][0] && s[e - 1] == s[i..e][e - i - 1];
      RunEndIs(s, i + 1, e - 1, Upper);
    }
  }

  /** `re.match` of any of the patterns at `i`: the match it finds is in the
      pattern's language and no longer prefix of `s[i..]` is; there is no
      match exactly when no prefix is in the language. */
  lemma MatchEndIsLongest(p: Pattern, s: string, i: nat)
    requires i < |s|
    ensures MatchEnd(p, s, i).Some? ==> InLanguage(p, s[i..MatchEnd(p, s, i).value])
    ensures forall e :: i < e <= |s| && InLanguage(p, s[i..e]) ==>
              MatchEnd(p, s, i).Some? && e <= MatchEnd(p, s, i).value
  {
    match p
    case SetScore =>
      SetScoreAtIsLongest(s, i);
      forall e | i < e <= |s| && InLanguage(p, s[i..e])
        ensures MatchEnd(p, s, i).Some? && e <= MatchEnd(p, s, i).value
      {
        var a, b, c :| SetScoreSplit(s[i..e], a, b, c);
      }
    case Score =>
      ScoreEndIsLongest(s, i);
      forall e | i < e <= |s| && InLanguage(p, s[i..e])
        ensures MatchEnd(p, s, i).Some? && e <= MatchEnd(p, s, i).value
      {
        var b :| ScoreSplit(s[i..e], b);
      }
    case Tiebreak =>
      TiebreakAtIsLongest(s, i);
      forall e | i < e <= |s| && InLanguage(p, s[i..e])
        ensures MatchEnd(p, s, i).Some? && e <= MatchEnd(p, s, i).value
      {
        var a, b :| TiebreakSplit(s[i..e], a, b);
      }
    case CountryCode => CountryCodeEndIsLongest(s, i);
    case SlashSeed => SlashSeedEndIsLongest(s, i);
    case Seed => SeedEndIsLongest(s, i);
    case CountryTag => CountryTagEndIsLongest(s, i);
  }

  /** Where a match of `p` starting at each position of `s` would end: the
      table the scans below read. */
  function Ends(p: Pattern, s: string): (t: seq<Option<nat>>)
    ensures |t| == |s|
    ensures forall k :: 0 <= k < |s| ==> t[k] == MatchEnd(p, s, k)
    ensures EndsWellFormed(t)
  {
    seq(|s|, k requires 0 <= k < |s| => MatchEnd(p, s, k))
  }

  /** Every match ends after it starts and within the string. */
  ghost predicate EndsWellFormed(t: seq<Option<nat>>) {
    forall k :: 0 <= k < |t| && t[k].Some? ==> k < t[k].value <= |t|
  }

  /** No match starts strictly inside another one. */
  ghost predicate NonOverlapping(t: seq<Option<nat>>) {
    forall i, k :: 0 <= i < k < |t| && t[i].Some? && k < t[i].value ==> t[k].None?
  }

  /** `p` matches at `k`, and at no other position of `s`. */
  ghost predicate UniqueMatch(p: Pattern, s: string, k: nat) {
    UniqueIn(Ends(p, s), k)
  }

  ghost predicate UniqueIn(t: seq<Option<nat>>, k: nat) {
    k < |t| && t[k].Some? &&
    forall k' :: 0 <= k' < |t| && t[k'].Some? ==> k' == k
  }

  /** The start positions of the matches `re.findall(p, s)` reports: each
      match begins at or after the end of the one before.  `FindAllIsLeftmost`
      shows that no match is missed. */
  function FindAll(p: Pattern, s: string): (r: seq<nat>)
    ensures forall j :: 0 <= j < |r| ==> r[j] < |s| && MatchEnd(p, s, r[j]).Some?
    ensures forall j, j' :: 0 <= j < j' < |r| ==> r[j] < r[j']
    ensures forall j :: 0 <= j < |r| - 1 ==> MatchEnd(p, s, r[j]).value <= r[j + 1]
  {
    Scan(Ends(p, s), 0)
  }

  /** `re.findall` skips a position where the pattern matches only when that
      position lies inside a match it has already reported. */
  lemma FindAllIsLeftmost(p: Pattern, s: string)
    ensures forall k :: 0 <= k < |s| && MatchEnd(p, s, k).Some? && !Covered(Ends(p, s), FindAll(p, s), k) ==>
              k in FindAll(p, s)
  {
    ScanLeftmost(Ends(p, s), 0);
  }

  /** Position `k` lies inside one of the matches that start at `r`. */
  ghost predicate Covered(t: seq<Option<nat>>, r: seq<nat>, k: nat) {
    exists j :: 0 <= j < |r| && r[j] < |t| && t[r[j]].Some? && r[j] <= k < t[r[j]].value
  }

  /** Try a match at each position from the left, and resume after each match. */
  function Scan(t: seq<Option<nat>>, i: nat): (r: seq<nat>)
    requires EndsWellFormed(t)
    ensures forall j :: 0 <= j < |r| ==> i <= r[j] < |t| && t[r[j]].Some?
    ensures forall j, j' :: 0 <= j < j' < |r| ==> r[j] < r[j']
    ensures forall j :: 0 <= j < |r| - 1 ==> t[r[j]].value <= r[j + 1]
    decreases |t| - i
  {
    if i >= |t| then []
    else
      match t[i]
      case Some(e) => [i] + Scan(t, e)
      case None => Scan(t, i + 1)
  }

  /** The scan misses no match start that lies outside the matches it reports. */
  lemma {:induction false} ScanLeftmost(t: seq<Option<nat>>, i: nat)
    requires EndsWellFormed(t)
    ensures forall k :: i <= k < |t| && t[k].Some? && !Covered(t, Scan(t, i), k) ==> k in Scan(t, i)
    decreases |t| - i
  {
    if i < |t| {
      match t[i]
      case Some(e) =>
        ScanLeftmost(t, e);
        assert Scan(t, i) == [i] + Scan(t, e);
        CoveredByScan(t, i, e, Scan(t, e));
      case None =>
        ScanLeftmost(t, i + 1);
    }
  }

  /** A match reported at `i` and ending at `e` covers what lies before `e`,
      and keeps covered what the later matches cover. */
  lemma CoveredByScan(t: seq<Option<nat>>, i: nat, e: nat, rest: seq<nat>)
    requires i < |t| && t[i] == Some(e)
    ensures forall k :: i <= k < e ==> Covered(t, [i] + rest, k)
    ensures forall k: nat :: Covered(t, rest, k) ==> Covered(t, [i] + rest, k)
  {
    var r := [i] + rest;
    forall k | i <= k < e
      ensures Covered(t, r, k)
    {
      assert r[0] == i;
    }
    forall k: nat | Covered(t, rest, k)
      ensures Covered(t, r, k)
    {
      var j :| 0 <= j < |rest| && rest[j] < |t| && t[rest[j]].Some? && rest[j] <= k < t[rest[j]].value;
      assert r[j + 1] == rest[j];
    }
  }

  /** Every position from `i` at which a match starts, overlapping or not. */
  function AllStarts(t: seq<Option<nat>>, i: nat): (r: seq<nat>)
    ensures forall j :: 0 <= j < |r| ==> i <= r[j] < |t| && t[r[j]].Some?
    ensures forall j, j' :: 0 <= j < j' < |r| ==> r[j] < r[j']
    ensures forall k :: i <= k < |t| && t[k].Some? ==> k in r
    decreases |t| - i
  {
    if i >= |t| then []
    else if t[i].Some? then [i] + AllStarts(t, i + 1)
    else AllStarts(t, i + 1)
  }

  /** Patterns that open with a character that cannot occur later in one of
      their own matches, so that two of their matches never overlap. */
  predicate OpensUniquely(p: Pattern) {
    p == Tiebreak || p == CountryCode
  }

  lemma NoMatchInside(p: Pattern, s: string, i: nat, k: nat)
    requires OpensUniquely(p)
    requires MatchEnd(p, s, i).Some? && i < k < MatchEnd(p, s, i).value
    ensures MatchEnd(p, s, k).None?
  {
    if p == Tiebreak {
      assert TiebreakAt(s, i).Some?;
      var a := RunEnd(s, i + 1, Space);
      var b := RunEnd(s, a, Digit);
      var c := RunEnd(s, b, Space);
      assert s[k] != '(' by {
        if k < a {
          assert IsSpace(s[k]);
        } else if k < b {
          assert IsDigit(s[k]);
        } else if k < c {
          assert IsSpace(s[k]);
        }
      }
    }
  }

  lemma EndsNonOverlapping(p: Pattern, s: string)
    requires OpensUniquely(p)
    ensures NonOverlapping(Ends(p, s))
  {
    var t := Ends(p, s);
    forall i, k | 0 <= i < k < |t| && t[i].Some? && k < t[i].value
      ensures t[k].None?
    {
      NoMatchInside(p, s, i, k);
    }
  }

  /** A stretch with no match start contributes nothing to the scan. */
  lemma {:induction false} ScanMatchFree(t: seq<Option<nat>>, i: nat, e: nat)
    requires EndsWellFormed(t) && i <= e
    requires forall k :: i <= k < e && k < |t| ==> t[k].None?
    ensures Scan(t, i) == Scan(t, e)
    decreases e - i
  {
    if i < e && i < |t| {
      ScanMatchFree(t, i + 1, e);
    }
  }

  lemma {:induction false} SkipMatchFree(t: seq<Option<nat>>, i: nat, e: nat)
    requires i <= e
    requires forall k :: i <= k < e && k < |t| ==> t[k].None?
    ensures AllStarts(t, i) == AllStarts(t, e)
    decreases e - i
  {
    if i < e {
      SkipMatchFree(t, i + 1, e);
    }
  }

  /** When matches cannot overlap, the leftmost non-overlapping scan finds
      every position at which a match starts. */
  lemma {:induction false} ScanIsAllStarts(t: seq<Option<nat>>, i: nat)
    requires EndsWellFormed(t) && NonOverlapping(t)
    ensures Scan(t, i) == AllStarts(t, i)
    decreases |t| - i
  {
    if i < |t| {
      match t[i]
      case Some(e) =>
        ScanIsAllStarts(t, e);
        SkipMatchFree(t, i + 1, e);
      case None =>
        ScanIsAllStarts(t, i + 1);
    }
  }

  /** `re.findall` reports exactly one match if and only if the pattern
      matches at exactly one position, and then that position. */
  lemma SingleFind(p: Pattern, s: string)
    requires OpensUniquely(p)
    ensures |FindAll(p, s)| == 1 <==> exists k :: UniqueMatch(p, s, k)
    ensures forall k: nat :: UniqueMatch(p, s, k) ==> FindAll(p, s) == [k]
  {
    var t := Ends(p, s);
    EndsNonOverlapping(p, s);
    SingleScan(t);
    assert FindAll(p, s) == Scan(t, 0);
    assert forall k :: UniqueMatch(p, s, k) <==> UniqueIn(t, k);
  }

  lemma SingleScan(t: seq<Option<nat>>)
    requires EndsWellFormed(t) && NonOverlapping(t)
    ensures |Scan(t, 0)| == 1 <==> exists k :: UniqueIn(t, k)
    ensures forall k: nat :: UniqueIn(t, k) ==> Scan(t, 0) == [k]
  {
    ScanIsAllStarts(t, 0);
    var a := AllStarts(t, 0);
    if |a| == 1 {
      forall k' | 0 <= k' < |t| && t[k'].Some?
        ensures k' == a[0]
      {
        assert k' in a;
      }
      assert UniqueIn(t, a[0]);
    }
    forall k: nat | UniqueIn(t, k)
      ensures a == [k]
    {
      AllStartsOfUnique(t, k, 0);
    }
  }

  lemma {:induction false} AllStartsOfUnique(t: seq<Option<nat>>, k: nat, i: nat)
    requires UniqueIn(t, k) && i <= k
    ensures AllStarts(t, i) == [k]
    decreases k - i
  {
    if i < k {
      AllStartsOfUnique(t, k, i + 1);
    } else {
      SkipMatchFree(t, k + 1, |t|);
    }
  }

  /** `re.sub(p, "", s)`: delete each leftmost non-overlapping match. */
  function RemoveAll(p: Pattern, s: string): (r: string)
    ensures |r| <= |s|
    ensures IsSubsequence(r, s)
    ensures IsBracketed(p) && '[' !in s ==> r == s
    decreases |s|
  {
    if |s| == 0 then []
    else
      match MatchEnd(p, s, 0)
      case Some(e) =>
        var r := RemoveAll(p, s[e..]);
        SubsequenceOfSuffix(r, s, e);
        r
      case None =>
        var r := RemoveAll(p, s[1..]);
        assert ([s[0]] + r)[1..] == r;
        [s[0]] + r
  }

  /** A bracketed pattern leaves a `[`-free prefix untouched. */
  lemma {:induction false} RemoveAllKeepsPlainPrefix(p: Pattern, a: string, b: string)
    requires IsBracketed(p) && '[' !in a
    ensures RemoveAll(p, a + b) == a + RemoveAll(p, b)
    decreases |a|
  {
    if |a| == 0 {
      assert a + b == b;
    } else {
      var s := a + b;
      var rest := RemoveAll(p, a[1..] + b);
      assert s[1..] == a[1..] + b;
      assert RemoveAll(p, s) == [a[0]] + rest by {
        assert a[0] in a;
        KeepFirst(p, s);
      }
      assert rest == a[1..] + RemoveAll(p, b) by {
        RemoveAllKeepsPlainPrefix(p, a[1..], b);
      }
      ConsAppend(a, RemoveAll(p, b));
    }
  }

  lemma ConsAppend(a: string, x: string)
    requires |a| > 0
    ensures [a[0]] + (a[1..] + x) == a + x
  {
    assert a == [a[0]] + a[1..];
  }

  /** A string that does not open with `[` keeps its first character. */
  lemma KeepFirst(p: Pattern, s: string)
    requires IsBracketed(p) && |s| > 0 && s[0] != '['
    ensures RemoveAll(p, s) == [s[0]] + RemoveAll(p, s[1..])
  {
    assert MatchEnd(p, s, 0).None?;
  }
  /* `re.sub` deletes exactly what `re.findall` finds.  The deletion works on
     ever shorter suffixes of `s`, the scan on positions of `s` itself; a
     match does not look behind its start, so the two agree. */

  /** The characters of `s` from position `k` on that no match starting at
      `r` covers, in order. */
  ghost function Uncovered(s: string, t: seq<Option<nat>>, r: seq<nat>, k: nat): string
    decreases |s| - k
  {
    if k >= |s| then []
    else (if Covered(t, r, k) then [] else [s[k]]) + Uncovered(s, t, r, k + 1)
  }

  /** `re.sub(p, "", s)` deletes exactly the characters inside the matches
      `re.findall(p, s)` reports, and keeps every other character in order. */
  lemma RemoveAllDeletesFound(p: Pattern, s: string)
    ensures RemoveAll(p, s) == Uncovered(s, Ends(p, s), FindAll(p, s), 0)
  {
    assert s[0..] == s;
    RemoveAllFrom(p, s, 0);
  }

  lemma {:induction false} RemoveAllFrom(p: Pattern, s: string, i: nat)
    requires i <= |s|
    ensures RemoveAll(p, s[i..]) == Uncovered(s, Ends(p, s), Scan(Ends(p, s), i), i)
    decreases |s| - i
  {
    var t := Ends(p, s);
    if i < |s| {
      match t[i]
      case Some(e) =>
        RemoveAllFrom(p, s, e);
        RemoveAllMatchStep(p, s, i, e);
      case None =>
        RemoveAllFrom(p, s, i + 1);
        RemoveAllPlainStep(p, s, i);
    }
  }

  /** A match at `i` ending at `e`: `re.sub` resumes at `e`, and the scan
      covers `i` up to `e`. */
  lemma RemoveAllMatchStep(p: Pattern, s: string, i: nat, e: nat)
    requires i < |s| && Ends(p, s)[i] == Some(e)
    requires RemoveAll(p, s[e..]) == Uncovered(s, Ends(p, s), Scan(Ends(p, s), e), e)
    ensures RemoveAll(p, s[i..]) == Uncovered(s, Ends(p, s), Scan(Ends(p, s), i), i)
  {
    assert MatchEnd(p, s, i) == Some(e);
    SubMatchResumes(p, s, i, e);
    UncoveredPastMatch(s, Ends(p, s), i, e);
  }

  /** `re.sub` resumes after the match at `i`, at its end `e`. */
  lemma SubMatchResumes(p: Pattern, s: string, i: nat, e: nat)
    requires i < |s| && MatchEnd(p, s, i) == Some(e)
    ensures i < e <= |s| && RemoveAll(p, s[i..]) == RemoveAll(p, s[e..])
  {
    var w := s[i..];
    MatchEndShift(p, s, i);
    RemoveAllAtMatch(p, w, e - i);
    assert w[e - i..] == s[e..];
  }

  lemma RemoveAllAtMatch(p: Pattern, w: string, m: nat)
    requires 0 < |w| && MatchEnd(p, w, 0) == Some(m)
    ensures RemoveAll(p, w) == RemoveAll(p, w[m..])
  {
  }

  /** The scan from `i` covers `i` up to `e` with its first match, and from
      `e` on covers what the scan from `e` covers. */
  lemma UncoveredPastMatch(s: string, t: seq<Option<nat>>, i: nat, e: nat)
    requires |t| == |s| && EndsWellFormed(t) && i < |t| && t[i] == Some(e)
    ensures Uncovered(s, t, Scan(t, i), i) == Uncovered(s, t, Scan(t, e), e)
  {
    var rest := Scan(t, e);
    assert Scan(t, i) == [i] + rest;
    CoveredByScan(t, i, e, rest);
    UncoveredSkip(s, t, [i] + rest, i, e);
    ScanCoverFrom(t, i, e);
    UncoveredAgree(s, t, [i] + rest, rest, e);
  }

  /** No match at `i`: `re.sub` keeps `s[i]`, and nothing covers it. */
  lemma RemoveAllPlainStep(p: Pattern, s: string, i: nat)
    requires i < |s| && Ends(p, s)[i] == None
    requires RemoveAll(p, s[i + 1..]) == Uncovered(s, Ends(p, s), Scan(Ends(p, s), i + 1), i + 1)
    ensures RemoveAll(p, s[i..]) == Uncovered(s, Ends(p, s), Scan(Ends(p, s), i), i)
  {
    var t := Ends(p, s);
    var w := s[i..];
    var rest := Scan(t, i + 1);
    MatchEndShift(p, s, i);
    assert w[1..] == s[i + 1..] && w[0] == s[i];
    assert RemoveAll(p, w) == [s[i]] + RemoveAll(p, s[i + 1..]);
    assert !Covered(t, rest, i);
  }

  /** Positions all covered from `k` up to `e` contribute nothing. */
  lemma {:induction false} UncoveredSkip(s: string, t: seq<Option<nat>>, r: seq<nat>, k: nat, e: nat)
    requires k <= e <= |s|
    requires forall k' :: k <= k' < e ==> Covered(t, r, k')
    ensures Uncovered(s, t, r, k) == Uncovered(s, t, r, e)
    decreases e - k
  {
    if k < e {
      UncoveredSkip(s, t, r, k + 1, e);
    }
  }

  /** Two match lists that cover the same positions from `k` on keep the same
      characters from `k` on. */
  lemma {:induction false} UncoveredAgree(s: string, t: seq<Option<nat>>, r: seq<nat>, r': seq<nat>, k: nat)
    requires forall k' :: k <= k' < |s| ==> (Covered(t, r, k') <==> Covered(t, r', k'))
    ensures Uncovered(s, t, r, k) == Uncovered(s, t, r', k)
    decreases |s| - k
  {
    if k < |s| {
      UncoveredAgree(s, t, r, r', k + 1);
    }
  }

  /** Past the end `e` of the match at `i`, only the later matches cover. */
  lemma ScanCoverFrom(t: seq<Option<nat>>, i: nat, e: nat)
    requires EndsWellFormed(t) && i < |t| && t[i] == Some(e)
    ensures forall k: nat :: e <= k ==> (Covered(t, [i] + Scan(t, e), k) <==> Covered(t, Scan(t, e), k))
  {
    var rest := Scan(t, e);
    var r := [i] + rest;
    CoveredByScan(t, i, e, rest);
    forall k: nat | e <= k && Covered(t, r, k)
      ensures Covered(t, rest, k)
    {
      var j :| 0 <= j < |r| && r[j] < |t| && t[r[j]].Some? && r[j] <= k < t[r[j]].value;
      assert j > 0 && r[j] == rest[j - 1];
    }
  }

  /** A match does not look behind its start: matching at `d` in `s` is
      matching at `0` in `s[d..]`, with every position moved by `d`. */
  lemma MatchEndShift(p: Pattern, s: string, d: nat)
    requires d < |s|
    ensures MatchEnd(p, s[d..], 0).Some? == MatchEnd(p, s, d).Some?
    ensures MatchEnd(p, s, d).Some? ==> MatchEnd(p, s[d..], 0).value + d == MatchEnd(p, s, d).value
  {
    match p
    case SetScore => SetScoreAtShift(s, d);
    case Score => ScoreEndShift(s, d);
    case Tiebreak => TiebreakAtShift(s, d);
    case CountryCode =>
    case SlashSeed =>
    case Seed =>
    case CountryTag => CountryTagEndShift(s, d);
  }

  lemma {:induction false} RunEndShift(s: string, d: nat, j: nat, cls: Class)
    requires d + j <= |s|
    ensures RunEnd(s[d..], j, cls) + d == RunEnd(s, d + j, cls)
    decreases |s| - d - j
  {
    var w := s[d..];
    if j < |w| {
      assert w[j] == s[d + j];
      if InClass(w[j], cls) {
        RunEndShift(s, d, j + 1, cls);
      }
    }
  }

  lemma SetScoreAtShift(s: string, d: nat)
    requires d < |s|
    ensures SetScoreAt(s[d..], 0).Some? == SetScoreAt(s, d).Some?
    ensures SetScoreAt(s, d).Some? ==> SetScoreAt(s[d..], 0).value.second.end + d == SetScoreAt(s, d).value.second.end
  {
    var a := RunEnd(s, d, Digit);
    var b := RunEnd(s, a, Space);
    var c := if b < |s| then RunEnd(s, b + 1, Space) else b;
    var e := if b < |s| then RunEnd(s, c, Digit) else b;
    var dash := b < |s| && s[b] == '-';
    SetScoreAtIs(s, d, a, b, dash, c, e);
    SliceIs(s, d, a, b, dash, c, e);
    SetScoreOfRunsShift(s, s[d..], d, a, b, dash, c, e, a - d, b - d, c - d, e - d);
  }

  /** `SetScoreAt` as a function of its run ends and the dash alone. */
  function SetScoreOfRuns(i: nat, a: nat, b: nat, dash: bool, c: nat, e: nat): Option<SetScoreMatch>
  {
    if a == i || !dash || e == c then None else Some(SetScoreMatch(Group(i, a), Group(c, e)))
  }

  lemma SetScoreAtIs(s: string, i: nat, a: nat, b: nat, dash: bool, c: nat, e: nat)
    requires i < |s| && a == RunEnd(s, i, Digit) && b == RunEnd(s, a, Space)
    requires dash == (b < |s| && s[b] == '-')
    requires b < |s| ==> c == RunEnd(s, b + 1, Space) && e == RunEnd(s, c, Digit)
    ensures SetScoreAt(s, i) == SetScoreOfRuns(i, a, b, dash, c, e)
  {
  }

  /** The run ends of `s` from `d`, moved back by `d`, are those of `s[d..]` from 0. */
  lemma SliceRuns(s: string, d: nat, a: nat, b: nat, c: nat, e: nat)
    requires d < |s| && a == RunEnd(s, d, Digit) && b == RunEnd(s, a, Space)
    requires b < |s| ==> c == RunEnd(s, b + 1, Space) && e == RunEnd(s, c, Digit)
    requires b == |s| ==> c == b && e == b
    ensures d <= a <= b <= c <= e
    ensures var w := s[d..];
            a - d == RunEnd(w, 0, Digit) && b - d == RunEnd(w, a - d, Space) &&
            (b - d < |w| && w[b - d] == '-') == (b < |s| && s[b] == '-') &&
            (b - d < |w| ==> c - d == RunEnd(w, b - d + 1, Space) && e - d == RunEnd(w, c - d, Digit))
  {
    FirstRunsShift(s, d);
    if b < |s| {
      SecondRunsShift(s, d, b);
    }
  }

  /** `SetScoreAt` on `s[d..]` from 0, by the run ends of `s` from `d`. */
  lemma SliceIs(s: string, d: nat, a: nat, b: nat, dash: bool, c: nat, e: nat)
    requires d < |s| && a == RunEnd(s, d, Digit) && b == RunEnd(s, a, Space)
    requires dash == (b < |s| && s[b] == '-')
    requires b < |s| ==> c == RunEnd(s, b + 1, Space) && e == RunEnd(s, c, Digit)
    requires b == |s| ==> c == b && e == b
    ensures d <= a <= b <= c <= e
    ensures SetScoreAt(s[d..], 0) == SetScoreOfRuns(0, a - d, b - d, dash, c - d, e - d)
  {
    SliceRuns(s, d, a, b, c, e);
    ShiftedIs(s, s[d..], d, a, b, dash, c, e);
  }

  /** `SetScoreAtIs` for a string `w` whose run ends are those of `s` moved back by `d`. */
  lemma ShiftedIs(s: string, w: string, d: nat, a: nat, b: nat, dash: bool, c: nat, e: nat)
    requires d < |s| && |w| + d == |s| && d <= a <= b <= c <= e
    requires dash == (b < |s| && s[b] == '-')
    requires a - d == RunEnd(w, 0, Digit) && b - d == RunEnd(w, a - d, Space)
    requires (b - d < |w| && w[b - d] == '-') == (b < |s| && s[b] == '-')
    requires b - d < |w| ==> c - d == RunEnd(w, b - d + 1, Space) && e - d == RunEnd(w, c - d, Digit)
    ensures SetScoreAt(w, 0) == SetScoreOfRuns(0, a - d, b - d, dash, c - d, e - d)
  {
    SetScoreAtIs(w, 0, a - d, b - d, dash, c - d, e - d);
  }

  lemma SetScoreOfRunsShift(s: string, w: string, d: nat, a: nat, b: nat, dash: bool, c: nat, e: nat,
                            a': nat, b': nat, c': nat, e': nat)
    requires d < |s| && 0 < |w| && a' + d == a && b' + d == b && c' + d == c && e' + d == e
    requires SetScoreAt(s, d) == SetScoreOfRuns(d, a, b, dash, c, e)
    requires SetScoreAt(w, 0) == SetScoreOfRuns(0, a', b', dash, c', e')
    ensures SetScoreAt(w, 0).Some? == SetScoreAt(s, d).Some?
    ensures SetScoreAt(s, d).Some? ==> SetScoreAt(w, 0).value.second.end + d == SetScoreAt(s, d).value.second.end
  {
  }

  /** The runs `SetScoreAt` takes, seen from `s[d..]`: up to the dash, */
  lemma FirstRunsShift(s: string, d: nat)
    requires d < |s|
    ensures var a := RunEnd(s, d, Digit);
            RunEnd(s[d..], 0, Digit) + d == a && RunEnd(s[d..], a - d, Space) + d == RunEnd(s, a, Space)
  {
    RunEndShiftAt(s, d, d, Digit);
    RunEndShiftAt(s, d, RunEnd(s, d, Digit), Space);
  }

  /** and after the dash at `b`. */
  lemma SecondRunsShift(s: string, d: nat, b: nat)
    requires d <= b < |s|
    ensures var w := s[d..];
            w[b - d] == s[b] && RunEnd(w, b + 1 - d, Space) + d == RunEnd(s, b + 1, Space) &&
            RunEnd(w, RunEnd(s, b + 1, Space) - d, Digit) + d == RunEnd(s, RunEnd(s, b + 1, Space), Digit)
  {
    RunEndShiftAt(s, d, b + 1, Space);
    RunEndShiftAt(s, d, RunEnd(s, b + 1, Space), Digit);
  }

  /** `RunEndShift` at the position `x` of `s`. */
  lemma RunEndShiftAt(s: string, d: nat, x: nat, cls: Class)
    requires d <= x <= |s|
    ensures RunEnd(s[d..], x - d, cls) + d == RunEnd(s, x, cls)
  {
    RunEndShift(s, d, x - d, cls);
  }

  lemma ScoreEndShift(s: string, d: nat)
    requires d < |s|
    ensures ScoreEnd(s[d..], 0).Some? == ScoreEnd(s, d).Some?
    ensures ScoreEnd(s, d).Some? ==> ScoreEnd(s[d..], 0).value + d == ScoreEnd(s, d).value
  {
    var w := s[d..];
    var a := RunEnd(s, d, Digit);
    RunEndShift(s, d, 0, Digit);
    if a < |s| {
      assert w[a - d] == s[a];
      RunEndShift(s, d, a + 1 - d, Digit);
    }
  }

  lemma TiebreakAtShift(s: string, d: nat)
    requires d < |s|
    ensures TiebreakAt(s[d..], 0).Some? == TiebreakAt(s, d).Some?
    ensures TiebreakAt(s, d).Some? ==> TiebreakAt(s[d..], 0).value.end + d == TiebreakAt(s, d).value.end
  {
    var a := RunEnd(s, d + 1, Space);
    var b := RunEnd(s, a, Digit);
    var c := RunEnd(s, b, Space);
    var open, close := s[d] == '(', c < |s| && s[c] == ')';
    TiebreakAtIs(s, d, open, a, b, c, close);
    TiebreakSliceIs(s, d, open, a, b, c, close);
    TiebreakOfRunsShift(s, s[d..], d, open, a, b, c, close, a - d, b - d, c - d);
  }

  /** `TiebreakAt` as a function of its bracket tests and run ends alone. */
  function TiebreakOfRuns(open: bool, a: nat, b: nat, close: bool, c: nat): Option<TiebreakMatch>
  {
    if !open || b == a || !close then None else Some(TiebreakMatch(Group(a, b), c + 1))
  }

  lemma TiebreakAtIs(s: string, i: nat, open: bool, a: nat, b: nat, c: nat, close: bool)
    requires i < |s| && open == (s[i] == '(')
    requires a == RunEnd(s, i + 1, Space) && b == RunEnd(s, a, Digit) && c == RunEnd(s, b, Space)
    requires close == (c < |s| && s[c] == ')')
    ensures TiebreakAt(s, i) == TiebreakOfRuns(open, a, b, close, c)
  {
  }

  /** `TiebreakAt` on `s[d..]` from 0, by the run ends of `s` from `d`. */
  lemma TiebreakSliceIs(s: string, d: nat, open: bool, a: nat, b: nat, c: nat, close: bool)
    requires d < |s| && open == (s[d] == '(')
    requires a == RunEnd(s, d + 1, Space) && b == RunEnd(s, a, Digit) && c == RunEnd(s, b, Space)
    requires close == (c < |s| && s[c] == ')')
    ensures d < a <= b <= c
    ensures TiebreakAt(s[d..], 0) == TiebreakOfRuns(open, a - d, b - d, close, c - d)
  {
    TiebreakRunsShift(s, d);
    assert s[d..][0] == s[d];
    TiebreakShiftedIs(s, s[d..], d, open, a, b, c, close);
  }

  /** `TiebreakAtIs` for a string `w` whose run ends are those of `s` moved back by `d`. */
  lemma TiebreakShiftedIs(s: string, w: string, d: nat, open: bool, a: nat, b: nat, c: nat, close: bool)
    requires d < |s| && |w| + d == |s| && d < a <= b <= c
    requires open == (w[0] == '(')
    requires a - d == RunEnd(w, 1, Space) && b - d == RunEnd(w, a - d, Digit) && c - d == RunEnd(w, b - d, Space)
    requires close == (c - d < |w| && w[c - d] == ')')
    ensures TiebreakAt(w, 0) == TiebreakOfRuns(open, a - d, b - d, close, c - d)
  {
    TiebreakAtIs(w, 0, open, a - d, b - d, c - d, close);
  }

  lemma TiebreakOfRunsShift(s: string, w: string, d: nat, open: bool, a: nat, b: nat, c: nat, close: bool,
                            a': nat, b': nat, c': nat)
    requires d < |s| && 0 < |w| && a' + d == a && b' + d == b && c' + d == c
    requires TiebreakAt(s, d) == TiebreakOfRuns(open, a, b, close, c)
    requires TiebreakAt(w, 0) == TiebreakOfRuns(open, a', b', close, c')
    ensures TiebreakAt(w, 0).Some? == TiebreakAt(s, d).Some?
    ensures TiebreakAt(s, d).Some? ==> TiebreakAt(w, 0).value.end + d == TiebreakAt(s, d).value.end
  {
  }

  /** The runs `TiebreakAt` takes, seen from `s[d..]`. */
  lemma TiebreakRunsShift(s: string, d: nat)
    requires d < |s|
    ensures var w := s[d..];
            var a := RunEnd(s, d + 1, Space);
            var b := RunEnd(s, a, Digit);
            var c := RunEnd(s, b, Space);
            RunEnd(w, 1, Space) + d == a && RunEnd(w, a - d, Digit) + d == b &&
            RunEnd(w, b - d, Space) + d == c && (c < |s| ==> w[c - d] == s[c])
  {
    var a := RunEnd(s, d + 1, Space);
    RunEndShiftAt(s, d, d + 1, Space);
    RunEndShiftAt(s, d, a, Digit);
    RunEndShiftAt(s, d, RunEnd(s, a, Digit), Space);
  }

  lemma CountryTagEndShift(s: string, d: nat)
    requires d < |s|
    ensures CountryTagEnd(s[d..], 0).Some? == CountryTagEnd(s, d).Some?
    ensures CountryTagEnd(s, d).Some? ==> CountryTagEnd(s[d..], 0).value + d == CountryTagEnd(s, d).value
  {
    var w := s[d..];
    assert w[0] == s[d];
    if s[d] == '[' {
      var a := RunEnd(s, d + 1, Upper);
      RunEndShift(s, d, 1, Upper);
      if a < |s| {
        assert w[a - d] == s[a];
      }
    }
  }
}
