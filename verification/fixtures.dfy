/** The bracket reconstruction of tsw/util.py: `get_fixtures_for_draw` picks
    the round columns of a draw table and cleans their cells, and
    `clean_fixtures` pairs the cells of each round column into matches with
    a power-of-two stride. */
module Fixtures {
  import opened Wrappers
  import opened Text
  import opened Names

  /** A named column of a draw table, its cells top to bottom. */
  datatype Column = Column(name: string, cells: seq<string>)

  /** One round of a reconstructed draw: its matches, each the list of its two
      players, and the date the round was played, when one is known. */
  datatype Round = Round(name: string, matches: seq<seq<string>>, date: Option<string>)

  /** Python's `sub in s` on strings: `sub` occurs at some position of `s`. */
  predicate Contains(s: string, sub: string)
    decreases |s|
  {
    (|sub| <= |s| && s[..|sub|] == sub) || (|s| > 0 && Contains(s[1..], sub))
  }

  /** `sub` sits in `s` starting at position `k`. */
  ghost predicate OccursAt(s: string, sub: string, k: nat) {
    k + |sub| <= |s| && s[k..k + |sub|] == sub
  }

  /** `Contains` is substring search: it holds exactly when `sub` sits at
      some position of `s`. */
  lemma {:induction false} ContainsOccurs(s: string, sub: string)
    ensures Contains(s, sub) <==> exists k: nat :: OccursAt(s, sub, k)
    decreases |s|
  {
    if |sub| <= |s| && s[..|sub|] == sub {
      assert OccursAt(s, sub, 0);
    }
    if |s| > 0 {
      ContainsOccurs(s[1..], sub);
      if exists k: nat :: OccursAt(s[1..], sub, k) {
        var k: nat :| OccursAt(s[1..], sub, k);
        assert s[k + 1..k + 1 + |sub|] == s[1..][k..k + |sub|];
        assert OccursAt(s, sub, k + 1);
      }
      if exists k: nat :: OccursAt(s, sub, k) {
        var k: nat :| OccursAt(s, sub, k);
        if k > 0 {
          assert s[1..][k - 1..k - 1 + |sub|] == s[k..k + |sub|];
          assert OccursAt(s[1..], sub, k - 1);
        }
      }
    } else {
      if exists k: nat :: OccursAt(s, sub, k) {
        var k: nat :| OccursAt(s, sub, k);
        assert s[..|sub|] == s[k..k + |sub|];
      }
    }
  }

  /** The header of a column that holds a round of the draw. */
  predicate IsRoundHeader(name: string) {
    Contains(name, "Round") || Contains(name, "Finals")
  }

  /** A round header is one with `Round` or `Finals` somewhere in it, case
      and all. */
  lemma RoundHeaderNames(name: string)
    ensures IsRoundHeader(name) <==>
              (exists k: nat :: OccursAt(name, "Round", k)) || (exists k: nat :: OccursAt(name, "Finals", k))
  {
    ContainsOccurs(name, "Round");
    ContainsOccurs(name, "Finals");
  }

  /** The search is case-sensitive: `round 1` heads no round. */
  lemma LowerCaseIsNoRoundHeader()
    ensures !IsRoundHeader("round 1")
  {
    Absent("round 1", 'R', "Round");
    Absent("round 1", 'F', "Finals");
  }

  /** A string without the first letter of `sub` does not contain `sub`. */
  lemma Absent(s: string, c: char, sub: string)
    requires |sub| > 0 && sub[0] == c && c !in s
    ensures !Contains(s, sub)
  {
    ContainsOccurs(s, sub);
  }

  /** No two columns share a name, as for the keys of a dict. */
  ghost predicate DistinctNames(columns: seq<Column>) {
    forall i, j :: 0 <= i < j < |columns| ==> columns[i].name != columns[j].name
  }

  /** `[clean_name(element) for element in column]`: each cell, in place, is
      cleaned as `IsCleanedCell` describes. */
  function CleanColumn(cells: seq<string>): (r: seq<string>)
    ensures |r| == |cells|
    ensures forall i :: 0 <= i < |cells| ==> IsCleanedCell(r[i], cells[i])
  {
    CleanCellsAreCleaned(cells);
    seq(|cells|, i requires 0 <= i < |cells| => CleanName(cells[i]))
  }

  /** `cell` is `raw` with characters deleted and no whitespace left at either
      end, and it is `raw` trimmed when `raw` holds no `[`. */
  ghost predicate IsCleanedCell(cell: string, raw: string) {
    IsSubsequence(cell, raw) &&
    (|cell| == 0 || (!IsSpace(cell[0]) && !IsSpace(cell[|cell| - 1]))) &&
    ('[' !in raw ==> cell == Trim(raw))
  }

  lemma CleanCellsAreCleaned(cells: seq<string>)
    ensures forall i :: 0 <= i < |cells| ==> IsCleanedCell(CleanName(cells[i]), cells[i])
  {
    forall i | 0 <= i < |cells|
      ensures IsCleanedCell(CleanName(cells[i]), cells[i])
    {
      var c := CleanName(cells[i]);
    }
  }

  /** A round column with its cells cleaned. */
  function CleanedColumn(column: Column): Column {
    Column(column.name, CleanColumn(column.cells))
  }

  /** `get_fixtures_for_draw`: the round columns in table order, each cleaned
      cell by cell.  Columns of unequal length are kept as they are: the
      source only logs a warning about them. */
  function GetFixturesForDraw(draw: seq<Column>): (r: seq<Column>)
    ensures |r| <= |draw|
    ensures forall i :: 0 <= i < |r| ==> IsRoundHeader(r[i].name)
  {
    if |draw| == 0 then []
    else if IsRoundHeader(draw[0].name) then [CleanedColumn(draw[0])] + GetFixturesForDraw(draw[1..])
    else GetFixturesForDraw(draw[1..])
  }

  /** `c` is a round column of `draw`, cleaned. */
  ghost predicate CleanedRoundColumnOf(draw: seq<Column>, c: Column) {
    exists d :: d in draw && IsRoundHeader(d.name) && c == CleanedColumn(d)
  }

  /** The fixtures are exactly the round columns, cleaned. */
  lemma {:induction false} FixturesAreRoundColumns(draw: seq<Column>, c: Column)
    ensures c in GetFixturesForDraw(draw) <==> CleanedRoundColumnOf(draw, c)
    decreases |draw|
  {
    if |draw| > 0 {
      FixturesAreRoundColumns(draw[1..], c);
      assert draw == [draw[0]] + draw[1..];
      if CleanedRoundColumnOf(draw, c) {
        var d :| d in draw && IsRoundHeader(d.name) && c == CleanedColumn(d);
        if d != draw[0] {
          assert d in draw[1..];
        }
      }
    }
  }

  /** Every column of the fixtures carries the name of a column of the table. */
  lemma {:induction false} FixtureNamesFromDraw(draw: seq<Column>, i: nat)
    requires i < |GetFixturesForDraw(draw)|
    ensures exists j :: 0 <= j < |draw| && draw[j].name == GetFixturesForDraw(draw)[i].name
    decreases |draw|
  {
    var r := GetFixturesForDraw(draw);
    if IsRoundHeader(draw[0].name) && i == 0 {
      assert draw[0].name == r[0].name;
    } else {
      var i' := if IsRoundHeader(draw[0].name) then i - 1 else i;
      FixtureNamesFromDraw(draw[1..], i');
      var j :| 0 <= j < |draw[1..]| && draw[1..][j].name == GetFixturesForDraw(draw[1..])[i'].name;
      assert draw[j + 1].name == r[i].name;
    }
  }

  /** A table whose headers differ gives fixtures whose round names differ. */
  lemma {:induction false} FixturesKeepNamesDistinct(draw: seq<Column>)
    requires DistinctNames(draw)
    ensures DistinctNames(GetFixturesForDraw(draw))
    decreases |draw|
  {
    if |draw| > 0 {
      var rest := GetFixturesForDraw(draw[1..]);
      FixturesKeepNamesDistinct(draw[1..]);
      if IsRoundHeader(draw[0].name) {
        var r := GetFixturesForDraw(draw);
        forall i, j | 0 <= i < j < |r|
          ensures r[i].name != r[j].name
        {
          if i == 0 {
            assert r[j] == rest[j - 1];
            FixtureNamesFromDraw(draw[1..], j - 1);
            var k :| 0 <= k < |draw[1..]| && draw[1..][k].name == rest[j - 1].name;
            assert draw[k + 1].name == r[j].name;
          } else {
            assert r[i] == rest[i - 1] && r[j] == rest[j - 1];
          }
        }
      }
    }
  }

  /** The columns of two tables side by side give their fixtures side by side. */
  lemma {:induction false} FixturesOfAppend(a: seq<Column>, b: seq<Column>)
    ensures GetFixturesForDraw(a + b) == GetFixturesForDraw(a) + GetFixturesForDraw(b)
    decreases |a|
  {
    if |a| == 0 {
      assert a + b == b;
    } else {
      assert (a + b)[0] == a[0];
      assert (a + b)[1..] == a[1..] + b;
      FixturesOfAppend(a[1..], b);
    }
  }

  /** A one-column table gives that column, cleaned, exactly when its header
      names a round.  With `FixturesOfAppend` this fixes the fixtures of
      every table. */
  lemma FixturesOfColumn(c: Column)
    ensures GetFixturesForDraw([c]) == if IsRoundHeader(c.name) then [CleanedColumn(c)] else []
  {
    assert [c][1..] == [];
  }

  /** Headers of a draw table that name rounds. */
  lemma RoundHeaderExamples()
    ensures IsRoundHeader("Round 1") && IsRoundHeader("Finals")
  {
  }

  /** "Finals" found past the start of a header. */
  lemma QuarterFinalsIsRoundHeader()
    ensures IsRoundHeader("Quarter Finals")
  {
    assert "Quarter Finals"[8..][..6] == "Finals";
    assert Contains("Quarter Finals"[8..], "Finals");
  }

  /** A header that names no round. */
  lemma DrawIsNoRoundHeader()
    ensures !IsRoundHeader("Draw")
  {
  }

  function Pow2(n: nat): (r: nat)
    ensures r >= 1
  {
    if n == 0 then 1 else 2 * Pow2(n - 1)
  }

  lemma {:induction false} Pow2Add(a: nat, b: nat)
    ensures Pow2(a + b) == Pow2(a) * Pow2(b)
    decreases a
  {
    if a > 0 {
      Pow2Add(a - 1, b);
      assert Pow2(a + b) == 2 * Pow2(a - 1 + b);
    }
  }

  /** The row `clean_fixtures` reads for the `j`-th player slot of round `k`:
      `range(2**k, ..., 2**(k + 1))` at step `j`. */
  function Slot(k: nat, j: nat): nat {
    if j == 0 then Pow2(k) else Slot(k, j - 1) + Pow2(k + 1)
  }

  /** The slot in closed form: `2**k + j * 2**(k + 1)`. */
  lemma {:induction false} SlotValue(k: nat, j: nat)
    ensures Slot(k, j) == Pow2(k) + j * Pow2(k + 1)
  {
    if j > 0 {
      SlotValue(k, j - 1);
      assert (j - 1) * Pow2(k + 1) + Pow2(k + 1) == j * Pow2(k + 1);
    }
  }

  /** The stride of round `k` stays below `2**(rounds + 1)` for exactly
      `2**(rounds - k)` steps. */
  lemma SlotInRange(k: nat, j: nat, rounds: nat)
    requires k < rounds
    ensures Slot(k, j) < Pow2(rounds + 1) <==> j < Pow2(rounds - k)
  {
    var p := Pow2(k);
    var q := Pow2(rounds - k);
    assert Pow2(rounds + 1) == p * (2 * q) by {
      Pow2Add(k + 1, rounds - k);
      assert Pow2(k + 1) == 2 * p;
      MulShift(p, q);
    }
    assert Slot(k, j) == p * (2 * j + 1) by {
      SlotValue(k, j);
      assert Pow2(k + 1) == 2 * p;
      MulShift(p, j);
    }
    MulLess(p, 2 * j + 1, 2 * q);
  }

  lemma MulShift(p: nat, x: nat)
    ensures (2 * p) * x == p * (2 * x) && x * (2 * p) == p * (2 * x)
  {
  }

  lemma MulLess(p: nat, x: nat, y: nat)
    requires p > 0
    ensures p * x < p * y <==> x < y
  {
    if x < y {
      assert p * y == p * x + p * (y - x);
    } else {
      assert p * x == p * y + p * (x - y);
    }
  }

  /** Later slots of a round are further down the column. */
  lemma SlotGrows(k: nat, j: nat, j': nat)
    requires j <= j'
    ensures Slot(k, j) <= Slot(k, j')
  {
    SlotValue(k, j);
    SlotValue(k, j');
    assert j' * Pow2(k + 1) == j * Pow2(k + 1) + (j' - j) * Pow2(k + 1);
  }

  /** The last row round `k` of `rounds` reads: `2**(rounds + 1) - 2**k`. */
  function LastSlot(k: nat, rounds: nat): nat
    requires k < rounds
  {
    Slot(k, Pow2(rounds - k) - 1)
  }

  lemma LastSlotValue(k: nat, rounds: nat)
    requires k < rounds
    ensures LastSlot(k, rounds) == Pow2(rounds + 1) - Pow2(k)
  {
    var p := Pow2(k);
    var p1 := Pow2(k + 1);
    var q := Pow2(rounds - k);
    Pow2Add(k + 1, rounds - k);
    SlotValue(k, q - 1);
    PredTimes(q, p1);
    assert p1 == 2 * p;
  }

  lemma PredTimes(q: int, p: int)
    ensures (q - 1) * p == q * p - p && q * p == p * q
  {
  }

  /** Every row each round reads exists: the only way `clean_fixtures`
      finishes without an IndexError. */
  predicate Fits(fixtures: seq<Column>) {
    forall k :: 0 <= k < |fixtures| ==> LastSlot(k, |fixtures|) < |fixtures[k].cells|
  }

  /** Round `k` of `rounds`: match `m` pairs the players in slots `2m` and
      `2m + 1`. */
  function RoundMatches(cells: seq<string>, k: nat, rounds: nat): (r: seq<seq<string>>)
    requires k < rounds && LastSlot(k, rounds) < |cells|
    ensures |r| == Pow2(rounds - k - 1)
  {
    var n := Pow2(rounds - k - 1);
    assert Pow2(rounds - k) == 2 * n;
    seq(n, m requires 0 <= m < n =>
      SlotGrows(k, 2 * m + 1, Pow2(rounds - k) - 1);
      [cells[Slot(k, 2 * m)], cells[Slot(k, 2 * m + 1)]])
  }

  /** The reconstructed draw: one round per column, in column order, with no
      date yet. */
  function Bracket(fixtures: seq<Column>): (r: seq<Round>)
    requires Fits(fixtures)
    ensures |r| == |fixtures|
  {
    seq(|fixtures|, k requires 0 <= k < |fixtures| =>
      Round(fixtures[k].name, RoundMatches(fixtures[k].cells, k, |fixtures|), None))
  }

  /** `clean_fixtures`, statement by statement: for each round, walk the
      stride, collect players and close a match at every second one.  A row
      beyond the end of its column is Python's IndexError, here None. */
  method CleanFixtures(fixtures: seq<Column>) returns (r: Option<seq<Round>>)
    ensures r.Some? <==> Fits(fixtures)
    ensures r.Some? ==> r.value == Bracket(fixtures)
  {
    var rounds := |fixtures|;
    var built: seq<Round> := [];
    var k := 0;
    while k < rounds
      invariant 0 <= k <= rounds
      invariant forall i :: 0 <= i < k ==> LastSlot(i, rounds) < |fixtures[i].cells|
      invariant |built| == k
      invariant forall i :: 0 <= i < k ==>
                  built[i] == Round(fixtures[i].name, RoundMatches(fixtures[i].cells, i, rounds), None)
    {
      var cells := fixtures[k].cells;
      var matches := CleanRound(cells, k, rounds);
      if matches.None? {
        return None;
      }
      built := built + [Round(fixtures[k].name, matches.value, None)];
      k := k + 1;
    }
    return Some(built);
  }

  /** The inner loop of `clean_fixtures` for round `k` of `rounds`. */
  method CleanRound(cells: seq<string>, k: nat, rounds: nat) returns (r: Option<seq<seq<string>>>)
    requires k < rounds
    ensures r.Some? <==> LastSlot(k, rounds) < |cells|
    ensures r.Some? ==> |r.value| == Pow2(rounds - k - 1)
    ensures r.Some? ==> r.value == RoundMatches(cells, k, rounds)
  {
    var matches: seq<seq<string>> := [];
    var fixture: seq<string> := [];
    var player := 1;
    var element := Pow2(k);
    ghost var j := 0;
    var top := Pow2(rounds + 1);
    var step := Pow2(k + 1);
    SlotInRange(k, 0, rounds);
    while element < top
      invariant Walking(cells, k, rounds, matches, fixture, player, element, j)
      invariant element < top <==> j < Pow2(rounds - k)
      decreases top - element
    {
      if element >= |cells| {
        WalkFails(cells, k, rounds, element, j);
        return None;
      }
      WalkStep(cells, k, rounds, matches, fixture, player, element, j);
      fixture := fixture + [cells[element]];
      if player == 2 {
        matches := matches + [fixture];
        fixture := [];
        player := 0;
      }
      player := player + 1;
      element := element + step;
      j := j + 1;
      SlotInRange(k, j, rounds);
    }
    WalkDone(cells, k, rounds, matches, fixture, player, element, j);
    return Some(matches);
  }

  /** The state of the inner loop after `j` steps of round `k`'s stride:
      `player` is the position the next row takes in the open `fixture`. */
  ghost predicate Walking(cells: seq<string>, k: nat, rounds: nat, matches: seq<seq<string>>,
                          fixture: seq<string>, player: int, element: nat, j: nat) {
    k < rounds && element == Slot(k, j) && j <= Pow2(rounds - k) &&
    (j > 0 ==> Slot(k, j - 1) < |cells|) &&
    (player == 1 || player == 2) &&
    (player == 1 ==> j == 2 * |matches| && fixture == []) &&
    (player == 2 ==> j == 2 * |matches| + 1 && j > 0 && fixture == [cells[Slot(k, j - 1)]]) &&
    IsPairing(matches, cells, k)
  }

  /** One step of the walk reads the row the stride is at. */
  lemma WalkStep(cells: seq<string>, k: nat, rounds: nat, matches: seq<seq<string>>,
                 fixture: seq<string>, player: int, element: nat, j: nat)
    requires Walking(cells, k, rounds, matches, fixture, player, element, j)
    requires j < Pow2(rounds - k) && element < |cells|
    ensures var open := fixture + [cells[element]];
            if player == 2 then
              Walking(cells, k, rounds, matches + [open], [], 1, element + Pow2(k + 1), j + 1)
            else
              Walking(cells, k, rounds, matches, open, 2, element + Pow2(k + 1), j + 1)
  {
    if player == 2 {
      PairingExtends(matches, cells, k);
    }
  }

  /** A walk that reaches a missing row before the end of the stride has a
      missing last row too. */
  lemma WalkFails(cells: seq<string>, k: nat, rounds: nat, element: nat, j: nat)
    requires k < rounds && element == Slot(k, j) && j < Pow2(rounds - k) && element >= |cells|
    ensures !(LastSlot(k, rounds) < |cells|)
  {
    SlotGrows(k, j, Pow2(rounds - k) - 1);
  }

  /** A finished walk has read every slot and closed every match. */
  lemma WalkDone(cells: seq<string>, k: nat, rounds: nat, matches: seq<seq<string>>,
                 fixture: seq<string>, player: int, element: nat, j: nat)
    requires k < rounds
    requires Walking(cells, k, rounds, matches, fixture, player, element, j)
    requires j >= Pow2(rounds - k)
    ensures LastSlot(k, rounds) < |cells|
    ensures |matches| == Pow2(rounds - k - 1)
    ensures matches == RoundMatches(cells, k, rounds)
  {
    assert Pow2(rounds - k) == 2 * Pow2(rounds - k - 1);
    PairingIsRoundMatches(matches, cells, k, rounds);
  }

  /** `matches` pairs slots `2m` and `2m + 1` of round `k`, for every `m`. */
  ghost predicate IsPairing(matches: seq<seq<string>>, cells: seq<string>, k: nat) {
    forall m :: 0 <= m < |matches| ==>
      Slot(k, 2 * m + 1) < |cells| && matches[m] == [cells[Slot(k, 2 * m)], cells[Slot(k, 2 * m + 1)]]
  }

  lemma PairingExtends(matches: seq<seq<string>>, cells: seq<string>, k: nat)
    requires IsPairing(matches, cells, k) && Slot(k, 2 * |matches| + 1) < |cells|
    ensures Slot(k, 2 * |matches|) < |cells|
    ensures IsPairing(matches + [[cells[Slot(k, 2 * |matches|)], cells[Slot(k, 2 * |matches| + 1)]]], cells, k)
  {
  }

  lemma PairingIsRoundMatches(matches: seq<seq<string>>, cells: seq<string>, k: nat, rounds: nat)
    requires k < rounds && LastSlot(k, rounds) < |cells|
    requires IsPairing(matches, cells, k) && |matches| == Pow2(rounds - k - 1)
    ensures matches == RoundMatches(cells, k, rounds)
  {
  }

  /** The number of matches of a reconstructed draw, over all its rounds. */
  function MatchCount(rounds: seq<Round>): nat {
    if |rounds| == 0 then 0 else |rounds[0].matches| + MatchCount(rounds[1..])
  }

  /** The reconstruction succeeds exactly when column `k` of `R` is longer
      than `2**(R + 1) - 2**k`, the last row its stride reads. */
  lemma {:induction false} FitsByLength(fixtures: seq<Column>)
    ensures Fits(fixtures) <==>
              forall k :: 0 <= k < |fixtures| ==> |fixtures[k].cells| > Pow2(|fixtures| + 1) - Pow2(k)
  {
    forall k | 0 <= k < |fixtures|
      ensures LastSlot(k, |fixtures|) == Pow2(|fixtures| + 1) - Pow2(k)
    {
      LastSlotValue(k, |fixtures|);
    }
  }

  /** Round `k` of the bracket keeps the name of column `k`, has no date yet,
      and its match `m` pairs rows `2**k + 2m * 2**(k + 1)` and
      `2**k + (2m + 1) * 2**(k + 1)` of that column. */
  lemma BracketMatch(fixtures: seq<Column>, k: nat, m: nat)
    requires Fits(fixtures) && k < |fixtures| && m < |Bracket(fixtures)[k].matches|
    ensures var round := Bracket(fixtures)[k];
            var cells := fixtures[k].cells;
            var a := Pow2(k) + 2 * m * Pow2(k + 1);
            var b := Pow2(k) + (2 * m + 1) * Pow2(k + 1);
            round.name == fixtures[k].name && round.date == None &&
            a < b < |cells| && round.matches[m] == [cells[a], cells[b]]
  {
    var rounds := |fixtures|;
    SlotValue(k, 2 * m);
    SlotValue(k, 2 * m + 1);
    assert Pow2(rounds - k) == 2 * Pow2(rounds - k - 1);
    SlotGrows(k, 2 * m + 1, Pow2(rounds - k) - 1);
  }

  /** A draw of `R` rounds: each round halves the one before, down to a
      single final, and `2**R - 1` matches are played in all. */
  lemma BracketMatchCount(fixtures: seq<Column>)
    requires Fits(fixtures)
    ensures forall k :: 0 <= k < |fixtures| - 1 ==>
              |Bracket(fixtures)[k].matches| == 2 * |Bracket(fixtures)[k + 1].matches|
    ensures |fixtures| > 0 ==> |Bracket(fixtures)[|fixtures| - 1].matches| == 1
    ensures MatchCount(Bracket(fixtures)) == Pow2(|fixtures|) - 1
  {
    HalvingCount(Bracket(fixtures));
  }

  /** Rounds whose sizes halve down to one add up to one less than twice the
      first. */
  lemma {:induction false} HalvingCount(rounds: seq<Round>)
    requires forall k :: 0 <= k < |rounds| ==> |rounds[k].matches| == Pow2(|rounds| - k - 1)
    ensures MatchCount(rounds) == Pow2(|rounds|) - 1
    decreases |rounds|
  {
    if |rounds| > 0 {
      var rest := rounds[1..];
      forall k | 0 <= k < |rest|
        ensures |rest[k].matches| == Pow2(|rest| - k - 1)
      {
        assert rest[k] == rounds[k + 1];
      }
      HalvingCount(rest);
    }
  }

  /** A four-player draw: the first round pairs rows 1 and 3, 5 and 7, the
      final rows 2 and 6. */
  lemma FourPlayerBracket()
    ensures var fixtures := [Column("Round 1", ["", "A", "", "B", "", "C", "", "D"]),
                             Column("Finals", ["", "", "A", "", "", "", "C", ""])];
            Fits(fixtures) &&
            Bracket(fixtures) == [Round("Round 1", [["A", "B"], ["C", "D"]], None),
                                  Round("Finals", [["A", "C"]], None)]
  {
    var fixtures := [Column("Round 1", ["", "A", "", "B", "", "C", "", "D"]),
                     Column("Finals", ["", "", "A", "", "", "", "C", ""])];
    assert Pow2(2) == 4 && Pow2(3) == 8;
    assert LastSlot(0, 2) == 7 && LastSlot(1, 2) == 6;
    assert Slot(0, 0) == 1 && Slot(0, 1) == 3 && Slot(0, 2) == 5 && Slot(0, 3) == 7;
    assert Slot(1, 0) == 2 && Slot(1, 1) == 6;
    assert RoundMatches(fixtures[0].cells, 0, 2) == [["A", "B"], ["C", "D"]];
    assert RoundMatches(fixtures[1].cells, 1, 2) == [["A", "C"]];
  }
}
