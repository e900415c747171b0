/** The score parser of tsw/util.py: `dashed_score_to_score`, `is_score`
    and the span branch of `get_score`. */
module Scores {
  import opened Wrappers
  import opened Text
  import opened Patterns

  /** The two numbers of the set-score match that starts at `k`. */
  function SetNumbers(s: string, k: nat): (r: seq<nat>)
    requires k < |s| && SetScoreAt(s, k).Some?
    ensures |r| == 2
  {
    var m := SetScoreAt(s, k).value;
    [DecimalValue(s[m.first.start..m.first.end]), DecimalValue(s[m.second.start..m.second.end])]
  }

  /** The number inside the tiebreak match that starts at `k`. */
  function TiebreakValue(s: string, k: nat): nat
    requires k < |s| && TiebreakAt(s, k).Some?
  {
    var m := TiebreakAt(s, k).value;
    DecimalValue(s[m.number.start..m.number.end])
  }

  /** `list(sum(pairs, ()))`: the pairs' numbers, one pair after another. */
  function Flatten(pairs: seq<seq<nat>>): (r: seq<nat>)
    requires forall j :: 0 <= j < |pairs| ==> |pairs[j]| == 2
    ensures |r| == 2 * |pairs|
    ensures forall j :: 0 <= j < |pairs| ==> r[2 * j] == pairs[j][0] && r[2 * j + 1] == pairs[j][1]
  {
    if |pairs| == 0 then [] else pairs[0] + Flatten(pairs[1..])
  }

  /** The numbers of each set-score match starting at `starts`, in order. */
  function SetsAt(s: string, starts: seq<nat>): (r: seq<seq<nat>>)
    requires forall j :: 0 <= j < |starts| ==> starts[j] < |s| && SetScoreAt(s, starts[j]).Some?
    ensures |r| == |starts|
    ensures forall j :: 0 <= j < |starts| ==> r[j] == SetNumbers(s, starts[j])
  {
    seq(|starts|, j requires 0 <= j < |starts| => SetNumbers(s, starts[j]))
  }

  /** `dashed_score_to_score`: the numbers of every set score found by the
      leftmost scan, then the tiebreak if exactly one parenthesised number
      occurs. */
  function DashedScoreToScore(s: string): (r: seq<nat>)
    ensures |r| == 2 * |FindAll(SetScore, s)| + (if exists k :: UniqueMatch(Tiebreak, s, k) then 1 else 0)
    ensures forall j :: 0 <= j < |FindAll(SetScore, s)| ==>
              r[2 * j] == SetNumbers(s, FindAll(SetScore, s)[j])[0] &&
              r[2 * j + 1] == SetNumbers(s, FindAll(SetScore, s)[j])[1]
    ensures forall k: nat :: UniqueMatch(Tiebreak, s, k) ==> r[|r| - 1] == TiebreakValue(s, k)
  {
    var sets := FindAll(SetScore, s);
    var tiebreaks := FindAll(Tiebreak, s);
    FoundSetsParse(s);
    FoundTiebreaksParse(s);
    SingleFind(Tiebreak, s);
    Flatten(SetsAt(s, sets)) + (if |tiebreaks| == 1 then [TiebreakValue(s, tiebreaks[0])] else [])
  }

  lemma FoundSetsParse(s: string)
    ensures forall j :: 0 <= j < |FindAll(SetScore, s)| ==> SetScoreAt(s, FindAll(SetScore, s)[j]).Some?
  {
  }

  lemma FoundTiebreaksParse(s: string)
    ensures forall k :: 0 <= k < |s| && MatchEnd(Tiebreak, s, k).Some? ==> TiebreakAt(s, k).Some?
    ensures forall j :: 0 <= j < |FindAll(Tiebreak, s)| ==> TiebreakAt(s, FindAll(Tiebreak, s)[j]).Some?
  {
  }

  /** `s` starts with the digits `s[..p]`, then a dash, then a digit. */
  ghost predicate ScoreShapeAt(s: string, p: nat) {
    0 < p < |s| - 1 && s[p] == '-' && IsDigit(s[p + 1]) && forall j :: 0 <= j < p ==> IsDigit(s[j])
  }

  /** `is_score`: `re.match(r"\d+\-\d+", s)`, anchored at the start only. */
  function IsScore(s: string): (b: bool)
    ensures b <==> exists p :: ScoreShapeAt(s, p)
  {
    ScorePrefix(s);
    MatchEnd(Score, s, 0).Some?
  }

  lemma ScorePrefix(s: string)
    ensures MatchEnd(Score, s, 0).Some? <==> exists p :: ScoreShapeAt(s, p)
  {
    if MatchEnd(Score, s, 0).Some? {
      assert ScoreShapeAt(s, RunEnd(s, 0, Digit));
    }
    forall p | ScoreShapeAt(s, p)
      ensures MatchEnd(Score, s, 0).Some?
    {
      RunEndIs(s, 0, p, Digit);
    }
  }

  /** The set score `s` starts with: `is_score(s)` promises that
      `dashed_score_to_score(s)` reads these two numbers first. */
  lemma IsScoreLeadingSet(s: string)
    requires IsScore(s)
    ensures var p := RunEnd(s, 0, Digit);
            p + 1 < |s| &&
            var q := RunEnd(s, p + 1, Digit);
            var r := DashedScoreToScore(s);
            |r| >= 2 && r[0] == DecimalValue(s[..p]) && r[1] == DecimalValue(s[p + 1..q])
  {
    var p := RunEnd(s, 0, Digit);
    var q := RunEnd(s, p + 1, Digit);
    assert ScoreEnd(s, 0).Some?;
    RunEndIs(s, p, p, Space);
    RunEndIs(s, p + 1, p + 1, Space);
    assert SetScoreAt(s, 0) == Some(SetScoreMatch(Group(0, p), Group(p + 1, q)));
    var t := Ends(SetScore, s);
    assert t[0] == Some(q);
    assert FindAll(SetScore, s) == [0] + Scan(t, q);
    assert s[0..p] == s[..p];
  }

  /** A set as the site shows it: the games of each side and an optional tiebreak. */
  datatype TennisSet = TennisSet(games: nat, opponentGames: nat, tiebreak: Option<nat>)

  /** The numbers a set score stands for. */
  function Numbers(t: TennisSet): seq<nat> {
    [t.games, t.opponentGames] + (if t.tiebreak.Some? then [t.tiebreak.value] else [])
  }

  /** The set written as "6-7", or as "6-7(5)" with the whitespace `gap`
      before the parenthesis. */
  function Render(t: TennisSet, gap: string): string {
    Decimal(t.games) + "-" + Decimal(t.opponentGames) +
    (if t.tiebreak.Some? then gap + "(" + Decimal(t.tiebreak.value) + ")" else "")
  }

  /** `dashed_score_to_score` reads back every rendered set. */
  lemma RenderRoundTrip(t: TennisSet, gap: string)
    requires AllSpaces(gap)
    ensures DashedScoreToScore(Render(t, gap)) == Numbers(t)
  {
    RenderedSetScore(t, gap);
    RenderedTiebreak(t, gap);
    ReadsSet(Render(t, gap), t, TiebreakStart(t, gap));
  }

  /** The score of a string whose only set score and only tiebreak are `t`'s. */
  lemma ReadsSet(s: string, t: TennisSet, p: nat)
    requires OnlySetScoreIs(s, t.games, t.opponentGames)
    requires t.tiebreak.None? ==> NoSingleTiebreak(s)
    requires t.tiebreak.Some? ==> OnlyTiebreakIs(s, p, t.tiebreak.value)
    ensures DashedScoreToScore(s) == Numbers(t)
  {
    if t.tiebreak.Some? {
      assert Numbers(t) == [t.games, t.opponentGames, t.tiebreak.value];
      OneSetAndTiebreak(s, t.games, t.opponentGames, p, t.tiebreak.value);
    } else {
      assert Numbers(t) == [t.games, t.opponentGames];
      OneSet(s, t.games, t.opponentGames);
    }
  }

  /** The only set score in `s` starts it and reads `a`-`b`. */
  ghost predicate OnlySetScoreIs(s: string, a: nat, b: nat) {
    0 < |s| && SetScoreAt(s, 0).Some? && FindAll(SetScore, s) == [0] && SetNumbers(s, 0) == [a, b]
  }

  /** `s` holds no tiebreak, or more than one. */
  ghost predicate NoSingleTiebreak(s: string) {
    !exists k :: UniqueMatch(Tiebreak, s, k)
  }

  /** The only tiebreak in `s` starts at `p` and reads `v`. */
  ghost predicate OnlyTiebreakIs(s: string, p: nat, v: nat) {
    p < |s| && TiebreakAt(s, p).Some? && UniqueMatch(Tiebreak, s, p) && TiebreakValue(s, p) == v
  }

  /** The score of a string holding one set score and no tiebreak. */
  lemma OneSet(s: string, a: nat, b: nat)
    requires OnlySetScoreIs(s, a, b) && NoSingleTiebreak(s)
    ensures DashedScoreToScore(s) == [a, b]
  {
  }

  /** The score of a string holding one set score and one tiebreak. */
  lemma OneSetAndTiebreak(s: string, a: nat, b: nat, p: nat, v: nat)
    requires OnlySetScoreIs(s, a, b) && OnlyTiebreakIs(s, p, v)
    ensures DashedScoreToScore(s) == [a, b, v]
  {
    var r := DashedScoreToScore(s);
    assert |r| == 3;
  }

  /** Where the tiebreak of a rendered set starts: after the games and the gap. */
  function TiebreakStart(t: TennisSet, gap: string): nat {
    |Decimal(t.games)| + 1 + |Decimal(t.opponentGames)| + |gap|
  }

  /** What a rendered set looks like, character by character. */
  lemma RenderLayout(t: TennisSet, gap: string)
    ensures var s := Render(t, gap);
            var n := |Decimal(t.games)|;
            var e := n + 1 + |Decimal(t.opponentGames)|;
            e <= |s| && s[..n] == Decimal(t.games) && s[n] == '-' &&
            s[n + 1..e] == Decimal(t.opponentGames) &&
            (t.tiebreak.None? ==> |s| == e) &&
            (t.tiebreak.Some? ==>
               var q := e + |gap| + 1 + |Decimal(t.tiebreak.value)|;
               |s| == q + 1 && s[e..e + |gap|] == gap && s[e + |gap|] == '(' &&
               s[e + |gap| + 1..q] == Decimal(t.tiebreak.value) && s[q] == ')')
  {
    var a := Decimal(t.games);
    var b := Decimal(t.opponentGames);
    var head := a + "-" + b;
    assert head[..|a|] == a && head[|a| + 1..] == b;
    if t.tiebreak.Some? {
      var d := Decimal(t.tiebreak.value);
      var tail := gap + "(" + d + ")";
      assert tail[..|gap|] == gap && tail[|gap|] == '(' && tail[|gap| + 1..|tail| - 1] == d;
      assert Render(t, gap) == head + tail;
    } else {
      assert Render(t, gap) == head;
    }
  }

  /** The match of the set-score pattern at the start of "digits-digits...". */
  lemma SetScoreShape(s: string, n: nat, e: nat)
    requires 0 < n && n + 1 < e <= |s|
    requires forall k :: 0 <= k < n ==> IsDigit(s[k])
    requires s[n] == '-'
    requires forall k :: n + 1 <= k < e ==> IsDigit(s[k])
    requires e == |s| || !IsDigit(s[e])
    ensures SetScoreAt(s, 0) == Some(SetScoreMatch(Group(0, n), Group(n + 1, e)))
  {
    RunEndIs(s, 0, n, Digit);
    RunEndIs(s, n, n, Space);
    RunEndIs(s, n + 1, n + 1, Space);
    RunEndIs(s, n + 1, e, Digit);
  }

  /** The match of the tiebreak pattern on "(digits)" at `p`. */
  lemma TiebreakShape(s: string, p: nat, q: nat)
    requires p + 1 < q < |s|
    requires s[p] == '(' && s[q] == ')'
    requires forall k :: p + 1 <= k < q ==> IsDigit(s[k])
    ensures TiebreakAt(s, p) == Some(TiebreakMatch(Group(p + 1, q), q + 1))
  {
    RunEndIs(s, p + 1, p + 1, Space);
    RunEndIs(s, p + 1, q, Digit);
    RunEndIs(s, q, q, Space);
  }

  lemma RenderedSetScore(t: TennisSet, gap: string)
    requires AllSpaces(gap)
    ensures OnlySetScoreIs(Render(t, gap), t.games, t.opponentGames)
  {
    var n := |Decimal(t.games)|;
    RenderedHead(t, gap);
    SetScoreOfShape(Render(t, gap), n, n + 1 + |Decimal(t.opponentGames)|, t.games, t.opponentGames);
  }

  /** A rendered set opens with its games, and no dash or digit follows them. */
  lemma RenderedHead(t: TennisSet, gap: string)
    requires AllSpaces(gap)
    ensures var s := Render(t, gap);
            var n := |Decimal(t.games)|;
            var e := n + 1 + |Decimal(t.opponentGames)|;
            e <= |s| && s[..n] == Decimal(t.games) && s[n] == '-' &&
            s[n + 1..e] == Decimal(t.opponentGames) &&
            '-' !in s[e..] && (e == |s| || !IsDigit(s[e]))
  {
    var s := Render(t, gap);
    var e := |Decimal(t.games)| + 1 + |Decimal(t.opponentGames)|;
    RenderLayout(t, gap);
    if t.tiebreak.Some? {
      var d := Decimal(t.tiebreak.value);
      var tail := gap + "(" + d + ")";
      assert s == Decimal(t.games) + "-" + Decimal(t.opponentGames) + tail;
      assert s[e..] == tail;
      DigitsLack(d, '-');
      assert '-' !in gap by {
        forall k | 0 <= k < |gap| ensures gap[k] != '-' {
          assert IsSpace(gap[k]);
        }
      }
      assert s[e] == tail[0];
      if |gap| > 0 {
        assert IsSpace(gap[0]);
      }
    } else {
      assert s[e..] == [];
    }
  }

  /** A string that opens "digits-digits", followed by anything without a
      dash or a leading digit, holds exactly one set score, at the start. */
  lemma SetScoreOfShape(s: string, n: nat, e: nat, a: nat, b: nat)
    requires n == |Decimal(a)| && e == n + 1 + |Decimal(b)| && e <= |s|
    requires s[..n] == Decimal(a) && s[n] == '-' && s[n + 1..e] == Decimal(b)
    requires '-' !in s[e..] && (e == |s| || !IsDigit(s[e]))
    ensures OnlySetScoreIs(s, a, b)
  {
    assert forall k :: 0 <= k < n ==> s[k] == s[..n][k];
    assert forall k :: n + 1 <= k < e ==> s[k] == s[n + 1..e][k - n - 1];
    SetScoreShape(s, n, e);
    DecimalRoundTrip(a);
    DecimalRoundTrip(b);
    var ends := Ends(SetScore, s);
    forall k | e <= k < |s|
      ensures ends[k].None?
    {
      assert forall j :: k <= j < |s| ==> s[j] == s[e..][j - e];
      NoDashNoSetScore(s, k);
    }
    ScanMatchFree(ends, e, |s|);
    assert FindAll(SetScore, s) == [0] + Scan(ends, e);
  }

  lemma NoDashNoSetScore(s: string, k: nat)
    requires forall j :: k <= j < |s| ==> s[j] != '-'
    ensures MatchEnd(SetScore, s, k).None?
  {
  }

  lemma RenderedTiebreak(t: TennisSet, gap: string)
    requires AllSpaces(gap)
    ensures t.tiebreak.None? ==> NoSingleTiebreak(Render(t, gap))
    ensures t.tiebreak.Some? ==> OnlyTiebreakIs(Render(t, gap), TiebreakStart(t, gap), t.tiebreak.value)
  {
    var s := Render(t, gap);
    var p := TiebreakStart(t, gap);
    RenderedHeadHasNoParen(t, gap);
    if t.tiebreak.None? {
      NoParenNoTiebreak(s);
    } else {
      var q := p + 1 + |Decimal(t.tiebreak.value)|;
      RenderedTail(t, gap);
      TiebreakOfShape(s, p, q, t.tiebreak.value);
    }
  }

  /** No parenthesis occurs in a rendered set before its tiebreak. */
  lemma RenderedHeadHasNoParen(t: TennisSet, gap: string)
    requires AllSpaces(gap)
    ensures var s := Render(t, gap);
            var p := TiebreakStart(t, gap);
            (t.tiebreak.None? ==> '(' !in s) &&
            (t.tiebreak.Some? ==> p < |s| && '(' !in s[..p])
  {
    var a := Decimal(t.games);
    var b := Decimal(t.opponentGames);
    var head := a + "-" + b + gap;
    DigitsLack(a, '(');
    DigitsLack(b, '(');
    assert '(' !in gap by {
      forall k | 0 <= k < |gap| ensures gap[k] != '(' {
        assert IsSpace(gap[k]);
      }
    }
    assert '(' !in head;
    if t.tiebreak.Some? {
      var tail := "(" + Decimal(t.tiebreak.value) + ")";
      assert Render(t, gap) == head + tail;
      assert (head + tail)[..|head|] == head;
    } else {
      assert Render(t, gap) == a + "-" + b;
    }
  }

  /** A character that is not a digit does not occur among digits. */
  lemma DigitsLack(x: string, c: char)
    requires forall k :: 0 <= k < |x| ==> IsDigit(x[k])
    requires !IsDigit(c)
    ensures c !in x
  {
  }

  /** The tiebreak of a rendered set: "(", its digits, ")" and nothing after. */
  lemma RenderedTail(t: TennisSet, gap: string)
    requires t.tiebreak.Some?
    ensures var s := Render(t, gap);
            var p := TiebreakStart(t, gap);
            var q := p + 1 + |Decimal(t.tiebreak.value)|;
            q + 1 == |s| && s[p] == '(' && s[q] == ')' && s[p + 1..q] == Decimal(t.tiebreak.value)
  {
    var s := Render(t, gap);
    var p := |Decimal(t.games)| + 1 + |Decimal(t.opponentGames)| + |gap|;
    var q := p + 1 + |Decimal(t.tiebreak.value)|;
    RenderLayout(t, gap);
  }

  /** A string with no parenthesis holds no tiebreak. */
  lemma NoParenNoTiebreak(s: string)
    requires '(' !in s
    ensures !exists k :: UniqueMatch(Tiebreak, s, k)
  {
    var ends := Ends(Tiebreak, s);
    assert forall k :: 0 <= k < |s| ==> ends[k].None?;
  }

  /** A string ending in "(digits)" with no earlier parenthesis holds
      exactly one tiebreak, and it is those digits. */
  lemma TiebreakOfShape(s: string, p: nat, q: nat, v: nat)
    requires p + 1 < q && q + 1 == |s|
    requires s[p] == '(' && s[q] == ')'
    requires s[p + 1..q] == Decimal(v)
    requires p <= |s| && '(' !in s[..p]
    ensures OnlyTiebreakIs(s, p, v)
  {
    assert forall k :: p + 1 <= k < q ==> IsDigit(s[k]) by {
      forall k | p + 1 <= k < q ensures IsDigit(s[k]) {
        assert s[k] == s[p + 1..q][k - p - 1];
      }
    }
    TiebreakShape(s, p, q);
    DecimalRoundTrip(v);
    var ends := Ends(Tiebreak, s);
    forall k | 0 <= k < |s| && k != p
      ensures ends[k].None?
    {
      if p < k < q {
        assert IsDigit(s[k]);
      } else if k < p {
        assert s[k] == s[..p][k];
      }
    }
  }

  /** A score of two sets: `findall` reads both, in order, so one string
      gives four numbers. */
  lemma TwoSetsExample()
    ensures DashedScoreToScore("6-3 7-5") == [6, 3, 7, 5]
  {
    TwoSetsRead("6-3 7-5");
  }

  lemma TwoSetsRead(s: string)
    requires s == "6-3 7-5"
    ensures DashedScoreToScore(s) == [6, 3, 7, 5]
  {
    TwoSetsFound();
    TwoSetsNoTiebreak();
    TwoSetsNumbers(s);
    TwoSetsCombine(s);
  }

  /** Two set scores at `0` and `4` and no single tiebreak give four numbers. */
  lemma TwoSetsCombine(s: string)
    requires FindAll(SetScore, s) == [0, 4] && NoSingleTiebreak(s)
    requires 4 < |s| && SetScoreAt(s, 0).Some? && SetScoreAt(s, 4).Some?
    requires SetNumbers(s, 0) == [6, 3] && SetNumbers(s, 4) == [7, 5]
    ensures DashedScoreToScore(s) == [6, 3, 7, 5]
  {
    var r := DashedScoreToScore(s);
    var found := FindAll(SetScore, s);
    assert |r| == 4;
    assert found[0] == 0 && found[1] == 4;
    assert r[0] == 6 && r[1] == 3 && r[2] == 7 && r[3] == 5;
  }

  lemma TwoSetsNumbers(s: string)
    requires s == "6-3 7-5"
    ensures SetScoreAt(s, 0).Some? && SetNumbers(s, 0) == [6, 3]
    ensures SetScoreAt(s, 4).Some? && SetNumbers(s, 4) == [7, 5]
  {
    TwoSetsMatchAt(s);
    assert SetScoreAt(s, 0) == Some(SetScoreMatch(Group(0, 1), Group(2, 3)));
    assert SetScoreAt(s, 4) == Some(SetScoreMatch(Group(4, 5), Group(6, 7)));
    assert s[0..1] == "6" && s[2..3] == "3" && s[4..5] == "7" && s[6..7] == "5";
    assert DecimalValue("6") == 6 && DecimalValue("3") == 3;
    assert DecimalValue("7") == 7 && DecimalValue("5") == 5;
  }

  lemma TwoSetsFound()
    ensures FindAll(SetScore, "6-3 7-5") == [0, 4]
  {
    var s := "6-3 7-5";
    var t := Ends(SetScore, s);
    TwoSetsMatchAt(s);
    assert Scan(t, 4) == [4];
    assert Scan(t, 3) == [4];
  }

  lemma TwoSetsMatchAt(s: string)
    requires s == "6-3 7-5"
    ensures MatchEnd(SetScore, s, 0) == Some(3)
    ensures MatchEnd(SetScore, s, 3) == None
    ensures MatchEnd(SetScore, s, 4) == Some(7)
  {
    RunEndIs(s, 0, 1, Digit);
    RunEndIs(s, 1, 1, Space);
    RunEndIs(s, 2, 2, Space);
    RunEndIs(s, 2, 3, Digit);
    RunEndIs(s, 3, 3, Digit);
    RunEndIs(s, 4, 5, Digit);
    RunEndIs(s, 5, 5, Space);
    RunEndIs(s, 6, 6, Space);
    RunEndIs(s, 6, 7, Digit);
  }

  lemma TwoSetsNoTiebreak()
    ensures NoSingleTiebreak("6-3 7-5")
  {
    var s := "6-3 7-5";
    assert forall k :: 0 <= k < |s| ==> s[k] != '(';
    assert forall k :: 0 <= k < |s| ==> MatchEnd(Tiebreak, s, k).None?;
  }

  /* The scores the project's tests read, one lemma each. */

  lemma PlainSetExample()
    ensures DashedScoreToScore("6-3") == [6, 3]
  {
    var t := TennisSet(6, 3, None);
    assert Render(t, "") == "6-3";
    RenderRoundTrip(t, "");
  }

  lemma SpacedTiebreakSetExample()
    ensures DashedScoreToScore("6-3 (5)") == [6, 3, 5]
  {
    var t := TennisSet(6, 3, Some(5));
    assert Render(t, " ") == "6-3 (5)";
    RenderRoundTrip(t, " ");
  }

  lemma TwoDigitsSetExample()
    ensures DashedScoreToScore("10-2") == [10, 2]
  {
    var t := TennisSet(10, 2, None);
    assert Render(t, "") == "10-2";
    RenderRoundTrip(t, "");
  }

  lemma LongSetExample()
    ensures DashedScoreToScore("14-12") == [14, 12]
  {
    var t := TennisSet(14, 12, None);
    assert Render(t, "") == "14-12";
    RenderRoundTrip(t, "");
  }

  lemma TiebreakSetExample()
    ensures DashedScoreToScore("6-7(5)") == [6, 7, 5]
  {
    var t := TennisSet(6, 7, Some(5));
    assert Render(t, "") == "6-7(5)";
    RenderRoundTrip(t, "");
  }
}
