/** `calculate_match_date` of tsw/util.py: the date of a match is the date of
    the round of the draw in which the winner and the loser were paired. */
module MatchDate {
  import opened Wrappers
  import opened Fixtures

  /** Python truthiness of an optional name: present and not empty. */
  predicate Truthy(name: Option<string>) {
    name.Some? && name.value != ""
  }

  /** `winner and winner in match and loser and loser in match`: both names
      are given and both are players of the match, compared exactly. */
  predicate Pairs(pairing: seq<string>, winner: Option<string>, loser: Option<string>) {
    Truthy(winner) && winner.value in pairing && Truthy(loser) && loser.value in pairing
  }

  /** Membership is by whole name: each name must equal one of the players
      listed for the match, and a name that is only part of a player's name
      does not count. */
  lemma PairsByWholeNames(pairing: seq<string>, winner: Option<string>, loser: Option<string>)
    ensures Pairs(pairing, winner, loser) <==>
              Truthy(winner) && Truthy(loser) &&
              (exists i :: 0 <= i < |pairing| && pairing[i] == winner.value) &&
              (exists j :: 0 <= j < |pairing| && pairing[j] == loser.value)
  {
    if Truthy(winner) && winner.value in pairing {
      var i :| 0 <= i < |pairing| && pairing[i] == winner.value;
    }
    if Truthy(loser) && loser.value in pairing {
      var j :| 0 <= j < |pairing| && pairing[j] == loser.value;
    }
  }

  /** `Alice` does not pick out the player listed as `Alice Smith`, while the
      full name does. */
  lemma PartNameIsNoPlayer()
    ensures !Pairs(["Alice Smith", "Bob"], Some("Alice"), Some("Bob"))
    ensures Pairs(["Alice Smith", "Bob"], Some("Alice Smith"), Some("Bob"))
  {
    var pairing := ["Alice Smith", "Bob"];
    assert pairing[0] == "Alice Smith" && pairing[1] == "Bob";
    assert |"Alice"| != |"Alice Smith"| && "Alice" != "Bob";
  }

  /** Some match of the round pairs the two names. */
  predicate PairedIn(round: Round, winner: Option<string>, loser: Option<string>) {
    exists pairing :: pairing in round.matches && Pairs(pairing, winner, loser)
  }

  /** Reference definition: the date of the last round, in draw order, that
      pairs the two names; none when no round does. */
  function LastPairedDate(draw: seq<Round>, winner: Option<string>, loser: Option<string>): Option<string> {
    if |draw| == 0 then None
    else if PairedIn(draw[|draw| - 1], winner, loser) then draw[|draw| - 1].date
    else LastPairedDate(draw[..|draw| - 1], winner, loser)
  }

  /** `calculate_match_date`, loop for loop.  The `break` leaves only the
      loop over the matches of one round, so a later round that pairs the
      same names overwrites the date found in an earlier one.  A missing
      `draw_details` is the empty draw. */
  method CalculateMatchDate(draw: seq<Round>, winner: Option<string>, loser: Option<string>) returns (r: Option<string>)
    ensures !Paired(draw, winner, loser) ==> r == None
    ensures r == LastPairedDate(draw, winner, loser)
  {
    r := None;
    var k := 0;
    while k < |draw|
      invariant 0 <= k <= |draw|
      invariant r == LastPairedDate(draw[..k], winner, loser)
    {
      var matches := draw[k].matches;
      ghost var found := false;
      var i := 0;
      while i < |matches|
        invariant 0 <= i <= |matches|
        invariant forall i' :: 0 <= i' < i ==> !Pairs(matches[i'], winner, loser)
        invariant !found
      {
        if Truthy(winner) && winner.value in matches[i] && Truthy(loser) && loser.value in matches[i] {
          r := draw[k].date;
          found := true;
          assert Pairs(matches[i], winner, loser);
          break;
        }
        i := i + 1;
      }
      assert draw[..k + 1][..k] == draw[..k] && draw[..k + 1][k] == draw[k];
      if !found {
        assert !PairedIn(draw[k], winner, loser);
      }
      k := k + 1;
    }
    assert draw[..k] == draw;
    if !Paired(draw, winner, loser) {
      UnpairedHasNoDate(draw, winner, loser);
    }
  }

  /** The reference definition finds no date when no round pairs the names. */
  lemma {:induction false} UnpairedHasNoDate(draw: seq<Round>, winner: Option<string>, loser: Option<string>)
    requires forall k :: 0 <= k < |draw| ==> !PairedIn(draw[k], winner, loser)
    ensures LastPairedDate(draw, winner, loser) == None
    decreases |draw|
  {
    if |draw| > 0 {
      var init := draw[..|draw| - 1];
      assert forall k :: 0 <= k < |init| ==> init[k] == draw[k];
      UnpairedHasNoDate(init, winner, loser);
    }
  }

  /** The reference definition takes the date of the last round that pairs
      the names. */
  lemma {:induction false} LastPairingDates(draw: seq<Round>, winner: Option<string>, loser: Option<string>, k: nat)
    requires k < |draw| && PairedIn(draw[k], winner, loser)
    requires forall later :: k < later < |draw| ==> !PairedIn(draw[later], winner, loser)
    ensures LastPairedDate(draw, winner, loser) == draw[k].date
    decreases |draw|
  {
    if k < |draw| - 1 {
      var init := draw[..|draw| - 1];
      assert forall later :: k < later < |init| ==> init[later] == draw[later];
      assert init[k] == draw[k];
      LastPairingDates(init, winner, loser, k);
    }
  }

  /** Without a winner or without a loser no date is found. */
  lemma {:induction false} NeedsBothNames(draw: seq<Round>, winner: Option<string>, loser: Option<string>)
    requires !Truthy(winner) || !Truthy(loser)
    ensures LastPairedDate(draw, winner, loser) == None
    decreases |draw|
  {
    if |draw| > 0 {
      NeedsBothNames(draw[..|draw| - 1], winner, loser);
    }
  }

  /** Swapping the winner and the loser finds the same date. */
  lemma {:induction false} EitherOrder(draw: seq<Round>, winner: Option<string>, loser: Option<string>)
    ensures LastPairedDate(draw, winner, loser) == LastPairedDate(draw, loser, winner)
    decreases |draw|
  {
    if |draw| > 0 {
      var last := draw[|draw| - 1];
      assert PairedIn(last, winner, loser) <==> PairedIn(last, loser, winner) by {
        forall pairing | pairing in last.matches
          ensures Pairs(pairing, winner, loser) <==> Pairs(pairing, loser, winner)
        {
        }
      }
      EitherOrder(draw[..|draw| - 1], winner, loser);
    }
  }

  /** Rounds appended after the draw decide the date when one of them pairs
      the names; otherwise the draw does. */
  lemma {:induction false} LaterRoundsWin(a: seq<Round>, b: seq<Round>, winner: Option<string>, loser: Option<string>)
    ensures LastPairedDate(a + b, winner, loser) ==
              if Paired(b, winner, loser) then LastPairedDate(b, winner, loser) else LastPairedDate(a, winner, loser)
    decreases |b|
  {
    if |b| == 0 {
      assert a + b == a;
    } else {
      var ab := a + b;
      assert ab[|ab| - 1] == b[|b| - 1];
      assert ab[..|ab| - 1] == a + b[..|b| - 1];
      LaterRoundsWin(a, b[..|b| - 1], winner, loser);
      PairedOfInit(b, winner, loser);
    }
  }

  /** Some round of the draw pairs the two names. */
  predicate Paired(draw: seq<Round>, winner: Option<string>, loser: Option<string>) {
    exists k :: 0 <= k < |draw| && PairedIn(draw[k], winner, loser)
  }

  lemma PairedOfInit(draw: seq<Round>, winner: Option<string>, loser: Option<string>)
    requires |draw| > 0
    ensures Paired(draw, winner, loser) <==>
              PairedIn(draw[|draw| - 1], winner, loser) || Paired(draw[..|draw| - 1], winner, loser)
  {
    var init := draw[..|draw| - 1];
    if Paired(draw, winner, loser) && !PairedIn(draw[|draw| - 1], winner, loser) {
      var k :| 0 <= k < |draw| && PairedIn(draw[k], winner, loser);
      assert init[k] == draw[k];
    }
    if Paired(init, winner, loser) {
      var k :| 0 <= k < |init| && PairedIn(init[k], winner, loser);
      assert init[k] == draw[k];
    }
  }

  /** A first round that pairs Alice and Bob on 2021-01-01 dates their match,
      whichever of them won; a pair no round holds gets no date. */
  lemma AliceAndBob()
    ensures var draw := [Round("Round 1", [["Alice", "Bob"], ["Carol", "Dave"]], Some("2021-01-01")),
                         Round("Finals", [["Alice", "Carol"]], Some("2021-01-02"))];
            LastPairedDate(draw, Some("Alice"), Some("Bob")) == Some("2021-01-01") &&
            LastPairedDate(draw, Some("Bob"), Some("Alice")) == Some("2021-01-01") &&
            LastPairedDate(draw, Some("Alice"), Some("Dave")) == None
  {
    var draw := [Round("Round 1", [["Alice", "Bob"], ["Carol", "Dave"]], Some("2021-01-01")),
                 Round("Finals", [["Alice", "Carol"]], Some("2021-01-02"))];
    assert draw[..1] == [draw[0]] && draw[..1][..0] == [];
    assert Pairs(draw[0].matches[0], Some("Alice"), Some("Bob"));
    assert Pairs(draw[0].matches[0], Some("Bob"), Some("Alice"));
    assert !PairedIn(draw[1], Some("Alice"), Some("Bob")) by {
      assert "Bob" != "Alice" && "Bob" != "Carol";
    }
    assert !PairedIn(draw[1], Some("Alice"), Some("Dave"));
    assert !PairedIn(draw[0], Some("Alice"), Some("Dave")) by {
      assert "Dave" != "Alice" && "Dave" != "Bob";
    }
  }
}
