/** How a round ends: the decision taken when the first round's collector
    ends, and the different decision taken when the one tie-break round ends. */
module Outcome {
  import opened Tally

  /** The end of the first round. */
  datatype FirstRoundOutcome =
    | NoVotes                             // "No votes were cast."
    | Winner(option: string, count: nat)  // "The winning option is: <option> with vote count of <count>"
    | Tie(tied: seq<string>)              // a tie-break round opens over exactly these options
    | WinnerUndefined                     // an index past the options: "... undefined with vote count of NaN"

  /** The end of the tie-break round; none of these opens a further round. */
  datatype TieBreakOutcome =
    | NoTieVotes                          // "No votes were cast in the tie-breaker."
    | StillTie(finalists: seq<string>)    // "It's still a tie! Winning options: <finalists joined by ", ">"
    | TieWinner(option: string)           // "The winning option after tie-breaker is: <option>"
    | TieWinnerUndefined                  // an index past the tied options: "... is: undefined"

  /** The first round's decision on the stored options and votes. */
  function DecideFirstRound(options: seq<string>, votes: Votes): FirstRoundOutcome
    requires |options| > 0
  {
    if !InRange(votes, |options|) then WinnerUndefined
    else
      var counts := Counts(votes, |options|);
      var m := MaxOf(counts);
      var w := Winners(options, counts, m);
      if m == 0 then NoVotes
      else if |w| > 1 then Tie(w)
      else
        WinnersNonEmpty(options, counts);
        Winner(w[0], m)
  }

  /** The tie-break round's decision on the tied options and its own votes. */
  function DecideTieBreak(tied: seq<string>, votes: Votes): TieBreakOutcome
    requires |tied| > 0
  {
    if !InRange(votes, |tied|) then TieWinnerUndefined
    else
      var counts := Counts(votes, |tied|);
      var m := MaxOf(counts);
      var w := Winners(tied, counts, m);
      if m == 0 then NoTieVotes
      else if |w| > 1 then StillTie(w)
      else
        WinnersNonEmpty(tied, counts);
        TieWinner(w[0])
  }

  /** Index `i` has the most votes of the `n` options, ties allowed. */
  predicate IsTop(votes: Votes, n: nat, i: nat)
  {
    i < n && forall k :: 0 <= k < n ==> Count(votes, k) <= Count(votes, i)
  }

  /** Index `i` has more votes than every other of the `n` options. */
  predicate IsSoleTop(votes: Votes, n: nat, i: nat)
  {
    i < n && forall j :: 0 <= j < n && j != i ==> Count(votes, j) < Count(votes, i)
  }

  /** The first round's decision spelled out on the counts, for in-range votes. */
  lemma FirstRoundUnfold(options: seq<string>, votes: Votes)
    requires |options| > 0 && InRange(votes, |options|)
    ensures var counts := Counts(votes, |options|);
            var m := MaxOf(counts);
            var w := Winners(options, counts, m);
            |w| >= 1 && DecideFirstRound(options, votes)
              == if m == 0 then NoVotes else if |w| > 1 then Tie(w) else Winner(w[0], m)
  {
    WinnersNonEmpty(options, Counts(votes, |options|));
  }

  /** The tie-break's decision spelled out on the counts, for in-range votes. */
  lemma TieBreakUnfold(tied: seq<string>, votes: Votes)
    requires |tied| > 0 && InRange(votes, |tied|)
    ensures var counts := Counts(votes, |tied|);
            var m := MaxOf(counts);
            var w := Winners(tied, counts, m);
            |w| >= 1 && DecideTieBreak(tied, votes)
              == if m == 0 then NoTieVotes else if |w| > 1 then StillTie(w) else TieWinner(w[0])
  {
    WinnersNonEmpty(tied, Counts(votes, |tied|));
  }

  /** The work of the first round's end handler: count the votes, take the
      maximum and filter the options holding it. */
  method TallyFirstRound(options: seq<string>, votes: Votes) returns (o: FirstRoundOutcome)
    requires |options| > 0
    ensures o == DecideFirstRound(options, votes)
  {
    var counts := CountVotes(votes, |options|);
    if counts.None? {
      return WinnerUndefined;
    }
    var c := counts.value;
    FirstRoundUnfold(options, votes);
    var m := MaxOf(c);
    var winners := Winners(options, c, m);
    if m == 0 {
      o := NoVotes;
    } else if |winners| > 1 {
      o := Tie(winners);
    } else {
      o := Winner(winners[0], m);
    }
  }

  /** The work of the tie-break's end handler, on the tie-break's own votes. */
  method TallyTieBreak(tied: seq<string>, votes: Votes) returns (o: TieBreakOutcome)
    requires |tied| > 0
    ensures o == DecideTieBreak(tied, votes)
  {
    var counts := CountVotes(votes, |tied|);
    if counts.None? {
      return TieWinnerUndefined;
    }
    var c := counts.value;
    TieBreakUnfold(tied, votes);
    var m := MaxOf(c);
    var finalists := Winners(tied, c, m);
    if m == 0 {
      o := NoTieVotes;
    } else if |finalists| > 1 {
      o := StillTie(finalists);
    } else {
      o := TieWinner(finalists[0]);
    }
  }

  /** Position i of the count sequence is option i's count. */
  lemma CountsAt(votes: Votes, n: nat)
    ensures |Counts(votes, n)| == n
    ensures forall i :: 0 <= i < n ==> Counts(votes, n)[i] == Count(votes, i)
  {
  }

  /** The first round reports "no votes" exactly when nobody voted, and an
      undefined winner exactly when some recorded index is not an option's. */
  lemma FirstRoundNoVotes(options: seq<string>, votes: Votes)
    requires |options| > 0
    ensures DecideFirstRound(options, votes) == NoVotes <==> |votes| == 0
    ensures DecideFirstRound(options, votes) == WinnerUndefined <==> !InRange(votes, |options|)
  {
    if InRange(votes, |options|) {
      FirstRoundUnfold(options, votes);
      MaxZeroIffNoVotes(votes, |options|);
    }
  }

  /** Option `i` is announced as the winner, with its own vote count, exactly
      when it has at least one vote and more votes than every other option. */
  lemma FirstRoundWinner(options: seq<string>, votes: Votes, i: nat)
    requires i < |options| && InRange(votes, |options|)
    ensures DecideFirstRound(options, votes) == Winner(options[i], Count(votes, i))
        <==> Count(votes, i) > 0 && IsSoleTop(votes, |options|, i)
  {
    if Count(votes, i) > 0 && IsSoleTop(votes, |options|, i) {
      SoleTopWins(options, votes, i);
    }
    if DecideFirstRound(options, votes) == Winner(options[i], Count(votes, i)) {
      WinnerIsSoleTop(options, votes, i);
    }
  }

  /** An option with votes and a strict maximum is announced with its count. */
  lemma SoleTopWins(options: seq<string>, votes: Votes, i: nat)
    requires i < |options| && InRange(votes, |options|)
    requires Count(votes, i) > 0 && IsSoleTop(votes, |options|, i)
    ensures DecideFirstRound(options, votes) == Winner(options[i], Count(votes, i))
  {
    var counts := Counts(votes, |options|);
    CountsAt(votes, |options|);
    SoleMaximumPositions(counts, i);
    FirstRoundUnfold(options, votes);
    var w := Winners(options, counts, MaxOf(counts));
    assert |w| == 1 && w[0] == options[i];
  }

  /** An announced option `i` with its count has votes and a strict maximum. */
  lemma WinnerIsSoleTop(options: seq<string>, votes: Votes, i: nat)
    requires i < |options| && InRange(votes, |options|)
    requires DecideFirstRound(options, votes) == Winner(options[i], Count(votes, i))
    ensures Count(votes, i) > 0 && IsSoleTop(votes, |options|, i)
  {
    var counts := Counts(votes, |options|);
    var m := MaxOf(counts);
    CountsAt(votes, |options|);
    FirstRoundUnfold(options, votes);
    assert m > 0 && |Positions(counts, m)| == 1 && counts[i] == m;
    SinglePositionIsSole(counts, i);
  }

  /** A tie-break opens exactly when some votes were cast, every index is in
      range and two options share the largest count. */
  lemma FirstRoundTie(options: seq<string>, votes: Votes)
    requires |options| > 0
    ensures DecideFirstRound(options, votes).Tie?
        <==> InRange(votes, |options|) && |votes| > 0
             && exists i, j :: 0 <= i < j < |options| && IsTop(votes, |options|, i)
                                && Count(votes, j) == Count(votes, i)
  {
    if DecideFirstRound(options, votes).Tie? {
      TieHasSharedTop(options, votes);
    }
    if InRange(votes, |options|) && |votes| > 0
       && exists i, j :: 0 <= i < j < |options| && IsTop(votes, |options|, i)
                         && Count(votes, j) == Count(votes, i)
    {
      var i, j :| 0 <= i < j < |options| && IsTop(votes, |options|, i)
                  && Count(votes, j) == Count(votes, i);
      SharedTopIsTie(options, votes, i, j);
    }
  }

  /** A tie names two positions sharing the largest count. */
  lemma TieHasSharedTop(options: seq<string>, votes: Votes)
    requires |options| > 0 && DecideFirstRound(options, votes).Tie?
    ensures InRange(votes, |options|) && |votes| > 0
    ensures exists i, j :: 0 <= i < j < |options| && IsTop(votes, |options|, i)
                           && Count(votes, j) == Count(votes, i)
  {
    var n := |options|;
    var counts := Counts(votes, n);
    var m := MaxOf(counts);
    var p := Positions(counts, m);
    FirstRoundUnfold(options, votes);
    MaxZeroIffNoVotes(votes, n);
    CountsAt(votes, n);
    assert |p| >= 2 && p[0] < p[1];
    assert IsTop(votes, n, p[0]) && Count(votes, p[1]) == Count(votes, p[0]);
  }

  /** Two positions sharing the largest count, with some votes cast, make a tie. */
  lemma SharedTopIsTie(options: seq<string>, votes: Votes, i: nat, j: nat)
    requires i < j < |options| && InRange(votes, |options|) && |votes| > 0
    requires IsTop(votes, |options|, i) && Count(votes, j) == Count(votes, i)
    ensures DecideFirstRound(options, votes).Tie?
  {
    var n := |options|;
    var counts := Counts(votes, n);
    var m := MaxOf(counts);
    var p := Positions(counts, m);
    FirstRoundUnfold(options, votes);
    MaxZeroIffNoVotes(votes, n);
    CountsAt(votes, n);
    assert counts[i] == m by {
      var k :| 0 <= k < n && counts[k] == m;
      assert counts[i] >= counts[k];
    }
    assert |p| >= 2 by {
      PositionsComplete(counts, m, i);
      PositionsComplete(counts, m, j);
      var a :| 0 <= a < |p| && p[a] == i;
      var b :| 0 <= b < |p| && p[b] == j;
      assert a != b;
    }
  }

  /** The tie-break runs over the options at exactly the largest-count
      positions, in their original order. */
  lemma FirstRoundTiedOptions(options: seq<string>, votes: Votes)
    requires |options| > 0
    ensures DecideFirstRound(options, votes).Tie? ==>
      var counts := Counts(votes, |options|);
      var p := Positions(counts, MaxOf(counts));
      var tied := DecideFirstRound(options, votes).tied;
      |tied| == |p| >= 2 && forall k :: 0 <= k < |p| ==> tied[k] == options[p[k]]
  {
    if InRange(votes, |options|) {
      FirstRoundUnfold(options, votes);
    }
  }

  /** The tie-break reports "no votes" exactly when nobody voted in it, and
      an undefined winner exactly when some index is not a tied option's. */
  lemma TieBreakNoVotes(tied: seq<string>, votes: Votes)
    requires |tied| > 0
    ensures DecideTieBreak(tied, votes) == NoTieVotes <==> |votes| == 0
    ensures DecideTieBreak(tied, votes) == TieWinnerUndefined <==> !InRange(votes, |tied|)
  {
    if InRange(votes, |tied|) {
      TieBreakUnfold(tied, votes);
      MaxZeroIffNoVotes(votes, |tied|);
    }
  }

  /** A tied option with more tie-break votes than every other tied option
      wins the tie-break; any tie-break winner is such an option. */
  lemma TieBreakWinner(tied: seq<string>, votes: Votes, i: nat)
    requires i < |tied| && InRange(votes, |tied|)
    ensures Count(votes, i) > 0 && IsSoleTop(votes, |tied|, i)
        ==> DecideTieBreak(tied, votes) == TieWinner(tied[i])
    ensures DecideTieBreak(tied, votes).TieWinner? ==>
      exists j :: 0 <= j < |tied| && tied[j] == DecideTieBreak(tied, votes).option
                  && Count(votes, j) > 0 && IsSoleTop(votes, |tied|, j)
  {
    if Count(votes, i) > 0 && IsSoleTop(votes, |tied|, i) {
      SoleTopWinsTieBreak(tied, votes, i);
    }
    if DecideTieBreak(tied, votes).TieWinner? {
      var j := TieWinnerIsSoleTop(tied, votes);
    }
  }

  /** A tied option with tie-break votes and a strict maximum wins. */
  lemma SoleTopWinsTieBreak(tied: seq<string>, votes: Votes, i: nat)
    requires i < |tied| && InRange(votes, |tied|)
    requires Count(votes, i) > 0 && IsSoleTop(votes, |tied|, i)
    ensures DecideTieBreak(tied, votes) == TieWinner(tied[i])
  {
    var counts := Counts(votes, |tied|);
    CountsAt(votes, |tied|);
    SoleMaximumPositions(counts, i);
    TieBreakUnfold(tied, votes);
    var w := Winners(tied, counts, MaxOf(counts));
    assert |w| == 1 && w[0] == tied[i];
  }

  /** The tie-break winner is the tied option at a position with votes and a
      strict maximum. */
  lemma TieWinnerIsSoleTop(tied: seq<string>, votes: Votes) returns (j: nat)
    requires |tied| > 0 && InRange(votes, |tied|) && DecideTieBreak(tied, votes).TieWinner?
    ensures j < |tied| && tied[j] == DecideTieBreak(tied, votes).option
    ensures Count(votes, j) > 0 && IsSoleTop(votes, |tied|, j)
  {
    var counts := Counts(votes, |tied|);
    var m := MaxOf(counts);
    CountsAt(votes, |tied|);
    TieBreakUnfold(tied, votes);
    assert m > 0 && |Positions(counts, m)| == 1;
    j := Positions(counts, m)[0];
    SinglePositionIsSole(counts, j);
  }

  /** The tie-break reports a repeated tie exactly when some tie-break votes
      were cast, every index is in range and two tied options share the
      largest count. */
  lemma TieBreakStillTie(tied: seq<string>, votes: Votes)
    requires |tied| > 0
    ensures DecideTieBreak(tied, votes).StillTie?
        <==> InRange(votes, |tied|) && |votes| > 0
             && exists i, j :: 0 <= i < j < |tied| && IsTop(votes, |tied|, i)
                                && Count(votes, j) == Count(votes, i)
  {
    if DecideTieBreak(tied, votes).StillTie? {
      StillTieHasSharedTop(tied, votes);
    }
    if InRange(votes, |tied|) && |votes| > 0
       && exists i, j :: 0 <= i < j < |tied| && IsTop(votes, |tied|, i)
                         && Count(votes, j) == Count(votes, i)
    {
      var i, j :| 0 <= i < j < |tied| && IsTop(votes, |tied|, i)
                  && Count(votes, j) == Count(votes, i);
      SharedTopIsStillTie(tied, votes, i, j);
    }
  }

  /** A repeated tie names two positions sharing the largest count. */
  lemma StillTieHasSharedTop(tied: seq<string>, votes: Votes)
    requires |tied| > 0 && DecideTieBreak(tied, votes).StillTie?
    ensures InRange(votes, |tied|) && |votes| > 0
    ensures exists i, j :: 0 <= i < j < |tied| && IsTop(votes, |tied|, i)
                           && Count(votes, j) == Count(votes, i)
  {
    var n := |tied|;
    var counts := Counts(votes, n);
    var m := MaxOf(counts);
    var p := Positions(counts, m);
    TieBreakUnfold(tied, votes);
    MaxZeroIffNoVotes(votes, n);
    CountsAt(votes, n);
    assert |p| >= 2 && p[0] < p[1];
    assert IsTop(votes, n, p[0]) && Count(votes, p[1]) == Count(votes, p[0]);
  }

  /** Two tied options sharing the largest tie-break count, with some votes
      cast, make a repeated tie. */
  lemma SharedTopIsStillTie(tied: seq<string>, votes: Votes, i: nat, j: nat)
    requires i < j < |tied| && InRange(votes, |tied|) && |votes| > 0
    requires IsTop(votes, |tied|, i) && Count(votes, j) == Count(votes, i)
    ensures DecideTieBreak(tied, votes).StillTie?
  {
    var n := |tied|;
    var counts := Counts(votes, n);
    var m := MaxOf(counts);
    var p := Positions(counts, m);
    TieBreakUnfold(tied, votes);
    MaxZeroIffNoVotes(votes, n);
    CountsAt(votes, n);
    assert counts[i] == m by {
      var k :| 0 <= k < n && counts[k] == m;
      assert counts[i] >= counts[k];
    }
    assert |p| >= 2 by {
      PositionsComplete(counts, m, i);
      PositionsComplete(counts, m, j);
      var a :| 0 <= a < |p| && p[a] == i;
      var b :| 0 <= b < |p| && p[b] == j;
      assert a != b;
    }
  }

  /** The finalists of a repeated tie are the tied options at exactly the
      largest-count positions of the tie-break, in their order. */
  lemma TieBreakFinalists(tied: seq<string>, votes: Votes)
    requires |tied| > 0
    ensures DecideTieBreak(tied, votes).StillTie? ==>
      var counts := Counts(votes, |tied|);
      var p := Positions(counts, MaxOf(counts));
      var f := DecideTieBreak(tied, votes).finalists;
      |f| == |p| >= 2 && forall k :: 0 <= k < |p| ==> f[k] == tied[p[k]]
  {
    if InRange(votes, |tied|) {
      TieBreakUnfold(tied, votes);
    }
  }

  /** Whatever the tie-break announces is drawn from the tied options, in
      their order; a repeated tie names at least two of them. */
  lemma TieBreakWithinTied(tied: seq<string>, votes: Votes)
    requires |tied| > 0
    ensures DecideTieBreak(tied, votes).TieWinner? ==> DecideTieBreak(tied, votes).option in tied
    ensures DecideTieBreak(tied, votes).StillTie? ==>
      var f := DecideTieBreak(tied, votes).finalists;
      |f| >= 2 && forall k :: 0 <= k < |f| ==> f[k] in tied
  {
    if InRange(votes, |tied|) {
      var counts := Counts(votes, |tied|);
      var m := MaxOf(counts);
      var w := Winners(tied, counts, m);
      var p := Positions(counts, m);
      TieBreakUnfold(tied, votes);
      assert forall k :: 0 <= k < |w| ==> w[k] == tied[p[k]] && p[k] < |tied|;
    }
  }

  /** The options of a tie-break are all options of the first round. */
  lemma TiedAreOptions(options: seq<string>, votes: Votes)
    requires |options| > 0
    ensures DecideFirstRound(options, votes).Tie? ==>
      forall k :: 0 <= k < |DecideFirstRound(options, votes).tied| ==>
        DecideFirstRound(options, votes).tied[k] in options
  {
    FirstRoundTiedOptions(options, votes);
  }

  /** Both positions of the counts [1, 1] reach 1. */
  lemma PositionsOfOneOne()
    ensures Positions([1, 1], 1) == [0, 1]
  {
    assert [1, 1][..1] == [1];
    assert [1][..0] == [];
    assert Positions([1], 1) == [0];
  }

  /** Two options, three voters choosing the first, the second and the first:
      the first option wins with two votes. */
  lemma TwoOfThreeScenario()
    ensures DecideFirstRound(["Pizza", "Tacos"], map["v1" := 0, "v2" := 1, "v3" := 0])
         == Winner("Pizza", 2)
  {
    var votes := map["v1" := 0, "v2" := 1, "v3" := 0];
    assert Count(votes, 0) == 2 by {
      assert (set u | u in votes.Keys && votes[u] == 0) == {"v1", "v3"};
    }
    assert Count(votes, 1) == 1 by {
      assert (set u | u in votes.Keys && votes[u] == 1) == {"v2"};
    }
    assert InRange(votes, 2) && IsSoleTop(votes, 2, 0);
    SoleTopWins(["Pizza", "Tacos"], votes, 0);
  }

  /** One vote each for the first two of three options. */
  lemma OneOneZeroCounts()
    ensures Counts(map["v1" := 0, "v2" := 1], 3) == [1, 1, 0]
  {
    var votes := map["v1" := 0, "v2" := 1];
    assert (set u | u in votes.Keys && votes[u] == 0) == {"v1"};
    assert (set u | u in votes.Keys && votes[u] == 1) == {"v2"};
    assert (set u | u in votes.Keys && votes[u] == 2) == {};
  }

  /** The counts [1, 1, 0] have maximum 1, reached at the first two positions. */
  lemma OneOneZeroPositions()
    ensures MaxOf([1, 1, 0]) == 1
    ensures Positions([1, 1, 0], 1) == [0, 1]
  {
    PositionsOfOneOne();
    assert [1, 1, 0][..2] == [1, 1];
  }

  /** Three options, one vote each for the first two: the tie-break runs over
      the first two options only. */
  lemma TieScenario()
    ensures DecideFirstRound(["A", "B", "C"], map["v1" := 0, "v2" := 1]) == Tie(["A", "B"])
  {
    OneOneZeroCounts();
    OneOneZeroPositions();
    FirstRoundUnfold(["A", "B", "C"], map["v1" := 0, "v2" := 1]);
  }

  /** One vote each for the first two of two options counts [1, 1]. */
  lemma OneOneCounts()
    ensures Counts(map["v1" := 0, "v2" := 1], 2) == [1, 1]
  {
    var votes := map["v1" := 0, "v2" := 1];
    assert (set u | u in votes.Keys && votes[u] == 0) == {"v1"};
    assert (set u | u in votes.Keys && votes[u] == 1) == {"v2"};
  }

  /** Over the counts [1, 1] both options are kept. */
  lemma WinnersOfOneOne(a: string, b: string)
    ensures MaxOf([1, 1]) == 1
    ensures Winners([a, b], [1, 1], 1) == [a, b]
  {
    PositionsOfOneOne();
    var w := Winners([a, b], [1, 1], 1);
    assert |w| == 2 && w[0] == a && w[1] == b;
  }

  /** Two options with one vote each open a tie-break over both. */
  lemma TwoWayTieScenario()
    ensures DecideFirstRound(["A", "B"], map["v1" := 0, "v2" := 1]) == Tie(["A", "B"])
  {
    OneOneCounts();
    WinnersOfOneOne("A", "B");
    FirstRoundUnfold(["A", "B"], map["v1" := 0, "v2" := 1]);
  }

  /** One tie-break vote each for two tied options counts [1, 1]. */
  lemma OneOneTieCounts()
    ensures Counts(map["v1" := 1, "v2" := 0], 2) == [1, 1]
  {
    var votes := map["v1" := 1, "v2" := 0];
    assert (set u | u in votes.Keys && votes[u] == 0) == {"v2"};
    assert (set u | u in votes.Keys && votes[u] == 1) == {"v1"};
  }

  /** A second tie between the two tied options ends the poll as still tied. */
  lemma StillTieScenario()
    ensures DecideTieBreak(["A", "B"], map["v1" := 1, "v2" := 0]) == StillTie(["A", "B"])
  {
    OneOneTieCounts();
    WinnersOfOneOne("A", "B");
    TieBreakUnfold(["A", "B"], map["v1" := 1, "v2" := 0]);
  }

  /** A reaction with the third marker on a two-option poll leaves the
      winner undefined. */
  lemma UnissuedMarkerScenario()
    ensures DecideFirstRound(["Yes", "No"], map["v1" := 2]) == WinnerUndefined
  {
    assert !InRange(map["v1" := 2], 2) by {
      assert "v1" in map["v1" := 2];
    }
  }
}
