/** Counting a round's votes and picking the options with the most votes. */
module Tally {
  import opened Wrappers

  type UserId = string

  /** A round's vote record: user id to the marker index the user last reacted with. */
  type Votes = map<UserId, nat>

  /** The number of the given voters whose recorded index is `i`. */
  function CountAmong(votes: Votes, voters: set<UserId>, i: nat): nat
    requires voters <= votes.Keys
  {
    |set u | u in voters && votes[u] == i|
  }

  /** The number of users whose recorded index is `i`. */
  function Count(votes: Votes, i: nat): nat
  {
    CountAmong(votes, votes.Keys, i)
  }

  /** The count sequence of an `n`-option round, position i holding option i's votes. */
  function Counts(votes: Votes, n: nat): seq<nat>
  {
    seq(n, i requires 0 <= i < n => Count(votes, i))
  }

  /** Every recorded index names one of the `n` options. */
  predicate InRange(votes: Votes, n: nat)
  {
    forall u :: u in votes ==> votes[u] < n
  }

  function Sum(s: seq<nat>): nat
  {
    if s == [] then 0 else Sum(s[..|s| - 1]) + s[|s| - 1]
  }

  /** Adding one voter to the counted set adds one to that voter's option only. */
  lemma CountAmongStep(votes: Votes, voters: set<UserId>, u: UserId, i: nat)
    requires voters <= votes.Keys && u in votes && u !in voters
    ensures CountAmong(votes, voters + {u}, i)
         == CountAmong(votes, voters, i) + (if votes[u] == i then 1 else 0)
  {
    var before := set w | w in voters && votes[w] == i;
    var after := set w | w in voters + {u} && votes[w] == i;
    if votes[u] == i {
      assert after == before + {u};
    } else {
      assert after == before;
    }
  }

  /** The counts of an `n`-option round over the given voters only. */
  function CountsAmong(votes: Votes, voters: set<UserId>, n: nat): seq<nat>
    requires voters <= votes.Keys
  {
    seq(n, i requires 0 <= i < n => CountAmong(votes, voters, i))
  }

  /** Every one of the given voters recorded an index below `n`. */
  predicate AllBelow(votes: Votes, voters: set<UserId>, n: nat)
    requires voters <= votes.Keys
  {
    forall u :: u in voters ==> votes[u] < n
  }

  /** The count loop of the round-end handlers: a zero-filled array of `n`
      counts, incremented once for each recorded vote. An index that is not
      an option's makes the JavaScript array hold NaN; that is `None` here. */
  method CountVotes(votes: Votes, n: nat) returns (counts: Option<seq<nat>>)
    ensures counts.None? <==> !InRange(votes, n)
    ensures counts.Some? ==> counts.value == Counts(votes, n)
  {
    var a := new nat[n](_ => 0);
    var pending := votes.Keys;
    var poisoned := false;
    assert a[..] == CountsAmong(votes, {}, n);
    while pending != {}
      invariant pending <= votes.Keys
      invariant poisoned <==> !AllBelow(votes, votes.Keys - pending, n)
      invariant a[..] == CountsAmong(votes, votes.Keys - pending, n)
      decreases |pending|
    {
      var u :| u in pending;
      ghost var done := votes.Keys - pending;
      CountStep(votes, done, u, n);
      if votes[u] < n {
        a[votes[u]] := a[votes[u]] + 1;
      } else {
        poisoned := true;
      }
      pending := pending - {u};
      assert votes.Keys - pending == done + {u};
    }
    assert votes.Keys - pending == votes.Keys;
    assert AllBelow(votes, votes.Keys, n) <==> InRange(votes, n);
    if poisoned {
      counts := None;
    } else {
      assert CountsAmong(votes, votes.Keys, n) == Counts(votes, n);
      counts := Some(a[..]);
    }
  }

  /** One pass of the count loop: counting voter `u` as well adds one at
      `u`'s index, and leaves the counts alone when that index is not an
      option's. */
  lemma CountStep(votes: Votes, done: set<UserId>, u: UserId, n: nat)
    requires done <= votes.Keys && u in votes && u !in done
    ensures var before := CountsAmong(votes, done, n);
      CountsAmong(votes, done + {u}, n)
        == if votes[u] < n then before[votes[u] := before[votes[u]] + 1] else before
    ensures AllBelow(votes, done + {u}, n) <==> AllBelow(votes, done, n) && votes[u] < n
  {
    var before := CountsAmong(votes, done, n);
    var after := CountsAmong(votes, done + {u}, n);
    forall i | 0 <= i < n
      ensures after[i] == (if votes[u] == i then before[i] + 1 else before[i])
    {
      CountAmongStep(votes, done, u, i);
    }
  }

  /** `Math.max(...counts)`: the largest count, which is one of the counts. */
  function MaxOf(counts: seq<nat>): (m: nat)
    requires |counts| > 0
    ensures m in counts
    ensures forall i :: 0 <= i < |counts| ==> counts[i] <= m
  {
    if |counts| == 1 then counts[0]
    else
      var m' := MaxOf(counts[..|counts| - 1]);
      var last := counts[|counts| - 1];
      assert counts == counts[..|counts| - 1] + [last];
      if last < m' then m' else last
  }

  /** The indices whose count equals `m`, in strictly ascending order. */
  function Positions(counts: seq<nat>, m: nat): (p: seq<nat>)
    ensures forall k :: 0 <= k < |p| ==> p[k] < |counts| && counts[p[k]] == m
    ensures forall k, l :: 0 <= k < l < |p| ==> p[k] < p[l]
  {
    if counts == [] then []
    else
      var last := |counts| - 1;
      Positions(counts[..last], m) + (if counts[last] == m then [last] else [])
  }

  /** Every position holding `m` is listed. */
  lemma {:induction false} PositionsComplete(counts: seq<nat>, m: nat, i: nat)
    requires i < |counts| && counts[i] == m
    ensures i in Positions(counts, m)
  {
    var last := |counts| - 1;
    if i < last {
      PositionsComplete(counts[..last], m, i);
    }
  }

  /** `options.filter((_, idx) => counts[idx] === m)`: the options at the
      positions whose count is `m`, in their original order. */
  function Winners(options: seq<string>, counts: seq<nat>, m: nat): (w: seq<string>)
    requires |options| == |counts|
    ensures |w| == |Positions(counts, m)|
    ensures forall k :: 0 <= k < |w| ==> w[k] == options[Positions(counts, m)[k]]
  {
    if options == [] then []
    else
      var last := |options| - 1;
      Winners(options[..last], counts[..last], m)
        + (if counts[last] == m then [options[last]] else [])
  }

  /** Some option always reaches the maximum, so the winners are never empty. */
  lemma WinnersNonEmpty(options: seq<string>, counts: seq<nat>)
    requires |options| == |counts| > 0
    ensures |Winners(options, counts, MaxOf(counts))| >= 1
  {
    var m := MaxOf(counts);
    var i :| 0 <= i < |counts| && counts[i] == m;
    PositionsComplete(counts, m, i);
  }

  /** No position holds `m`, so none is listed. */
  lemma {:induction false} PositionsNone(counts: seq<nat>, m: nat)
    requires forall j :: 0 <= j < |counts| ==> counts[j] != m
    ensures Positions(counts, m) == []
  {
    if counts != [] {
      PositionsNone(counts[..|counts| - 1], m);
    }
  }

  /** Only position `i` holds `m`, so it alone is listed. */
  lemma {:induction false} PositionsSingle(counts: seq<nat>, m: nat, i: nat)
    requires i < |counts| && counts[i] == m
    requires forall j :: 0 <= j < |counts| && j != i ==> counts[j] != m
    ensures Positions(counts, m) == [i]
  {
    var last := |counts| - 1;
    var prefix := counts[..last];
    assert Positions(counts, m) == Positions(prefix, m) + (if counts[last] == m then [last] else []);
    if i == last {
      forall j | 0 <= j < |prefix| ensures prefix[j] != m {
        assert prefix[j] == counts[j];
      }
      PositionsNone(prefix, m);
    } else {
      assert counts[last] != m;
      forall j | 0 <= j < |prefix| && j != i ensures prefix[j] != m {
        assert prefix[j] == counts[j];
      }
      PositionsSingle(prefix, m, i);
    }
  }

  /** A count that beats every other count is the maximum and the only
      position reaching it. */
  lemma SoleMaximumPositions(counts: seq<nat>, i: nat)
    requires i < |counts|
    requires forall j :: 0 <= j < |counts| && j != i ==> counts[j] < counts[i]
    ensures MaxOf(counts) == counts[i]
    ensures Positions(counts, MaxOf(counts)) == [i]
  {
    var m := MaxOf(counts);
    var k :| 0 <= k < |counts| && counts[k] == m;
    assert counts[k] >= counts[i];
    PositionsSingle(counts, m, i);
  }

  /** When only one position reaches the maximum, that position's count
      beats every other. */
  lemma SinglePositionIsSole(counts: seq<nat>, i: nat)
    requires i < |counts| && counts[i] == MaxOf(counts)
    requires |Positions(counts, MaxOf(counts))| == 1
    ensures forall j :: 0 <= j < |counts| && j != i ==> counts[j] < counts[i]
  {
    var m := MaxOf(counts);
    PositionsComplete(counts, m, i);
    assert Positions(counts, m) == [i];
    forall j | 0 <= j < |counts| && counts[j] == m ensures j == i {
      PositionsComplete(counts, m, j);
    }
  }

  /** The counts of in-range votes add up to the number of users whose
      index is below `k`. */
  lemma {:induction false} SumCountsBelow(votes: Votes, k: nat)
    ensures Sum(Counts(votes, k)) == |set u | u in votes && votes[u] < k|
  {
    if k == 0 {
      assert (set u | u in votes && votes[u] < 0) == {};
    } else {
      SumCountsBelow(votes, k - 1);
      assert Counts(votes, k)[..k - 1] == Counts(votes, k - 1);
      var below := set u | u in votes && votes[u] < k - 1;
      var at := set u | u in votes && votes[u] == k - 1;
      assert (set u | u in votes && votes[u] < k) == below + at;
      assert below * at == {};
    }
  }

  /** With every index in range, the counts add up to the number of
      distinct voters. */
  lemma SumCounts(votes: Votes, n: nat)
    requires InRange(votes, n)
    ensures |Counts(votes, n)| == n
    ensures Sum(Counts(votes, n)) == |votes|
  {
    SumCountsBelow(votes, n);
    assert (set u | u in votes && votes[u] < n) == votes.Keys;
  }

  /** With every index in range, the largest count is 0 exactly when nobody voted. */
  lemma MaxZeroIffNoVotes(votes: Votes, n: nat)
    requires n > 0 && InRange(votes, n)
    ensures MaxOf(Counts(votes, n)) == 0 <==> |votes| == 0
  {
    var counts := Counts(votes, n);
    if |votes| > 0 {
      var u :| u in votes;
      var i := votes[u];
      var voters := set w | w in votes.Keys && votes[w] == i;
      assert u in voters;
      assert counts[i] == |voters| >= 1;
    } else {
      assert votes.Keys == {};
      forall i | 0 <= i < n ensures counts[i] == 0 {
        assert counts[i] == CountAmong(votes, {}, i);
      }
    }
  }

  /** A later reaction by the same user moves that user's one vote: the old
      option loses it, the new one gains it, every other count is unchanged. */
  lemma RevoteMovesOneVote(votes: Votes, u: UserId, idx: nat, i: nat)
    ensures Count(votes[u := idx], i)
         == Count(votes, i) - (if u in votes && votes[u] == i then 1 else 0)
                            + (if idx == i then 1 else 0)
  {
    var after := votes[u := idx];
    var others := set w | w in votes.Keys && w != u && votes[w] == i;
    var now := set w | w in after.Keys && after[w] == i;
    var was := set w | w in votes.Keys && votes[w] == i;
    if idx == i {
      assert now == others + {u};
    } else {
      assert now == others;
    }
    if u in votes && votes[u] == i {
      assert was == others + {u};
    } else {
      assert was == others;
    }
  }
}
