/** The vote command's channel registry and the handlers that drive a poll:
    the slash-command request, each reaction the collectors pass on, and the
    end of each collector's window. Each handler runs as one atomic step. */
module Registry {
  import opened Wrappers
  import opened Strings
  import opened Markers
  import opened Tally
  import opened Outcome

  type ChannelId = string

  /** The message a reaction collector is attached to. */
  type RoundId = nat

  /** A registry entry: the options of the poll and its first-round votes. */
  datatype Session = Session(options: seq<string>, votes: Votes)

  /** A running reaction collector. The first round's handlers look the
      session up by channel each time they fire; the tie-break round keeps
      its own options and its own vote record. */
  datatype Round =
    | FirstRound(channel: ChannelId)
    | TieBreakRound(channel: ChannelId, tied: seq<string>, tieVotes: Votes)

  /** What a handler sends to the channel. */
  datatype Reply =
    | TooFewOptions       // "Please provide at least two options separated by commas."
    | AlreadyInProgress   // "A vote is already in progress in this channel. Please wait until it finishes."
    | PollOpened(round: RoundId, description: string, reactions: seq<Option<string>>)
    | FirstRoundResult(outcome: FirstRoundOutcome)
    | TieBreakOpened(round: RoundId, description: string, reactions: seq<Option<string>>)
    | TieBreakResult(tieOutcome: TieBreakOutcome)
    | HandlerFailed       // no entry for the channel: the handler throws before it replies

  /** What the collect handler did with a reaction. */
  datatype CollectResult =
    | Ignored             // a bot's reaction, or an emoji that is not one of the ten markers
    | Recorded(index: nat)
    | NoEntry             // no entry for the channel: the handler throws and records nothing

  /** The registry's invariant on its three parts: collector handles are
      below the next handle, every entry and every tie-break round has at
      least two options, and every recorded index is a marker position. */
  ghost predicate ValidState(active: map<ChannelId, Session>, collectors: map<RoundId, Round>, nextRound: RoundId)
  {
    && (forall r :: r in collectors ==> r < nextRound)
    && (forall ch :: ch in active ==> |active[ch].options| >= 2 && InRange(active[ch].votes, |Emojis|))
    && (forall r :: r in collectors && collectors[r].TieBreakRound? ==>
          |collectors[r].tied| >= 2 && InRange(collectors[r].tieVotes, |Emojis|))
  }

  lemma RemoveEntryValid(active: map<ChannelId, Session>, collectors: map<RoundId, Round>, nextRound: RoundId, ch: ChannelId)
    requires ValidState(active, collectors, nextRound)
    ensures ValidState(active - {ch}, collectors, nextRound)
  {
  }

  lemma RemoveRoundValid(active: map<ChannelId, Session>, collectors: map<RoundId, Round>, nextRound: RoundId, r: RoundId)
    requires ValidState(active, collectors, nextRound)
    ensures ValidState(active, collectors - {r}, nextRound)
  {
  }

  lemma AddTieBreakValid(active: map<ChannelId, Session>, collectors: map<RoundId, Round>, nextRound: RoundId,
                         ch: ChannelId, tied: seq<string>)
    requires ValidState(active, collectors, nextRound) && |tied| >= 2
    ensures nextRound !in collectors
    ensures ValidState(active, collectors[nextRound := TieBreakRound(ch, tied, map[])], nextRound + 1)
  {
  }

  class PollRegistry {
    /** `activeVotes`: the channels with a poll entry. */
    var active: map<ChannelId, Session>
    /** The reaction collectors whose window has not ended. */
    var collectors: map<RoundId, Round>
    /** The handle the next poll or tie-break message gets. */
    var nextRound: RoundId

    ghost predicate Valid()
      reads this
    {
      ValidState(active, collectors, nextRound)
    }

    constructor ()
      ensures Valid()
      ensures active == map[] && collectors == map[] && nextRound == 0
    {
      active := map[];
      collectors := map[];
      nextRound := 0;
    }

    /** The vote command: split the options on commas, refuse fewer than two
        pieces, refuse a channel that has an entry, otherwise store the
        options with an empty vote record, post them with one marker each
        and start the first round's collector. With more options than
        markers the reaction for the eleventh option has no emoji and fails,
        so the handler stops before it starts a collector. The entry stays:
        this poll never removes it, and only the end of an earlier poll's
        tie-break in the channel, or an earlier round-one collector of the
        channel still running, can. */
    method Request(channel: ChannelId, optionsText: string) returns (reply: Reply)
      requires Valid()
      modifies this
      ensures Valid()
      ensures reply == TooFewOptions <==> ',' !in optionsText
      ensures reply == AlreadyInProgress <==> ',' in optionsText && channel in old(active)
      ensures reply.PollOpened? <==> ',' in optionsText && channel !in old(active)
      ensures !reply.PollOpened? ==>
        active == old(active) && collectors == old(collectors) && nextRound == old(nextRound)
      ensures reply.PollOpened? ==>
        var options := Split(optionsText, ',');
        && old(nextRound) !in old(collectors)
        && active == old(active)[channel := Session(options, map[])]
        && (if |options| <= |Emojis|
            then collectors == old(collectors)[old(nextRound) := FirstRound(channel)]
            else collectors == old(collectors))
        && nextRound == old(nextRound) + 1
        && reply == PollOpened(old(nextRound), Description(options), Reactions(|options|))
    {
      var options := Split(optionsText, ',');
      SplitFewerThanTwo(optionsText, ',');
      if |options| < 2 {
        return TooFewOptions;
      }
      if channel in active {
        return AlreadyInProgress;
      }
      active := active[channel := Session(options, map[])];
      reply := PollOpened(nextRound, Description(options), Reactions(|options|));
      if |options| <= |Emojis| {
        collectors := collectors[nextRound := FirstRound(channel)];
      }
      nextRound := nextRound + 1;
    }

    /** A reaction on the message of collector `r`. The filter passes a
        non-bot user's reaction with any of the ten markers; the marker's
        position then overwrites that user's entry in the round's votes. */
    method Collect(r: RoundId, user: UserId, isBot: bool, emoji: string) returns (result: CollectResult)
      requires Valid() && r in collectors
      modifies this
      ensures Valid()
      ensures nextRound == old(nextRound) && collectors.Keys == old(collectors).Keys
      ensures isBot || !IsMarker(emoji) <==> result == Ignored
      ensures result == Ignored || result == NoEntry ==> active == old(active) && collectors == old(collectors)
      ensures result.Recorded? ==> result.index < |Emojis| && Emojis[result.index] == emoji
      ensures !isBot && IsMarker(emoji) && old(collectors[r]).FirstRound? ==>
        var ch := old(collectors[r]).channel;
        && collectors == old(collectors)
        && (ch !in old(active) <==> result == NoEntry)
        && (ch in old(active) ==>
              active == old(active)[ch := old(active[ch]).(votes := old(active[ch]).votes[user := result.index])])
      ensures !isBot && IsMarker(emoji) && old(collectors[r]).TieBreakRound? ==>
        var t := old(collectors[r]);
        && result.Recorded?
        && active == old(active)
        && collectors == old(collectors)[r := t.(tieVotes := t.tieVotes[user := result.index])]
    {
      if isBot || !IsMarker(emoji) {
        return Ignored;
      }
      var idx := MarkerPosition(emoji);
      var round := collectors[r];
      if round.FirstRound? {
        var ch := round.channel;
        if ch in active {
          var s := active[ch];
          active := active[ch := s.(votes := s.votes[user := idx])];
          result := Recorded(idx);
        } else {
          result := NoEntry;
        }
      } else {
        collectors := collectors[r := round.(tieVotes := round.tieVotes[user := idx])];
        result := Recorded(idx);
      }
    }

    /** The end of the first round's window: count the channel's entry,
        remove the entry, and report no votes, the winner, or open the one
        tie-break round over the tied options with the first markers. A tie
        over more options than markers posts the tie-break message but, as
        the poll request does, fails on the eleventh reaction before any
        tie-break collector starts. */
    method EndFirstRound(r: RoundId) returns (reply: Reply)
      requires Valid() && r in collectors && collectors[r].FirstRound?
      modifies this
      ensures Valid()
      ensures old(collectors[r]).channel !in active
      ensures
        var ch := old(collectors[r]).channel;
        if ch !in old(active) then
          && reply == HandlerFailed
          && active == old(active)
          && collectors == old(collectors) - {r}
          && nextRound == old(nextRound)
        else
          var s := old(active[ch]);
          var o := DecideFirstRound(s.options, s.votes);
          && active == old(active) - {ch}
          && if o.Tie? then
               && reply == TieBreakOpened(old(nextRound), Description(o.tied), Reactions(|o.tied|))
               && old(nextRound) !in old(collectors)
               && (if |o.tied| <= |Emojis|
                   then collectors == (old(collectors) - {r})[old(nextRound) := TieBreakRound(ch, o.tied, map[])]
                   else collectors == old(collectors) - {r})
               && nextRound == old(nextRound) + 1
             else
               && reply == FirstRoundResult(o)
               && collectors == old(collectors) - {r}
               && nextRound == old(nextRound)
    {
      var ch := collectors[r].channel;
      RemoveRoundValid(active, collectors, nextRound, r);
      collectors := collectors - {r};
      if ch !in active {
        return HandlerFailed;
      }
      var s := active[ch];
      var o := TallyFirstRound(s.options, s.votes);
      RemoveEntryValid(active, collectors, nextRound, ch);
      active := active - {ch};
      if o.Tie? {
        reply := TieBreakOpened(nextRound, Description(o.tied), Reactions(|o.tied|));
        if |o.tied| <= |Emojis| {
          AddTieBreakValid(active, collectors, nextRound, ch, o.tied);
          collectors := collectors[nextRound := TieBreakRound(ch, o.tied, map[])];
        }
        nextRound := nextRound + 1;
      } else {
        reply := FirstRoundResult(o);
      }
    }

    /** The end of the tie-break window: count the tie-break's own votes over
        the tied options, report, and remove whatever entry the channel has
        now. No further round is opened. */
    method EndTieBreakRound(r: RoundId) returns (reply: Reply)
      requires Valid() && r in collectors && collectors[r].TieBreakRound?
      modifies this
      ensures Valid()
      ensures
        var t := old(collectors[r]);
        && reply == TieBreakResult(DecideTieBreak(t.tied, t.tieVotes))
        && active == old(active) - {t.channel}
        && collectors == old(collectors) - {r}
        && nextRound == old(nextRound)
    {
      var t := collectors[r];
      collectors := collectors - {r};
      var o := TallyTieBreak(t.tied, t.tieVotes);
      reply := TieBreakResult(o);
      active := active - {t.channel};
    }
  }

  /** Opens a poll over "A,B" in channel "c" as round 0. */
  method OpenPoll() returns (registry: PollRegistry)
    ensures fresh(registry) && registry.Valid()
    ensures registry.active == map["c" := Session(["A", "B"], map[])]
    ensures registry.collectors == map[0 := FirstRound("c")] && registry.nextRound == 1
  {
    assert Split("A,B", ',') == ["A", "B"] by {
      SplitPair("A", ',', "B");
      assert "A" + [','] + "B" == "A,B";
    }
    registry := new PollRegistry();
    var first := registry.Request("c", "A,B");
    assert first.PollOpened?;
  }

  /** A poll over more options than markers is posted, but its eleventh
      reaction fails before a collector starts. On a registry with no other
      collector, nothing is left running, and the channel refuses the next
      poll. */
  method OverlongPollStaysLocked(text: string, later: string) returns (posted: Reply, refused: Reply, running: nat)
    requires Occurrences(text, ',') >= |Emojis| && ',' in later
    ensures posted.PollOpened? && |posted.reactions| > |Emojis| && posted.reactions[|Emojis|] == None
    ensures refused == AlreadyInProgress
    ensures running == 0
  {
    var registry := new PollRegistry();
    posted := registry.Request("c", text);
    refused := registry.Request("c", later);
    running := |registry.collectors|;
  }

  /** A poll over more options than markers, opened while an earlier poll's
      tie-break runs in the channel, locks the channel until that tie-break
      ends; its end removes the overlong poll's entry and the channel
      accepts a poll again. */
  method OverlongPollFreedByTieBreakEnd(text: string, later: string) returns (refused: Reply, after: Reply)
    requires Occurrences(text, ',') >= |Emojis| && ',' in later
    ensures refused == AlreadyInProgress
    ensures after.PollOpened?
  {
    var registry := OpenTwoWayTie();
    var posted := registry.Request("c", text);
    refused := registry.Request("c", later);
    var ended := registry.EndTieBreakRound(1);
    after := registry.Request("c", later);
  }

  /** Records one vote for each option of that poll. */
  method OpenAndVote() returns (registry: PollRegistry)
    ensures fresh(registry) && registry.Valid()
    ensures registry.active == map["c" := Session(["A", "B"], map["v1" := 0, "v2" := 1])]
    ensures registry.collectors == map[0 := FirstRound("c")] && registry.nextRound == 1
  {
    registry := OpenPoll();
    var got := registry.Collect(0, "v1", false, Emojis[0]);
    assert got == Recorded(0) by { MarkersDistinct(); }
    got := registry.Collect(0, "v2", false, Emojis[1]);
    assert got == Recorded(1) by { MarkersDistinct(); }
  }

  /** Ends the first round of that poll: the tie opens a tie-break as round
      1, and the channel's entry is already gone. */
  method OpenTwoWayTie() returns (registry: PollRegistry)
    ensures fresh(registry) && registry.Valid()
    ensures "c" !in registry.active && registry.nextRound == 2
    ensures 1 in registry.collectors && registry.collectors[1] == TieBreakRound("c", ["A", "B"], map[])
    ensures forall r :: r in registry.collectors ==> r == 1
  {
    registry := OpenAndVote();
    assert DecideFirstRound(["A", "B"], map["v1" := 0, "v2" := 1]) == Tie(["A", "B"]) by {
      TwoWayTieScenario();
    }
    assert registry.active["c"] == Session(["A", "B"], map["v1" := 0, "v2" := 1]);
    assert |["A", "B"]| <= |Emojis|;
    var ended := registry.EndFirstRound(0);
    assert ended.TieBreakOpened?;
  }

  /** While the tie-break of a poll in channel "c" runs, a second poll is
      accepted in the channel; the tie-break's end removes the second poll's
      entry, the second poll's reactions then find no entry, and a third
      poll is accepted while the second one's collector is still running. */
  method TieBreakEndReleasesLaterPoll() returns (lost: CollectResult, third: Reply)
    ensures lost == NoEntry && third.PollOpened?
  {
    var registry := OpenTwoWayTie();
    assert "X,Y"[1] == ',';
    var second := registry.Request("c", "X,Y");
    assert second.PollOpened? && second.round == 2;
    var tieEnd := registry.EndTieBreakRound(1);
    assert "c" !in registry.active && registry.collectors[2] == FirstRound("c");

    lost := registry.Collect(2, "v3", false, Emojis[0]);
    assert "P,Q"[1] == ',';
    third := registry.Request("c", "P,Q");
    assert 2 in registry.collectors;
  }
}
