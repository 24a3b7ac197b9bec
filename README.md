# Vote command of the Discord bot, modelled in Dafny

This project models the `/vote` slash command of the bot. Two copies of it
exist: `src/index.js` and `src/bot.js`. The second one waits one second before
it starts collecting reactions.

How a poll runs:

- A user asks a question and gives a comma-separated list of options.
- The bot posts the list with a keycap marker (1️⃣ … 9️⃣, 🔟) in front of each
  option and adds one reaction per option.
- For twenty seconds it records each non-bot user's latest marker reaction.
- It then announces one of three results: no votes, a single winner with its
  vote count, or a tie.
- A tie opens one tie-breaking poll over the tied options, collected and
  decided the same way.
- A channel map keeps a second poll from being accepted while the channel has
  an entry.

The model has six modules:

- `Strings`: `split(",")` and `join` as JavaScript performs them. Splitting
  trims nothing and keeps empty pieces. Split and join are proved to be
  inverses.
- `Markers`: the ten markers, `indexOf`, and the option list shown in the
  message. Each line of the list is proved to read back as "marker: option".
- `Tally`: vote counting is a `method` with a loop over the recorded votes, as
  the source's `for … of` loop is. It is proved against the specification
  function `Counts`. `Math.max` and the winner filter come with their
  properties. The counts sum to the number of voters, and a changed vote moves
  exactly one count.
- `Outcome`: the decision after each round is a pure function of the options
  and the recorded votes. Each kind of result is characterised by an
  if-and-only-if over the counts. For a named winner this holds when every
  recorded index is an option's; otherwise the winner is `undefined`.
- `Registry`: the bot's state is a class `PollRegistry` with these fields:
  - `active`: the source's `activeVotes` map, from channel to options and
    votes;
  - `collectors`: the reaction collectors still running, keyed by the id of
    the message they watch;
  - `nextRound`: the next message id.

  Each event handler is a method that changes these fields: the command, a
  reaction, the end of round one, and the end of a tie-break.
- `Wrappers`: the `Option` type.

Where the code differs from what a reader of the command would expect, the
model follows the code:

- **One tie-break only.** A tie in the tie-breaking poll is announced as
  "still a tie". No further round is opened.
- **Options are neither trimmed nor capped.** `"a, b"` gives the options
  `"a"` and `" b"`. Empty options are kept. More than ten options are
  accepted and posted. Options past the tenth are labelled `undefined` in the
  list (`Markers.Label`), and the source's reaction call gets no marker for
  them (`Markers.Reactions` gives `None`).
- **More than ten options lock the channel.** The reaction for the eleventh
  option has no emoji and fails. The handler stops there, before it starts a
  collector. The overlong poll never removes its own entry, so later polls in
  that channel are refused (`Registry.OverlongPollStaysLocked`). Only a handler
  of an earlier poll in that channel can free it. That is either the end of
  its tie-break (src/index.js:292, shown by
  `Registry.OverlongPollFreedByTieBreakEnd`) or the end of one of its
  round-one collectors still running. A tie over more than
  ten options likewise posts the tie-break message and starts no tie-break
  collector.
- **The filter admits all ten markers, whatever the number of options.**
  Suppose a vote is cast with a marker past the last option. JavaScript then
  increments an array slot that does not exist, and the maximum becomes `NaN`.
  The reply then names an `undefined` winner. The model gives this result its
  own outcome: `WinnerUndefined`, or `TieWinnerUndefined` for the tie-break.
  `Outcome.UnissuedMarkerScenario` proves that such a vote gives this outcome.
- **The channel is unlocked while the tie-break runs.** The end of round one
  deletes the channel's entry on every path, so a new poll is accepted while
  the tie-break collects. Its collector watches its own message, so several
  tie-breaks can coexist in one channel.
- **A tie-break's end deletes whatever entry the channel holds.** That entry
  may belong to a later poll. The later poll's reactions then find no entry,
  and so does its end (a `TypeError` in the source, `NoEntry` and
  `HandlerFailed` here). `Registry.TieBreakEndReleasesLaterPoll` exhibits
  this.

## Model

| member | source | states |
|---|---|---|
| Strings.Split | src/index.js:180 | splitting at a separator gives one more piece than there are separators, and no piece contains the separator |
| Strings.SplitFewerThanTwo | src/index.js:180-184 | the option text is refused for fewer than two options exactly when it contains no comma |
| Strings.JoinSplit | src/index.js:180 | joining the pieces of a split with the separator restores the text |
| Strings.SplitJoin | src/index.js:180 | splitting a join of separator-free pieces gives back the pieces |
| Strings.SplitPair | src/index.js:180 | two separator-free parts around one separator split into exactly those two |
| Markers.IndexOf | src/index.js:218 | `indexOf` gives -1 exactly when the item is absent, and otherwise the first position holding it |
| Markers.MarkerPosition | src/index.js:212-219 | a reaction the filter admits has a marker position below ten, holding that marker, with no earlier occurrence |
| Markers.MarkersDistinct | src/index.js:193 | the ten markers are pairwise different |
| Markers.MarkerIndexRoundTrip | src/index.js:193 | looking up the i-th marker gives back i |
| Markers.Label | src/index.js:195 | a line's label has no newline; past the tenth option it is `undefined` |
| Markers.LineHasNoNewline | src/index.js:194-196 | a listed line has no newline when its option has none |
| Markers.DescriptionLines | src/index.js:194-196 | splitting the option list at newlines gives one line per option, reading "marker: option" |
| Markers.ReactionIndex | src/index.js:207-213 | for j below the option count the j-th reaction is the j-th marker; otherwise that marker is never added, yet the filter admits it |
| Tally.CountVotes | src/index.js:225-226 | the count per option, equal to the number of voters whose recorded index is that option; no counts (the `NaN` case) exactly when some index is out of range |
| Tally.MaxOf | src/index.js:228 | the maximum is one of the counts and no count exceeds it |
| Tally.Positions | src/index.js:229-231 | every kept position holds the given count, and the positions are in increasing order |
| Tally.PositionsComplete | src/index.js:229-231 | every position holding the given count is kept |
| Tally.Winners | src/index.js:229-231 | the filtered options are the options at those positions, in order |
| Tally.WinnersNonEmpty | src/index.js:228-231 | the filter keeps at least one option |
| Tally.SoleMaximumPositions | src/index.js:228-231 | a strict maximum at i makes i the only kept position |
| Tally.SinglePositionIsSole | src/index.js:228-231 | when the maximum is kept at exactly one position, that position's count is strictly larger than every other count |
| Tally.SumCounts | src/index.js:225-226 | with all indices in range, the counts sum to the number of voters |
| Tally.MaxZeroIffNoVotes | src/index.js:228-234 | with all indices in range, the maximum is zero exactly when nobody voted |
| Tally.RevoteMovesOneVote | src/index.js:219 | overwriting a user's vote removes one from the old option's count and adds one to the new option's count; every other count is unchanged |
| Outcome.FirstRoundNoVotes | src/index.js:225-234 | "no votes" exactly when nobody voted; an undefined winner exactly when some recorded index is past the options |
| Outcome.FirstRoundWinner | src/index.js:225-235 | with every recorded index an option's, option i is announced (lines 294-297) with its count exactly when it has votes and strictly more than every other option |
| Outcome.FirstRoundTie | src/index.js:228-236 | a tie exactly when the votes are in range and nonempty and two options share the top count |
| Outcome.FirstRoundTiedOptions | src/index.js:229-242 | the tied options are the options at the top positions, at least two, in order |
| Outcome.TiedAreOptions | src/index.js:229-231 | every tied option is one of the poll's options |
| Outcome.TallyFirstRound | src/index.js:223-236 | the handler's loop count, maximum and filter give exactly the first-round decision, whose cases are characterised by the lemmas above |
| Outcome.TieBreakNoVotes | src/index.js:270-281 | "no votes in the tie-breaker" exactly when nobody voted in it; an undefined winner exactly when an index is out of range |
| Outcome.TieBreakWinner | src/index.js:270-290 | with every recorded index a tied option's, a tied option with votes and a strict maximum wins the tie-break, and every tie-break winner is such an option |
| Outcome.TieBreakStillTie | src/index.js:270-285 | a repeated tie is announced exactly when the tie-break votes are in range and nonempty and two tied options share the top count |
| Outcome.TieBreakFinalists | src/index.js:274-285 | the finalists of a repeated tie are the tied options at exactly the top positions of the tie-break, at least two, in order |
| Outcome.TieBreakWithinTied | src/index.js:276-285 | a tie-break winner, and every finalist of a repeated tie, is one of the tied options |
| Outcome.TallyTieBreak | src/index.js:269-290 | the tie-break handler's loop count, maximum and filter give exactly the tie-break decision, whose cases are characterised by the lemmas above |
| Outcome.TwoOfThreeScenario | src/index.js:225-235 | two of three votes for "Pizza" announce "Pizza" with 2 votes |
| Outcome.TieScenario | src/index.js:228-243 | one vote each for the first two of three options opens a tie-break over those two |
| Outcome.TwoWayTieScenario | src/index.js:228-243 | one vote each for two options opens a tie-break over both |
| Outcome.StillTieScenario | src/index.js:275-285 | one vote each in a two-way tie-break reports a repeated tie over both |
| Outcome.UnissuedMarkerScenario | src/index.js:212-228 | a vote with the third marker on a two-option poll leaves the winner undefined |
| Registry.PollRegistry.constructor | src/index.js:173 | no poll is active and no collector is running |
| Registry.PollRegistry.Request | src/index.js:178-215 | refused without a comma; refused while the channel holds a poll; otherwise the channel gets the split options and no votes, the list and reactions follow the options, and a round-one collector starts only when there are at most ten options; the state is unchanged on refusal |
| Registry.PollRegistry.Collect | src/index.js:211-220 | bot users and foreign emoji are ignored; otherwise the user's vote becomes the marker's first position, in the channel's entry for round one (no entry: nothing changes) or, as the tie-break collector at lines 256-267 does, in the tie-break's own votes |
| Registry.PollRegistry.EndFirstRound | src/index.js:222-301 | the result is the decision over the channel's entry, the entry is removed on every path, and a tie over at most ten options starts a tie-break collector over the tied options; without an entry the handler fails and only its collector ends |
| Registry.PollRegistry.EndTieBreakRound | src/index.js:269-293 | the result is the tie-break decision over its own votes; whatever entry the channel holds is removed |
| Registry.TieBreakEndReleasesLaterPoll | src/index.js:292 | after a tie-break's end deletes the channel's entry (the first round having deleted its own at line 232), a poll opened during that tie-break finds no entry for its votes, and a third poll is accepted while the second still collects |
| Registry.OverlongPollStaysLocked | src/index.js:192-215 | for any option text with at least ten commas, the poll is posted with no marker for the eleventh reaction, no collector runs, and a later poll in that channel is refused |
| Registry.OverlongPollFreedByTieBreakEnd | src/index.js:292 | an overlong poll opened during an earlier poll's tie-break keeps the channel refusing polls until that tie-break ends, whose deletion of the channel's entry frees it for a new poll |
| Registry.OpenPoll | src/index.js:178-215 | a poll over "A,B" leaves that channel's entry with both options and no votes, and one round-one collector |
| Registry.OpenAndVote | src/bot.js:45-78 | a poll over "A,B" with one vote each leaves exactly that entry and its round-one collector |
| Registry.OpenTwoWayTie | src/bot.js:94-122 | ending that round removes the entry and leaves only the tie-break collector over both options |

The ensures of `Strings.SplitFewerThanTwo` and `Outcome.FirstRoundNoVotes` are
both directions of the condition the source tests. `Tally.CountVotes` is the
loop. `Outcome.DecideFirstRound` and `Outcome.DecideTieBreak` are the
functions that `Outcome.TallyFirstRound`, `Outcome.TallyTieBreak` and the
handlers are proved against.

## Left out

- The Discord client, slash-command registration, embeds, titles, colours and
  the question text are not modelled. A reply is a constructor carrying what
  the source's message is computed from (the outcome, the option list, the
  markers to add). The decimal rendering of the vote count and the exact
  wording of the replies are not modelled.
- The twenty-second collector timers and the one-second delay in
  `src/bot.js` are not modelled. A collector's end is an event the
  environment may deliver at any time. Reactions added before `src/bot.js`
  starts its collector are simply never delivered.
- Each handler runs as one atomic step. The awaits inside the handlers are
  not modelled. In particular, the round-one end handler deletes the
  channel's entry again after the tie-break's message and reactions are
  posted (src/index.js:300, src/bot.js:161). A poll opened inside that
  window would lose its entry there. The model covers only the deletion
  before the tie-break opens.
- Failures of the platform are not modelled, such as a failed reply or a
  failed reaction for one of the ten markers. The failed reaction for an
  eleventh option is modelled (no collector starts).
- The propagation of two uncaught errors is not modelled:
  - the `TypeError` thrown when a handler finds no entry;
  - the rejected reaction for an eleventh option (src/index.js:207-209 and
    251-253, src/bot.js:62-64 and 112-114).

  Nothing in the source catches either one. There is no `try`/`catch` around
  the vote command and no error listener on the client. The collect listener
  runs inside the library's event dispatch, and the end and command listeners
  are `async`, so each error is an unhandled rejection. Under Node's default
  behaviour since version 15 that ends the process, and with it every
  channel's entry and collector. The model instead assumes the process
  survives and only the failing handler stops. These members rely on that
  assumption:
  - `NoEntry` and `HandlerFailed`;
  - the branches of `Registry.PollRegistry.Request` and
    `Registry.PollRegistry.EndFirstRound` for more than ten options;
  - `Registry.TieBreakEndReleasesLaterPoll`, `Registry.OverlongPollStaysLocked`
    and `Registry.OverlongPollFreedByTieBreakEnd`.
- JavaScript's `NaN` arithmetic is represented by the outcomes
  `WinnerUndefined` and `TieWinnerUndefined`. `NaN` itself is not modelled.
- User ids, channel ids and message ids are plain strings and numbers. A new
  message id is the next free number.
- `src/role-bot.js` and `src/welcome-bot.js` are not part of this model.
