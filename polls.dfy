/**
 * The poll record of the strawpoll command and everything computed from it
 * without touching the store: creation, the vote update, the vote button
 * id format, the results view and the choice of polls to resume.
 */
module Polls {
  import opened Wrappers
  import Strings
  import Duration

  /**
   * One poll as it is kept in the poll file. `votes` is keyed like the
   * JavaScript object it models: by the string form of the option index.
   */
  datatype Poll = Poll(
    pollId: string,
    question: string,
    options: seq<string>,
    votes: map<string, nat>,
    voters: seq<string>,
    duration: nat,
    endTime: int,
    startedAt: int,
    messageId: Option<string>,
    resultsMessageId: Option<string>,
    channelId: string,
    guildId: string)

  /** The property key of option index `i`: `String(i)`. */
  function IndexKey(i: nat): (k: string)
    ensures k != [] && Strings.AllDigits(k)
    ensures '_' !in k && '\n' !in k
  {
    var k := Strings.NatToString(i);
    assert forall j :: 0 <= j < |k| ==> k[j] != '_' && k[j] != '\n';
    k
  }

  function IndexKeys(n: nat): set<string>
  {
    set i | 0 <= i < n :: IndexKey(i)
  }

  // ---------------------------------------------------------------- creation

  datatype CreateRequest = CreateRequest(
    question: string,
    option1: string,
    option2: string,
    option3: Option<string>,
    duration: string,
    channelId: string,
    guildId: string)

  datatype CreateError = MissingSendPermission | InvalidDuration

  /** `[option1, option2, option3].filter(Boolean)`: the options that were given, in order. */
  function KeptOptions(option1: string, option2: string, option3: Option<string>): (options: seq<string>)
    ensures forall i :: 0 <= i < |options| ==> options[i] != ""
    ensures option1 != "" && option2 != "" ==>
      options == [option1, option2] + (if option3.Some? && option3.value != "" then [option3.value] else [])
    ensures |options| <= 3
  {
    (if option1 != "" then [option1] else [])
    + (if option2 != "" then [option2] else [])
    + (if option3.Some? && option3.value != "" then [option3.value] else [])
  }

  /** `${userId}_${now}`: the poll id holds the separator of the button ids. */
  function PollId(userId: string, now: nat): (id: string)
    ensures '_' in id
  {
    var id := userId + "_" + Strings.NatToString(now);
    assert id[|userId|] == '_';
    id
  }

  /** The `forEach` that sets a zero count under every option index. */
  method InitialVotes(n: nat) returns (votes: map<string, nat>)
    ensures votes.Keys == IndexKeys(n)
    ensures forall k :: k in votes ==> votes[k] == 0
  {
    votes := map[];
    var i := 0;
    while i < n
      invariant i <= n
      invariant votes.Keys == IndexKeys(i)
      invariant forall k :: k in votes ==> votes[k] == 0
    {
      assert IndexKeys(i + 1) == IndexKeys(i) + {IndexKey(i)} by {
        forall k | k in IndexKeys(i + 1) ensures k in IndexKeys(i) + {IndexKey(i)} {
          var j :| 0 <= j < i + 1 && k == IndexKey(j);
          if j < i {
            assert k in IndexKeys(i);
          }
        }
      }
      votes := votes[IndexKey(i) := 0];
      i := i + 1;
    }
  }

  /**
   * The record the strawpoll command builds: the options that were given,
   * a zero count per option, no voters, and a deadline `duration` after now.
   * A token that does not parse, or parses to 0, is rejected.
   */
  method NewPoll(req: CreateRequest, userId: string, now: nat) returns (r: Result<Poll, CreateError>)
    ensures r.Failure? <==> Duration.Parse(req.duration) in {None, Some(0)}
    ensures r.Failure? ==> r.error == InvalidDuration
    ensures r.Success? ==>
      var p := r.value;
      && p.pollId == PollId(userId, now)
      && p.question == req.question
      && p.options == KeptOptions(req.option1, req.option2, req.option3)
      && p.votes.Keys == IndexKeys(|p.options|)
      && (forall k :: k in p.votes ==> p.votes[k] == 0)
      && p.voters == []
      && Some(p.duration) == Duration.Parse(req.duration)
      && p.duration > 0
      && p.startedAt == now
      && p.endTime == now + p.duration
      && p.messageId == None && p.resultsMessageId == None
      && p.channelId == req.channelId && p.guildId == req.guildId
  {
    var duration := Duration.Parse(req.duration);
    if duration.None? || duration.value == 0 {
      return Failure(InvalidDuration);
    }
    var options := KeptOptions(req.option1, req.option2, req.option3);
    var votes := InitialVotes(|options|);
    r := Success(Poll(PollId(userId, now), req.question, options, votes, [], duration.value,
                      now + duration.value, now, None, None, req.channelId, req.guildId));
  }

  // ----------------------------------------------------------- tally invariant

  ghost function SumOver(m: map<string, nat>, keys: set<string>): nat
    requires keys <= m.Keys
    decreases keys
  {
    if keys == {} then 0 else var k :| k in keys; m[k] + SumOver(m, keys - {k})
  }

  /** The sum of all counts. */
  ghost function Total(m: map<string, nat>): nat
  {
    SumOver(m, m.Keys)
  }

  lemma {:induction false} SumOverRemove(m: map<string, nat>, keys: set<string>, k: string)
    requires keys <= m.Keys && k in keys
    ensures SumOver(m, keys) == m[k] + SumOver(m, keys - {k})
    decreases keys
  {
    var j :| j in keys && SumOver(m, keys) == m[j] + SumOver(m, keys - {j});
    if j != k {
      SumOverRemove(m, keys - {j}, k);
      SumOverRemove(m, keys - {k}, j);
      assert keys - {j} - {k} == keys - {k} - {j};
    }
  }

  lemma {:induction false} SumOverAgree(m1: map<string, nat>, m2: map<string, nat>, keys: set<string>)
    requires keys <= m1.Keys && keys <= m2.Keys
    requires forall k :: k in keys ==> m1[k] == m2[k]
    ensures SumOver(m1, keys) == SumOver(m2, keys)
    decreases keys
  {
    if keys != {} {
      var k :| k in keys;
      SumOverRemove(m1, keys, k);
      SumOverRemove(m2, keys, k);
      SumOverAgree(m1, m2, keys - {k});
    }
  }

  lemma {:induction false} SumOverZeros(m: map<string, nat>, keys: set<string>)
    requires keys <= m.Keys
    requires forall k :: k in keys ==> m[k] == 0
    ensures SumOver(m, keys) == 0
    decreases keys
  {
    if keys != {} {
      var k :| k in keys;
      SumOverRemove(m, keys, k);
      SumOverZeros(m, keys - {k});
    }
  }

  /** `votes[key] || 0`. */
  function CountAt(votes: map<string, nat>, key: string): nat
  {
    if key in votes then votes[key] else 0
  }

  /** Adding one to one count, present or not, adds one to the total. */
  lemma TotalIncrement(m: map<string, nat>, key: string)
    ensures Total(m[key := CountAt(m, key) + 1]) == Total(m) + 1
  {
    var m' := m[key := CountAt(m, key) + 1];
    SumOverRemove(m', m'.Keys, key);
    assert m'.Keys - {key} == m.Keys - {key};
    SumOverAgree(m', m, m.Keys - {key});
    if key in m {
      SumOverRemove(m, m.Keys, key);
    } else {
      assert m.Keys - {key} == m.Keys;
    }
  }

  /** One ballot per voter: no voter twice, and one count per ballot. */
  ghost predicate Consistent(p: Poll)
  {
    Strings.NoDuplicates(p.voters) && Total(p.votes) == |p.voters|
  }

  /** Consistent, counts exactly under the option indices, and the deadline fixed at creation. */
  ghost predicate WellFormed(p: Poll)
  {
    && Consistent(p)
    && p.votes.Keys == IndexKeys(|p.options|)
    && p.duration > 0
    && p.endTime == p.startedAt + p.duration
  }

  /** A freshly created poll is well formed. */
  lemma NewPollWellFormed(p: Poll)
    requires p.votes.Keys == IndexKeys(|p.options|) && (forall k :: k in p.votes ==> p.votes[k] == 0)
    requires p.voters == [] && p.duration > 0 && p.endTime == p.startedAt + p.duration
    ensures WellFormed(p)
  {
    SumOverZeros(p.votes, p.votes.Keys);
  }

  // ----------------------------------------------------------------- voting

  /** The vote of a voter not yet listed: one more under `key`, and the voter appended. */
  function ApplyVote(p: Poll, voter: string, key: string): (r: Poll)
    ensures r.voters == p.voters + [voter]
    ensures r.votes.Keys == p.votes.Keys + {key}
    ensures r.votes[key] == CountAt(p.votes, key) + 1
    ensures forall k :: k in p.votes && k != key ==> r.votes[k] == p.votes[k]
    ensures r.(votes := p.votes, voters := p.voters) == p
  {
    p.(votes := p.votes[key := CountAt(p.votes, key) + 1], voters := p.voters + [voter])
  }

  /** A new voter's ballot keeps the one-ballot-per-voter invariant. */
  lemma ApplyVoteConsistent(p: Poll, voter: string, key: string)
    requires Consistent(p) && voter !in p.voters
    ensures Consistent(ApplyVote(p, voter, key))
    ensures Total(ApplyVote(p, voter, key).votes) == Total(p.votes) + 1
  {
    TotalIncrement(p.votes, key);
    Strings.AppendFreshKeepsNoDuplicates(p.voters, voter);
  }

  /** A ballot for one of the poll's own options keeps the poll well formed. */
  lemma ApplyVoteWellFormed(p: Poll, voter: string, key: string)
    requires WellFormed(p) && voter !in p.voters && key in p.votes
    ensures WellFormed(ApplyVote(p, voter, key))
  {
    ApplyVoteConsistent(p, voter, key);
  }

  // ------------------------------------------------------------ button ids

  /** `vote_${index}_${pollId}`. */
  function VoteId(index: nat, pollId: string): (id: string)
    ensures Strings.StartsWith(id, "vote_")
  {
    "vote_" + IndexKey(index) + "_" + pollId
  }

  /** `const [prefix, optionIndex, ...pollIdParts] = customId.split('_')`, tail rejoined. */
  datatype ButtonId = ButtonId(prefix: string, optionIndex: Option<string>, pollId: string)

  function ParseVoteId(customId: string): (b: ButtonId)
    ensures '_' !in b.prefix
  {
    var parts := Strings.Split(customId, '_');
    ButtonId(parts[0],
             if |parts| > 1 then Some(parts[1]) else None,
             if |parts| > 2 then Strings.Join(parts[2..], '_') else "")
  }

  /** The key `votes[optionIndex]` reads: an absent index is the key "undefined". */
  function PropertyKey(optionIndex: Option<string>): string
  {
    optionIndex.GetOr("undefined")
  }

  /** Decoding a vote button id gives back its index and its poll id, whatever `_` the poll id holds. */
  lemma ParseVoteIdRoundTrip(index: nat, pollId: string)
    ensures ParseVoteId(VoteId(index, pollId)) == ButtonId("vote", Some(IndexKey(index)), pollId)
  {
    var key := IndexKey(index);
    assert VoteId(index, pollId) == "vote" + ['_'] + (key + ['_'] + pollId);
    Strings.SplitAfter("vote", key + ['_'] + pollId, '_');
    Strings.SplitAfter(key, pollId, '_');
    var parts := Strings.Split(VoteId(index, pollId), '_');
    assert parts == ["vote", key] + Strings.Split(pollId, '_');
    assert parts[2..] == Strings.Split(pollId, '_');
    Strings.JoinSplit(pollId, '_');
  }

  /** An id whose first `_`-separated part is not "vote" keeps that part as its prefix. */
  lemma ParseVoteIdPrefix(prefix: string, rest: string)
    requires '_' !in prefix
    ensures ParseVoteId(prefix + "_" + rest).prefix == prefix
  {
    Strings.SplitAfter(prefix, rest, '_');
  }

  datatype VoteOutcome = InvalidButton | PollNotFound(pollId: string) | AlreadyVoted | Voted(poll: Poll)

  /**
   * The `collect` handler on the poll file's contents: reject a foreign
   * button, an unknown poll and a voter already listed; otherwise apply the
   * ballot to the record named by the button.
   */
  function CastVote(polls: map<string, Poll>, customId: string, voter: string): (o: VoteOutcome)
    ensures var b := ParseVoteId(customId);
      b.prefix != "vote" ==> o == InvalidButton
    ensures var b := ParseVoteId(customId);
      b.prefix == "vote" && b.pollId !in polls ==> o == PollNotFound(b.pollId)
    ensures var b := ParseVoteId(customId);
      b.prefix == "vote" && b.pollId in polls && voter in polls[b.pollId].voters ==> o == AlreadyVoted
    ensures var b := ParseVoteId(customId);
      b.prefix == "vote" && b.pollId in polls && voter !in polls[b.pollId].voters ==>
        o == Voted(ApplyVote(polls[b.pollId], voter, PropertyKey(b.optionIndex)))
  {
    var b := ParseVoteId(customId);
    if b.prefix != "vote" then InvalidButton
    else if b.pollId !in polls then PollNotFound(b.pollId)
    else if voter in polls[b.pollId].voters then AlreadyVoted
    else Voted(ApplyVote(polls[b.pollId], voter, PropertyKey(b.optionIndex)))
  }

  /** The poll file after a vote: the updated record is saved under its own id. */
  function AfterVote(polls: map<string, Poll>, o: VoteOutcome): (r: map<string, Poll>)
    ensures !o.Voted? ==> r == polls
    ensures o.Voted? ==> r.Keys == polls.Keys + {o.poll.pollId} && r[o.poll.pollId] == o.poll
    ensures o.Voted? ==> forall id :: id in polls && id != o.poll.pollId ==> r[id] == polls[id]
  {
    if o.Voted? then polls[o.poll.pollId := o.poll] else polls
  }

  /** Every record is stored under its own id and keeps one ballot per voter. */
  ghost predicate StoreConsistent(polls: map<string, Poll>)
  {
    forall id :: id in polls ==> polls[id].pollId == id && Consistent(polls[id])
  }

  lemma CastVoteKeepsStoreConsistent(polls: map<string, Poll>, customId: string, voter: string)
    requires StoreConsistent(polls)
    ensures StoreConsistent(AfterVote(polls, CastVote(polls, customId, voter)))
  {
    var o := CastVote(polls, customId, voter);
    if o.Voted? {
      var b := ParseVoteId(customId);
      ApplyVoteConsistent(polls[b.pollId], voter, PropertyKey(b.optionIndex));
    }
  }

  /** Once a voter's ballot is in, every later button press of theirs on that poll is refused. */
  lemma SecondVoteRefused(polls: map<string, Poll>, customId: string, voter: string, again: string)
    requires StoreConsistent(polls)
    requires CastVote(polls, customId, voter).Voted?
    requires ParseVoteId(again).prefix == "vote" && ParseVoteId(again).pollId == ParseVoteId(customId).pollId
    ensures CastVote(AfterVote(polls, CastVote(polls, customId, voter)), again, voter) == AlreadyVoted
  {
  }

  /** A refused press leaves the poll file as it was. */
  lemma RefusedVoteChangesNothing(polls: map<string, Poll>, customId: string, voter: string)
    requires !CastVote(polls, customId, voter).Voted?
    ensures AfterVote(polls, CastVote(polls, customId, voter)) == polls
  {
  }

  // ------------------------------------------------------------ the buttons

  datatype VoteButton = VoteButton(customId: string, text: string, disabled: bool)

  /** The button row of a poll; the closing handler rebuilds it disabled. */
  function VoteButtons(p: Poll, disabled: bool): (row: seq<VoteButton>)
    ensures |row| == |p.options|
    ensures forall i :: 0 <= i < |row| ==>
      row[i] == VoteButton(VoteId(i, p.pollId), Strings.Truncate(p.options[i], 80), disabled)
  {
    seq(|p.options|, i requires 0 <= i < |p.options| =>
      VoteButton(VoteId(i, p.pollId), Strings.Truncate(p.options[i], 80), disabled))
  }

  /**
   * Button i of a well formed poll routes back to that poll and to option
   * i's key, which its `votes` already holds, so no press creates a stray count.
   */
  lemma OwnButtonsHitExistingCounts(p: Poll, disabled: bool, i: nat)
    requires WellFormed(p) && i < |p.options|
    ensures var b := ParseVoteId(VoteButtons(p, disabled)[i].customId);
      && b.prefix == "vote" && b.pollId == p.pollId
      && PropertyKey(b.optionIndex) == IndexKey(i) && IndexKey(i) in p.votes
  {
    ParseVoteIdRoundTrip(i, p.pollId);
    assert IndexKey(i) in IndexKeys(|p.options|);
  }

  /**
   * A new voter's press on button i of a stored, well formed poll is
   * accepted: option i's count rises by one, every other count stays, and
   * the voter is appended.
   */
  lemma PressCountsForItsOption(polls: map<string, Poll>, p: Poll, i: nat, voter: string)
    requires p.pollId in polls && polls[p.pollId] == p
    requires WellFormed(p) && i < |p.options| && voter !in p.voters
    ensures var o := CastVote(polls, VoteButtons(p, false)[i].customId, voter);
      && o.Voted?
      && IndexKey(i) in p.votes
      && o.poll.votes.Keys == p.votes.Keys
      && o.poll.votes[IndexKey(i)] == p.votes[IndexKey(i)] + 1
      && (forall k :: k in p.votes && k != IndexKey(i) ==> o.poll.votes[k] == p.votes[k])
      && o.poll.voters == p.voters + [voter]
  {
    OwnButtonsHitExistingCounts(p, false, i);
  }

  /** `Math.floor(endTime / 1000)`: the deadline in whole seconds, as Discord timestamps take it. */
  function DeadlineSeconds(endTime: int): (sec: int)
    ensures sec * 1000 <= endTime < sec * 1000 + 1000
  {
    endTime / 1000
  }

  datatype PollMessage = PollMessage(title: string, description: string, color: nat, buttons: seq<VoteButton>)

  /** The message the command replies with: the question, the deadline and one live button per option. */
  function RenderPoll(p: Poll): (m: PollMessage)
    ensures Strings.StartsWith(m.title, "\U{1F4CA} ")
    ensures |m.buttons| == |p.options|
    ensures forall i :: 0 <= i < |m.buttons| ==> m.buttons[i].customId == VoteId(i, p.pollId) && !m.buttons[i].disabled
  {
    PollMessage(
      "\U{1F4CA} " + Strings.Truncate(p.question, 256),
      "Vote by clicking a button below!\n\nEnds <t:" + Strings.IntToString(DeadlineSeconds(p.endTime)) + ":R>",
      0x0099ff,
      VoteButtons(p, false))
  }

  // -------------------------------------------------------- the results view

  /** One line of the results description with a count that is 0 when missing. */
  function ResultLine(option: string, count: nat): string
  {
    option + ": " + Strings.NatToString(count) + " votes"
  }

  function ResultLines(p: Poll): (lines: seq<string>)
    ensures |lines| == |p.options|
    ensures forall i :: 0 <= i < |lines| ==> lines[i] == ResultLine(p.options[i], CountAt(p.votes, IndexKey(i)))
  {
    seq(|p.options|, i requires 0 <= i < |p.options| => ResultLine(p.options[i], CountAt(p.votes, IndexKey(i))))
  }

  /** `options.map((option, index) => ...).join('\n')`. */
  function ResultsDescription(p: Poll): string
  {
    Strings.Join(ResultLines(p), '\n')
  }

  /** The description holds exactly one line per option, in the stored order, each with its count. */
  lemma ResultsDescriptionLines(p: Poll)
    requires |p.options| >= 1
    requires forall i :: 0 <= i < |p.options| ==> '\n' !in p.options[i]
    ensures Strings.Split(ResultsDescription(p), '\n') == ResultLines(p)
  {
    var lines := ResultLines(p);
    forall i | 0 <= i < |lines| ensures '\n' !in lines[i] {
      var digits := Strings.NatToString(CountAt(p.votes, IndexKey(i)));
      assert forall j :: 0 <= j < |digits| ==> digits[j] != '\n';
      assert lines[i] == p.options[i] + ": " + digits + " votes";
    }
    Strings.SplitJoin(lines, '\n');
  }

  datatype ResultsView = ResultsView(title: string, description: string, footer: string, color: nat)

  function RenderResults(p: Poll, isFinal: bool): ResultsView
  {
    ResultsView(
      "\U{1F4CA} " + (if isFinal then "Final " else "Live ") + "Results: " + Strings.Truncate(p.question, 256),
      ResultsDescription(p),
      if isFinal then "Final results" else "Live updates",
      if isFinal then 0xaa0000 else 0x00aa00)
  }

  /**
   * What the results channel does for one publication: whether its guild and
   * channel are found, whether editing the stored results message works,
   * whether sending a new one works, and the id a new message receives.
   */
  datatype ResultsChannel = ResultsChannel(reachable: bool, editSucceeds: bool, sendSucceeds: bool, newMessageId: string)

  datatype Publication = NotPublished | Edited(messageId: string, view: ResultsView) | Posted(messageId: string, view: ResultsView)

  /**
   * `updateResultsMessage`: edit the stored results message when there is
   * one and the edit works, otherwise post a new message (whether the old one
   * was deleted or the edit failed otherwise).
   */
  function DecidePublication(p: Poll, isFinal: bool, ch: ResultsChannel): (pub: Publication)
    ensures pub.Edited? <==> ch.reachable && p.resultsMessageId.Some? && ch.editSucceeds
    ensures pub.Edited? ==> pub.messageId == p.resultsMessageId.value
    ensures pub.Posted? <==> ch.reachable && !(p.resultsMessageId.Some? && ch.editSucceeds) && ch.sendSucceeds
    ensures pub.Posted? ==> pub.messageId == ch.newMessageId
    ensures !pub.NotPublished? ==> pub.view == RenderResults(p, isFinal)
  {
    if !ch.reachable then NotPublished
    else if p.resultsMessageId.Some? && ch.editSucceeds then Edited(p.resultsMessageId.value, RenderResults(p, isFinal))
    else if ch.sendSucceeds then Posted(ch.newMessageId, RenderResults(p, isFinal))
    else NotPublished
  }

  /** The record saved after a publication: only a new message's id is recorded. */
  function Republished(p: Poll, pub: Publication): (r: Poll)
    ensures r.(resultsMessageId := p.resultsMessageId) == p
  {
    if pub.Posted? then p.(resultsMessageId := Some(pub.messageId)) else p
  }

  /** After a results message is posted, the next publication edits that message in place. */
  lemma PostedThenEditedInPlace(p: Poll, isFinal: bool, ch: ResultsChannel, later: Poll, laterFinal: bool, ch2: ResultsChannel)
    requires DecidePublication(p, isFinal, ch).Posted?
    requires later.resultsMessageId == Republished(p, DecidePublication(p, isFinal, ch)).resultsMessageId
    requires ch2.reachable && ch2.editSucceeds
    ensures DecidePublication(later, laterFinal, ch2) == Edited(ch.newMessageId, RenderResults(later, laterFinal))
  {
  }

  // --------------------------------------------------------------- recovery

  /**
   * `reattachPollCollectors`: the polls whose deadline is after now and whose
   * guild, channel and poll message are found (`found`), each with its
   * remaining time as the collector's lifetime.
   */
  function Reattachable(polls: map<string, Poll>, now: int, found: set<string>): (plan: map<string, int>)
    ensures forall id :: id in plan <==> id in polls && polls[id].endTime > now && id in found
    ensures forall id :: id in plan ==> plan[id] == polls[id].endTime - now && plan[id] > 0
  {
    map id | id in polls && polls[id].endTime > now && id in found :: polls[id].endTime - now
  }

  /** A well formed poll is resumed until its deadline, with at most its whole duration left. */
  lemma ResumedUntilDeadline(p: Poll, now: int)
    requires WellFormed(p) && p.startedAt <= now
    ensures p.pollId in Reattachable(map[p.pollId := p], now, {p.pollId}) <==> now < p.startedAt + p.duration
    ensures now < p.endTime ==> 0 < Reattachable(map[p.pollId := p], now, {p.pollId})[p.pollId] <= p.duration
  {
  }

  /** Votes never move a deadline, so they never change which polls are resumed. */
  lemma VotesKeepResumedPolls(polls: map<string, Poll>, customId: string, voter: string, now: int, found: set<string>)
    requires StoreConsistent(polls)
    ensures Reattachable(AfterVote(polls, CastVote(polls, customId, voter)), now, found) == Reattachable(polls, now, found)
  {
    var o := CastVote(polls, customId, voter);
    var after := AfterVote(polls, o);
    if o.Voted? {
      var b := ParseVoteId(customId);
      assert o.poll.pollId == b.pollId && o.poll.endTime == polls[b.pollId].endTime;
    }
    assert after.Keys == polls.Keys;
    assert forall id :: id in polls ==> after[id].endTime == polls[id].endTime;
  }

  /** Recording a results message never moves a deadline either. */
  lemma RepublishKeepsResumedPolls(polls: map<string, Poll>, p: Poll, pub: Publication, now: int, found: set<string>)
    requires p.pollId in polls && polls[p.pollId] == p
    ensures Reattachable(polls[p.pollId := Republished(p, pub)], now, found) == Reattachable(polls, now, found)
  {
    var after := polls[p.pollId := Republished(p, pub)];
    assert after.Keys == polls.Keys;
    assert forall id :: id in polls ==> after[id].endTime == polls[id].endTime;
  }
}
