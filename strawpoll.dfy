/**
 * The poll file and the handlers of the strawpoll command that read and
 * write it: creation, a vote press, the closing of a poll, a results
 * publication and the selection of polls to resume at start-up.
 */
module Strawpoll {
  import opened Wrappers
  import Duration
  import Polls

  /** `polls.json`, held as the object it parses to: poll id to record. */
  class PollStore {
    var polls: map<string, Polls.Poll>

    /** Every record is under its own id and keeps one ballot per voter. */
    ghost predicate Valid()
      reads this
    {
      Polls.StoreConsistent(polls)
    }

    /** The file as first created: `{}`. */
    constructor ()
      ensures polls == map[]
      ensures Valid()
    {
      polls := map[];
    }

    /** `loadPollData`: `polls[pollId] || null`. */
    function Load(pollId: string): (r: Option<Polls.Poll>)
      reads this
      ensures r.Some? <==> pollId in polls
      ensures r.Some? ==> r.value == polls[pollId]
    {
      if pollId in polls then Some(polls[pollId]) else None
    }

    /** `savePollData`: the record is written under its id; every other record stays. */
    method Save(p: Polls.Poll)
      requires Valid() && Polls.Consistent(p)
      modifies this
      ensures polls == old(polls)[p.pollId := p]
      ensures Valid()
    {
      polls := polls[p.pollId := p];
    }

    /**
     * `updateResultsMessage`: publish the results view of `p` and, when a
     * new results message was posted, save `p` with that message's id.
     */
    method Publish(p: Polls.Poll, isFinal: bool, ch: Polls.ResultsChannel) returns (pub: Polls.Publication)
      requires Valid() && Polls.Consistent(p)
      modifies this
      ensures pub == Polls.DecidePublication(p, isFinal, ch)
      ensures pub.Posted? ==> polls == old(polls)[p.pollId := Polls.Republished(p, pub)]
      ensures !pub.Posted? ==> polls == old(polls)
      ensures Valid()
    {
      pub := Polls.DecidePublication(p, isFinal, ch);
      if pub.Posted? {
        Save(Polls.Republished(p, pub));
      }
    }

    /**
     * The steps after a record is built: save it, record the id of the reply
     * that carries the buttons, save again and publish live results.
     */
    method Launch(p: Polls.Poll, replyId: string, ch: Polls.ResultsChannel) returns (stored: Polls.Poll, pub: Polls.Publication)
      requires Valid() && Polls.WellFormed(p)
      modifies this
      ensures Valid()
      ensures stored.(messageId := p.messageId, resultsMessageId := p.resultsMessageId) == p
      ensures stored.messageId == Some(replyId)
      ensures pub == Polls.DecidePublication(p.(messageId := Some(replyId)), false, ch)
      ensures stored.resultsMessageId == (if pub.Posted? then Some(pub.messageId) else p.resultsMessageId)
      ensures polls == old(polls)[p.pollId := stored]
      ensures Polls.WellFormed(stored)
    {
      Save(p);
      var q := p.(messageId := Some(replyId));
      Save(q);
      pub := Publish(q, false, ch);
      stored := Polls.Republished(q, pub);
    }

    /**
     * The command: refuse without the Send Messages permission or with an
     * unusable duration; otherwise launch the new record.
     */
    method Create(canSend: bool, req: Polls.CreateRequest, userId: string, now: nat, replyId: string, ch: Polls.ResultsChannel)
      returns (r: Result<Polls.Poll, Polls.CreateError>, pub: Polls.Publication)
      requires Valid()
      modifies this
      ensures Valid()
      ensures !canSend ==> r == Failure(Polls.MissingSendPermission)
      ensures canSend ==> (r.Failure? <==> Duration.Parse(req.duration) in {None, Some(0)})
      ensures r.Failure? ==> polls == old(polls) && pub == Polls.NotPublished
      ensures r.Success? ==>
        var p := r.value;
        && polls == old(polls)[p.pollId := p]
        && p.pollId == Polls.PollId(userId, now)
        && p.question == req.question && p.channelId == req.channelId && p.guildId == req.guildId
        && p.options == Polls.KeptOptions(req.option1, req.option2, req.option3)
        && (forall k :: k in p.votes ==> p.votes[k] == 0)
        && p.voters == []
        && Some(p.duration) == Duration.Parse(req.duration)
        && p.startedAt == now
        && p.messageId == Some(replyId)
        && Polls.WellFormed(p)
        && pub == Polls.DecidePublication(p.(resultsMessageId := None), false, ch)
        && p.resultsMessageId == (if pub.Posted? then Some(pub.messageId) else None)
    {
      if !canSend {
        return Failure(Polls.MissingSendPermission), Polls.NotPublished;
      }
      var created := Polls.NewPoll(req, userId, now);
      if created.Failure? {
        return created, Polls.NotPublished;
      }
      Polls.NewPollWellFormed(created.value);
      var stored;
      stored, pub := Launch(created.value, replyId, ch);
      assert stored.(resultsMessageId := None) == created.value.(messageId := Some(replyId));
      r := Success(stored);
    }

    /**
     * The `collect` handler: the ballot is applied to the stored record,
     * saved, and the live results are published; a refused press changes
     * nothing.
     */
    method Vote(customId: string, voter: string, ch: Polls.ResultsChannel) returns (o: Polls.VoteOutcome, pub: Polls.Publication)
      requires Valid()
      modifies this
      ensures Valid()
      ensures o == Polls.CastVote(old(polls), customId, voter)
      ensures !o.Voted? ==> polls == old(polls) && pub == Polls.NotPublished
      ensures o.Voted? ==>
        && pub == Polls.DecidePublication(o.poll, false, ch)
        && polls == old(polls)[o.poll.pollId := Polls.Republished(o.poll, pub)]
    {
      o := Polls.CastVote(polls, customId, voter);
      pub := Polls.NotPublished;
      if o.Voted? {
        Polls.CastVoteKeepsStoreConsistent(polls, customId, voter);
        var b := Polls.ParseVoteId(customId);
        Polls.ApplyVoteConsistent(polls[b.pollId], voter, Polls.PropertyKey(b.optionIndex));
        Save(o.poll);
        pub := Publish(o.poll, false, ch);
      }
    }

    /**
     * The `end` handler: reload the record, disable its buttons and, when
     * the poll message could be edited, publish the final results.
     */
    method Finish(pollId: string, buttonsEdited: bool, ch: Polls.ResultsChannel)
      returns (row: Option<seq<Polls.VoteButton>>, pub: Polls.Publication)
      requires Valid()
      modifies this
      ensures Valid()
      ensures pollId !in old(polls) ==> row == None && pub == Polls.NotPublished && polls == old(polls)
      ensures pollId in old(polls) ==>
        var p := old(polls)[pollId];
        && row == Some(Polls.VoteButtons(p, true))
        && pub == (if buttonsEdited then Polls.DecidePublication(p, true, ch) else Polls.NotPublished)
        && polls == (if pub.Posted? then old(polls)[pollId := Polls.Republished(p, pub)] else old(polls))
    {
      var loaded := Load(pollId);
      if loaded.None? {
        return None, Polls.NotPublished;
      }
      var p := loaded.value;
      row := Some(Polls.VoteButtons(p, true));
      pub := Polls.NotPublished;
      if buttonsEdited {
        pub := Publish(p, true, ch);
      }
    }

    /** The loop over the poll file that picks the polls to resume and their remaining time. */
    method Reattach(now: int, found: set<string>) returns (plan: map<string, int>)
      ensures plan == Polls.Reattachable(polls, now, found)
    {
      plan := map[];
      var pending := polls.Keys;
      while pending != {}
        invariant pending <= polls.Keys
        invariant forall id :: id in plan <==> id in polls && id !in pending && polls[id].endTime > now && id in found
        invariant forall id :: id in plan ==> plan[id] == polls[id].endTime - now
        decreases pending
      {
        var id :| id in pending;
        if polls[id].endTime > now && id in found {
          plan := plan[id := polls[id].endTime - now];
        }
        pending := pending - {id};
      }
    }
  }

  /**
   * The component collector on one poll message. Presses reach the vote
   * handler only while it is open, and its end handler runs once, when it
   * closes; the vote handler itself never compares the deadline with the
   * clock.
   */
  class Collector {
    const pollId: string
    var open: bool

    constructor (pollId: string)
      ensures this.pollId == pollId && open
    {
      this.pollId := pollId;
      open := true;
    }

    method Collect(store: PollStore, customId: string, voter: string, ch: Polls.ResultsChannel)
      returns (o: Option<Polls.VoteOutcome>, pub: Polls.Publication)
      requires store.Valid()
      modifies store
      ensures store.Valid()
      ensures !open ==> o == None && pub == Polls.NotPublished && store.polls == old(store.polls)
      ensures open ==> o == Some(Polls.CastVote(old(store.polls), customId, voter))
      ensures o.Some? && !o.value.Voted? ==> store.polls == old(store.polls) && pub == Polls.NotPublished
      ensures o.Some? && o.value.Voted? ==>
        && pub == Polls.DecidePublication(o.value.poll, false, ch)
        && store.polls == old(store.polls)[o.value.poll.pollId := Polls.Republished(o.value.poll, pub)]
    {
      if !open {
        return None, Polls.NotPublished;
      }
      var outcome;
      outcome, pub := store.Vote(customId, voter, ch);
      o := Some(outcome);
    }

    /** The collector's time runs out: the end handler runs on the first close only. */
    method Close(store: PollStore, buttonsEdited: bool, ch: Polls.ResultsChannel)
      returns (row: Option<seq<Polls.VoteButton>>, pub: Polls.Publication)
      requires store.Valid()
      modifies this, store
      ensures store.Valid()
      ensures !open
      ensures !old(open) ==> row == None && pub == Polls.NotPublished && store.polls == old(store.polls)
      ensures old(open) && pollId !in old(store.polls) ==>
        row == None && pub == Polls.NotPublished && store.polls == old(store.polls)
      ensures old(open) && pollId in old(store.polls) ==>
        var p := old(store.polls)[pollId];
        && row == Some(Polls.VoteButtons(p, true))
        && pub == (if buttonsEdited then Polls.DecidePublication(p, true, ch) else Polls.NotPublished)
        && store.polls == (if pub.Posted? then old(store.polls)[pollId := Polls.Republished(p, pub)] else old(store.polls))
    {
      if !open {
        return None, Polls.NotPublished;
      }
      open := false;
      row, pub := store.Finish(pollId, buttonsEdited, ch);
    }
  }

  /** Once a collector is closed, a press changes nothing and publishes nothing. */
  method PressAfterClose(store: PollStore, collector: Collector, customId: string, voter: string, ch: Polls.ResultsChannel)
    returns (o: Option<Polls.VoteOutcome>)
    requires store.Valid()
    modifies store, collector
    ensures o == None
  {
    var row, pub := collector.Close(store, true, ch);
    ghost var polls := store.polls;
    o, pub := collector.Collect(store, customId, voter, ch);
    assert store.polls == polls;
  }

  /** A restart after a vote resumes exactly the polls, with the same remaining times, as one before it. */
  method VoteThenRestart(store: PollStore, customId: string, voter: string, ch: Polls.ResultsChannel, now: int, found: set<string>)
    returns (before: map<string, int>, after: map<string, int>)
    requires store.Valid()
    modifies store
    ensures before == after
  {
    before := store.Reattach(now, found);
    ghost var polls := store.polls;
    var o, pub := store.Vote(customId, voter, ch);
    Polls.VotesKeepResumedPolls(polls, customId, voter, now, found);
    if o.Voted? {
      ghost var voted := Polls.AfterVote(polls, o);
      assert store.polls == voted[o.poll.pollId := Polls.Republished(o.poll, pub)];
      Polls.RepublishKeepsResumedPolls(voted, o.poll, pub, now, found);
    }
    assert Polls.Reattachable(store.polls, now, found) == before;
    after := store.Reattach(now, found);
  }
}
