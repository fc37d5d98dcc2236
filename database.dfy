/** The relational store the controllers work on: the `polls`,
    `poll_options` and `poll_user_votes` tables with their auto-increment
    counters, the row-level inserts and deletes the ORM performs, and the
    transaction snapshot used for rollback. */
module Database {
  import opened Query
  import opened PollModel

  /** A row of `poll_options`. */
  datatype OptionRow = OptionRow(id: int, pollId: int, title: string, votesCount: int)

  /** A row of `poll_user_votes`: one selected option of one ballot. */
  datatype VoteRow = VoteRow(id: int, pollId: int, userId: UserId, optionId: int, note: Option<string>)

  /** The whole store as a value: the three tables and the next id each
      table's auto-increment column hands out. */
  datatype Tables = Tables(
    polls: seq<PollRow>,
    options: seq<OptionRow>,
    votes: seq<VoteRow>,
    nextPollId: int,
    nextOptionId: int,
    nextVoteId: int)

  /** Poll ids are positive, handed out in increasing order, below the
      counter; slugs are unique (the column's unique index). */
  ghost predicate PollsValid(polls: seq<PollRow>, nextPollId: int)
  {
    && (forall i :: 0 <= i < |polls| ==> 1 <= polls[i].id < nextPollId)
    && (forall i, j :: 0 <= i < j < |polls| ==> polls[i].id < polls[j].id)
    && (forall i, j :: 0 <= i < j < |polls| ==> polls[i].slug != polls[j].slug)
  }

  /** Option ids increase below their counter; every option was created
      for a poll id already handed out. */
  ghost predicate OptionsValid(options: seq<OptionRow>, nextOptionId: int, nextPollId: int)
  {
    && (forall i :: 0 <= i < |options| ==> 1 <= options[i].id < nextOptionId)
    && (forall i, j :: 0 <= i < j < |options| ==> options[i].id < options[j].id)
    && (forall i :: 0 <= i < |options| ==> 1 <= options[i].pollId < nextPollId)
  }

  /** Vote ids increase below their counter; every vote names a poll id
      already handed out. */
  ghost predicate VotesValid(votes: seq<VoteRow>, nextVoteId: int, nextPollId: int)
  {
    && (forall i :: 0 <= i < |votes| ==> 1 <= votes[i].id < nextVoteId)
    && (forall i, j :: 0 <= i < j < |votes| ==> votes[i].id < votes[j].id)
    && (forall i :: 0 <= i < |votes| ==> 1 <= votes[i].pollId < nextPollId)
  }

  ghost predicate ValidTables(t: Tables)
  {
    && 1 <= t.nextPollId && 1 <= t.nextOptionId && 1 <= t.nextVoteId
    && PollsValid(t.polls, t.nextPollId)
    && OptionsValid(t.options, t.nextOptionId, t.nextPollId)
    && VotesValid(t.votes, t.nextVoteId, t.nextPollId)
  }

  /** No stored poll uses this slug. */
  predicate SlugIsFree(polls: seq<PollRow>, slug: string)
  {
    forall i :: 0 <= i < |polls| ==> polls[i].slug != slug
  }

  /** `Poll.find(id)` / `findOrFail(id)`: the position of the first row
      with that id. */
  function FindPoll(polls: seq<PollRow>, id: int): (r: Option<nat>)
    ensures r.Some? ==> r.value < |polls| && polls[r.value].id == id
    ensures r.Some? ==> forall j :: 0 <= j < r.value ==> polls[j].id != id
    ensures r.None? ==> forall j :: 0 <= j < |polls| ==> polls[j].id != id
  {
    if polls == [] then None
    else if polls[0].id == id then Some(0)
    else match FindPoll(polls[1..], id)
      case None => None
      case Some(k) => Some(k + 1)
  }

  /** Removing one row keeps poll ids increasing and slugs unique. */
  lemma PollsValidAfterRemove(polls: seq<PollRow>, nextPollId: int, i: nat)
    requires i < |polls|
    requires PollsValid(polls, nextPollId)
    ensures PollsValid(polls[..i] + polls[i + 1..], nextPollId)
  {
    var r := polls[..i] + polls[i + 1..];
    assert forall k :: 0 <= k < |r| ==> r[k] == polls[if k < i then k else k + 1];
  }

  /** Appending a row with the next id and a free slug keeps poll ids
      increasing and slugs unique. */
  lemma PollsValidAfterAppend(polls: seq<PollRow>, nextPollId: int, p: PollRow)
    requires 1 <= nextPollId
    requires PollsValid(polls, nextPollId)
    requires p.id == nextPollId && SlugIsFree(polls, p.slug)
    ensures PollsValid(polls + [p], nextPollId + 1)
  {
  }

  /** The in-memory database. */
  class Store {
    var polls: seq<PollRow>
    var options: seq<OptionRow>
    var votes: seq<VoteRow>
    var nextPollId: int
    var nextOptionId: int
    var nextVoteId: int

    /** The current contents of the store as a value. */
    function Snapshot(): Tables
      reads this
    {
      Tables(polls, options, votes, nextPollId, nextOptionId, nextVoteId)
    }

    ghost predicate Valid()
      reads this
    {
      ValidTables(Snapshot())
    }

    /** A freshly migrated, empty database. */
    constructor ()
      ensures Valid()
      ensures Snapshot() == Tables([], [], [], 1, 1, 1)
    {
      polls, options, votes := [], [], [];
      nextPollId, nextOptionId, nextVoteId := 1, 1, 1;
    }

    /** `INSERT INTO polls`: the instance gets the next id and its row is
        appended; the slug must not be taken (unique index). */
    method InsertPoll(poll: Poll)
      requires Valid()
      requires SlugIsFree(polls, poll.slug)
      modifies this, poll`id
      ensures Valid()
      ensures poll.id == old(nextPollId)
      ensures Snapshot() == old(Snapshot()).(polls := old(polls) + [poll.Row()], nextPollId := old(nextPollId) + 1)
    {
      poll.id := nextPollId;
      polls := polls + [poll.Row()];
      nextPollId := nextPollId + 1;
    }

    /** `INSERT INTO poll_options` for a poll id already handed out. */
    method InsertOption(pollId: int, title: string) returns (row: OptionRow)
      requires Valid()
      requires 1 <= pollId < nextPollId
      modifies this
      ensures Valid()
      ensures row == OptionRow(old(nextOptionId), pollId, title, 0)
      ensures Snapshot() == old(Snapshot()).(options := old(options) + [row], nextOptionId := old(nextOptionId) + 1)
    {
      row := OptionRow(nextOptionId, pollId, title, 0);
      options := options + [row];
      nextOptionId := nextOptionId + 1;
    }

    /** `INSERT INTO poll_user_votes` for a poll id already handed out. */
    method InsertVote(pollId: int, userId: UserId, optionId: int, note: Option<string>) returns (row: VoteRow)
      requires Valid()
      requires 1 <= pollId < nextPollId
      modifies this
      ensures Valid()
      ensures row == VoteRow(old(nextVoteId), pollId, userId, optionId, note)
      ensures Snapshot() == old(Snapshot()).(votes := old(votes) + [row], nextVoteId := old(nextVoteId) + 1)
    {
      row := VoteRow(nextVoteId, pollId, userId, optionId, note);
      votes := votes + [row];
      nextVoteId := nextVoteId + 1;
    }

    /** `DELETE FROM polls` of the row at position i; other tables are
        untouched (the migrations declare no foreign keys). */
    method DeletePollAt(i: nat)
      requires Valid()
      requires i < |polls|
      modifies this
      ensures Valid()
      ensures Snapshot() == old(Snapshot()).(polls := old(polls)[..i] + old(polls)[i + 1..])
    {
      PollsValidAfterRemove(polls, nextPollId, i);
      polls := polls[..i] + polls[i + 1..];
    }

    /** Transaction rollback: the store returns to the snapshot taken when
        the transaction began. */
    method Rollback(saved: Tables)
      requires ValidTables(saved)
      modifies this
      ensures Valid()
      ensures Snapshot() == saved
    {
      polls, options, votes := saved.polls, saved.options, saved.votes;
      nextPollId, nextOptionId, nextVoteId := saved.nextPollId, saved.nextOptionId, saved.nextVoteId;
    }
  }
}
