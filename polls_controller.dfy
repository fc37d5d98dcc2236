/** The polls resource: listing, creation, detail view, vote submission and
    deletion. Query actions are functions of the tables; the actions that
    write are methods on the store, each proved against a specification
    function of the tables before the call. The clock is the parameter
    `now` (integer seconds); request-scoped failures of the database are
    injected faults. */
module PollsController {
  import opened Query
  import opened PollModel
  import opened Database
  import opened PollQueries

  /** The value of `filter_by` that selects the signed-in user's polls. */
  const Participated := "participated"

  /** `DateTime.plus({days})` in seconds. */
  const SecondsPerDay := 86400

  /** The `{code, message}` object `submitVote` returns. */
  datatype Response = Response(code: int, message: string)

  const VotingClosed := "Voting on this poll has been closed"
  const AlreadyParticipated := "You have already participated in this poll"
  const Success := "Success"
  /** Message of the exception `findOrFail` throws for a missing id. */
  const RowNotFound := "E_ROW_NOT_FOUND: Row not found"
  /** Message of the exception `selectedOption.length` throws when the
      request carries no `selectedOption`. */
  const SelectionMissing := "Cannot read properties of undefined (reading 'length')"

  // ---------------------------------------------------------------- index

  /** `index`: the active polls, or with `filter_by=participated` the
      signed-in user's polls (none when signed out), ids descending, one
      page of at most ten. */
  function Index(polls: seq<PollRow>, filterBy: Option<string>, actor: Option<UserId>,
                 pageInput: Option<int>, now: int): (r: seq<PollRow>)
    ensures |r| <= PerPage
    ensures DescendingIds(r)
    ensures filterBy == Some(Participated) && actor.None? ==> r == []
    ensures filterBy == Some(Participated) ==>
              forall p :: p in r ==> p in polls && actor.Some? && p.userId == actor.value
    ensures filterBy != Some(Participated) ==>
              forall p :: p in r ==> p in polls && p.ActiveAt(now)
  {
    if filterBy == Some(Participated) then
      match actor
      case None => []
      case Some(user) => Listing(Where(polls, IsOwnedBy(user)), pageInput)
    else
      Listing(Where(polls, IsActive(now)), pageInput)
  }

  /** An absent or non-numeric page is page 1. */
  lemma IndexNonNumericPage(polls: seq<PollRow>, filterBy: Option<string>, actor: Option<UserId>, now: int)
    ensures Index(polls, filterBy, actor, None, now) == Index(polls, filterBy, actor, Some(1), now)
  {
  }

  /** Every active poll is on some page of the default listing. */
  lemma IndexListsEveryActivePoll(polls: seq<PollRow>, filterBy: Option<string>, actor: Option<UserId>,
                                  now: int, p: PollRow)
    requires filterBy != Some(Participated)
    requires p in polls && p.ActiveAt(now)
    ensures exists page :: p in Index(polls, filterBy, actor, Some(page), now)
  {
    ListedOnSomePage(Where(polls, IsActive(now)), p);
    var page :| p in Listing(Where(polls, IsActive(now)), Some(page));
    assert p in Index(polls, filterBy, actor, Some(page), now);
  }

  /** Every poll of the signed-in user is on some page of the
      `participated` listing. */
  lemma IndexListsEveryOwnedPoll(polls: seq<PollRow>, user: UserId, now: int, p: PollRow)
    requires p in polls && p.userId == user
    ensures exists page :: p in Index(polls, Some(Participated), Some(user), Some(page), now)
  {
    ListedOnSomePage(Where(polls, IsOwnedBy(user)), p);
    var page :| p in Listing(Where(polls, IsOwnedBy(user)), Some(page));
    assert p in Index(polls, Some(Participated), Some(user), Some(page), now);
  }

  // ----------------------------------------------------------------- show

  /** What `show` hands to the view: the poll, its options and, for a
      signed-in caller, the caller's vote rows for it. */
  datatype Detail = Detail(poll: PollRow, pollOptions: seq<OptionRow>, selectedOption: Option<seq<VoteRow>>)

  /** `show`: the poll with this slug (None is the not-found response of
      `firstOrFail`). */
  function Show(polls: seq<PollRow>, options: seq<OptionRow>, votes: seq<VoteRow>,
                slug: string, actor: Option<UserId>): (r: Option<Detail>)
    ensures r.None? <==> SlugIsFree(polls, slug)
    ensures r.Some? ==> r.value.poll in polls && r.value.poll.slug == slug
    ensures r.Some? ==> forall o :: o in r.value.pollOptions <==> o in options && o.pollId == r.value.poll.id
    ensures r.Some? ==> (r.value.selectedOption.Some? <==> actor.Some?)
    ensures r.Some? && actor.Some? ==>
              forall v :: v in r.value.selectedOption.value <==>
                          v in votes && v.pollId == r.value.poll.id && v.userId == actor.value
  {
    match FindBySlug(polls, slug)
    case None => None
    case Some(poll) =>
      var selected := match actor
        case None => None
        case Some(user) => Some(BallotOf(votes, poll.id, user));
      Some(Detail(poll, OptionsOf(options, poll.id), selected))
  }

  /** A closed poll leaves the default listing but stays reachable by its
      slug. */
  lemma ClosedPollHiddenButShown(t: Tables, i: nat, filterBy: Option<string>, actor: Option<UserId>,
                                 pageInput: Option<int>, now: int)
    requires ValidTables(t)
    requires i < |t.polls|
    requires t.polls[i].Expired(now)
    requires filterBy != Some(Participated)
    ensures t.polls[i] !in Index(t.polls, filterBy, actor, pageInput, now)
    ensures var d := Show(t.polls, t.options, t.votes, t.polls[i].slug, actor);
            d.Some? && d.value.poll == t.polls[i]
  {
    SlugFindsItsPoll(t.polls, t.nextPollId, i);
  }

  // ---------------------------------------------------------------- store

  /** One element of the `options` array `store` builds for `createMany`. */
  datatype OptionDraft = OptionDraft(pollId: int, title: string)

  /** The array the `for ... push` loop builds: one draft per submitted
      title, in order, all pointing at the new poll. */
  function Drafts(pollId: int, titles: seq<string>): (r: seq<OptionDraft>)
    ensures |r| == |titles|
    ensures forall d :: d in r ==> d.pollId == pollId
  {
    seq(|titles|, k requires 0 <= k < |titles| => OptionDraft(pollId, titles[k]))
  }

  /** The option rows `createMany` inserts: one per draft, in order, with
      consecutive ids and no votes counted. */
  function NewOptionRows(firstId: int, drafts: seq<OptionDraft>): (r: seq<OptionRow>)
    ensures |r| == |drafts|
    decreases drafts
  {
    if drafts == [] then []
    else [OptionRow(firstId, drafts[0].pollId, drafts[0].title, 0)] + NewOptionRows(firstId + 1, drafts[1..])
  }

  /** The k-th new option row has id firstId + k and the k-th draft's poll
      and title. */
  lemma {:induction false} NewOptionRowsAt(firstId: int, drafts: seq<OptionDraft>)
    ensures forall k :: 0 <= k < |drafts| ==>
              NewOptionRows(firstId, drafts)[k] == OptionRow(firstId + k, drafts[k].pollId, drafts[k].title, 0)
    decreases drafts
  {
    if drafts != [] {
      NewOptionRowsAt(firstId + 1, drafts[1..]);
    }
  }

  lemma NewOptionRowsSnoc(firstId: int, drafts: seq<OptionDraft>, j: nat)
    requires j < |drafts|
    ensures NewOptionRows(firstId, drafts[..j + 1])
            == NewOptionRows(firstId, drafts[..j]) + [OptionRow(firstId + j, drafts[j].pollId, drafts[j].title, 0)]
  {
    var a := NewOptionRows(firstId, drafts[..j + 1]);
    var b := NewOptionRows(firstId, drafts[..j]) + [OptionRow(firstId + j, drafts[j].pollId, drafts[j].title, 0)];
    NewOptionRowsAt(firstId, drafts[..j + 1]);
    NewOptionRowsAt(firstId, drafts[..j]);
    assert |a| == |b|;
    forall k | 0 <= k < |a| ensures a[k] == b[k] {
    }
  }

  /** Outcome of `store`: the tables afterwards and the created poll
      (None when the transaction rolled back and the error propagated). */
  datatype Creation = Creation(tables: Tables, created: Option<PollRow>)

  /** `store` as a transaction. `fault` names the insert that fails:
      0 is the poll, 1 + k the k-th option. */
  function CreatePollSpec(t: Tables, actor: UserId, title: string, days: int, titles: seq<string>,
                          slug: string, color: string, now: int, fault: Option<nat>): (r: Creation)
    ensures r.created.None? ==> r.tables == t
    ensures r.tables.votes == t.votes
  {
    if fault.Some? && fault.value <= |titles| then Creation(t, None)
    else
      var p := PollRow(t.nextPollId, actor, title, color, slug, now + days * SecondsPerDay);
      Creation(t.(polls := t.polls + [p],
                  options := t.options + NewOptionRows(t.nextOptionId, Drafts(p.id, titles)),
                  nextPollId := t.nextPollId + 1,
                  nextOptionId := t.nextOptionId + |titles|),
               Some(p))
  }

  /** Creation is all-or-nothing: a failed insert leaves every table and
      counter as it was; otherwise it fails only on a fault. */
  lemma CreateIsAllOrNothing(t: Tables, actor: UserId, title: string, days: int, titles: seq<string>,
                             slug: string, color: string, now: int, fault: Option<nat>)
    ensures var c := CreatePollSpec(t, actor, title, days, titles, slug, color, now, fault);
            && (c.created.None? <==> fault.Some? && fault.value <= |titles|)
            && (c.created.None? ==> c.tables == t)
  {
  }

  /** A successful creation adds exactly one poll, owned by the actor and
      closing `days` days from now, and one option per title, in order,
      pointing at it; votes are untouched. */
  lemma CreateAddsPollAndOptions(t: Tables, actor: UserId, title: string, days: int, titles: seq<string>,
                                 slug: string, color: string, now: int, fault: Option<nat>)
    requires fault.None? || fault.value > |titles|
    ensures var c := CreatePollSpec(t, actor, title, days, titles, slug, color, now, fault);
            && c.created.Some?
            && var p := c.created.value;
            && p.id == t.nextPollId && p.userId == actor && p.title == title
            && p.slug == slug && p.pollColor == color && p.closesAt == now + days * SecondsPerDay
            && c.tables.polls == t.polls + [p]
            && |c.tables.options| == |t.options| + |titles|
            && c.tables.options[..|t.options|] == t.options
            && (forall k :: 0 <= k < |titles| ==>
                  c.tables.options[|t.options| + k] == OptionRow(t.nextOptionId + k, p.id, titles[k], 0))
            && c.tables.votes == t.votes
  {
    var c := CreatePollSpec(t, actor, title, days, titles, slug, color, now, fault);
    NewOptionRowsAt(t.nextOptionId, Drafts(t.nextPollId, titles));
    assert c.tables.options[..|t.options|] == t.options;
  }

  /** Creation keeps the store's invariants when the slug is free. */
  lemma CreateKeepsTablesValid(t: Tables, actor: UserId, title: string, days: int, titles: seq<string>,
                               slug: string, color: string, now: int, fault: Option<nat>)
    requires ValidTables(t)
    requires SlugIsFree(t.polls, slug)
    ensures ValidTables(CreatePollSpec(t, actor, title, days, titles, slug, color, now, fault).tables)
  {
    var c := CreatePollSpec(t, actor, title, days, titles, slug, color, now, fault);
    if c.created.Some? {
      var added := NewOptionRows(t.nextOptionId, Drafts(t.nextPollId, titles));
      NewOptionRowsAt(t.nextOptionId, Drafts(t.nextPollId, titles));
      var opts := t.options + added;
      assert forall k :: 0 <= k < |opts| ==> opts[k] == (if k < |t.options| then t.options[k] else added[k - |t.options|]);
    }
  }

  /** The options of a newly created poll are exactly the rows its
      creation inserted. */
  lemma OptionsOfNewPoll(options: seq<OptionRow>, nextOptionId: int, nextPollId: int, titles: seq<string>)
    requires OptionsValid(options, nextOptionId, nextPollId)
    ensures var added := NewOptionRows(nextOptionId, Drafts(nextPollId, titles));
            OptionsOf(options + added, nextPollId) == added
  {
    var drafts := Drafts(nextPollId, titles);
    var added := NewOptionRows(nextOptionId, drafts);
    var cond := BelongsTo(nextPollId);
    assert Where(options, cond) == [] by {
      assert forall k :: 0 <= k < |options| ==> !cond(options[k]);
      WhereNone(options, cond);
    }
    assert Where(added, cond) == added by {
      NewOptionRowsAt(nextOptionId, drafts);
      assert forall k :: 0 <= k < |added| ==> added[k].pollId == drafts[k].pollId == nextPollId;
      WhereAll(added, cond);
    }
    WhereConcat(options, added, cond);
  }

  /** Nobody has a vote row for a poll id not handed out yet. */
  lemma NoBallotForNewPoll(votes: seq<VoteRow>, nextVoteId: int, nextPollId: int, user: UserId)
    requires VotesValid(votes, nextVoteId, nextPollId)
    ensures BallotOf(votes, nextPollId, user) == []
  {
    WhereNone(votes, CastBy(nextPollId, user));
  }

  /** Right after creation the poll's page shows it with exactly its new
      options and no ballot of anyone yet. */
  lemma CreatedPollIsShown(t: Tables, actor: UserId, title: string, days: int, titles: seq<string>,
                           slug: string, color: string, now: int, fault: Option<nat>, viewer: Option<UserId>)
    requires ValidTables(t)
    requires SlugIsFree(t.polls, slug)
    requires fault.None? || fault.value > |titles|
    ensures var c := CreatePollSpec(t, actor, title, days, titles, slug, color, now, fault);
            var p := c.created.value;
            Show(c.tables.polls, c.tables.options, c.tables.votes, slug, viewer)
              == Some(Detail(p, NewOptionRows(t.nextOptionId, Drafts(p.id, titles)),
                             if viewer.Some? then Some([]) else None))
  {
    var c := CreatePollSpec(t, actor, title, days, titles, slug, color, now, fault);
    var p := c.created.value;
    PollsValidAfterAppend(t.polls, t.nextPollId, p);
    SlugFindsItsPoll(c.tables.polls, t.nextPollId + 1, |t.polls|);
    OptionsOfNewPoll(t.options, t.nextOptionId, t.nextPollId, titles);
    if viewer.Some? {
      NoBallotForNewPoll(t.votes, t.nextVoteId, t.nextPollId, viewer.value);
    }
  }

  /** Right after creation a poll that closes in the future heads the
      first page of the default listing. */
  lemma CreatedPollHeadsIndex(t: Tables, actor: UserId, title: string, days: int, titles: seq<string>,
                              slug: string, color: string, now: int, fault: Option<nat>,
                              filterBy: Option<string>, viewer: Option<UserId>)
    requires ValidTables(t)
    requires days >= 1
    requires fault.None? || fault.value > |titles|
    requires filterBy != Some(Participated)
    ensures var c := CreatePollSpec(t, actor, title, days, titles, slug, color, now, fault);
            var r := Index(c.tables.polls, filterBy, viewer, Some(1), now);
            |r| > 0 && r[0] == c.created.value
  {
    var c := CreatePollSpec(t, actor, title, days, titles, slug, color, now, fault);
    var p := c.created.value;
    var active := Where(c.tables.polls, IsActive(now));
    assert p in c.tables.polls;
    assert p in active;
    forall q | q in active && q != p ensures q.id < p.id {
      var k :| 0 <= k < |c.tables.polls| && c.tables.polls[k] == q;
      assert k < |t.polls|;
    }
    NewestHeadsFirstPage(active, p);
  }

  /** `store` as the code is written: only the signed-in user joins the
      transaction, while `Poll.create` and `PollOption.createMany` are
      static calls that never receive it, so each insert that succeeded
      stays when a later one throws. */
  function CreatePollAsWritten(t: Tables, actor: UserId, title: string, days: int, titles: seq<string>,
                               slug: string, color: string, now: int, fault: Option<nat>): (r: Creation)
    ensures (r.created.None? <==> fault.Some? && fault.value <= |titles|)
    ensures fault == Some(0) ==> r.tables == t
    ensures fault != Some(0) ==> |r.tables.polls| == |t.polls| + 1
    ensures r.tables.votes == t.votes
  {
    if fault == Some(0) then Creation(t, None)
    else
      var p := PollRow(t.nextPollId, actor, title, color, slug, now + days * SecondsPerDay);
      var n := if fault.Some? && fault.value <= |titles| then fault.value - 1 else |titles|;
      Creation(t.(polls := t.polls + [p],
                  options := t.options + NewOptionRows(t.nextOptionId, Drafts(p.id, titles)[..n]),
                  nextPollId := t.nextPollId + 1,
                  nextOptionId := t.nextOptionId + n),
               if n == |titles| then Some(p) else None)
  }

  /** Without a fault the code as written and the transaction agree. */
  lemma AsWrittenMatchesTransactionWithoutFault(t: Tables, actor: UserId, title: string, days: int,
                                                titles: seq<string>, slug: string, color: string,
                                                now: int, fault: Option<nat>)
    requires fault.None? || fault.value > |titles|
    ensures CreatePollAsWritten(t, actor, title, days, titles, slug, color, now, fault)
            == CreatePollSpec(t, actor, title, days, titles, slug, color, now, fault)
  {
    var drafts := Drafts(t.nextPollId, titles);
    assert drafts[..|titles|] == drafts;
  }

  /** When the first option insert throws, the code as written keeps the
      poll row, with no option at all, although the request fails; the
      transaction leaves the tables as they were. */
  lemma OrphanPollAsWritten(t: Tables, actor: UserId, title: string, days: int, titles: seq<string>,
                            slug: string, color: string, now: int)
    requires ValidTables(t)
    requires titles != []
    ensures var w := CreatePollAsWritten(t, actor, title, days, titles, slug, color, now, Some(1));
            && w.created.None?
            && |w.tables.polls| == |t.polls| + 1
            && var p := w.tables.polls[|t.polls|];
            && p.userId == actor && p.slug == slug
            && OptionsOf(w.tables.options, p.id) == []
    ensures CreatePollSpec(t, actor, title, days, titles, slug, color, now, Some(1)).tables == t
  {
    var w := CreatePollAsWritten(t, actor, title, days, titles, slug, color, now, Some(1));
    var drafts := Drafts(t.nextPollId, titles);
    assert drafts[..0] == [];
    assert w.tables.options == t.options;
    WhereNone(t.options, BelongsTo(t.nextPollId));
  }

  /** `PollOption.createMany(drafts)`: one insert per draft, in order,
      until the insert at position `fault` throws. */
  method CreateMany(db: Store, drafts: seq<OptionDraft>, fault: Option<nat>) returns (ok: bool)
    requires db.Valid()
    requires forall k :: 0 <= k < |drafts| ==> 1 <= drafts[k].pollId < db.nextPollId
    modifies db
    ensures db.Valid()
    ensures ok <==> !(fault.Some? && fault.value < |drafts|)
    ensures db.polls == old(db.polls) && db.votes == old(db.votes)
    ensures db.nextPollId == old(db.nextPollId) && db.nextVoteId == old(db.nextVoteId)
    ensures var n := if ok then |drafts| else fault.value;
            && db.options == old(db.options) + NewOptionRows(old(db.nextOptionId), drafts[..n])
            && db.nextOptionId == old(db.nextOptionId) + n
  {
    ghost var before := db.Snapshot();
    for j := 0 to |drafts|
      invariant db.Valid()
      invariant fault.Some? ==> fault.value >= j
      invariant db.polls == before.polls && db.votes == before.votes
      invariant db.nextPollId == before.nextPollId && db.nextVoteId == before.nextVoteId
      invariant db.options == before.options + NewOptionRows(before.nextOptionId, drafts[..j])
      invariant db.nextOptionId == before.nextOptionId + j
    {
      if fault == Some(j) {
        return false;
      }
      NewOptionRowsSnoc(before.nextOptionId, drafts, j);
      var _ := db.InsertOption(drafts[j].pollId, drafts[j].title);
    }
    assert drafts[..|drafts|] == drafts;
    return true;
  }

  /** `store`: inside a transaction, create the poll (the before-create hook
      assigns its colour), collect one option draft per title and insert
      them; any failed insert rolls everything back. The slug is the fresh
      value the slug generator produces. */
  method StorePoll(db: Store, actor: UserId, title: string, days: int, titles: seq<string>,
                   slug: string, color: string, now: int, fault: Option<nat>)
    returns (created: Option<PollRow>)
    requires db.Valid()
    requires SlugIsFree(db.polls, slug)
    modifies db
    ensures db.Valid()
    ensures Creation(db.Snapshot(), created)
            == CreatePollSpec(old(db.Snapshot()), actor, title, days, titles, slug, color, now, fault)
  {
    var saved := db.Snapshot();
    if fault == Some(0) {
      db.Rollback(saved);
      return None;
    }
    var poll := new Poll(actor, title, slug, now + days * SecondsPerDay);
    poll.AssignColor(color);
    db.InsertPoll(poll);
    var row := poll.Row();
    assert row == PollRow(saved.nextPollId, actor, title, color, slug, now + days * SecondsPerDay);

    var options: seq<OptionDraft> := [];
    for i := 0 to |titles|
      invariant options == Drafts(row.id, titles[..i])
    {
      options := options + [OptionDraft(row.id, titles[i])];
    }
    assert titles[..|titles|] == titles;

    var ok := CreateMany(db, options, if fault.Some? then Some(fault.value - 1) else None);
    if !ok {
      db.Rollback(saved);
      return None;
    }
    assert options[..|options|] == options;
    created := Some(row);
  }

  // ----------------------------------------------------------- submitVote

  /** One entry of `selectedOption`: the option id and its optional note. */
  datatype Selection = Selection(id: int, note: Option<string>)

  /** The `at`-th vote insert of the request throws with `message`. */
  datatype Fault = Fault(at: nat, message: string)

  /** Outcome of `submitVote`: the response and the rows it left behind. */
  datatype VoteResult = VoteResult(response: Response, added: seq<VoteRow>)

  /** The rows the insert loop writes: one per selection, in order, with
      consecutive ids. */
  function NewVoteRows(firstId: int, pollId: int, user: UserId, items: seq<Selection>): (r: seq<VoteRow>)
    ensures |r| == |items|
    decreases items
  {
    if items == [] then []
    else [VoteRow(firstId, pollId, user, items[0].id, items[0].note)] + NewVoteRows(firstId + 1, pollId, user, items[1..])
  }

  /** The k-th new vote row has id firstId + k, the poll, the user and the
      k-th selection's option id and note. */
  lemma {:induction false} NewVoteRowsAt(firstId: int, pollId: int, user: UserId, items: seq<Selection>)
    ensures forall k :: 0 <= k < |items| ==>
              NewVoteRows(firstId, pollId, user, items)[k] == VoteRow(firstId + k, pollId, user, items[k].id, items[k].note)
    decreases items
  {
    if items != [] {
      NewVoteRowsAt(firstId + 1, pollId, user, items[1..]);
    }
  }

  /** Every new vote row is the user's, for the poll. */
  lemma NewVoteRowsCastBy(firstId: int, pollId: int, user: UserId, items: seq<Selection>)
    ensures forall v :: v in NewVoteRows(firstId, pollId, user, items) ==> v.pollId == pollId && v.userId == user
  {
    var r := NewVoteRows(firstId, pollId, user, items);
    NewVoteRowsAt(firstId, pollId, user, items);
    forall v | v in r ensures v.pollId == pollId && v.userId == user {
      var k :| 0 <= k < |r| && r[k] == v;
    }
  }

  lemma NewVoteRowsSnoc(firstId: int, pollId: int, user: UserId, items: seq<Selection>, j: nat)
    requires j < |items|
    ensures NewVoteRows(firstId, pollId, user, items[..j + 1])
            == NewVoteRows(firstId, pollId, user, items[..j]) + [VoteRow(firstId + j, pollId, user, items[j].id, items[j].note)]
  {
    var a := NewVoteRows(firstId, pollId, user, items[..j + 1]);
    var b := NewVoteRows(firstId, pollId, user, items[..j]) + [VoteRow(firstId + j, pollId, user, items[j].id, items[j].note)];
    NewVoteRowsAt(firstId, pollId, user, items[..j + 1]);
    NewVoteRowsAt(firstId, pollId, user, items[..j]);
    assert |a| == |b|;
    forall k | 0 <= k < |a| ensures a[k] == b[k] {
    }
  }

  /** `submitVote` on the tables before the call: look the poll up, refuse
      a closed poll, refuse a user who already has a row for it, then
      insert one row per selection with no transaction, so a failing
      insert keeps the rows written before it. */
  function VoteOutcome(t: Tables, actor: UserId, pollId: int, selection: Option<seq<Selection>>,
                       fault: Option<Fault>, now: int): (r: VoteResult)
    ensures r.response.code == 200 || r.response.code == 400
    ensures r.response.code == 200 ==> r.response.message == Success
    ensures |r.added| <= if selection.Some? then |selection.value| else 0
    ensures r.response.code == 200 ==> selection.Some? && |r.added| == |selection.value|
  {
    match FindPoll(t.polls, pollId)
    case None => VoteResult(Response(400, RowNotFound), [])
    case Some(i) =>
      var poll := t.polls[i];
      if poll.Expired(now) then VoteResult(Response(400, VotingClosed), [])
      else if HasParticipated(t.votes, poll.id, actor) then VoteResult(Response(400, AlreadyParticipated), [])
      else match selection
        case None => VoteResult(Response(400, SelectionMissing), [])
        case Some(items) =>
          if fault.Some? && fault.value.at < |items| then
            VoteResult(Response(400, fault.value.message),
                       NewVoteRows(t.nextVoteId, pollId, actor, items[..fault.value.at]))
          else
            VoteResult(Response(200, Success), NewVoteRows(t.nextVoteId, pollId, actor, items))
  }

  /** The tables after `added` were inserted into `poll_user_votes`. */
  function AfterVote(t: Tables, added: seq<VoteRow>): (r: Tables)
    ensures r.polls == t.polls && r.options == t.options
    ensures r.nextPollId == t.nextPollId && r.nextOptionId == t.nextOptionId
    ensures |r.votes| == |t.votes| + |added|
    ensures r.votes[..|t.votes|] == t.votes && r.votes[|t.votes|..] == added
  {
    t.(votes := t.votes + added, nextVoteId := t.nextVoteId + |added|)
  }

  /** A missing poll is a 400 that writes nothing. */
  lemma VoteOnMissingPoll(t: Tables, actor: UserId, pollId: int, selection: Option<seq<Selection>>,
                          fault: Option<Fault>, now: int)
    requires forall q :: q in t.polls ==> q.id != pollId
    ensures VoteOutcome(t, actor, pollId, selection, fault, now) == VoteResult(Response(400, RowNotFound), [])
  {
  }

  /** A closed poll is refused whatever the ballot and whether or not the
      user voted before: the expiry check comes first. */
  lemma VoteOnClosedPoll(t: Tables, i: nat, actor: UserId, selection: Option<seq<Selection>>,
                         fault: Option<Fault>, now: int)
    requires ValidTables(t)
    requires i < |t.polls| && t.polls[i].Expired(now)
    ensures VoteOutcome(t, actor, t.polls[i].id, selection, fault, now) == VoteResult(Response(400, VotingClosed), [])
  {
    assert FindPoll(t.polls, t.polls[i].id) == Some(i);
  }

  /** A user who already has a row for an open poll is refused and nothing
      is written. */
  lemma VoteWhenAlreadyParticipated(t: Tables, i: nat, actor: UserId, selection: Option<seq<Selection>>,
                                    fault: Option<Fault>, now: int, k: nat)
    requires ValidTables(t)
    requires i < |t.polls| && !t.polls[i].Expired(now)
    requires k < |t.votes| && t.votes[k].pollId == t.polls[i].id && t.votes[k].userId == actor
    ensures VoteOutcome(t, actor, t.polls[i].id, selection, fault, now)
            == VoteResult(Response(400, AlreadyParticipated), [])
  {
    assert FindPoll(t.polls, t.polls[i].id) == Some(i);
    assert t.votes[k] in BallotOf(t.votes, t.polls[i].id, actor);
  }

  /** The submission succeeds exactly when the poll exists, is open, the
      user has no row for it, a selection was sent and no insert fails; it
      then writes one row per selection, in order, carrying the poll, the
      user, the option id and the note. */
  lemma VoteSucceedsIff(t: Tables, actor: UserId, pollId: int, selection: Option<seq<Selection>>,
                        fault: Option<Fault>, now: int)
    ensures var o := VoteOutcome(t, actor, pollId, selection, fault, now);
            var found := FindPoll(t.polls, pollId);
            o.response.code == 200 <==>
              && found.Some?
              && !t.polls[found.value].Expired(now)
              && !HasParticipated(t.votes, pollId, actor)
              && selection.Some?
              && !(fault.Some? && fault.value.at < |selection.value|)
    ensures var o := VoteOutcome(t, actor, pollId, selection, fault, now);
            o.response.code == 200 ==>
              && o.response.message == Success
              && |o.added| == |selection.value|
              && forall k :: 0 <= k < |o.added| ==>
                   o.added[k] == VoteRow(t.nextVoteId + k, pollId, actor, selection.value[k].id, selection.value[k].note)
  {
    if selection.Some? {
      NewVoteRowsAt(t.nextVoteId, pollId, actor, selection.value);
    }
  }

  /** A failing insert at position `at` answers 400 with the error's
      message and leaves the `at` rows written before it in place. */
  lemma VotePartialWrite(t: Tables, actor: UserId, pollId: int, items: seq<Selection>,
                         at: nat, message: string, now: int)
    requires FindPoll(t.polls, pollId).Some?
    requires !t.polls[FindPoll(t.polls, pollId).value].Expired(now)
    requires !HasParticipated(t.votes, pollId, actor)
    requires at < |items|
    ensures var o := VoteOutcome(t, actor, pollId, Some(items), Some(Fault(at, message)), now);
            && o.response == Response(400, message)
            && |o.added| == at
            && forall k :: 0 <= k < at ==>
                 o.added[k] == VoteRow(t.nextVoteId + k, pollId, actor, items[k].id, items[k].note)
  {
    NewVoteRowsAt(t.nextVoteId, pollId, actor, items[..at]);
  }

  /** Once a submission has left at least one row, every later submission
      by the same user for the same poll is refused and writes nothing:
      "closed" once the poll has expired, "already participated" before. */
  lemma SecondVoteRejected(t: Tables, actor: UserId, pollId: int, selection: Option<seq<Selection>>,
                           fault: Option<Fault>, now: int,
                           selection2: Option<seq<Selection>>, fault2: Option<Fault>, now2: int)
    requires VoteOutcome(t, actor, pollId, selection, fault, now).added != []
    ensures var t2 := AfterVote(t, VoteOutcome(t, actor, pollId, selection, fault, now).added);
            var i := FindPoll(t.polls, pollId).value;
            VoteOutcome(t2, actor, pollId, selection2, fault2, now2)
              == VoteResult(Response(400, if t.polls[i].Expired(now2) then VotingClosed else AlreadyParticipated), [])
  {
    var added := VoteOutcome(t, actor, pollId, selection, fault, now).added;
    var i := FindPoll(t.polls, pollId).value;
    assert added[0].pollId == pollId && added[0].userId == actor;
    WhereConcat(t.votes, added, CastBy(pollId, actor));
    assert added[0] in BallotOf(t.votes + added, pollId, actor);
  }

  /** An empty selection answers 200 and writes nothing, so the user can
      still vote later. */
  lemma EmptySelectionKeepsUserFree(t: Tables, actor: UserId, pollId: int, fault: Option<Fault>, now: int)
    requires FindPoll(t.polls, pollId).Some?
    requires !t.polls[FindPoll(t.polls, pollId).value].Expired(now)
    requires !HasParticipated(t.votes, pollId, actor)
    ensures VoteOutcome(t, actor, pollId, Some([]), fault, now) == VoteResult(Response(200, Success), [])
    ensures AfterVote(t, []) == t
  {
  }

  /** A ballot is never extended: when the user already has rows for a
      poll, no submission by anyone adds another row of that user for
      that poll. Every row a submission writes is the caller's, for the
      requested poll. */
  lemma BallotsAreNeverExtended(t: Tables, actor: UserId, pollId: int, selection: Option<seq<Selection>>,
                                fault: Option<Fault>, now: int, owner: UserId, votedPoll: int)
    requires HasParticipated(t.votes, votedPoll, owner)
    ensures var o := VoteOutcome(t, actor, pollId, selection, fault, now);
            && (forall v :: v in o.added ==> v.pollId == pollId && v.userId == actor)
            && (forall v :: v in o.added ==> !(v.pollId == votedPoll && v.userId == owner))
  {
    var o := VoteOutcome(t, actor, pollId, selection, fault, now);
    if o.added != [] {
      var items := selection.value;
      NewVoteRowsCastBy(t.nextVoteId, pollId, actor, items[..WrittenCount(items, fault)]);
      assert items[..|items|] == items;
      var i := FindPoll(t.polls, pollId).value;
      assert t.polls[i].id == pollId;
    }
  }

  /** How many of the selections get written: all of them, or those before
      the insert that fails. */
  function WrittenCount(items: seq<Selection>, fault: Option<Fault>): (r: nat)
    ensures r <= |items|
    ensures r < |items| <==> fault.Some? && fault.value.at < |items|
  {
    if fault.Some? && fault.value.at < |items| then fault.value.at else |items|
  }

  /** The insert loop of `submitVote` (no transaction): one row per
      selection until an insert throws, whose message becomes the 400. */
  method InsertBallot(db: Store, pollId: int, actor: UserId, items: seq<Selection>, fault: Option<Fault>)
    returns (res: Response)
    requires db.Valid()
    requires 1 <= pollId < db.nextPollId
    modifies db
    ensures db.Valid()
    ensures res == if WrittenCount(items, fault) < |items| then Response(400, fault.value.message)
                   else Response(200, Success)
    ensures db.Snapshot() == AfterVote(old(db.Snapshot()),
                                       NewVoteRows(old(db.nextVoteId), pollId, actor, items[..WrittenCount(items, fault)]))
  {
    ghost var before := db.Snapshot();
    for i := 0 to |items|
      invariant db.Valid()
      invariant 1 <= pollId < db.nextPollId
      invariant fault.Some? ==> fault.value.at >= i
      invariant db.polls == before.polls && db.options == before.options
      invariant db.nextPollId == before.nextPollId && db.nextOptionId == before.nextOptionId
      invariant db.votes == before.votes + NewVoteRows(before.nextVoteId, pollId, actor, items[..i])
      invariant db.nextVoteId == before.nextVoteId + i
    {
      if fault.Some? && fault.value.at == i {
        return Response(400, fault.value.message);
      }
      NewVoteRowsSnoc(before.nextVoteId, pollId, actor, items, i);
      var _ := db.InsertVote(pollId, actor, items[i].id, items[i].note);
    }
    assert items[..|items|] == items;
    return Response(200, Success);
  }

  /** `submitVote`: the checks in the source's order, then the insert loop;
      every exception becomes a 400 whose message is the exception's. */
  method SubmitVote(db: Store, actor: UserId, pollId: int, selection: Option<seq<Selection>>,
                    fault: Option<Fault>, now: int)
    returns (res: Response)
    requires db.Valid()
    modifies db
    ensures db.Valid()
    ensures var o := VoteOutcome(old(db.Snapshot()), actor, pollId, selection, fault, now);
            res == o.response && db.Snapshot() == AfterVote(old(db.Snapshot()), o.added)
  {
    var found := FindPoll(db.polls, pollId);
    if found.None? {
      return Response(400, RowNotFound);
    }
    var poll := db.polls[found.value];
    if poll.Expired(now) {
      return Response(400, VotingClosed);
    }
    if HasParticipated(db.votes, poll.id, actor) {
      return Response(400, AlreadyParticipated);
    }
    if selection.None? {
      return Response(400, SelectionMissing);
    }
    assert selection.value[..|selection.value|] == selection.value;
    res := InsertBallot(db, pollId, actor, selection.value, fault);
  }

  // -------------------------------------------------------------- destroy

  /** The poll with this id exists and belongs to the actor. */
  predicate DeletesPoll(polls: seq<PollRow>, actor: UserId, id: int): (r: bool)
    ensures r ==> exists i :: 0 <= i < |polls| && polls[i].id == id && polls[i].userId == actor
    ensures (forall q :: q in polls ==> q.id != id) ==> !r
  {
    match FindPoll(polls, id)
    case None => false
    case Some(i) => polls[i].userId == actor
  }

  /** `destroy` on the polls table: remove the poll with this id when the
      actor owns it, otherwise change nothing. */
  function AfterDestroy(polls: seq<PollRow>, actor: UserId, id: int): (r: seq<PollRow>)
    ensures forall q :: q in r ==> q in polls
  {
    match FindPoll(polls, id)
    case None => polls
    case Some(i) =>
      if polls[i].userId != actor then polls
      else
        assert forall q :: q in polls[..i] + polls[i + 1..] ==> q in polls;
        polls[..i] + polls[i + 1..]
  }

  /** Deleting a poll that does not exist is a silent no-op. */
  lemma DestroyMissingIsNoOp(polls: seq<PollRow>, actor: UserId, id: int)
    requires forall q :: q in polls ==> q.id != id
    ensures !DeletesPoll(polls, actor, id)
    ensures AfterDestroy(polls, actor, id) == polls
  {
  }

  /** Deleting someone else's poll is a silent no-op. */
  lemma DestroyByNonOwnerIsNoOp(polls: seq<PollRow>, nextPollId: int, actor: UserId, i: nat)
    requires PollsValid(polls, nextPollId)
    requires i < |polls| && polls[i].userId != actor
    ensures !DeletesPoll(polls, actor, polls[i].id)
    ensures AfterDestroy(polls, actor, polls[i].id) == polls
  {
    assert FindPoll(polls, polls[i].id) == Some(i);
  }

  /** The owner's delete removes that poll row and no other. */
  lemma DestroyRemovesOnlyThatPoll(polls: seq<PollRow>, nextPollId: int, i: nat)
    requires PollsValid(polls, nextPollId)
    requires i < |polls|
    ensures var r := AfterDestroy(polls, polls[i].userId, polls[i].id);
            && DeletesPoll(polls, polls[i].userId, polls[i].id)
            && |r| == |polls| - 1
            && (forall q :: q in r <==> q in polls && q.id != polls[i].id)
  {
    assert FindPoll(polls, polls[i].id) == Some(i);
    var r := polls[..i] + polls[i + 1..];
    assert forall k :: 0 <= k < |r| ==> r[k] == polls[if k < i then k else k + 1];
    forall q | q in polls && q.id != polls[i].id ensures q in r {
      var k :| 0 <= k < |polls| && polls[k] == q;
      assert k != i;
      if k < i { assert r[k] == q; } else { assert r[k - 1] == q; }
    }
  }

  /** After the owner deletes a poll its slug no longer finds anything;
      its options and votes stay behind. */
  lemma DestroyedPollNotShown(t: Tables, i: nat, viewer: Option<UserId>)
    requires ValidTables(t)
    requires i < |t.polls|
    ensures Show(AfterDestroy(t.polls, t.polls[i].userId, t.polls[i].id), t.options, t.votes, t.polls[i].slug, viewer).None?
  {
    var p := t.polls[i];
    DestroyRemovesOnlyThatPoll(t.polls, t.nextPollId, i);
    var r := AfterDestroy(t.polls, p.userId, p.id);
    forall k | 0 <= k < |r| ensures r[k].slug != p.slug {
      assert r[k] in r;
      var m :| 0 <= m < |t.polls| && t.polls[m] == r[k];
      assert m != i;
    }
  }

  /** `destroy`: find the poll by id; when it is missing or not the
      actor's, do nothing; otherwise delete its row. `deleted` says whether
      the success notification is flashed; the caller is redirected either
      way. */
  method Destroy(db: Store, actor: UserId, id: int) returns (deleted: bool)
    requires db.Valid()
    modifies db
    ensures db.Valid()
    ensures deleted == DeletesPoll(old(db.polls), actor, id)
    ensures db.Snapshot() == old(db.Snapshot()).(polls := AfterDestroy(old(db.polls), actor, id))
  {
    var found := FindPoll(db.polls, id);
    if found.None? || db.polls[found.value].userId != actor {
      return false;
    }
    db.DeletePollAt(found.value);
    return true;
  }

  // ------------------------------------------------------ across actions

  /** No action rewrites a stored poll row, so a poll keeps the colour its
      before-create hook drew: creation only appends the new row (with the
      drawn colour), a vote never touches the polls table, and a delete
      only removes rows. */
  lemma PollRowsAreNeverRewritten(t: Tables, actor: UserId, title: string, days: int, titles: seq<string>,
                                  slug: string, color: string, now: int, fault: Option<nat>,
                                  added: seq<VoteRow>, id: int)
    ensures var c := CreatePollSpec(t, actor, title, days, titles, slug, color, now, fault);
            && (c.created.Some? ==> c.created.value.pollColor == color)
            && (forall q :: q in c.tables.polls ==> q in t.polls || Some(q) == c.created)
    ensures AfterVote(t, added).polls == t.polls
    ensures forall q :: q in AfterDestroy(t.polls, actor, id) ==> q in t.polls
  {
  }
}
