/** The queries the controllers build over the store: the filters,
    `orderBy('id', 'desc')`, the paginated listing and the lookups by slug,
    by poll and by (poll, user). */
module PollQueries {
  import opened Query
  import opened PollModel
  import opened Database

  /** `where('closesAt', '>', now)`. */
  function IsActive(now: int): PollRow -> bool
  {
    (p: PollRow) => p.ActiveAt(now)
  }

  /** `where('userId', '=', user)`. */
  function IsOwnedBy(user: UserId): PollRow -> bool
  {
    (p: PollRow) => p.userId == user
  }

  /** `where('poll_id', pollId)` on options. */
  function BelongsTo(pollId: int): OptionRow -> bool
  {
    (o: OptionRow) => o.pollId == pollId
  }

  /** `where('poll_id', pollId).where('user_id', user)` on votes. */
  function CastBy(pollId: int, user: UserId): VoteRow -> bool
  {
    (v: VoteRow) => v.pollId == pollId && v.userId == user
  }

  function OptionsOf(options: seq<OptionRow>, pollId: int): (r: seq<OptionRow>)
    ensures forall o :: o in r <==> o in options && o.pollId == pollId
  {
    Where(options, BelongsTo(pollId))
  }

  function BallotOf(votes: seq<VoteRow>, pollId: int, user: UserId): (r: seq<VoteRow>)
    ensures forall v :: v in r <==> v in votes && v.pollId == pollId && v.userId == user
  {
    Where(votes, CastBy(pollId, user))
  }

  /** `.first()` on the (poll, user) vote query found a row. */
  predicate HasParticipated(votes: seq<VoteRow>, pollId: int, user: UserId)
  {
    BallotOf(votes, pollId, user) != []
  }

  lemma HasParticipatedIff(votes: seq<VoteRow>, pollId: int, user: UserId)
    ensures HasParticipated(votes, pollId, user) <==>
            exists k :: 0 <= k < |votes| && votes[k].pollId == pollId && votes[k].userId == user
  {
    var b := BallotOf(votes, pollId, user);
    if b != [] {
      assert b[0] in b;
      var k :| 0 <= k < |votes| && votes[k] == b[0];
    }
    if exists k :: 0 <= k < |votes| && votes[k].pollId == pollId && votes[k].userId == user {
      var k :| 0 <= k < |votes| && votes[k].pollId == pollId && votes[k].userId == user;
      assert votes[k] in b;
    }
  }

  /** `where('slug', slug).first()`. */
  function FindBySlug(polls: seq<PollRow>, slug: string): (r: Option<PollRow>)
    ensures r.Some? ==> r.value in polls && r.value.slug == slug
    ensures r.None? <==> SlugIsFree(polls, slug)
  {
    if polls == [] then None
    else if polls[0].slug == slug then Some(polls[0])
    else FindBySlug(polls[1..], slug)
  }

  /** With unique slugs a slug names exactly one poll. */
  lemma {:induction false} SlugFindsItsPoll(polls: seq<PollRow>, nextPollId: int, i: nat)
    requires PollsValid(polls, nextPollId)
    requires i < |polls|
    ensures FindBySlug(polls, polls[i].slug) == Some(polls[i])
  {
    if i > 0 {
      assert polls[0].slug != polls[i].slug;
      assert PollsValid(polls[1..], nextPollId);
      SlugFindsItsPoll(polls[1..], nextPollId, i - 1);
    }
  }

  /** Poll ids never increase along the sequence. */
  predicate DescendingIds(rows: seq<PollRow>)
  {
    forall i, j :: 0 <= i < j < |rows| ==> rows[i].id >= rows[j].id
  }

  /** A row whose id bounds every id of a descending list may head it. */
  lemma ConsDescending(h: PollRow, rows: seq<PollRow>)
    requires DescendingIds(rows)
    requires forall k :: 0 <= k < |rows| ==> h.id >= rows[k].id
    ensures DescendingIds([h] + rows)
  {
    var r := [h] + rows;
    forall i, j | 0 <= i < j < |r| ensures r[i].id >= r[j].id {
      assert r[j] == rows[j - 1];
      if i > 0 {
        assert r[i] == rows[i - 1];
      }
    }
  }

  /** The head of a descending list bounds every id of its tail with one
      smaller row added. */
  lemma HeadBoundsInsertion(sorted: seq<PollRow>, p: PollRow, rest: seq<PollRow>)
    requires DescendingIds(sorted) && sorted != [] && p.id < sorted[0].id
    requires multiset(rest) == multiset(sorted[1..]) + multiset{p}
    ensures forall k :: 0 <= k < |rest| ==> sorted[0].id >= rest[k].id
  {
    forall k | 0 <= k < |rest| ensures sorted[0].id >= rest[k].id {
      assert rest[k] in multiset(rest);
      if rest[k] != p {
        assert rest[k] in multiset(sorted[1..]);
        var j :| 0 <= j < |sorted[1..]| && sorted[1..][j] == rest[k];
        assert sorted[j + 1] == rest[k];
      }
    }
  }

  function InsertById(p: PollRow, sorted: seq<PollRow>): (r: seq<PollRow>)
    requires DescendingIds(sorted)
    ensures DescendingIds(r)
    ensures multiset(r) == multiset(sorted) + multiset{p}
    ensures |r| == |sorted| + 1
  {
    if sorted == [] || p.id >= sorted[0].id then
      ConsDescending(p, sorted);
      [p] + sorted
    else
      var rest := InsertById(p, sorted[1..]);
      assert multiset(sorted) == multiset{sorted[0]} + multiset(sorted[1..]) by {
        assert sorted == [sorted[0]] + sorted[1..];
      }
      HeadBoundsInsertion(sorted, p, rest);
      ConsDescending(sorted[0], rest);
      [sorted[0]] + rest
  }

  /** `orderBy('id', 'desc')`: the same rows, ids descending. */
  function SortByIdDesc(rows: seq<PollRow>): (r: seq<PollRow>)
    ensures DescendingIds(r)
    ensures multiset(r) == multiset(rows)
    ensures |r| == |rows|
  {
    if rows == [] then []
    else
      assert rows == [rows[0]] + rows[1..];
      InsertById(rows[0], SortByIdDesc(rows[1..]))
  }

  /** `orderBy('id', 'desc').paginate(page, 10)` over the filtered rows. */
  function Listing(rows: seq<PollRow>, pageInput: Option<int>): (r: seq<PollRow>)
    ensures |r| <= PerPage
    ensures DescendingIds(r)
    ensures forall p :: p in r ==> p in rows
  {
    var sorted := SortByIdDesc(rows);
    var r := Paginate(sorted, PageNumber(pageInput));
    assert forall p :: p in r ==> p in sorted by {
      forall p | p in r ensures p in sorted {
        var k :| 0 <= k < |r| && r[k] == p;
      }
    }
    assert forall p :: p in sorted ==> p in rows by {
      forall p | p in sorted ensures p in rows {
        assert p in multiset(sorted);
      }
    }
    r
  }

  /** Every row is listed on some page. */
  lemma ListedOnSomePage(rows: seq<PollRow>, p: PollRow)
    requires p in rows
    ensures exists page :: p in Listing(rows, Some(page))
  {
    var sorted := SortByIdDesc(rows);
    assert p in multiset(sorted);
    var j :| 0 <= j < |sorted| && sorted[j] == p;
    RowOnItsPage(sorted, j);
    assert p in Listing(rows, Some(j / PerPage + 1));
  }

  /** A row whose id is larger than every other row's heads the listing's
      first page. */
  lemma NewestHeadsFirstPage(rows: seq<PollRow>, p: PollRow)
    requires p in rows
    requires forall q :: q in rows && q != p ==> q.id < p.id
    ensures |Listing(rows, Some(1))| > 0 && Listing(rows, Some(1))[0] == p
  {
    var sorted := SortByIdDesc(rows);
    assert p in multiset(sorted);
    var j :| 0 <= j < |sorted| && sorted[j] == p;
    assert sorted[0] in multiset(rows);
    assert sorted[0].id >= p.id;
  }
}
