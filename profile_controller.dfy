/** The signed-in user's dashboard: their own polls, ids descending, ten per
    page. The action only reads the tables. */
module ProfileController {
  import opened Query
  import opened PollModel
  import opened PollQueries
  import PollsController

  /** `index`: the actor's polls, one page of at most ten, ids descending. */
  function Index(polls: seq<PollRow>, actor: UserId, pageInput: Option<int>): (r: seq<PollRow>)
    ensures |r| <= PerPage
    ensures DescendingIds(r)
    ensures forall p :: p in r ==> p in polls && p.userId == actor
  {
    Listing(Where(polls, IsOwnedBy(actor)), pageInput)
  }

  /** An absent or non-numeric page is page 1. */
  lemma IndexNonNumericPage(polls: seq<PollRow>, actor: UserId)
    ensures Index(polls, actor, None) == Index(polls, actor, Some(1))
  {
  }

  /** Each of the actor's polls is on some page of the dashboard, and the
      polls of other users on none. */
  lemma IndexListsExactlyOwnPolls(polls: seq<PollRow>, actor: UserId, p: PollRow)
    requires p in polls
    ensures p.userId == actor ==> exists page :: p in Index(polls, actor, Some(page))
    ensures p.userId != actor ==> forall page :: p !in Index(polls, actor, page)
  {
    if p.userId == actor {
      ListedOnSomePage(Where(polls, IsOwnedBy(actor)), p);
      var page :| p in Listing(Where(polls, IsOwnedBy(actor)), Some(page));
      assert p in Index(polls, actor, Some(page));
    }
  }

  /** The home page's `participated` filter lists the polls the user owns:
      the very page the dashboard shows, whatever the clock. */
  lemma ParticipatedIsOwnedListing(polls: seq<PollRow>, actor: UserId, pageInput: Option<int>, now: int)
    ensures PollsController.Index(polls, Some(PollsController.Participated), Some(actor), pageInput, now)
            == Index(polls, actor, pageInput)
  {
  }
}
