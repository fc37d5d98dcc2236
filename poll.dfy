/** The `Poll` model: the persisted row, the derived `expired` flag and the
    model instance whose colour the before-create hook fills in. Instants are
    integer seconds. */
module PollModel {
  import opened Query

  /** A row of the `polls` table (columns of its migration, timestamps left out). */
  datatype PollRow = PollRow(
    id: int,
    userId: UserId,
    title: string,
    pollColor: string,
    slug: string,
    closesAt: int)
  {
    /** `closesAt.diff(now, 'seconds') <= 0`. */
    function Expired(now: int): (r: bool)
      ensures r <==> closesAt <= now
    {
      closesAt - now <= 0
    }

    /** The condition of the active-polls query: `closesAt > now`. It is
        exactly the complement of the `expired` getter. */
    function ActiveAt(now: int): (r: bool)
      ensures r <==> !Expired(now)
    {
      closesAt > now
    }
  }

  /** A poll whose closing instant equals the current time is already closed. */
  lemma ExpiredAtBoundary(p: PollRow)
    ensures p.Expired(p.closesAt)
  {
  }

  /** Once a poll has expired it stays expired. */
  lemma ExpiryIsMonotone(p: PollRow, now: int, later: int)
    requires now <= later
    requires p.Expired(now)
    ensures p.Expired(later)
  {
  }

  /** A `Poll` model instance before it is persisted. The database assigns
      `id` at insert time; `pollColor` is empty until the before-create hook
      runs. */
  class Poll {
    var id: int
    var userId: UserId
    var title: string
    var pollColor: string
    var slug: string
    var closesAt: int

    constructor (userId: UserId, title: string, slug: string, closesAt: int)
      ensures this.id == 0 && this.userId == userId && this.title == title
      ensures this.slug == slug && this.closesAt == closesAt && this.pollColor == ""
    {
      this.id := 0;
      this.userId := userId;
      this.title := title;
      this.pollColor := "";
      this.slug := slug;
      this.closesAt := closesAt;
    }

    /** Before-create hook: stores the palette colour drawn for this poll
        (the random draw is the parameter). Touches no other field. */
    method AssignColor(color: string)
      modifies this`pollColor
      ensures pollColor == color
    {
      pollColor := color;
    }

    /** The row the instance is persisted as; its `expired` getter reads
        the instance's closing instant. */
    function Row(): (r: PollRow)
      reads this
      ensures forall now :: r.Expired(now) <==> closesAt <= now
    {
      PollRow(id, userId, title, pollColor, slug, closesAt)
    }
  }
}
