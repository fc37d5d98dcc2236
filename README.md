# Poll and vote core of a small AdonisJS polling application

This project models the poll lifecycle and vote recording of a web
application where signed-in users create polls with options, vote once per
poll, and delete their own polls. It also proves properties of the model.
The modelled parts are:

- `PollsController`: `index`, `store`, `show`, `submitVote` and `destroy`;
- `ProfileController.index`, the user's dashboard;
- the `Poll` model: the `expired` getter and the before-create colour hook;
- the `User` model: the `initials` getter and the before-create colour hook.

The database is the class `Database.Store`. It holds the `polls`,
`poll_options` and `poll_user_votes` tables as sequences of rows, with one
auto-increment counter per table. `Database.Tables` is a snapshot of the
store as a value.

The actions that only read (`index`, `show`, the dashboard) are functions of
the tables. The actions that write (`store`, `submitVote`, `destroy`) are
methods on the store. Each method's postcondition equates the new snapshot
with a specification function of the old one:

| method | specification function |
|---|---|
| `StorePoll` | `CreatePollSpec` |
| `SubmitVote` | `VoteOutcome` and `AfterVote` |
| `Destroy` | `AfterDestroy` |

The behavioural lemmas are proved about those functions.

The model also keeps these parts of the runtime as parameters:

- The clock is the parameter `now`, in integer seconds.
- The signed-in user is the parameter `actor`. It is an `Option` on the
  public routes (`index`, `show`) and a plain id on the routes behind the
  `auth` middleware.
- The palette colour and the generated slug are parameters.
- A database failure is an injected fault. It names the insert that throws.

Modules:

- `Query`: `where` as an order-keeping filter, the page-number fallback and
  `paginate(page, 10)` as a slice.
- `PollModel`: the poll row, `expired`, and the `Poll` instance with its hook.
- `UserModel`: JavaScript `split(' ')`, ASCII upper-casing, `initials`, and
  the `User` instance with its hook.
- `Database`: table rows, table invariants (increasing ids, unique slugs,
  foreign ids already handed out), and the row-level inserts, delete and
  rollback.
- `PollQueries`: the filters, `orderBy('id', 'desc')` (an insertion sort),
  the paginated listing, and the lookups by slug and by (poll, user).
- `PollsController` and `ProfileController`: the actions.

## Behaviour as written

These points follow from the code itself, and the model follows the code:

- **Creation is not atomic.** The comment at
  app/Controllers/Http/PollsController.ts:88-90 says the transaction keeps
  the database consistent. But only the signed-in user joins it (line 97).
  `Poll.create` (lines 102-106) and `PollOption.createMany` (line 118) are
  static calls that are never given the transaction. So when an option
  insert throws, the poll row stays. `CreatePollAsWritten` models this and
  `OrphanPollAsWritten` shows the poll left with no options. `StorePoll`
  and `CreatePollSpec` model the all-or-nothing creation the comment
  describes (see "## Findings").
- **Votes are not atomic.** `submitVote` inserts vote rows one at a time in
  a loop with no transaction (app/Controllers/Http/PollsController.ts:206-214).
  An insert that throws leaves the earlier rows in place, and the `catch`
  at lines 220-225 answers 400. `VotePartialWrite` states this.
  `SecondVoteRejected` shows that the user then counts as having
  participated.
- **No cascade delete.** `destroy` deletes only the poll row
  (app/Controllers/Http/PollsController.ts:246). The `poll_id` columns of
  database/migrations/1627721386714_poll_options.ts:9 and
  database/migrations/1627724264723_poll_user_votes.ts:9 are plain
  integers with no foreign key. So the poll's options and votes stay in
  their tables (`DestroyedPollNotShown`).
- **`participated` filters by owner.** The comment at
  app/Controllers/Http/PollsController.ts:37-39 speaks of the polls the
  user took part in. The query at line 45 selects the polls whose `userId`
  is the signed-in user. `ParticipatedIsOwnedListing` proves that this is
  the same page as the dashboard.

## Model

| member | source | states |
|---|---|---|
| Query.Where | app/Controllers/Http/PollsController.ts:43-46 | the filtered rows are exactly the rows meeting the condition, no more than the input, a sub-multiset of it |
| Query.WhereConcat | app/Controllers/Http/PollsController.ts:143 | filtering distributes over concatenation, so rows appended later keep the earlier result as a prefix |
| Query.WhereNone | app/Controllers/Http/PollsController.ts:143 | a filter no row meets returns nothing |
| Query.WhereAll | app/Controllers/Http/PollsController.ts:143 | a filter every row meets returns all rows in order |
| Query.PageNumber | app/Controllers/Http/PollsController.ts:33-34 | an absent or non-numeric page reads as page 1; a numeric one is used as given |
| Query.Offset | app/Controllers/Http/PollsController.ts:54 | a page starts at a multiple of 10, and at row 0 exactly for page 1 and below |
| Query.Paginate | app/Controllers/Http/PollsController.ts:52-54 | a page holds at most 10 rows, the rows at the page's offset in order, a full page when enough rows follow and the remainder on the last page |
| Query.RowOnItsPage | app/Controllers/Http/PollsController.ts:52-54 | row j is on page j/10 + 1 at position j mod 10 |
| PollModel.PollRow.Expired | app/Models/Poll.ts:55-57 | a poll is expired exactly when its closing instant is not after now |
| PollModel.PollRow.ActiveAt | app/Controllers/Http/PollsController.ts:46 | a poll is in the active list exactly when it is not expired |
| PollModel.ExpiredAtBoundary | app/Models/Poll.ts:55-57 | at its closing instant a poll is already expired |
| PollModel.ExpiryIsMonotone | app/Models/Poll.ts:55-57 | an expired poll stays expired at every later instant |
| PollModel.Poll.AssignColor | app/Models/Poll.ts:63-66 | the hook sets the instance's colour to the drawn colour and touches no other field |
| PollModel.Poll.Row | app/Models/Poll.ts:55-57 | the persisted row of an instance is expired exactly when the instance's closing instant is not after now |
| PollModel.Poll.constructor | app/Controllers/Http/PollsController.ts:102-106 | a new instance carries owner, title, slug and closing instant, with no id or colour yet |
| UserModel.Split | app/Models/User.ts:37 | splitting on ' ' gives at least one space-free piece and joining the pieces with ' ' gives back the name |
| UserModel.Join | app/Models/User.ts:37 | joining with ' ' starts with the first word; `SplitJoin` states it is the inverse of splitting |
| UserModel.SplitWord | app/Models/User.ts:37 | a name without spaces is one piece |
| UserModel.SplitAfterWord | app/Models/User.ts:37 | a space-free word followed by a space is the first piece and the rest is split on |
| UserModel.SplitJoin | app/Models/User.ts:37 | split is the inverse of join on space-free words |
| UserModel.ToUpper | app/Models/User.ts:39-40 | upper-casing keeps the length, maps each character and leaves no lower-case ASCII letter |
| UserModel.Prefix | app/Models/User.ts:39-40 | `charAt(0)` and `slice(0, 2)`: a prefix of the string, as long as the limit or the whole string when shorter |
| UserModel.Initials | app/Models/User.ts:36-41 | the initials are at most two characters with no lower-case ASCII letter |
| UserModel.InitialsOfTwoWords | app/Models/User.ts:36-41 | with a non-empty second word the initials are the first letters of the two words, upper-cased |
| UserModel.InitialsIgnoreLaterWords | app/Models/User.ts:37 | words after the second do not change the initials |
| UserModel.InitialsOfOneWord | app/Models/User.ts:38-40 | a one-word name gives its first two letters, upper-cased |
| UserModel.InitialsWithEmptySecondWord | app/Models/User.ts:38-40 | an empty second word (trailing or doubled space) falls back to the first two letters of the first word |
| UserModel.User.AssignColor | app/Models/User.ts:46-49 | the hook sets the profile colour to the drawn colour and touches no other field |
| UserModel.User.InitialsOfName | app/Models/User.ts:36-41 | the instance's `initials` are at most two characters with no lower-case ASCII letter |
| UserModel.User.constructor | app/Models/User.ts:11-24 | a new user carries its id, e-mail, name and avatar and has no colour yet |
| Database.FindPoll | app/Controllers/Http/PollsController.ts:176 | the lookup by id returns the first row with that id, or none when no row has it |
| Database.PollsValidAfterRemove | app/Controllers/Http/PollsController.ts:246 | removing a poll row keeps poll ids increasing and slugs unique |
| Database.PollsValidAfterAppend | app/Controllers/Http/PollsController.ts:102-106 | appending a poll with the next id and a free slug keeps the polls table valid |
| Database.Store.constructor | database/migrations/1627705225843_polls.ts:7-13 | a fresh store has empty, valid tables with every counter at 1 |
| Database.Store.InsertPoll | app/Controllers/Http/PollsController.ts:102-106 | the instance gets the next poll id, its row is appended, the counter advances and nothing else changes |
| Database.Store.InsertOption | app/Controllers/Http/PollsController.ts:118 | one option row with the next id and no votes counted is appended; nothing else changes |
| Database.Store.InsertVote | app/Controllers/Http/PollsController.ts:208-213 | one vote row with the next id and the given poll, user, option and note is appended; nothing else changes |
| Database.Store.DeletePollAt | app/Controllers/Http/PollsController.ts:246 | exactly that poll row is removed; options, votes and counters are untouched |
| Database.Store.Rollback | app/Controllers/Http/PollsController.ts:91-124 | the store returns to the snapshot taken when the transaction began |
| PollQueries.OptionsOf | app/Controllers/Http/PollsController.ts:143 | the options listed are exactly those of the poll |
| PollQueries.BallotOf | app/Controllers/Http/PollsController.ts:149-154 | the vote rows listed are exactly those of that user for that poll |
| PollQueries.HasParticipatedIff | app/Controllers/Http/PollsController.ts:190-192 | a participation row is found exactly when some vote row names that poll and that user |
| PollQueries.FindBySlug | app/Controllers/Http/PollsController.ts:139-141 | the slug lookup finds a stored poll with that slug, and finds nothing exactly when no poll has it |
| PollQueries.SlugFindsItsPoll | app/Controllers/Http/PollsController.ts:139-141 | with unique slugs, a poll's slug finds that very poll |
| PollQueries.InsertById | app/Controllers/Http/PollsController.ts:53 | inserting into an id-descending list keeps it descending and adds exactly that row |
| PollQueries.SortByIdDesc | app/Controllers/Http/PollsController.ts:53 | the result is id-descending and a permutation of the input |
| PollQueries.Listing | app/Controllers/Http/PollsController.ts:52-54 | a listing page holds at most 10 of the given rows, ids descending |
| PollQueries.ListedOnSomePage | app/Controllers/Http/PollsController.ts:52-54 | every row of a listing is on some page |
| PollQueries.NewestHeadsFirstPage | app/Controllers/Http/PollsController.ts:53-54 | the row with the largest id heads page 1 |
| PollsController.Index | app/Controllers/Http/PollsController.ts:18-69 | at most 10 polls, ids descending; signed out with `participated` gives none; `participated` lists only the user's polls; otherwise only active polls |
| PollsController.IndexNonNumericPage | app/Controllers/Http/PollsController.ts:33-34 | a missing or non-numeric page is read as page 1 |
| PollsController.IndexListsEveryActivePoll | app/Controllers/Http/PollsController.ts:43-54 | every active poll is on some page of the default listing |
| PollsController.IndexListsEveryOwnedPoll | app/Controllers/Http/PollsController.ts:43-54 | every poll of the signed-in user is on some page of the `participated` listing |
| PollsController.Show | app/Controllers/Http/PollsController.ts:134-162 | not found exactly when no poll has the slug; otherwise the poll with that slug, exactly its options, and for a signed-in caller exactly the caller's votes for it |
| PollsController.ClosedPollHiddenButShown | app/Controllers/Http/PollsController.ts:46 | an expired poll is absent from the default listing but still shown by its slug |
| PollsController.Drafts | app/Controllers/Http/PollsController.ts:111-117 | one draft per submitted title, every one pointing at the new poll |
| PollsController.NewOptionRows | app/Controllers/Http/PollsController.ts:111-118 | one option row per draft |
| PollsController.NewOptionRowsAt | app/Controllers/Http/PollsController.ts:111-118 | the k-th new option row has the k-th consecutive id, the k-th draft's poll and title, and no votes |
| PollsController.NewOptionRowsSnoc | app/Controllers/Http/PollsController.ts:112-117 | one more draft adds exactly one more option row at the end |
| PollsController.CreatePollSpec | app/Controllers/Http/PollsController.ts:91-124 | the transactional creation: a failed creation returns the tables unchanged, and votes never change |
| PollsController.CreatePollAsWritten | app/Controllers/Http/PollsController.ts:91-118 | creation as written: it fails exactly when an insert throws; a failed poll insert changes nothing, but any later failure still leaves one more poll row; votes never change |
| PollsController.AsWrittenMatchesTransactionWithoutFault | app/Controllers/Http/PollsController.ts:91-124 | when no insert throws, the code as written and the transactional creation give the same tables and the same poll |
| PollsController.OrphanPollAsWritten | app/Controllers/Http/PollsController.ts:97-118 | when the first option insert throws, the code as written keeps a poll row owned by the actor with no options although the request fails, while the transaction leaves the tables unchanged |
| PollsController.CreateIsAllOrNothing | app/Controllers/Http/PollsController.ts:91-124 | creation fails exactly when an insert fails, and then every table and counter is as before |
| PollsController.CreateAddsPollAndOptions | app/Controllers/Http/PollsController.ts:102-118 | a successful creation appends one poll, owned by the actor and closing `days` days later, and one option per title in order pointing at it; votes are untouched |
| PollsController.CreateKeepsTablesValid | app/Controllers/Http/PollsController.ts:91-124 | creation with a free slug keeps the table invariants |
| PollsController.OptionsOfNewPoll | app/Controllers/Http/PollsController.ts:143 | a new poll's options are exactly the rows its creation inserted |
| PollsController.NoBallotForNewPoll | app/Controllers/Http/PollsController.ts:149-154 | nobody has a vote for a poll id not yet handed out |
| PollsController.CreatedPollIsShown | app/Controllers/Http/PollsController.ts:127 | the page the caller is redirected to shows the new poll with exactly its options and no ballot |
| PollsController.CreatedPollHeadsIndex | app/Controllers/Http/PollsController.ts:43-54 | a new poll with at least one day to run heads page 1 of the default listing |
| PollsController.CreateMany | app/Controllers/Http/PollsController.ts:118 | the drafts are inserted in order until the failing one; it answers whether all went in and states the new store |
| PollsController.StorePoll | app/Controllers/Http/PollsController.ts:81-128 | the store after the action and the created poll are those given by the creation specification |
| PollsController.NewVoteRows | app/Controllers/Http/PollsController.ts:206-214 | one vote row per selection |
| PollsController.NewVoteRowsAt | app/Controllers/Http/PollsController.ts:206-214 | the k-th new vote row has the k-th consecutive id, the poll, the user, and the k-th selection's option id and note |
| PollsController.NewVoteRowsCastBy | app/Controllers/Http/PollsController.ts:208-213 | every new vote row belongs to the caller and the requested poll |
| PollsController.NewVoteRowsSnoc | app/Controllers/Http/PollsController.ts:206-214 | one more selection adds exactly one more vote row at the end |
| PollsController.VoteOutcome | app/Controllers/Http/PollsController.ts:167-226 | the answer is 200 or 400; a 200 carries "Success" and one row per selection; never more rows than selections |
| PollsController.AfterVote | app/Controllers/Http/PollsController.ts:206-214 | the new vote rows follow the existing ones unchanged; polls, options and their counters stay as they were |
| PollsController.WrittenCount | app/Controllers/Http/PollsController.ts:206-214 | at most one row per selection, and fewer exactly when an insert within the selection throws |
| PollsController.VoteOnMissingPoll | app/Controllers/Http/PollsController.ts:176 | an unknown poll id answers 400 with the not-found message and writes nothing |
| PollsController.VoteOnClosedPoll | app/Controllers/Http/PollsController.ts:183-188 | an expired poll answers 400 "closed" and writes nothing, whatever the ballot |
| PollsController.VoteWhenAlreadyParticipated | app/Controllers/Http/PollsController.ts:190-204 | a user with a row for an open poll is refused and nothing is written |
| PollsController.VoteSucceedsIff | app/Controllers/Http/PollsController.ts:167-226 | 200 exactly when the poll exists, is open, the user has no row, a selection was sent and no insert fails; then one row per selection in order |
| PollsController.VotePartialWrite | app/Controllers/Http/PollsController.ts:206-225 | an insert failing at position k answers 400 with its message and leaves the k earlier rows |
| PollsController.SecondVoteRejected | app/Controllers/Http/PollsController.ts:183-204 | after a submission left a row, the user's next submission for that poll is refused and writes nothing |
| PollsController.EmptySelectionKeepsUserFree | app/Controllers/Http/PollsController.ts:206-219 | an empty selection answers 200 and writes nothing |
| PollsController.BallotsAreNeverExtended | app/Controllers/Http/PollsController.ts:190-214 | every row written is the caller's for the requested poll, and no row is added to an existing ballot |
| PollsController.InsertBallot | app/Controllers/Http/PollsController.ts:206-225 | one row per selection until the failing insert, whose message becomes the 400; otherwise 200 |
| PollsController.SubmitVote | app/Controllers/Http/PollsController.ts:167-226 | the response and the new store are those the vote specification gives for the old store |
| PollsController.DeletesPoll | app/Controllers/Http/PollsController.ts:232-241 | a delete happens only when a poll with that id belongs to the actor, and never for an unknown id |
| PollsController.AfterDestroy | app/Controllers/Http/PollsController.ts:231-249 | the polls after the delete are all polls from before |
| PollsController.DestroyMissingIsNoOp | app/Controllers/Http/PollsController.ts:232-241 | deleting an unknown id deletes nothing and changes nothing |
| PollsController.DestroyByNonOwnerIsNoOp | app/Controllers/Http/PollsController.ts:238-241 | deleting someone else's poll deletes nothing and changes nothing |
| PollsController.DestroyRemovesOnlyThatPoll | app/Controllers/Http/PollsController.ts:246 | the owner's delete removes exactly that poll and keeps every other one |
| PollsController.DestroyedPollNotShown | app/Controllers/Http/PollsController.ts:246 | after the owner's delete the poll's slug finds nothing |
| PollsController.PollRowsAreNeverRewritten | app/Models/Poll.ts:63-66 | a created poll carries the colour drawn by the hook, and creation, voting and deletion never rewrite a stored poll row, so the colour is never recomputed |
| PollsController.Destroy | app/Controllers/Http/PollsController.ts:231-249 | reports whether a poll was deleted exactly when it exists and is the actor's, and the polls table becomes the destroy specification's |
| ProfileController.Index | app/Controllers/Http/ProfileController.ts:13-40 | at most 10 polls, ids descending, all of them the user's own |
| ProfileController.IndexNonNumericPage | app/Controllers/Http/ProfileController.ts:18-19 | a missing or non-numeric page is read as page 1 |
| ProfileController.IndexListsExactlyOwnPolls | app/Controllers/Http/ProfileController.ts:24-28 | each of the user's polls is on some page and no other user's poll is on any page |
| ProfileController.ParticipatedIsOwnedListing | app/Controllers/Http/ProfileController.ts:24-28 | the home page's `participated` listing is the same page as the dashboard |

## Left out

- Request parsing, view rendering, session flash messages, redirects and
  the pagination links are left out. Each action returns the data it hands
  to the view or the `{code, message}` object.
- `PollsController.create` only renders a form and is not modelled.
- `ProfileController.updateAvatar` is not modelled. It stores an uploaded
  file and sets one column.
- `LoginController` and `start/routes.ts` are not part of this model. The
  `auth` middleware is reflected only in the type of `actor`.
- Input validation (`CreatePollValidator`) is not part of this model. The
  title, day count and option titles reach `StorePoll` as parameters.
- Slug generation (`dbIncrement` strategy) is not modelled. The slug is a
  parameter that `StorePoll` requires to be free.
- `ColorPalette.getRandom` is not modelled. The colour it draws is a
  parameter of the hooks and of `StorePoll`.
- The clock (`DateTime.local()`) is the parameter `now`, in integer
  seconds.
- Daylight saving and calendar effects are not modelled: `plus({days})` is
  taken as `days * 86400` seconds.
- JavaScript `Number()` parsing of `page` is not modelled. A page number
  arrives as `Option<int>`, with `None` standing for NaN.
- A page number below 1 is read as page 1. The paginator's own
  behaviour for such pages is not part of this model.
- `show` also loads the poll's author (`userCreate`, line 156). That is
  left out because the store holds no users table.
- Columns the core never reads or writes are not modelled: `description`,
  `status`, `type`, `votesCount` of polls, and all timestamps.
- `VoteRow.note` is modelled because the code writes it. The vote
  migration has no such column.
- `Rollback` restores the id counters as well. Real auto-increment
  sequences may skip the ids used inside a rolled-back transaction; that
  gap is not modelled.
- The `poll.id || 0` fallback in `store` never takes effect in the model,
  because inserted polls always have an id of at least 1.
- Messages of thrown errors are constants that stand for the runtime's
  text: `RowNotFound` for the ORM's missing-row error, `SelectionMissing`
  for the JavaScript TypeError. An injected `Fault` carries its own message.
- `submitVote` takes the poll id as an integer. A non-numeric id in the
  request body is not modelled.
- Concurrent requests are not modelled. In particular, two simultaneous
  first votes by the same user can both pass the participation check.
- `UserModel.ToUpper`, `UserModel.Initials`: upper-casing handles ASCII
  letters only. JavaScript `toUpperCase` also maps non-ASCII letters and
  can lengthen a string: 'ß' becomes "SS", so "ßa" gives the initials
  "SSA". `charAt` and `slice` also count UTF-16 code units, while Dafny
  strings count characters. So "at most two characters" holds for the
  model, not for every runtime string.
- `PollsController.CreatePollAsWritten`: it keeps the options inserted
  before the failing one. Whether `createMany` wraps its own inserts in a
  transaction is ORM behaviour that is not part of this model. When the
  first option fails (`OrphanPollAsWritten`), both readings give the same
  result.
- `PollsController.AfterDestroy`: its own contract states only that no
  poll is added. What it removes is stated in `DestroyRemovesOnlyThatPoll`,
  `DestroyMissingIsNoOp` and `DestroyByNonOwnerIsNoOp`.

## Findings

| source | as written | input that shows it | evidently intended | confidence | as-written member | corrected member |
|---|---|---|---|---|---|---|
| app/Controllers/Http/PollsController.ts:91-118 | `Poll.create` and `PollOption.createMany` run outside the transaction; only `auth.user` joins it | a request with at least one option whose first option insert throws | the poll and its options are stored together or not at all, as the comment at lines 88-90 says | not executed; depends on the ORM running static `create` calls outside an instance's transaction | PollsController.OrphanPollAsWritten | PollsController.CreateIsAllOrNothing |
