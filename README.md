# Book tracker: library route handlers in Dafny

A model of the server side of a small library application. In it, members ask
to borrow books and staff (librarians and admins) manage the catalogue and
loans. The model covers:

- **Borrow-request submission** (`POST /api/requests`). The five checks run in
  order, and the first one that fails decides the 400 message. An accepted
  submission then makes three writes: a new PENDING request row, the book's
  status set to REQUESTED, and a `BORROW_REQUESTED` audit entry. The database
  is a class `Db.Store` holding four tables, with one method per Prisma
  write. The handler `RequestsRoute.Post` is a method that takes the store as
  a parameter; its contract ties the new state to the old one.
- **Book creation** (`POST /api/books`). This covers the staff gate, the
  title/author check, turning empty optional fields into null, and the
  `BOOK_CREATED` audit entry.
- **The read-only handlers.** These are the book listing (search and filters,
  newest first, skip/take, page count), the request and checkout listings
  (members see only their own rows), and the staff overdue dashboard (the
  overdue list and its counters). Each is a pure function of the tables.
- **Role gating** (`requireAuth`, `requireRole`, `withAuth` and the inline
  staff gate).
- **The due-date helpers** `isOverdue` and `daysUntilDue`.
- **The add-book form**: the tag-field parse
  `split(",").map(trim).filter(Boolean)`, the body both buttons send, and the
  guard on the enrich button.

Modelling choices:

- A table is a `seq` of rows.
- Prisma's `findMany({ where, orderBy })` becomes a filter followed by an
  ordering on the column. The result holds every row that matches `where`,
  with its multiplicity, sorted by that column. Ties have no promised order.
- A database-assigned id (`newId`) and the current instant (`now`) are
  parameters.
- The session lookup becomes an `Option<Session>` parameter.
- An error reply is `Err(Unauthorized | Forbidden | BadRequest(message))`.
  `Model.StatusCode` gives its HTTP code (401/403/400).
- Strings are `seq<char>`.

## Model

| member | source | states |
|---|---|---|
| Model.StatusCode | src/lib/rbac.ts:26-36 | `unauthorized()` is 401, `forbidden()` is 403, `badRequest()` is 400, and no two kinds share a code |
| Model.FindBook | src/app/api/requests/route.ts:45-46 | `findUnique` on the book id: the book returned has that id and is in the table, and the result is absent exactly when no book has the id |
| Model.WithStatus | src/app/api/requests/route.ts:86-89 | `book.update({ where: { id }, data: { status } })`: same length, every book with another id unchanged, the book with the id gets the new status |
| Model.WithStatusFound | src/app/api/requests/route.ts:86-89 | the status update keeps ids unique, the updated book is found afterwards with only its status changed, and an unknown id changes nothing |
| Model.FindAt | src/app/api/requests/route.ts:45 | with unique ids, the lookup by a row's id returns that row |
| Db.Store.constructor | src/app/api/requests/route.ts:45-98 | a store holding the given tables, with unique book ids |
| Db.Store.CreateBook | src/app/api/books/route.ts:66-77 | `book.create` appends the new book, keeps book ids unique and leaves the other tables as they were |
| Db.Store.UpdateBookStatus | src/app/api/requests/route.ts:86-89 | `book.update` on an existing id: the books table becomes `WithStatus` of the old one, and the book found by the id has the new status; the other tables stay as they were |
| Db.Store.CreateRequest | src/app/api/requests/route.ts:75-83 | `borrowRequest.create` appends exactly the new row and changes no other table |
| Db.Store.AppendAudit | src/app/api/requests/route.ts:91-98 | `auditLog.create` appends exactly the new entry; earlier entries and the other tables stay as they were |
| Rbac.CurrentUser | src/lib/rbac.ts:12 | `session?.user`: the signed-in user, absent without a session or a user in it; `RequireAuth` and `StaffGate` state what the handlers do with it |
| Rbac.RequireAuth | src/lib/rbac.ts:10-16 | succeeds exactly when a user is signed in, and then returns that session; otherwise fails with Unauthorized |
| Rbac.RequireRole | src/lib/rbac.ts:18-24 | Unauthorized without a user, Forbidden for a role not listed, the session for a listed role |
| Rbac.WithAuth | src/lib/rbac.ts:41-53 | Unauthorized without a user; Forbidden when roles are listed and the user's is not one of them; otherwise the handler's reply on exactly the session obtained |
| Rbac.StaffGate | src/app/api/books/route.ts:55-57 | passes only a signed-in user whose role is ADMIN or LIBRARIAN, and returns that user |
| Rbac.RequireRoleAuthenticatesFirst | src/lib/rbac.ts:18-21 | without a user, `requireRole` throws "Unauthorized" and never "Forbidden", whatever the roles |
| Rbac.EmptyRoleListsDiffer | src/lib/rbac.ts:18-48 | with no roles listed, `withAuth` admits every signed-in user while `requireRole` admits nobody |
| Rbac.WithAuthAgreesWithRequireRole | src/lib/rbac.ts:18-51 | with a non-empty role list, `withAuth` runs the handler on the session exactly when `requireRole` succeeds, and fails with the same error otherwise |
| Rbac.StaffGateIsRequireRole | src/lib/rbac.ts:18-24 | the handlers' inline staff gate fails exactly when `requireRole("ADMIN", "LIBRARIAN")` does, with the same error, and passes the same user otherwise |
| Rbac.StaffRolesAre | src/app/api/dashboard/overdue/route.ts:9 | exactly the roles other than MEMBER are staff |
| DueDates.IsOverdue | src/lib/utils.ts:16-18 | `isOverdue`: the due instant lies strictly before now; `DueNow`, `SignAgreesWithOverdue` and `LateByLessThanADay` relate it to the day count |
| DueDates.CeilDiv | src/lib/utils.ts:22 | `Math.ceil` of the quotient: the least `q` with `q * d >= n` |
| DueDates.DaysUntilDue | src/lib/utils.ts:20-23 | the whole days left, rounded up: `(days - 1)` days fall short of the time left and `days` days cover it |
| DueDates.DueNow | src/lib/utils.ts:16-23 | on the due instant an item is not overdue and has 0 days left |
| DueDates.SignAgreesWithOverdue | src/lib/utils.ts:16-23 | not overdue gives a day count of at least 0; overdue gives one of at most 0 |
| DueDates.SignAgreesAcrossReadings | src/app/my-books/page.tsx:109-110 | with `isOverdue` and `daysUntilDue` each reading the clock, the second reading no earlier and less than a day later, not overdue still gives at least 0 days and overdue at most 0 |
| DueDates.LateByLessThanADay | src/lib/utils.ts:16-23 | an item less than a day late is overdue but shows 0 days |
| DueDates.OneDayLater | src/lib/utils.ts:20-23 | a due date one day later gives exactly one more day |
| DueDates.DaysMonotone | src/lib/utils.ts:20-23 | the day count never decreases as the due date moves later |
| TagParsing.Split | src/app/books/new/page.tsx:58 | `split(",")` gives at least one piece and no piece contains the separator |
| TagParsing.SplitAround | src/app/books/new/page.tsx:58 | splitting at a separator splits the text on each side independently |
| TagParsing.SplitWithoutSeparator | src/app/books/new/page.tsx:58 | text without the separator is a single piece |
| TagParsing.JoinSplit | src/app/books/new/page.tsx:58 | joining the pieces with the separator gives the input back |
| TagParsing.JoinAppend | src/app/books/new/page.tsx:58 | joining two lists is joining each and putting a separator between them |
| TagParsing.SplitJoin | src/app/books/new/page.tsx:58 | splitting the join of separator-free pieces gives those pieces back |
| TagParsing.TrimStart | src/app/books/new/page.tsx:59 | a suffix of the input that does not start with whitespace, where every dropped character is whitespace |
| TagParsing.TrimEnd | src/app/books/new/page.tsx:59 | a prefix of the input that does not end with whitespace, where every dropped character is whitespace |
| TagParsing.Trim | src/app/books/new/page.tsx:59 | `trim()`: has no whitespace at either end, contains only characters of the input, is empty exactly for all-whitespace input, and leaves trimmed input unchanged |
| TagParsing.TrimIsMiddle | src/app/books/new/page.tsx:59 | `trim()` is one contiguous run of the input, starting after its leading whitespace, with only whitespace before and after it |
| TagParsing.ParseTags | src/app/books/new/page.tsx:57-60 | every tag is non-empty, has no whitespace at either end and contains no comma |
| TagParsing.ParsePiece | src/app/books/new/page.tsx:57-60 | a field without a comma gives no tag when it is all whitespace and exactly its trimmed text otherwise |
| TagParsing.ParseTagsAround | src/app/books/new/page.tsx:57-60 | the tags before and after a comma are parsed independently and keep their order |
| TagParsing.BlankIffPiecesWhitespace | src/app/books/new/page.tsx:57-59 | the input is only whitespace and commas exactly when every comma-separated piece is whitespace |
| TagParsing.ParseTagsEmptyIffBlank | src/app/books/new/page.tsx:57-60 | the parse is `[]` exactly when the input holds only whitespace and commas, including the empty input |
| TagParsing.ParseJoinedTags | src/app/books/new/page.tsx:57-60 | a list of non-empty, trimmed, comma-free tags, joined by commas, parses back to itself |
| TagParsing.ParseOneTag | src/app/books/new/page.tsx:57-60 | one clean tag parses to itself |
| TagParsing.ParseTagsIdempotent | src/app/books/new/page.tsx:57-60 | re-parsing the comma-join of a parse gives the same tags |
| BooksRoute.BuildWhere | src/app/api/books/route.ts:18-38 | the `where` object: one optional constraint per non-empty parameter; `IfGiven` states the rule and `EmptyQueryMatchesAll` the empty query |
| BooksRoute.Satisfies | src/app/api/books/route.ts:20-38 | a book meets `where` when it meets every present constraint; `ConstraintsConjoin` and `QueryCaseInsensitive` state what that means |
| BooksRoute.Lower | src/app/api/books/route.ts:22-29 | the case-folded text has the same length, and each character is folded on its own |
| BooksRoute.IfGiven | src/app/api/books/route.ts:11-36 | an empty parameter adds no constraint; a non-empty one adds itself |
| BooksRoute.Skip | src/app/api/books/route.ts:44 | `(page - 1) * limit`, the books on the earlier pages; `PageOfIndex` states that each match falls in exactly the window of its page |
| BooksRoute.TotalPages | src/app/api/books/route.ts:50 | `Math.ceil(total / limit)`: the pages hold every match, one page fewer would not, and there are 0 pages only for 0 matches |
| BooksRoute.PageOfIndex | src/app/api/books/route.ts:44-50 | match `i` lies on page `i / limit + 1`, which is one of the `totalPages` pages, inside that page's skip/take window |
| BooksRoute.NewestFirstOrder | src/app/api/books/route.ts:43 | ordering by the negated key is `createdAt` descending |
| BooksRoute.Window | src/app/api/books/route.ts:44-45 | `skip`/`take` applied to an ordered result; `WindowFacts` states its size and contents |
| BooksRoute.WindowFacts | src/app/api/books/route.ts:44-45 | skip/take gives exactly `take` books, or as many as remain after `skip`, or none; book `k` of it is element `skip + k` of the ordered matches, so their order is kept |
| BooksRoute.Ordered | src/app/api/books/route.ts:40-43 | `findMany` with `where` and `createdAt` descending: sorted newest first, as many books as there are matches, each a stored book that satisfies `where` |
| BooksRoute.OrderedComplete | src/app/api/books/route.ts:40-43 | every book that satisfies `where` is among the ordered matches as often as it is stored |
| BooksRoute.PageOfFacts | src/app/api/books/route.ts:40-50 | page `page` of ordered matches `m`: book `k` is `m[(page - 1) * limit + k]`, the page is full or holds what remains, newest first; `total` is the length of `m` and `totalPages` holds every match with no page to spare |
| BooksRoute.Listing | src/app/api/books/route.ts:40-50 | the JSON of a signed-in GET; `ListingContents` and `ListingCounts` state what it holds |
| BooksRoute.ListingContents | src/app/api/books/route.ts:18-46 | the page's books are the newest-first matches from position `(page - 1) * limit` on, exactly `limit` of them or as many as remain; each is a stored book satisfying `where` |
| BooksRoute.ListingCounts | src/app/api/books/route.ts:40-50 | `total` is the `count` of the same `where`, `page` is the requested page and `totalPages` is `Math.ceil(total / limit)` |
| BooksRoute.List | src/app/api/books/route.ts:6-51 | 401 exactly when nobody is signed in; otherwise the `Listing`: book `k` is ordered match `(page - 1) * limit + k`, the page is full or holds what remains, newest first, `total` counts every match and `totalPages` is its ceiling page count |
| BooksRoute.EmptyQueryMatchesAll | src/app/api/books/route.ts:18-38 | with every parameter empty, every book matches |
| BooksRoute.ConstraintsConjoin | src/app/api/books/route.ts:28-38 | a matching book meets each given constraint on its own: the exact status, tag membership, and genre equal up to case |
| BooksRoute.LowerIdempotent | src/app/api/books/route.ts:22-29 | folding case twice is folding it once |
| BooksRoute.QueryCaseInsensitive | src/app/api/books/route.ts:20-30 | lower-casing the search and genre parameters does not change which books match |
| BooksRoute.OrNull | src/app/api/books/route.ts:70-75 | `field \|\| null` is null exactly for a missing or empty field and the field itself otherwise |
| BooksRoute.TagsOrEmpty | src/app/api/books/route.ts:71 | `tags \|\| []` is `[]` when tags are missing and the given list otherwise |
| BooksRoute.NewBook | src/app/api/books/route.ts:60-77 | the created book has the fresh id, the given title and author, the optional fields normalised to null, tags or `[]`, and the default status AVAILABLE |
| BooksRoute.StatusNotFromBody | src/app/api/books/route.ts:60-77 | a `status` in the body has no effect: the book is created AVAILABLE |
| BooksRoute.CreatedEntry | src/app/api/books/route.ts:80-87 | the audit entry is a `BOOK_CREATED` action by the caller that references the new book |
| BooksRoute.Post | src/app/api/books/route.ts:54-90 | 401, then 403 for a non-staff role, then 400 "Title and author are required", each writing nothing; otherwise exactly one book appended and exactly one `BOOK_CREATED` entry appended, and the request and checkout tables untouched |
| RequestsRoute.BuildWhere | src/app/api/requests/route.ts:13-22 | a member is pinned to their own id and staff to no user; the status filter is the parameter as given |
| RequestsRoute.Satisfies | src/app/api/requests/route.ts:13-25 | a request meets `where` when it is the pinned user's and has the given status, each where given; `Visible` and `StaffSeeAll` state the result |
| RequestsRoute.Visible | src/app/api/requests/route.ts:13-32 | only rows of the table; a member gets only their own; a status narrows to that status; every qualifying row is there as often as in the table; `requestedAt` descending |
| RequestsRoute.NewestFirstOrder | src/app/api/requests/route.ts:31 | ordering by the negated key is `requestedAt` descending |
| RequestsRoute.List | src/app/api/requests/route.ts:6-35 | 401 exactly when nobody is signed in; otherwise exactly `Visible` for the caller and the status: a member only their own requests, only the given status, `requestedAt` descending |
| RequestsRoute.StaffSeeAll | src/app/api/requests/route.ts:15-18 | staff with no status parameter get every request, each as often as stored |
| RequestsRoute.FindPending | src/app/api/requests/route.ts:52-58 | a row found is in the table, belongs to the user and book, and is PENDING |
| RequestsRoute.FindOpenCheckout | src/app/api/requests/route.ts:64-70 | a row found is in the table, belongs to the user and book, and has no `returnedAt` |
| RequestsRoute.PendingLookupMeansExistence | src/app/api/requests/route.ts:52-61 | the lookup finds a row exactly when a pending request of that user for that book exists |
| RequestsRoute.OpenLookupMeansExistence | src/app/api/requests/route.ts:64-73 | the lookup finds a row exactly when an unreturned checkout of that user for that book exists |
| RequestsRoute.FirstFailure | src/app/api/requests/route.ts:42-73 | the error of the first failing check, or none; `AcceptedIff` and `FailureOrder` state when each arises |
| RequestsRoute.AcceptedIff | src/app/api/requests/route.ts:42-73 | a submission passes every check exactly when the id is given, the book exists and is AVAILABLE, and the user has neither a pending request nor an open checkout for it |
| RequestsRoute.FailureOrder | src/app/api/requests/route.ts:42-73 | the checks run in order and the first failure decides the error: missing id, book not found, not AVAILABLE, then (for an AVAILABLE book) a pending request gives AlreadyPending, and otherwise an open checkout gives AlreadyCheckedOut |
| RequestsRoute.UnavailableRefused | src/app/api/requests/route.ts:47-49 | a REQUESTED or CHECKED_OUT book is always refused as not available |
| RequestsRoute.NewRequest | src/app/api/requests/route.ts:75-83 | the new request is the caller's, is for the book, and is PENDING by the column default |
| RequestsRoute.RequestedEntry | src/app/api/requests/route.ts:91-98 | the audit entry is a `BORROW_REQUESTED` action by the caller for the book |
| RequestsRoute.Submitted | src/app/api/requests/route.ts:75-98 | the tables after the three writes of an accepted submission; `SubmittedEffects` states what changed |
| RequestsRoute.SubmittedEffects | src/app/api/requests/route.ts:75-98 | after success: exactly one request added at the end, for (user, book) and PENDING; exactly one `BORROW_REQUESTED` entry added at the end for (user, book); earlier rows kept; checkouts unchanged; only the requested book's status changed, to REQUESTED |
| RequestsRoute.SubmitPreserves | src/app/api/requests/route.ts:42-98 | an accepted submission keeps two invariants of the tables: no user holds two PENDING requests for one book, and every REQUESTED book has a PENDING request |
| RequestsRoute.ResubmitRefused | src/app/api/requests/route.ts:47-89 | after a successful submission every further one for the book, by any user, fails as not available |
| RequestsRoute.Post | src/app/api/requests/route.ts:38-101 | 401 without a user; otherwise the first failing check's 400 message with all four tables unchanged, or the new request and exactly the `Submitted` tables |
| RequestsRoute.Submit | src/app/api/requests/route.ts:75-98 | the three writes of an accepted submission turn the tables into `Submitted` of the old ones |
| RequestsRoute.SubmitTwice | src/app/api/requests/route.ts:47-89 | on the store: once a submission is accepted, the next one for the same book, by anyone signed in, returns "Book is not available for borrowing" |
| CheckoutsRoute.BuildWhere | src/app/api/checkouts/route.ts:11-25 | open-only exactly for `active=true`; a member is pinned to their own id; staff filter by a non-empty `userId` and by no user otherwise |
| CheckoutsRoute.Satisfies | src/app/api/checkouts/route.ts:14-25 | a checkout meets `where` when it is unreturned (with `active=true`) and the filtered user's (when one is set); `Query` and `ActiveMeansOpen` state the result |
| CheckoutsRoute.NewestFirstOrder | src/app/api/checkouts/route.ts:33 | ordering by the negated key is `checkedOutAt` descending |
| CheckoutsRoute.Query | src/app/api/checkouts/route.ts:27-34 | only rows of the table that satisfy `where`, every such row as often as stored, `checkedOutAt` descending |
| CheckoutsRoute.List | src/app/api/checkouts/route.ts:6-37 | 401 exactly when nobody is signed in, otherwise the query of the caller's `where` |
| CheckoutsRoute.MemberSeesOwn | src/app/api/checkouts/route.ts:20-22 | a member gets only their own checkouts, and the `userId` parameter makes no difference |
| CheckoutsRoute.ActiveMeansOpen | src/app/api/checkouts/route.ts:11-25 | with `active=true` only unreturned checkouts; staff with no other filter get every checkout |
| CheckoutsRoute.StaffFilterByUser | src/app/api/checkouts/route.ts:23-25 | staff passing `userId` get exactly that user's checkouts (open ones with `active=true`) |
| OverdueRoute.Overdue | src/app/api/dashboard/overdue/route.ts:13-23 | exactly the unreturned checkouts with `dueDate < now`, each as often as stored, `dueDate` ascending |
| OverdueRoute.EarliestDueFirst | src/app/api/dashboard/overdue/route.ts:22 | ordering by the key is `dueDate` ascending |
| OverdueRoute.Report | src/app/api/dashboard/overdue/route.ts:13-46 | `overdueCount` is the list's length and is at most `totalCheckedOut`, the number of open checkouts; `pendingRequests` counts every PENDING request; `availableBooks` is at most `totalBooks`, the size of the books table |
| OverdueRoute.Get | src/app/api/dashboard/overdue/route.ts:6-9 | 401 without a user, 403 for a non-staff role, otherwise the report; the tables are only read |
| OverdueRoute.NotListed | src/app/api/dashboard/overdue/route.ts:13-17 | a returned checkout, or one due now or later, is never listed |
| OverdueRoute.OverdueGrows | src/app/api/dashboard/overdue/route.ts:13-17 | as time passes the overdue list only grows |
| NewBookPage.Payload | src/app/books/new/page.tsx:55-61 | the body sent holds each text field as typed, the tags as parsed, and no status |
| NewBookPage.HandleSubmit | src/app/books/new/page.tsx:46-62 | once the browser submits the form, `handleSubmit` posts exactly the `Payload`: every text field as typed, the parsed tags and no status |
| NewBookPage.SaveClick | src/app/books/new/page.tsx:130-228 | "Save" is a submit button and the title and author inputs are `required`: nothing is sent when either is empty; otherwise exactly the post of `handleSubmit` |
| NewBookPage.HandleEnrich | src/app/books/new/page.tsx:72-93 | an empty title or author gives the error "Enter title and author first to use AI enrichment" and sends nothing; any other form sends exactly what "Save" sends |
| NewBookPage.SaveAndEnrichAgree | src/app/books/new/page.tsx:46-93 | both buttons send a request for exactly the same forms and then the same body; where "Save" is blocked, "Save & AI Enrich" shows its error |
| NewBookPage.PageShown | src/app/books/new/page.tsx:29-38 | the form is rendered only for ADMIN or LIBRARIAN; `PageShownIffStaff` relates it to the API's gate |
| NewBookPage.PageShownIffStaff | src/app/books/new/page.tsx:29-38 | the form is shown exactly to the users the API's staff gate admits |
| NewBookPage.EnrichGuardMatchesApi | src/app/books/new/page.tsx:73-76 | the enrich guard refuses exactly the forms that the API would reject for a missing title or author |
| NewBookPage.CreatedFromForm | src/app/books/new/page.tsx:55-61 | a posted form creates a book with the typed title and author, the parsed tags, null for each empty text field, and status AVAILABLE |
| NewBookPage.ResavedTagsStable | src/app/books/new/page.tsx:57-60 | putting the comma-joined parsed tags back in the field sends the same tags |

## Left out

- The approve, deny and return handlers (`src/app/api/requests/[id]/route.ts`, `src/app/api/checkouts/[id]/return/route.ts`) are not part of this model. So every change of a book to CHECKED_OUT or back to AVAILABLE, and every write of `returnedAt`, is absent.
- Concurrency: the three writes of a borrow submission are separate database calls with no transaction. `RequestsRoute.Post` takes them as one step with nothing in between, and no interleaving with other requests is modelled. Likewise the dashboard's five queries and the books listing's `findMany`/`count` pair are read from one snapshot of the tables. `OverdueRoute.Report`'s `overdueCount <= totalCheckedOut` and `BooksRoute.ListingCounts`'s `total` rely on that. Database errors are not modelled either: every write succeeds. In the source, a write that throws after `borrowRequest.create` (the book update or the audit entry) leaves the new request row in place and the handler answers 500; likewise a failed audit entry after `book.create` leaves the book.
- Identity: the session lookup (`getServerSession`, src/lib/auth.ts) is an `Option<Session>` parameter. Only a user's id and role are kept.
- I/O: the clock (`new Date()`) is the parameter `now`. Ids the database assigns are the parameter `newId`. For a book, `newId` must not already be in use.
- Schema defaults: the schema is not part of this model. The defaults PENDING for a new request and AVAILABLE for a new book are the constants `DefaultRequestStatus` and `DefaultBookStatus`. The timestamp columns the database fills in (`createdAt` of a book and of each audit entry, `requestedAt` of a request) are taken to be the instant `now` of the call.
- Other routes: `/api/audit`, `/api/users`, `/api/books/[id]`, `/api/users/[id]/role`, the enrich route and every page other than the add-book form are not modelled. The same goes for the React state, rendering and navigation of the add-book form, and the enrich request that follows a successful save.
- NewBookPage.SaveClick: assumes that the form's `Input` component (src/components/ui/input, not part of this model) passes `required` through to the native `<input>`, so that the browser refuses an empty title or author.
- Library helpers: `cn` and `formatDate` in src/lib/utils.ts.
- Seed data: prisma/seed.ts.
- DueDates.SignAgreesWithOverdue: uses one `now` for both helpers, whereas the my-books page calls `isOverdue` and `daysUntilDue` separately, each reading the clock (src/app/my-books/page.tsx:109-110). `DueDates.SignAgreesAcrossReadings` covers two readings that are in order and less than a day apart.
- DueDates.DaysUntilDue: the floating-point quotient is taken as exact, so `Math.ceil` is integer ceiling division on milliseconds. Dates are integer instants, not parsed strings.
- BooksRoute.ContainsInsensitive: case-insensitive matching folds only ASCII letters. The database's Unicode case folding is not modelled.
- BooksRoute.List: page and limit must be at least 1. `parseInt` of a non-number (NaN) and `limit=0` (an infinite page count) are not modelled.
- Query parameters naming a status outside the enum (which the database would reject) are not modelled: the `status` parameters are `Option` of the enum.
- A body that is not JSON makes `req.json()` throw, a 500 before any write (src/app/api/requests/route.ts:42, src/app/api/books/route.ts:59). This is not modelled: the body is a parsed value.
- JSON request bodies: fields of the wrong JSON type are not modelled. A string field is absent or a string, and `tags` is absent or a list of strings.
- Response projections: `include`/`select` (the joined user and book columns) are not modelled. The lists return the stored rows themselves.
- Ordering ties: rows with equal sort keys may come in any order, and the model promises no order between them.
