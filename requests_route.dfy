/** `/api/requests` (src/app/api/requests/route.ts): listing borrow requests
    (GET) and submitting one (POST). */
module RequestsRoute {
  import opened Model
  import opened Db
  import Rbac
  import Seqs

  // ---------------------------------------------------------------- GET

  /** The `where` object of a GET: a member is pinned to their own id; a
      non-empty `status` parameter selects one status. */
  datatype RequestWhere = RequestWhere(userId: Option<Id>, status: Option<RequestStatus>)

  /** A member is pinned to their own id, staff see every user's requests;
      the status filter is the parameter as given. */
  function BuildWhere(user: User, status: Option<RequestStatus>): (w: RequestWhere)
    ensures w.userId.Some? <==> user.role == Member
    ensures w.userId.Some? ==> w.userId.value == user.id
    ensures w.status == status
  {
    RequestWhere(if user.role == Member then Some(user.id) else None, status)
  }

  predicate Satisfies(r: BorrowRequest, w: RequestWhere)
  {
    (w.userId.None? || r.userId == w.userId.value) && (w.status.None? || r.status == w.status.value)
  }

  function Matcher(w: RequestWhere): BorrowRequest -> bool
  {
    r => Satisfies(r, w)
  }

  /** The key that orders by `requestedAt` descending. */
  function NewestFirst(r: BorrowRequest): int
  {
    -r.requestedAt
  }

  /** What a signed-in user sees: a member only their own requests, staff
      everyone's; with a status given, only that status; every such request,
      newest first. */
  function Visible(requests: seq<BorrowRequest>, user: User, status: Option<RequestStatus>): (r: seq<BorrowRequest>)
    ensures forall x :: x in r ==> x in requests
    ensures user.role == Member ==> forall x :: x in r ==> x.userId == user.id
    ensures status.Some? ==> forall x :: x in r ==> x.status == status.value
    ensures forall x :: x in requests && (user.role == Member ==> x.userId == user.id) &&
                        (status.Some? ==> x.status == status.value) ==>
                          multiset(r)[x] == multiset(requests)[x]
    ensures forall i, j :: 0 <= i < j < |r| ==> r[i].requestedAt >= r[j].requestedAt
  {
    var matches := Seqs.Filter(requests, Matcher(BuildWhere(user, status)));
    var ordered := Seqs.SortBy(matches, NewestFirst);
    assert forall x :: x in ordered ==> x in matches by {
      forall x | x in ordered ensures x in matches {
        assert x in multiset(ordered);
      }
    }
    NewestFirstOrder(ordered);
    ordered
  }

  lemma NewestFirstOrder(s: seq<BorrowRequest>)
    requires Seqs.SortedBy(s, NewestFirst)
    ensures forall i, j :: 0 <= i < j < |s| ==> s[i].requestedAt >= s[j].requestedAt
  {
    forall i, j | 0 <= i < j < |s| ensures s[i].requestedAt >= s[j].requestedAt {
      assert NewestFirst(s[i]) <= NewestFirst(s[j]);
    }
  }

  /** GET: 401 without a signed-in user, otherwise the `Visible` requests. */
  function List(requests: seq<BorrowRequest>, session: Option<Session>, status: Option<RequestStatus>)
    : (r: Result<seq<BorrowRequest>>)
    ensures r.Err? <==> Rbac.CurrentUser(session).None?
    ensures r.Err? ==> r.error == Unauthorized
    ensures r.Ok? && Rbac.CurrentUser(session).value.role == Member ==>
              forall x :: x in r.value ==> x.userId == Rbac.CurrentUser(session).value.id
    ensures r.Ok? && status.Some? ==> forall x :: x in r.value ==> x.status == status.value
    ensures r.Ok? ==> r.value == Visible(requests, Rbac.CurrentUser(session).value, status)
    ensures r.Ok? ==> forall i, j :: 0 <= i < j < |r.value| ==> r.value[i].requestedAt >= r.value[j].requestedAt
  {
    match Rbac.CurrentUser(session)
    case None => Err(Unauthorized)
    case Some(user) => Ok(Visible(requests, user, status))
  }

  /** Staff with no status filter see every request. */
  lemma StaffSeeAll(requests: seq<BorrowRequest>, user: User)
    requires user.role != Member
    ensures multiset(Visible(requests, user, None)) == multiset(requests)
  {
    var r := Visible(requests, user, None);
    forall x ensures multiset(r)[x] == multiset(requests)[x] {
      if x !in requests {
        assert x !in r;
      }
    }
  }

  // ---------------------------------------------------------------- POST

  /** The checks of a submission, in the order the handler makes them. */
  datatype Rejection =
    | BookIdRequired
    | BookNotFound
    | BookNotAvailable
    | AlreadyPending
    | AlreadyCheckedOut

  /** The `badRequest` message of each rejection (all are 400 replies;
      a missing book is 400, not 404). */
  function Message(e: Rejection): string
  {
    match e
    case BookIdRequired => "bookId is required"
    case BookNotFound => "Book not found"
    case BookNotAvailable => "Book is not available for borrowing"
    case AlreadyPending => "You already have a pending request for this book"
    case AlreadyCheckedOut => "You already have this book checked out"
  }

  /** `!bookId`: absent, null or empty. */
  predicate Missing(bookId: Option<Id>)
  {
    bookId.None? || bookId.value == ""
  }

  /** `findFirst({ where: { userId, bookId, status: "PENDING" } })`. */
  function FindPending(requests: seq<BorrowRequest>, userId: Id, bookId: Id): (r: Option<BorrowRequest>)
    ensures r.Some? ==> r.value in requests && r.value.userId == userId && r.value.bookId == bookId
    ensures r.Some? ==> r.value.status == Pending
  {
    if requests == [] then None
    else if requests[0].userId == userId && requests[0].bookId == bookId && requests[0].status == Pending
    then Some(requests[0])
    else FindPending(requests[1..], userId, bookId)
  }

  /** `findFirst({ where: { userId, bookId, returnedAt: null } })`. */
  function FindOpenCheckout(checkouts: seq<Checkout>, userId: Id, bookId: Id): (c: Option<Checkout>)
    ensures c.Some? ==> c.value in checkouts && c.value.userId == userId && c.value.bookId == bookId
    ensures c.Some? ==> c.value.returnedAt.None?
  {
    if checkouts == [] then None
    else if checkouts[0].userId == userId && checkouts[0].bookId == bookId && checkouts[0].returnedAt.None?
    then Some(checkouts[0])
    else FindOpenCheckout(checkouts[1..], userId, bookId)
  }

  /** The user already has a PENDING request for the book. */
  predicate HasPendingRequest(requests: seq<BorrowRequest>, userId: Id, bookId: Id)
  {
    FindPending(requests, userId, bookId).Some?
  }

  /** The user still has the book out (a checkout with no `returnedAt`). */
  predicate HasOpenCheckout(checkouts: seq<Checkout>, userId: Id, bookId: Id)
  {
    FindOpenCheckout(checkouts, userId, bookId).Some?
  }

  /** The first-row lookup finds a pending request exactly when one exists. */
  lemma {:induction false} PendingLookupMeansExistence(requests: seq<BorrowRequest>, userId: Id, bookId: Id)
    ensures HasPendingRequest(requests, userId, bookId) <==>
              exists r :: r in requests && r.userId == userId && r.bookId == bookId && r.status == Pending
  {
    if requests != [] {
      PendingLookupMeansExistence(requests[1..], userId, bookId);
      assert forall r :: r in requests <==> r == requests[0] || r in requests[1..];
    }
  }

  /** The first-row lookup finds an open checkout exactly when one exists. */
  lemma {:induction false} OpenLookupMeansExistence(checkouts: seq<Checkout>, userId: Id, bookId: Id)
    ensures HasOpenCheckout(checkouts, userId, bookId) <==>
              exists c :: c in checkouts && c.userId == userId && c.bookId == bookId && c.returnedAt.None?
  {
    if checkouts != [] {
      OpenLookupMeansExistence(checkouts[1..], userId, bookId);
      assert forall c :: c in checkouts <==> c == checkouts[0] || c in checkouts[1..];
    }
  }

  /** The first check of a submission that fails, or `None` when all pass. */
  function FirstFailure(t: Tables, userId: Id, bookId: Option<Id>): Option<Rejection>
  {
    if Missing(bookId) then Some(BookIdRequired)
    else match FindBook(t.books, bookId.value)
      case None => Some(BookNotFound)
      case Some(b) =>
        if b.status != Available then Some(BookNotAvailable)
        else if HasPendingRequest(t.requests, userId, bookId.value) then Some(AlreadyPending)
        else if HasOpenCheckout(t.checkouts, userId, bookId.value) then Some(AlreadyCheckedOut)
        else None
  }

  /** A submission is accepted exactly when the id is given, the book exists
      and is available, and the user holds neither a pending request nor an
      open checkout for it. */
  lemma AcceptedIff(t: Tables, userId: Id, bookId: Option<Id>)
    ensures FirstFailure(t, userId, bookId).None? <==>
              && !Missing(bookId)
              && FindBook(t.books, bookId.value).Some?
              && FindBook(t.books, bookId.value).value.status == Available
              && !HasPendingRequest(t.requests, userId, bookId.value)
              && !HasOpenCheckout(t.checkouts, userId, bookId.value)
  {
  }

  /** Each failing check decides the error whatever the later checks would
      say: the order is id, existence, availability, pending request, open
      checkout. */
  lemma FailureOrder(t: Tables, userId: Id, bookId: Option<Id>)
    ensures Missing(bookId) ==> FirstFailure(t, userId, bookId) == Some(BookIdRequired)
    ensures !Missing(bookId) && FindBook(t.books, bookId.value).None? ==>
              FirstFailure(t, userId, bookId) == Some(BookNotFound)
    ensures !Missing(bookId) && FindBook(t.books, bookId.value).Some? &&
            FindBook(t.books, bookId.value).value.status != Available ==>
              FirstFailure(t, userId, bookId) == Some(BookNotAvailable)
    ensures !Missing(bookId) && FindBook(t.books, bookId.value).Some? &&
            FindBook(t.books, bookId.value).value.status == Available &&
            HasPendingRequest(t.requests, userId, bookId.value) ==>
              FirstFailure(t, userId, bookId) == Some(AlreadyPending)
    ensures !Missing(bookId) && FindBook(t.books, bookId.value).Some? &&
            FindBook(t.books, bookId.value).value.status == Available &&
            !HasPendingRequest(t.requests, userId, bookId.value) &&
            HasOpenCheckout(t.checkouts, userId, bookId.value) ==>
              FirstFailure(t, userId, bookId) == Some(AlreadyCheckedOut)
    ensures FirstFailure(t, userId, bookId) == Some(AlreadyPending) ==>
              FindBook(t.books, bookId.value).value.status == Available
    ensures FirstFailure(t, userId, bookId) == Some(AlreadyCheckedOut) ==>
              !HasPendingRequest(t.requests, userId, bookId.value)
  {
  }

  /** A requested or checked-out book is always refused. */
  lemma UnavailableRefused(t: Tables, userId: Id, id: Id)
    requires id != "" && FindBook(t.books, id).Some?
    requires FindBook(t.books, id).value.status == Requested || FindBook(t.books, id).value.status == CheckedOut
    ensures FirstFailure(t, userId, Some(id)) == Some(BookNotAvailable)
  {
  }

  /** The request row a successful submission creates; its status is the
      column default. */
  function NewRequest(id: Id, userId: Id, bookId: Id, now: Instant): (r: BorrowRequest)
    ensures r.status == Pending && r.userId == userId && r.bookId == bookId
  {
    BorrowRequest(id, userId, bookId, DefaultRequestStatus, now)
  }

  /** The audit entry a successful submission appends. */
  function RequestedEntry(userId: Id, book: Book, now: Instant): (e: AuditEntry)
    ensures e.action == "BORROW_REQUESTED" && e.userId == userId && e.bookId == Some(book.id)
  {
    AuditEntry(userId, Some(book.id), "BORROW_REQUESTED", "Requested to borrow: " + book.title, now)
  }

  /** The tables after a successful submission of `bookId` by `userId`. */
  function Submitted(t: Tables, userId: Id, bookId: Id, newId: Id, now: Instant): Tables
    requires FindBook(t.books, bookId).Some?
  {
    Tables(WithStatus(t.books, bookId, Requested),
           t.requests + [NewRequest(newId, userId, bookId, now)],
           t.checkouts,
           t.audit + [RequestedEntry(userId, FindBook(t.books, bookId).value, now)])
  }

  /** A successful submission adds exactly one request and one audit entry at
      the end, keeps every earlier row and every checkout, and changes only
      the status of the requested book, to REQUESTED. */
  lemma SubmittedEffects(t: Tables, userId: Id, bookId: Id, newId: Id, now: Instant)
    requires UniqueBookIds(t.books) && FindBook(t.books, bookId).Some?
    ensures var t' := Submitted(t, userId, bookId, newId, now);
      && |t'.requests| == |t.requests| + 1 && t'.requests[..|t.requests|] == t.requests
      && t'.requests[|t.requests|].userId == userId && t'.requests[|t.requests|].bookId == bookId
      && t'.requests[|t.requests|].status == Pending
      && |t'.audit| == |t.audit| + 1 && t'.audit[..|t.audit|] == t.audit
      && t'.audit[|t.audit|].action == "BORROW_REQUESTED"
      && t'.audit[|t.audit|].userId == userId && t'.audit[|t.audit|].bookId == Some(bookId)
      && t'.checkouts == t.checkouts
      && |t'.books| == |t.books|
      && (forall i :: 0 <= i < |t.books| && t.books[i].id != bookId ==> t'.books[i] == t.books[i])
      && FindBook(t'.books, bookId) == Some(FindBook(t.books, bookId).value.(status := Requested))
  {
    WithStatusFound(t.books, bookId, Requested);
    var t' := Submitted(t, userId, bookId, newId, now);
    assert t'.requests[..|t.requests|] == t.requests;
    assert t'.audit[..|t.audit|] == t.audit;
  }

  /** After a successful submission the book is REQUESTED, so every further
      submission for it, by any user, is refused as not available. */
  lemma ResubmitRefused(t: Tables, userId: Id, bookId: Id, newId: Id, now: Instant, other: Id)
    requires bookId != "" && UniqueBookIds(t.books) && FindBook(t.books, bookId).Some?
    ensures FirstFailure(Submitted(t, userId, bookId, newId, now), other, Some(bookId)) == Some(BookNotAvailable)
  {
    WithStatusFound(t.books, bookId, Requested);
    var t' := Submitted(t, userId, bookId, newId, now);
    assert FindBook(t'.books, bookId).value.status == Requested;
  }

  /** POST: 401 without a signed-in user; otherwise the checks in order, each
      a read, and on success the three writes (request row, book status, audit
      entry), taken here as one atomic step. `newId` is the id the database
      assigns to the new request. */
  method Post(db: Store, session: Option<Session>, bookId: Option<Id>, newId: Id, now: Instant)
    returns (r: Result<BorrowRequest>)
    requires db.Valid()
    modifies db`books, db`requests, db`audit
    ensures db.Valid()
    ensures Rbac.CurrentUser(session).None? ==> r == Err(Unauthorized)
    ensures Rbac.CurrentUser(session).Some? ==>
              var userId := Rbac.CurrentUser(session).value.id;
              match FirstFailure(old(db.Snapshot()), userId, bookId)
              case Some(e) => r == Err(BadRequest(Message(e)))
              case None =>
                && r == Ok(NewRequest(newId, userId, bookId.value, now))
                && db.Snapshot() == Submitted(old(db.Snapshot()), userId, bookId.value, newId, now)
    ensures r.Err? ==> db.Snapshot() == old(db.Snapshot())
  {
    var user := Rbac.CurrentUser(session);
    if user.None? {
      return Err(Unauthorized);
    }
    var userId := user.value.id;
    if Missing(bookId) {
      return Err(BadRequest(Message(BookIdRequired)));
    }
    var id := bookId.value;
    ghost var before := db.Snapshot();
    var book := FindBook(db.books, id);
    if book.None? {
      assert FirstFailure(before, userId, bookId) == Some(BookNotFound);
      return Err(BadRequest(Message(BookNotFound)));
    }
    if book.value.status != Available {
      assert FirstFailure(before, userId, bookId) == Some(BookNotAvailable);
      return Err(BadRequest(Message(BookNotAvailable)));
    }
    if HasPendingRequest(db.requests, userId, id) {
      assert FirstFailure(before, userId, bookId) == Some(AlreadyPending);
      return Err(BadRequest(Message(AlreadyPending)));
    }
    if HasOpenCheckout(db.checkouts, userId, id) {
      assert FirstFailure(before, userId, bookId) == Some(AlreadyCheckedOut);
      return Err(BadRequest(Message(AlreadyCheckedOut)));
    }
    assert FirstFailure(before, userId, bookId).None?;
    r := Submit(db, userId, id, newId, now);
  }

  /** The three writes of an accepted submission: the request row, the book's
      new status and the audit entry. */
  method Submit(db: Store, userId: Id, id: Id, newId: Id, now: Instant) returns (r: Result<BorrowRequest>)
    requires db.Valid() && FindBook(db.books, id).Some?
    modifies db`books, db`requests, db`audit
    ensures db.Valid()
    ensures r == Ok(NewRequest(newId, userId, id, now))
    ensures db.Snapshot() == Submitted(old(db.Snapshot()), userId, id, newId, now)
  {
    var book := FindBook(db.books, id).value;
    var request := NewRequest(newId, userId, id, now);
    var entry := RequestedEntry(userId, book, now);
    db.CreateRequest(request);
    db.UpdateBookStatus(id, Requested);
    db.AppendAudit(entry);
    r := Ok(request);
  }

  /** No user holds two PENDING requests for the same book. */
  ghost predicate NoDuplicatePending(requests: seq<BorrowRequest>)
  {
    forall i, j :: 0 <= i < j < |requests| && requests[i].status == Pending && requests[j].status == Pending ==>
      requests[i].userId != requests[j].userId || requests[i].bookId != requests[j].bookId
  }

  /** Every REQUESTED book has a PENDING request for it. */
  ghost predicate RequestedHasPending(t: Tables)
  {
    forall k :: 0 <= k < |t.books| && t.books[k].status == Requested ==>
      exists r :: r in t.requests && r.bookId == t.books[k].id && r.status == Pending
  }

  /** An accepted submission keeps both invariants: the pending-request check
      rules out a second PENDING request of the user for the book, and the
      book it marks REQUESTED gets the new PENDING request. */
  lemma SubmitPreserves(t: Tables, userId: Id, bookId: Option<Id>, newId: Id, now: Instant)
    requires UniqueBookIds(t.books)
    requires NoDuplicatePending(t.requests) && RequestedHasPending(t)
    requires FirstFailure(t, userId, bookId).None?
    ensures NoDuplicatePending(Submitted(t, userId, bookId.value, newId, now).requests)
    ensures RequestedHasPending(Submitted(t, userId, bookId.value, newId, now))
  {
    var id := bookId.value;
    var t' := Submitted(t, userId, id, newId, now);
    var n := NewRequest(newId, userId, id, now);
    assert t'.requests == t.requests + [n];
    PendingLookupMeansExistence(t.requests, userId, id);
    forall i, j | 0 <= i < j < |t'.requests| && t'.requests[i].status == Pending && t'.requests[j].status == Pending
      ensures t'.requests[i].userId != t'.requests[j].userId || t'.requests[i].bookId != t'.requests[j].bookId
    {
      if j == |t.requests| {
        assert t'.requests[i] == t.requests[i] && t.requests[i] in t.requests;
      } else {
        assert t'.requests[i] == t.requests[i] && t'.requests[j] == t.requests[j];
      }
    }
    forall k | 0 <= k < |t'.books| && t'.books[k].status == Requested
      ensures exists r :: r in t'.requests && r.bookId == t'.books[k].id && r.status == Pending
    {
      if t.books[k].id == id {
        assert n in t'.requests && n.bookId == t'.books[k].id;
      } else {
        assert t'.books[k] == t.books[k];
        var r :| r in t.requests && r.bookId == t.books[k].id && r.status == Pending;
        assert r in t'.requests;
      }
    }
  }

  /** Two submissions for the same book in a row: whoever sends the second,
      it is refused once the first has been accepted. */
  method SubmitTwice(db: Store, first: Option<Session>, second: Option<Session>, id: Id,
                     newId1: Id, newId2: Id, now: Instant)
    returns (r1: Result<BorrowRequest>, r2: Result<BorrowRequest>)
    requires db.Valid() && id != ""
    requires Rbac.CurrentUser(second).Some?
    modifies db`books, db`requests, db`audit
    ensures r1.Ok? ==> r2 == Err(BadRequest(Message(BookNotAvailable)))
  {
    ghost var t := db.Snapshot();
    r1 := Post(db, first, Some(id), newId1, now);
    if r1.Ok? {
      ResubmitRefused(t, Rbac.CurrentUser(first).value.id, id, newId1, now,
                      Rbac.CurrentUser(second).value.id);
    }
    r2 := Post(db, second, Some(id), newId2, now);
  }
}
