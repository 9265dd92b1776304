/** The records the library application persists (books, borrow requests,
    checkouts, audit-log entries), the caller's session, and the shape of an
    HTTP reply from a route handler. */
module Model {

  datatype Option<+T> = None | Some(value: T)

  /** Database identifiers (generated by the database on create). */
  type Id = string

  /** Milliseconds since the epoch, as JavaScript's `Date#getTime` gives them. */
  type Instant = int

  /** The `Role` enum of the schema: MEMBER, LIBRARIAN, ADMIN. */
  datatype Role = Member | Librarian | Admin

  /** The `BookStatus` enum: AVAILABLE, REQUESTED, CHECKED_OUT. */
  datatype BookStatus = Available | Requested | CheckedOut

  /** The `RequestStatus` enum: PENDING, APPROVED, DENIED. */
  datatype RequestStatus = Pending | Approved | Denied

  datatype User = User(id: Id, role: Role)

  /** What the session lookup returns; `user` is absent for a session without
      a signed-in user. */
  datatype Session = Session(user: Option<User>)

  datatype Book = Book(
    id: Id,
    title: string,
    author: string,
    genre: Option<string>,
    tags: seq<string>,
    description: Option<string>,
    isbn: Option<string>,
    coverUrl: Option<string>,
    difficulty: Option<string>,
    status: BookStatus,
    createdAt: Instant)

  datatype BorrowRequest = BorrowRequest(
    id: Id,
    userId: Id,
    bookId: Id,
    status: RequestStatus,
    requestedAt: Instant)

  /** A loan; `returnedAt == None` means the book has not come back. */
  datatype Checkout = Checkout(
    id: Id,
    userId: Id,
    bookId: Id,
    checkedOutAt: Instant,
    dueDate: Instant,
    returnedAt: Option<Instant>)

  datatype AuditEntry = AuditEntry(
    userId: Id,
    bookId: Option<Id>,
    action: string,
    details: string,
    createdAt: Instant)

  /** The contents of the four tables at one moment. */
  datatype Tables = Tables(
    books: seq<Book>,
    requests: seq<BorrowRequest>,
    checkouts: seq<Checkout>,
    audit: seq<AuditEntry>)

  /** Status a new book gets from the schema's column default. */
  const DefaultBookStatus: BookStatus := Available

  /** Status a new borrow request gets from the schema's column default. */
  const DefaultRequestStatus: RequestStatus := Pending

  /** The error replies of `rbac.ts`: `unauthorized()`, `forbidden()` and
      `badRequest(message)`. */
  datatype ApiError = Unauthorized | Forbidden | BadRequest(message: string)

  /** The HTTP status of each error reply; each kind has its own code. */
  function StatusCode(e: ApiError): (code: int)
    ensures code == 401 <==> e.Unauthorized?
    ensures code == 403 <==> e.Forbidden?
    ensures code == 400 <==> e.BadRequest?
  {
    match e
    case Unauthorized => 401
    case Forbidden => 403
    case BadRequest(_) => 400
  }

  /** A handler's reply: a JSON value or an error reply. */
  datatype Result<+T> = Ok(value: T) | Err(error: ApiError)

  /** No two books share an id (the primary key). */
  ghost predicate UniqueBookIds(books: seq<Book>)
  {
    forall i, j :: 0 <= i < j < |books| ==> books[i].id != books[j].id
  }

  /** `findUnique({ where: { id } })` on the books table. */
  function FindBook(books: seq<Book>, id: Id): (r: Option<Book>)
    ensures r.Some? ==> r.value in books && r.value.id == id
    ensures r.None? <==> forall b :: b in books ==> b.id != id
  {
    if books == [] then None
    else if books[0].id == id then Some(books[0])
    else FindBook(books[1..], id)
  }

  /** `update({ where: { id }, data: { status } })` on the books table. */
  function WithStatus(books: seq<Book>, id: Id, status: BookStatus): (r: seq<Book>)
    ensures |r| == |books|
    ensures forall i :: 0 <= i < |books| && books[i].id != id ==> r[i] == books[i]
    ensures forall i :: 0 <= i < |books| && books[i].id == id ==> r[i] == books[i].(status := status)
  {
    if books == [] then []
    else [if books[0].id == id then books[0].(status := status) else books[0]]
         + WithStatus(books[1..], id, status)
  }

  /** Updating a status keeps every id, so the primary key stays unique, and
      the updated book is found afterwards with the new status and nothing
      else about it changed. */
  lemma WithStatusFound(books: seq<Book>, id: Id, status: BookStatus)
    requires UniqueBookIds(books)
    ensures UniqueBookIds(WithStatus(books, id, status))
    ensures FindBook(books, id).Some? ==>
              FindBook(WithStatus(books, id, status), id) == Some(FindBook(books, id).value.(status := status))
    ensures FindBook(books, id).None? ==> WithStatus(books, id, status) == books
  {
    var r := WithStatus(books, id, status);
    match FindBook(books, id)
    case None =>
      assert forall i :: 0 <= i < |books| ==> books[i] in books;
    case Some(b) =>
      var k :| 0 <= k < |books| && books[k] == b;
      FindAt(r, k, id);
  }

  /** In a table with unique ids, the book at index `k` is the one found by its id. */
  lemma {:induction false} FindAt(books: seq<Book>, k: nat, id: Id)
    requires UniqueBookIds(books) && k < |books| && books[k].id == id
    ensures FindBook(books, id) == Some(books[k])
  {
    if k > 0 {
      FindAt(books[1..], k - 1, id);
    }
  }
}
