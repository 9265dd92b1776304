/** `/api/books` (src/app/api/books/route.ts): listing with search, filters
    and pagination (GET), and creating a book (POST). */
module BooksRoute {
  import opened Model
  import opened Db
  import Rbac
  import Seqs

  // ---------------------------------------------------------------- GET

  /** ASCII lower-casing, standing in for the database's case-insensitive mode. */
  function LowerChar(c: char): char
  {
    if 'A' <= c <= 'Z' then (c as int + 32) as char else c
  }

  function Lower(s: string): (r: string)
    ensures |r| == |s|
    ensures forall i :: 0 <= i < |s| ==> r[i] == LowerChar(s[i])
  {
    if s == [] then [] else [LowerChar(s[0])] + Lower(s[1..])
  }

  predicate IsPrefix(p: string, s: string)
  {
    |p| <= |s| && s[..|p|] == p
  }

  /** `needle` occurs in `hay` as a contiguous run. */
  predicate IsSubstring(needle: string, hay: string)
  {
    exists k :: 0 <= k <= |hay| && IsPrefix(needle, hay[k..])
  }

  /** `{ contains: needle, mode: "insensitive" }` */
  predicate ContainsInsensitive(hay: string, needle: string)
  {
    IsSubstring(Lower(needle), Lower(hay))
  }

  /** `{ equals: value, mode: "insensitive" }` */
  predicate EqualsInsensitive(a: string, b: string)
  {
    Lower(a) == Lower(b)
  }

  /** The query string of a GET, after `get(name) || default`. The status
      parameter is absent (`None`) when empty. */
  datatype BookQuery = BookQuery(
    search: string,
    genre: string,
    status: Option<BookStatus>,
    tag: string,
    page: int,
    limit: int)

  /** The `where` object the handler builds: one optional constraint per parameter. */
  datatype BookWhere = BookWhere(
    search: Option<string>,
    genre: Option<string>,
    status: Option<BookStatus>,
    tag: Option<string>)

  /** A truthy query parameter becomes a constraint; `""` imposes none. */
  function IfGiven(s: string): (r: Option<string>)
    ensures r.None? <==> s == ""
    ensures r.Some? ==> r.value == s
  {
    if s == "" then None else Some(s)
  }

  function BuildWhere(q: BookQuery): BookWhere
  {
    BookWhere(IfGiven(q.search), IfGiven(q.genre), q.status, IfGiven(q.tag))
  }

  /** Whether a book satisfies `where`: the conjunction of the present constraints. */
  predicate Satisfies(b: Book, w: BookWhere)
  {
    && (w.search.None? ||
        ContainsInsensitive(b.title, w.search.value) ||
        ContainsInsensitive(b.author, w.search.value) ||
        (b.isbn.Some? && ContainsInsensitive(b.isbn.value, w.search.value)))
    && (w.genre.None? || (b.genre.Some? && EqualsInsensitive(b.genre.value, w.genre.value)))
    && (w.status.None? || b.status == w.status.value)
    && (w.tag.None? || w.tag.value in b.tags)
  }

  /** `skip: (page - 1) * limit`: the books on the pages before `page`. */
  function Skip(page: int, limit: int): (n: nat)
    requires page >= 1 && limit >= 1
  {
    MulMonotone(0, page - 1, limit);
    (page - 1) * limit
  }

  /** `Math.ceil(total / limit)`: the fewest pages of `limit` books that hold `total` books. */
  function TotalPages(total: nat, limit: int): (n: nat)
    requires limit >= 1
    ensures n * limit >= total
    ensures total > 0 ==> (n - 1) * limit < total
    ensures n == 0 <==> total == 0
  {
    var n := (total + limit - 1) / limit;
    var m := (total + limit - 1) % limit;
    assert total + limit - 1 == n * limit + m;
    assert n * limit >= total;
    n
  }

  /** Book `i` (from 0) of the `total` matches lies on page `i / limit + 1`,
      which is one of the `TotalPages` pages. */
  lemma PageOfIndex(total: nat, limit: int, i: nat)
    requires limit >= 1 && i < total
    ensures 1 <= i / limit + 1 <= TotalPages(total, limit)
    ensures Skip(i / limit + 1, limit) <= i < Skip(i / limit + 1, limit) + limit
  {
    var p := i / limit;
    var n := TotalPages(total, limit);
    assert i == p * limit + i % limit;
    assert Skip(p + 1, limit) == p * limit;
    if p >= n {
      MulMonotone(n, p, limit);
    }
  }

  lemma MulMonotone(a: int, b: int, c: int)
    requires a <= b && c >= 1
    ensures a * c <= b * c
  {
    assert b * c - a * c == (b - a) * c;
  }

  /** The JSON of a GET: the requested page of books, the number of matches,
      the page number and the number of pages. */
  datatype BookPage = BookPage(books: seq<Book>, total: nat, page: int, totalPages: nat)

  /** The key that orders by `createdAt` descending. */
  function NewestFirst(b: Book): int
  {
    -b.createdAt
  }

  lemma NewestFirstOrder(s: seq<Book>)
    requires Seqs.SortedBy(s, NewestFirst)
    ensures forall i, j :: 0 <= i < j < |s| ==> s[i].createdAt >= s[j].createdAt
  {
    forall i, j | 0 <= i < j < |s| ensures s[i].createdAt >= s[j].createdAt {
      assert NewestFirst(s[i]) <= NewestFirst(s[j]);
    }
  }

  /** The `where` object of `q` as a test on one book. */
  function Matcher(q: BookQuery): Book -> bool
  {
    b => Satisfies(b, BuildWhere(q))
  }

  /** `skip`/`take` on an ordered result: at most `take` consecutive
      elements from position `skip`, fewer (or none) near the end. */
  function Window(s: seq<Book>, skip: int, take: int): (r: seq<Book>)
    requires skip >= 0 && take >= 0
  {
    var from := if skip < |s| then skip else |s|;
    var to := if from + take < |s| then from + take else |s|;
    s[from..to]
  }

  /** How many of `total` items a `skip`/`take` window holds: `take`, or as
      many as remain after `skip`, or none. */
  function PageSize(total: int, skip: int, take: int): int
  {
    if skip >= total then 0 else if skip + take <= total then take else total - skip
  }

  lemma WindowFacts(s: seq<Book>, skip: int, take: int)
    requires skip >= 0 && take >= 0
    requires Seqs.SortedBy(s, NewestFirst)
    ensures |Window(s, skip, take)| == PageSize(|s|, skip, take)
    ensures forall k :: 0 <= k < |Window(s, skip, take)| ==> Window(s, skip, take)[k] == s[skip + k]
    ensures forall b :: b in Window(s, skip, take) ==> b in s
    ensures forall i, j :: 0 <= i < j < |Window(s, skip, take)| ==>
              Window(s, skip, take)[i].createdAt >= Window(s, skip, take)[j].createdAt
  {
    var w := Window(s, skip, take);
    var from := if skip < |s| then skip else |s|;
    forall i, j | 0 <= i < j < |w| ensures w[i].createdAt >= w[j].createdAt {
      assert w[i] == s[from + i] && w[j] == s[from + j];
      assert NewestFirst(s[from + i]) <= NewestFirst(s[from + j]);
    }
  }

  /** The books matching `q`, newest first: every matching book as often as
      it is stored, and nothing else. */
  function Ordered(books: seq<Book>, q: BookQuery): (r: seq<Book>)
    ensures Seqs.SortedBy(r, NewestFirst)
    ensures |r| == |Seqs.Filter(books, Matcher(q))|
    ensures forall b :: b in r ==> b in books && Satisfies(b, BuildWhere(q))
  {
    var matches := Seqs.Filter(books, Matcher(q));
    var ordered := Seqs.SortBy(matches, NewestFirst);
    forall b | b in ordered ensures b in matches {
      assert b in multiset(ordered);
    }
    ordered
  }

  /** Page `page` of the ordered matches `m`, with the count of all
      matches and the page count. */
  function PageOf(m: seq<Book>, page: int, limit: int): BookPage
    requires page >= 1 && limit >= 1
  {
    BookPage(Window(m, Skip(page, limit), limit), |m|, page, TotalPages(|m|, limit))
  }

  /** A page holds the matches from position `Skip(page, limit)` on, as many
      as fit; its count and page count are those of all the matches. */
  lemma PageOfFacts(m: seq<Book>, page: int, limit: int)
    requires page >= 1 && limit >= 1
    requires Seqs.SortedBy(m, NewestFirst)
    ensures |PageOf(m, page, limit).books| == PageSize(|m|, Skip(page, limit), limit)
    ensures forall k :: 0 <= k < |PageOf(m, page, limit).books| ==>
              PageOf(m, page, limit).books[k] == m[Skip(page, limit) + k]
    ensures forall b :: b in PageOf(m, page, limit).books ==> b in m
    ensures forall i, j :: 0 <= i < j < |PageOf(m, page, limit).books| ==>
              PageOf(m, page, limit).books[i].createdAt >= PageOf(m, page, limit).books[j].createdAt
    ensures PageOf(m, page, limit).total == |m| && PageOf(m, page, limit).page == page
    ensures PageOf(m, page, limit).totalPages * limit >= |m|
    ensures |m| > 0 ==> (PageOf(m, page, limit).totalPages - 1) * limit < |m|
  {
    WindowFacts(m, Skip(page, limit), limit);
  }

  /** Every matching book is among the ordered matches as often as it is stored. */
  lemma OrderedComplete(books: seq<Book>, q: BookQuery)
    ensures forall b :: Satisfies(b, BuildWhere(q)) ==> multiset(Ordered(books, q))[b] == multiset(books)[b]
  {
    assert multiset(Ordered(books, q)) == multiset(Seqs.Filter(books, Matcher(q)));
  }

  /** The page of matches a signed-in caller gets: the books satisfying the
      `where` object, newest first, with `skip`/`take` applied. */
  function Listing(books: seq<Book>, q: BookQuery): (p: BookPage)
    requires q.page >= 1 && q.limit >= 1
  {
    PageOf(Ordered(books, q), q.page, q.limit)
  }

  /** What a signed-in caller's page holds: the matches at positions
      `Skip(page, limit)` onward of the newest-first matches, `limit` of them
      or as many as remain. */
  lemma ListingContents(books: seq<Book>, q: BookQuery)
    requires q.page >= 1 && q.limit >= 1
    ensures |Listing(books, q).books| == PageSize(|Seqs.Filter(books, Matcher(q))|, Skip(q.page, q.limit), q.limit)
    ensures forall k :: 0 <= k < |Listing(books, q).books| ==>
              Listing(books, q).books[k] == Ordered(books, q)[Skip(q.page, q.limit) + k]
    ensures forall b :: b in Listing(books, q).books ==> b in books && Satisfies(b, BuildWhere(q))
    ensures forall i, j :: 0 <= i < j < |Listing(books, q).books| ==>
              Listing(books, q).books[i].createdAt >= Listing(books, q).books[j].createdAt
  {
    PageOfFacts(Ordered(books, q), q.page, q.limit);
  }

  /** The counts of a signed-in caller's page: `total` is the number of all
      matches, and `totalPages` is the fewest pages of `limit` that hold them. */
  lemma ListingCounts(books: seq<Book>, q: BookQuery)
    requires q.page >= 1 && q.limit >= 1
    ensures Listing(books, q).total == |Seqs.Filter(books, Matcher(q))|
    ensures Listing(books, q).page == q.page
    ensures Listing(books, q).totalPages == TotalPages(Listing(books, q).total, q.limit)
  {
    var m := Ordered(books, q);
    PageOfFacts(m, q.page, q.limit);
    assert Listing(books, q) == PageOf(m, q.page, q.limit);
  }

  /** GET: 401 without a signed-in user, otherwise the `Listing`, whose
      contents and counts `ListingContents` and `ListingCounts` state. */
  function List(books: seq<Book>, session: Option<Session>, q: BookQuery): (r: Result<BookPage>)
    requires q.page >= 1 && q.limit >= 1
    ensures r.Err? <==> Rbac.CurrentUser(session).None?
    ensures r.Err? ==> r.error == Unauthorized
    ensures r.Ok? ==> r.value == Listing(books, q)
    ensures r.Ok? ==> |r.value.books| == PageSize(r.value.total, Skip(q.page, q.limit), q.limit)
    ensures r.Ok? ==> forall k :: 0 <= k < |r.value.books| ==>
              r.value.books[k] == Ordered(books, q)[Skip(q.page, q.limit) + k]
    ensures r.Ok? ==> forall i, j :: 0 <= i < j < |r.value.books| ==>
              r.value.books[i].createdAt >= r.value.books[j].createdAt
    ensures r.Ok? ==> r.value.total == |Seqs.Filter(books, Matcher(q))|
    ensures r.Ok? ==> r.value.totalPages == TotalPages(r.value.total, q.limit)
  {
    if Rbac.CurrentUser(session).None? then Err(Unauthorized)
    else
      ListingContents(books, q);
      ListingCounts(books, q);
      Ok(Listing(books, q))
  }

  /** With every parameter empty the `where` object is empty and every book matches. */
  lemma EmptyQueryMatchesAll(b: Book, q: BookQuery)
    requires q.search == "" && q.genre == "" && q.status.None? && q.tag == ""
    ensures Satisfies(b, BuildWhere(q))
  {
  }

  /** Each present constraint is required on its own: adding a parameter can
      only narrow the matches. */
  lemma ConstraintsConjoin(b: Book, q: BookQuery)
    requires Satisfies(b, BuildWhere(q))
    ensures q.status.Some? ==> b.status == q.status.value
    ensures q.tag != "" ==> q.tag in b.tags
    ensures q.genre != "" ==> b.genre.Some? && Lower(b.genre.value) == Lower(q.genre)
  {
  }

  lemma {:induction false} LowerIdempotent(s: string)
    ensures Lower(Lower(s)) == Lower(s)
  {
    if s != [] {
      LowerIdempotent(s[1..]);
    }
  }

  /** Search and genre ignore the letter case of the parameter. */
  lemma QueryCaseInsensitive(b: Book, q: BookQuery)
    ensures Satisfies(b, BuildWhere(q)) ==
            Satisfies(b, BuildWhere(q.(search := Lower(q.search), genre := Lower(q.genre))))
  {
    LowerIdempotent(q.search);
    LowerIdempotent(q.genre);
    assert q.search == "" <==> Lower(q.search) == "";
    assert q.genre == "" <==> Lower(q.genre) == "";
  }

  // ---------------------------------------------------------------- POST

  /** The fields of a POST body; `None` is a missing or null field. A client
      may also send other keys, such as a `status`. */
  datatype BookBody = BookBody(
    title: Option<string>,
    author: Option<string>,
    genre: Option<string>,
    tags: Option<seq<string>>,
    description: Option<string>,
    isbn: Option<string>,
    coverUrl: Option<string>,
    difficulty: Option<string>,
    status: Option<BookStatus>)

  /** `!field` for a string field: missing or empty. */
  predicate MissingOrEmpty(f: Option<string>)
  {
    f.None? || f.value == ""
  }

  /** `field || null`: an empty or missing field is stored as null. */
  function OrNull(f: Option<string>): (r: Option<string>)
    ensures r.None? <==> MissingOrEmpty(f)
    ensures r.Some? ==> r == f
  {
    if MissingOrEmpty(f) then None else f
  }

  /** `tags || []`. */
  function TagsOrEmpty(f: Option<seq<string>>): (r: seq<string>)
    ensures f.None? ==> r == []
    ensures f.Some? ==> r == f.value
  {
    if f.None? then [] else f.value
  }

  /** The record `prisma.book.create` stores: only the listed fields are copied
      from the body; the status is the column default. */
  function NewBook(id: Id, body: BookBody, now: Instant): (b: Book)
    requires !MissingOrEmpty(body.title) && !MissingOrEmpty(body.author)
    ensures b.id == id && b.status == DefaultBookStatus && b.createdAt == now
    ensures Some(b.title) == body.title && Some(b.author) == body.author
    ensures b.genre == OrNull(body.genre) && b.description == OrNull(body.description)
    ensures b.isbn == OrNull(body.isbn) && b.coverUrl == OrNull(body.coverUrl)
    ensures b.difficulty == OrNull(body.difficulty)
    ensures b.tags == TagsOrEmpty(body.tags)
  {
    Book(id, body.title.value, body.author.value, OrNull(body.genre), TagsOrEmpty(body.tags),
         OrNull(body.description), OrNull(body.isbn), OrNull(body.coverUrl), OrNull(body.difficulty),
         DefaultBookStatus, now)
  }

  /** A `status` in the body has no effect on the created book. */
  lemma StatusNotFromBody(id: Id, body: BookBody, s: Option<BookStatus>, now: Instant)
    requires !MissingOrEmpty(body.title) && !MissingOrEmpty(body.author)
    ensures NewBook(id, body.(status := s), now) == NewBook(id, body, now)
    ensures NewBook(id, body, now).status == Available
  {
  }

  const MsgTitleAuthorRequired: string := "Title and author are required"

  /** The audit entry for a created book. */
  function CreatedEntry(userId: Id, b: Book, now: Instant): (e: AuditEntry)
    ensures e.action == "BOOK_CREATED" && e.bookId == Some(b.id) && e.userId == userId
  {
    AuditEntry(userId, Some(b.id), "BOOK_CREATED", "Created book: " + b.title + " by " + b.author, now)
  }

  /** POST: staff only; title and author required; then the book is created and
      one `BOOK_CREATED` entry appended. `newId` is the id the database assigns. */
  method Post(db: Store, session: Option<Session>, body: BookBody, newId: Id, now: Instant)
    returns (r: Result<Book>)
    requires db.Valid() && FindBook(db.books, newId).None?
    modifies db`books, db`audit
    ensures db.Valid()
    ensures db.requests == old(db.requests) && db.checkouts == old(db.checkouts)
    ensures Rbac.CurrentUser(session).None? ==> r == Err(Unauthorized)
    ensures Rbac.CurrentUser(session).Some? && !Rbac.IsStaff(Rbac.CurrentUser(session).value.role) ==>
              r == Err(Forbidden)
    ensures Rbac.StaffGate(session).Ok? && (MissingOrEmpty(body.title) || MissingOrEmpty(body.author)) ==>
              r == Err(BadRequest(MsgTitleAuthorRequired))
    ensures r.Err? ==> db.books == old(db.books) && db.audit == old(db.audit)
    ensures r.Ok? <==> Rbac.StaffGate(session).Ok? && !MissingOrEmpty(body.title) && !MissingOrEmpty(body.author)
    ensures r.Ok? ==> r.value == NewBook(newId, body, now)
                      && db.books == old(db.books) + [r.value]
                      && db.audit == old(db.audit) + [CreatedEntry(Rbac.StaffGate(session).value.id, r.value, now)]
  {
    var gate := Rbac.StaffGate(session);
    if gate.Err? {
      return Err(gate.error);
    }
    var user := gate.value;
    if MissingOrEmpty(body.title) || MissingOrEmpty(body.author) {
      return Err(BadRequest(MsgTitleAuthorRequired));
    }
    var book := NewBook(newId, body, now);
    db.CreateBook(book);
    db.AppendAudit(CreatedEntry(user.id, book, now));
    r := Ok(book);
  }
}
