/** `GET /api/dashboard/overdue` (src/app/api/dashboard/overdue/route.ts):
    the staff dashboard's overdue list and its counters. The clock reading
    `new Date()` is the parameter `now`. */
module OverdueRoute {
  import opened Model
  import Rbac
  import DueDates
  import Seqs

  datatype OverdueReport = OverdueReport(
    overdueCheckouts: seq<Checkout>,
    overdueCount: nat,
    totalCheckedOut: nat,
    pendingRequests: nat,
    totalBooks: nat,
    availableBooks: nat)

  predicate IsOpen(c: Checkout)
  {
    c.returnedAt.None?
  }

  /** `where: { returnedAt: null, dueDate: { lt: now } }`. */
  predicate IsOpenAndOverdue(c: Checkout, now: Instant)
  {
    IsOpen(c) && DueDates.IsOverdue(c.dueDate, now)
  }

  function OverdueAt(now: Instant): Checkout -> bool
  {
    c => IsOpenAndOverdue(c, now)
  }

  predicate IsPending(r: BorrowRequest)
  {
    r.status == Pending
  }

  predicate IsAvailable(b: Book)
  {
    b.status == Available
  }

  /** The key that orders by `dueDate` ascending. */
  function DueKey(c: Checkout): int
  {
    c.dueDate
  }

  /** The open overdue checkouts, each as often as it occurs and nothing
      else, earliest due date first. */
  function Overdue(checkouts: seq<Checkout>, now: Instant): (r: seq<Checkout>)
    ensures forall c :: c in r ==> c in checkouts && IsOpenAndOverdue(c, now)
    ensures forall c :: IsOpenAndOverdue(c, now) ==> multiset(r)[c] == multiset(checkouts)[c]
    ensures |r| == |Seqs.Filter(checkouts, OverdueAt(now))|
    ensures forall i, j :: 0 <= i < j < |r| ==> r[i].dueDate <= r[j].dueDate
  {
    var matches := Seqs.Filter(checkouts, OverdueAt(now));
    var ordered := Seqs.SortBy(matches, DueKey);
    assert forall c :: c in ordered ==> c in matches by {
      forall c | c in ordered ensures c in matches {
        assert c in multiset(ordered);
      }
    }
    EarliestDueFirst(ordered);
    ordered
  }

  lemma EarliestDueFirst(s: seq<Checkout>)
    requires Seqs.SortedBy(s, DueKey)
    ensures forall i, j :: 0 <= i < j < |s| ==> s[i].dueDate <= s[j].dueDate
  {
    forall i, j | 0 <= i < j < |s| ensures s[i].dueDate <= s[j].dueDate {
      assert DueKey(s[i]) <= DueKey(s[j]);
    }
  }

  /** The report for staff, from one reading of the tables at instant `now`. */
  function Report(t: Tables, now: Instant): (rep: OverdueReport)
    ensures rep.overdueCheckouts == Overdue(t.checkouts, now)
    ensures rep.overdueCount == |rep.overdueCheckouts| <= rep.totalCheckedOut <= |t.checkouts|
    ensures rep.totalCheckedOut == |Seqs.Filter(t.checkouts, IsOpen)|
    ensures rep.pendingRequests == |Seqs.Filter(t.requests, IsPending)| <= |t.requests|
    ensures rep.availableBooks == |Seqs.Filter(t.books, IsAvailable)| <= rep.totalBooks == |t.books|
  {
    var overdue := Overdue(t.checkouts, now);
    Seqs.FilterStrongerIsShorter(t.checkouts, OverdueAt(now), IsOpen);
    OverdueReport(
      overdue,
      |overdue|,
      |Seqs.Filter(t.checkouts, IsOpen)|,
      |Seqs.Filter(t.requests, IsPending)|,
      |t.books|,
      |Seqs.Filter(t.books, IsAvailable)|)
  }

  /** GET: 401 without a signed-in user, 403 unless the user is staff (a
      librarian or an admin, see `Rbac.StaffRolesAre`), the report otherwise. */
  function Get(t: Tables, session: Option<Session>, now: Instant): (r: Result<OverdueReport>)
    ensures Rbac.CurrentUser(session).None? ==> r == Err(Unauthorized)
    ensures Rbac.CurrentUser(session).Some? && !Rbac.IsStaff(Rbac.CurrentUser(session).value.role) ==>
              r == Err(Forbidden)
    ensures Rbac.CurrentUser(session).Some? && Rbac.IsStaff(Rbac.CurrentUser(session).value.role) ==>
              r == Ok(Report(t, now))
  {
    match Rbac.StaffGate(session)
    case Err(e) => Err(e)
    case Ok(_) => Ok(Report(t, now))
  }

  /** A checkout returned, or due no earlier than now, is never listed; in
      particular nothing is overdue on its due instant. */
  lemma NotListed(checkouts: seq<Checkout>, c: Checkout, now: Instant)
    requires c.returnedAt.Some? || c.dueDate >= now
    ensures c !in Overdue(checkouts, now)
  {
  }

  /** Time only adds to the overdue list: every checkout overdue at `now`
      is still overdue later, as often as before. */
  lemma OverdueGrows(checkouts: seq<Checkout>, now: Instant, later: Instant)
    requires now <= later
    ensures multiset(Overdue(checkouts, now)) <= multiset(Overdue(checkouts, later))
    ensures |Overdue(checkouts, now)| <= |Overdue(checkouts, later)|
  {
    var a, b := Overdue(checkouts, now), Overdue(checkouts, later);
    forall c ensures multiset(a)[c] <= multiset(b)[c] {
      if c in a {
        assert IsOpenAndOverdue(c, later);
      }
    }
    Seqs.FilterStrongerIsShorter(checkouts, OverdueAt(now), OverdueAt(later));
  }
}
