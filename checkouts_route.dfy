/** `GET /api/checkouts` (src/app/api/checkouts/route.ts): the checkouts a
    signed-in user may see, newest first. The query string's `active` and
    `userId` parameters are `Option<string>` (`searchParams.get` returns
    `null` for an absent one). */
module CheckoutsRoute {
  import opened Model
  import Rbac
  import Seqs

  /** The `where` object: only open checkouts, and at most one user. */
  datatype CheckoutWhere = CheckoutWhere(openOnly: bool, userId: Option<Id>)

  /** `active` is on only for the exact text "true"; a member is pinned to
      their own id whatever `userId` says; staff filter by a non-empty `userId`. */
  function BuildWhere(user: User, active: Option<string>, userIdParam: Option<string>): (w: CheckoutWhere)
    ensures w.openOnly <==> active == Some("true")
    ensures user.role == Member ==> w.userId == Some(user.id)
    ensures user.role != Member && userIdParam.Some? && userIdParam.value != "" ==> w.userId == userIdParam
    ensures user.role != Member && (userIdParam.None? || userIdParam.value == "") ==> w.userId.None?
  {
    var userId :=
      if user.role == Member then Some(user.id)
      else if userIdParam.Some? && userIdParam.value != "" then userIdParam
      else None;
    CheckoutWhere(active == Some("true"), userId)
  }

  predicate Satisfies(c: Checkout, w: CheckoutWhere)
  {
    (!w.openOnly || c.returnedAt.None?) && (w.userId.None? || c.userId == w.userId.value)
  }

  function Matcher(w: CheckoutWhere): Checkout -> bool
  {
    c => Satisfies(c, w)
  }

  /** The key that orders by `checkedOutAt` descending. */
  function NewestFirst(c: Checkout): int
  {
    -c.checkedOutAt
  }

  lemma NewestFirstOrder(s: seq<Checkout>)
    requires Seqs.SortedBy(s, NewestFirst)
    ensures forall i, j :: 0 <= i < j < |s| ==> s[i].checkedOutAt >= s[j].checkedOutAt
  {
    forall i, j | 0 <= i < j < |s| ensures s[i].checkedOutAt >= s[j].checkedOutAt {
      assert NewestFirst(s[i]) <= NewestFirst(s[j]);
    }
  }

  /** `findMany({ where, orderBy: { checkedOutAt: "desc" } })`: every checkout
      that satisfies `w`, each as often as it occurs, and nothing else, with
      the most recent checkout first. */
  function Query(checkouts: seq<Checkout>, w: CheckoutWhere): (r: seq<Checkout>)
    ensures forall c :: c in r ==> c in checkouts && Satisfies(c, w)
    ensures forall c :: Satisfies(c, w) ==> multiset(r)[c] == multiset(checkouts)[c]
    ensures forall i, j :: 0 <= i < j < |r| ==> r[i].checkedOutAt >= r[j].checkedOutAt
  {
    var matches := Seqs.Filter(checkouts, Matcher(w));
    var ordered := Seqs.SortBy(matches, NewestFirst);
    assert forall c :: c in ordered ==> c in matches by {
      forall c | c in ordered ensures c in matches {
        assert c in multiset(ordered);
      }
    }
    NewestFirstOrder(ordered);
    ordered
  }

  /** GET: 401 without a signed-in user, otherwise the query of `BuildWhere`. */
  function List(checkouts: seq<Checkout>, session: Option<Session>, active: Option<string>, userIdParam: Option<string>)
    : (r: Result<seq<Checkout>>)
    ensures r.Err? <==> Rbac.CurrentUser(session).None?
    ensures r.Err? ==> r.error == Unauthorized
    ensures r.Ok? ==> r.value == Query(checkouts, BuildWhere(Rbac.CurrentUser(session).value, active, userIdParam))
  {
    match Rbac.CurrentUser(session)
    case None => Err(Unauthorized)
    case Some(user) => Ok(Query(checkouts, BuildWhere(user, active, userIdParam)))
  }

  /** A member sees exactly their own checkouts, whatever `userId` they pass. */
  lemma MemberSeesOwn(checkouts: seq<Checkout>, user: User, active: Option<string>, p1: Option<string>, p2: Option<string>)
    requires user.role == Member
    ensures Query(checkouts, BuildWhere(user, active, p1)) == Query(checkouts, BuildWhere(user, active, p2))
    ensures forall c :: c in Query(checkouts, BuildWhere(user, active, p1)) ==> c.userId == user.id
  {
  }

  /** With `active=true` only checkouts not yet returned are listed; with any
      other value returned ones are listed too. */
  lemma ActiveMeansOpen(checkouts: seq<Checkout>, user: User, active: Option<string>, userIdParam: Option<string>)
    ensures active == Some("true") ==>
              forall c :: c in Query(checkouts, BuildWhere(user, active, userIdParam)) ==> c.returnedAt.None?
    ensures active != Some("true") && user.role != Member && (userIdParam.None? || userIdParam.value == "") ==>
              multiset(Query(checkouts, BuildWhere(user, active, userIdParam))) == multiset(checkouts)
  {
    var w := BuildWhere(user, active, userIdParam);
    var r := Query(checkouts, w);
    if active != Some("true") && user.role != Member && (userIdParam.None? || userIdParam.value == "") {
      forall c ensures multiset(r)[c] == multiset(checkouts)[c] {
        assert Satisfies(c, w);
      }
    }
  }

  /** Staff passing a `userId` see exactly that user's checkouts. */
  lemma StaffFilterByUser(checkouts: seq<Checkout>, user: User, active: Option<string>, id: Id)
    requires user.role != Member && id != ""
    ensures var r := Query(checkouts, BuildWhere(user, active, Some(id)));
      && (forall c :: c in r ==> c.userId == id)
      && (forall c: Checkout :: c.userId == id && (active == Some("true") ==> c.returnedAt.None?) ==>
            multiset(r)[c] == multiset(checkouts)[c])
  {
  }
}
