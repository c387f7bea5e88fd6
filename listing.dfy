/** The listing of a user's tasks: the filter descriptor built from the
    request, the store's find/sort/skip/limit pipeline over it, and the
    pagination figures of the response. */
module Listing {
  import opened Tasks

  // ---------------------------------------------------------------------------
  // Requests and the filter descriptor
  // ---------------------------------------------------------------------------

  /** The query-string parameters of a listing request; `page` and `limit`
      arrive here already as numbers. */
  datatype ListRequest = ListRequest(
    status: Option<string>,
    priority: Option<string>,
    search: Option<string>,
    sortBy: Option<string>,
    sortOrder: Option<string>,
    page: Option<nat>,
    limit: Option<nat>)

  const DefaultSortBy: string := "createdAt"
  const DefaultPage: nat := 1
  const DefaultLimit: nat := 10

  /** A parameter that is present and not empty: an empty query-string value
      is falsy and adds no filter. */
  predicate Given(p: Option<string>) {
    p.Some? && p.value != ""
  }

  function PageOf(req: ListRequest): nat {
    if req.page.Some? then req.page.value else DefaultPage
  }

  function LimitOf(req: ListRequest): nat {
    if req.limit.Some? then req.limit.value else DefaultLimit
  }

  /** Pagination parameters the listing can work with: positive page and limit. */
  predicate ValidPaging(req: ListRequest) {
    PageOf(req) >= 1 && LimitOf(req) >= 1
  }

  /** The filter descriptor handed to the store: the owner is always present,
      the other conditions only when set. */
  datatype Query = Query(
    owner: UserId,
    status: Option<string>,
    priority: Option<string>,
    search: Option<string>)

  /** The `$or` of the search condition: the term occurs, ignoring case, in the
      title or in the description. */
  predicate MatchesSearch(t: Task, term: string) {
    || ContainsIgnoringCase(t.title, term)
    || (t.description.Some? && ContainsIgnoringCase(t.description.value, term))
  }

  /** How the store reads a filter descriptor: every condition present must hold. */
  predicate Matches(q: Query, t: Task) {
    && t.owner == q.owner
    && (q.status.Some? ==> t.status == q.status.value)
    && (q.priority.Some? ==> t.priority == q.priority.value)
    && (q.search.Some? ==> MatchesSearch(t, q.search.value))
  }

  /** What a listing request asks for, in the request's own terms. */
  predicate Selects(caller: UserId, req: ListRequest, t: Task) {
    && t.owner == caller
    && (Given(req.status) ==> t.status == req.status.value)
    && (Given(req.priority) ==> t.priority == req.priority.value)
    && (Given(req.search) ==> MatchesSearch(t, req.search.value))
  }

  /** The filter descriptor for a request: it selects exactly what the request
      asks for. */
  function QueryOf(caller: UserId, req: ListRequest): (q: Query)
    ensures q.owner == caller
    ensures forall t :: Matches(q, t) <==> Selects(caller, req, t)
  {
    Query(
      caller,
      if Given(req.status) then req.status else None,
      if Given(req.priority) then req.priority else None,
      if Given(req.search) then req.search else None)
  }

  /** Builds the filter descriptor one condition at a time. The descriptor
      selects exactly the tasks the request asks for. */
  method BuildQuery(caller: UserId, req: ListRequest) returns (q: Query)
    ensures q == QueryOf(caller, req)
    ensures forall t :: Matches(q, t) <==> Selects(caller, req, t)
  {
    q := Query(caller, None, None, None);
    if Given(req.status) {
      q := q.(status := req.status);
    }
    if Given(req.priority) {
      q := q.(priority := req.priority);
    }
    if Given(req.search) {
      q := q.(search := req.search);
    }
  }

  // ---------------------------------------------------------------------------
  // The store's find and count
  // ---------------------------------------------------------------------------

  /** The store's `find`: the matching tasks, in store order. */
  function Find(ts: seq<Task>, q: Query): (r: seq<Task>)
    ensures |r| <= |ts|
    ensures forall t :: t in r ==> t in ts && Matches(q, t)
  {
    if ts == [] then []
    else (if Matches(q, ts[0]) then [ts[0]] else []) + Find(ts[1..], q)
  }

  /** Each matching task occurs in `find`'s result as often as in the store,
      and no other task occurs in it. */
  lemma {:induction false} FindMultiplicity(ts: seq<Task>, q: Query, t: Task)
    ensures multiset(Find(ts, q))[t] == if Matches(q, t) then multiset(ts)[t] else 0
  {
    if ts != [] {
      assert ts == [ts[0]] + ts[1..];
      FindMultiplicity(ts[1..], q, t);
    }
  }

  /** Find distributes over concatenation of stores. */
  lemma {:induction false} FindAppend(ts: seq<Task>, us: seq<Task>, q: Query)
    ensures Find(ts + us, q) == Find(ts, q) + Find(us, q)
  {
    if ts != [] {
      assert (ts + us)[1..] == ts[1..] + us;
      FindAppend(ts[1..], us, q);
    } else {
      assert ts + us == us;
    }
  }

  /** The store's `countDocuments`: the number of matching tasks, which is the
      number `find` returns. */
  function CountDocuments(ts: seq<Task>, q: Query): (n: nat)
    ensures n == |Find(ts, q)|
  {
    if ts == [] then 0
    else (if Matches(q, ts[0]) then 1 else 0) + CountDocuments(ts[1..], q)
  }

  // ---------------------------------------------------------------------------
  // Sorting
  // ---------------------------------------------------------------------------

  /** The sort descriptor: one field and a direction. */
  datatype SortSpec = SortSpec(field: string, ascending: bool)

  /** `sortBy` (default `createdAt`), ascending only for `sortOrder == "asc"`. */
  function SortOf(req: ListRequest): (spec: SortSpec)
    ensures req.sortBy.Some? ==> spec.field == req.sortBy.value
    ensures req.sortBy.None? ==> spec.field == "createdAt"
    ensures spec.ascending <==> req.sortOrder == Some("asc")
  {
    SortSpec(
      if req.sortBy.Some? then req.sortBy.value else DefaultSortBy,
      req.sortOrder == Some("asc"))
  }

  /** `a` may come before `b` under the sort descriptor. */
  predicate InOrder(spec: SortSpec, a: Task, b: Task) {
    if spec.ascending then KeyLe(KeyOf(a, spec.field), KeyOf(b, spec.field))
    else KeyLe(KeyOf(b, spec.field), KeyOf(a, spec.field))
  }

  predicate SortedBy(spec: SortSpec, s: seq<Task>) {
    forall i, j :: 0 <= i < j < |s| ==> InOrder(spec, s[i], s[j])
  }

  lemma InOrderTotal(spec: SortSpec, a: Task, b: Task)
    ensures InOrder(spec, a, b) || InOrder(spec, b, a)
  {
    KeyLeTotal(KeyOf(a, spec.field), KeyOf(b, spec.field));
  }

  lemma InOrderTransitive(spec: SortSpec, a: Task, b: Task, c: Task)
    requires InOrder(spec, a, b) && InOrder(spec, b, c)
    ensures InOrder(spec, a, c)
  {
    var ka, kb, kc := KeyOf(a, spec.field), KeyOf(b, spec.field), KeyOf(c, spec.field);
    if spec.ascending {
      KeyLeTransitive(ka, kb, kc);
    } else {
      KeyLeTransitive(kc, kb, ka);
    }
  }

  /** Prepending an element that may precede everything keeps a sequence sorted. */
  lemma PrependSorted(spec: SortSpec, h: Task, s: seq<Task>)
    requires SortedBy(spec, s)
    requires forall x :: x in s ==> InOrder(spec, h, x)
    ensures SortedBy(spec, [h] + s)
  {
    var r := [h] + s;
    forall i, j | 0 <= i < j < |r| ensures InOrder(spec, r[i], r[j]) {
      if i == 0 {
        assert r[j] == s[j - 1];
      } else {
        assert r[i] == s[i - 1] && r[j] == s[j - 1];
      }
    }
  }

  /** An element that may precede the head of a sorted sequence may precede
      every element of it. */
  lemma HeadBoundsAll(spec: SortSpec, t: Task, s: seq<Task>)
    requires SortedBy(spec, s) && s != [] && InOrder(spec, t, s[0])
    ensures forall x :: x in s ==> InOrder(spec, t, x)
  {
    forall x | x in s ensures InOrder(spec, t, x) {
      var j :| 0 <= j < |s| && s[j] == x;
      if j > 0 {
        InOrderTransitive(spec, t, s[0], x);
      }
    }
  }

  /** The head of a sorted sequence may precede everything in the sorted
      insertion of `t` into its tail, when it may precede `t`. */
  lemma HeadBoundsInserted(spec: SortSpec, t: Task, s: seq<Task>, rest: seq<Task>)
    requires SortedBy(spec, s) && s != [] && InOrder(spec, s[0], t)
    requires multiset(rest) == multiset(s[1..]) + multiset{t}
    ensures forall x :: x in rest ==> InOrder(spec, s[0], x)
  {
    forall x | x in rest ensures InOrder(spec, s[0], x) {
      assert x in multiset(rest);
      if x != t {
        assert x in multiset(s[1..]);
        var j :| 0 <= j < |s[1..]| && s[1..][j] == x;
        assert s[j + 1] == x;
      }
    }
  }

  /** Inserts `t` into a sorted sequence, keeping it sorted. */
  function Insert(spec: SortSpec, t: Task, s: seq<Task>): (r: seq<Task>)
    requires SortedBy(spec, s)
    ensures SortedBy(spec, r)
    ensures |r| == |s| + 1
    ensures multiset(r) == multiset(s) + multiset{t}
  {
    if s == [] then [t]
    else if InOrder(spec, t, s[0]) then
      HeadBoundsAll(spec, t, s);
      PrependSorted(spec, t, s);
      [t] + s
    else
      InOrderTotal(spec, t, s[0]);
      assert s == [s[0]] + s[1..];
      var rest := Insert(spec, t, s[1..]);
      HeadBoundsInserted(spec, t, s, rest);
      PrependSorted(spec, s[0], rest);
      [s[0]] + rest
  }

  /** The store's sort: a sorted permutation of its input. Which of several
      tasks with equal keys comes first is not part of the contract. */
  function SortTasks(spec: SortSpec, ts: seq<Task>): (r: seq<Task>)
    ensures SortedBy(spec, r)
    ensures |r| == |ts|
    ensures multiset(r) == multiset(ts)
  {
    if ts == [] then []
    else
      assert ts == [ts[0]] + ts[1..];
      Insert(spec, ts[0], SortTasks(spec, ts[1..]))
  }

  // ---------------------------------------------------------------------------
  // Pagination
  // ---------------------------------------------------------------------------

  function Min(a: int, b: int): int {
    if a <= b then a else b
  }

  function Max(a: int, b: int): int {
    if a <= b then b else a
  }

  /** The number of items before page `page`: `(page - 1) * limit`. */
  function Skip(page: nat, limit: nat): nat
    requires page >= 1
  {
    var p: nat := page - 1;
    p * limit
  }

  /** `skip(skip).limit(limit)`: at most `limit` items starting at `skip`. */
  function Page(s: seq<Task>, skip: nat, limit: nat): (r: seq<Task>)
    ensures |r| <= limit
    ensures forall t :: t in r ==> t in s
  {
    s[Min(skip, |s|)..Min(skip + limit, |s|)]
  }

  /** A page holds `min(limit, max(0, |s| - skip))` items: the items of `s`
      from position `skip` on, in order. */
  lemma PageShape(s: seq<Task>, skip: nat, limit: nat)
    ensures var r := Page(s, skip, limit);
            && |r| == Min(limit, Max(0, |s| - skip))
            && forall k :: 0 <= k < |r| ==> r[k] == s[skip + k]
  {
  }

  /** A page of a sorted sequence is sorted. */
  lemma PageSorted(spec: SortSpec, s: seq<Task>, skip: nat, limit: nat)
    requires SortedBy(spec, s)
    ensures SortedBy(spec, Page(s, skip, limit))
  {
    var r := Page(s, skip, limit);
    PageShape(s, skip, limit);
    forall i, j | 0 <= i < j < |r| ensures InOrder(spec, r[i], r[j]) {
      assert r[i] == s[skip + i] && r[j] == s[skip + j];
    }
  }

  /** `Math.ceil(total / limit)` for a positive `limit`. */
  function CeilDiv(total: nat, limit: nat): (pages: nat)
    requires limit > 0
    ensures pages == 0 <==> total == 0
  {
    (total + limit - 1) / limit
  }

  /** `CeilDiv(total, limit)` is the least number of pages of `limit` items
      that hold `total` items. */
  lemma CeilDivIsLeastCover(total: nat, limit: nat)
    requires limit > 0
    ensures var pages := CeilDiv(total, limit);
            && total <= pages * limit
            && (pages > 0 ==> (pages - 1) * limit < total)
  {
    var p := (total + limit - 1) / limit;
    assert (total + limit - 1) == p * limit + (total + limit - 1) % limit;
    assert p > 0 ==> (p - 1) * limit == p * limit - limit;
  }

  // ---------------------------------------------------------------------------
  // The listing
  // ---------------------------------------------------------------------------

  /** The body of a listing response. */
  datatype ListResult = ListResult(count: nat, total: nat, page: nat, pages: nat, tasks: seq<Task>)

  /** The orders the store may return the selected tasks in: exactly the
      matching tasks, sorted by the request's sort descriptor. Tasks with equal
      keys may come in any order, and two requests may see them differently. */
  predicate StoreOrder(ts: seq<Task>, caller: UserId, req: ListRequest, order: seq<Task>) {
    SortedBy(SortOf(req), order) && multiset(order) == multiset(Find(ts, QueryOf(caller, req)))
  }

  /** Every order the store may use lists as many tasks as `countDocuments`
      counts for the same filter. */
  lemma StoreOrderLength(ts: seq<Task>, caller: UserId, req: ListRequest, order: seq<Task>)
    requires StoreOrder(ts, caller, req, order)
    ensures |order| == CountDocuments(ts, QueryOf(caller, req))
  {
    var found := Find(ts, QueryOf(caller, req));
    assert |multiset(order)| == |order| && |multiset(found)| == |found|;
  }

  /** One order the store may use: the stand-in sort of the matching tasks. */
  function Ordered(ts: seq<Task>, caller: UserId, req: ListRequest): (r: seq<Task>)
    ensures StoreOrder(ts, caller, req, r)
  {
    SortTasks(SortOf(req), Find(ts, QueryOf(caller, req)))
  }

  /** The listing response when the store returns the selected tasks in
      `order`: the requested window of `order`, with the pagination figures. */
  function ListTasksIn(ts: seq<Task>, caller: UserId, req: ListRequest, order: seq<Task>): (r: ListResult)
    requires ValidPaging(req)
    ensures forall t :: t in r.tasks ==> t in order
    ensures r.count == |r.tasks| <= LimitOf(req)
    ensures r.total == CountDocuments(ts, QueryOf(caller, req))
    ensures r.page == PageOf(req) && r.pages == CeilDiv(r.total, LimitOf(req))
  {
    var limit := LimitOf(req);
    var items := Page(order, Skip(PageOf(req), limit), limit);
    var total := CountDocuments(ts, QueryOf(caller, req));
    ListResult(|items|, total, PageOf(req), CeilDiv(total, limit), items)
  }

  /** The listing response for `caller` over the store contents `ts`, with the
      store's order taken to be `Ordered`. */
  function ListTasks(ts: seq<Task>, caller: UserId, req: ListRequest): (r: ListResult)
    requires ValidPaging(req)
    ensures forall t :: t in r.tasks ==> t in ts && Selects(caller, req, t)
    ensures r.count == |r.tasks| <= LimitOf(req)
    ensures r.total == CountDocuments(ts, QueryOf(caller, req))
    ensures r.page == PageOf(req) && r.pages == CeilDiv(r.total, LimitOf(req))
  {
    ListTasksSelects(ts, caller, req, Ordered(ts, caller, req));
    ListTasksIn(ts, caller, req, Ordered(ts, caller, req))
  }

  /** Before pagination, any order the store may use holds every task of the
      caller that passes the filters, as often as the store does, and nothing
      else. */
  lemma StoreOrderContents(ts: seq<Task>, caller: UserId, req: ListRequest, order: seq<Task>)
    requires StoreOrder(ts, caller, req, order)
    ensures forall t :: multiset(order)[t] == if Selects(caller, req, t) then multiset(ts)[t] else 0
  {
    forall t ensures multiset(order)[t] == if Selects(caller, req, t) then multiset(ts)[t] else 0 {
      FindMultiplicity(ts, QueryOf(caller, req), t);
    }
  }

  /** Tenant isolation and filtering: whatever order the store uses, every
      returned task is one of the caller's stored tasks and passes the status,
      priority and search filters that were given. */
  lemma ListTasksSelects(ts: seq<Task>, caller: UserId, req: ListRequest, order: seq<Task>)
    requires ValidPaging(req) && StoreOrder(ts, caller, req, order)
    ensures forall t :: t in ListTasksIn(ts, caller, req, order).tasks ==> t in ts && Selects(caller, req, t)
  {
    var limit := LimitOf(req);
    var items := Page(order, Skip(PageOf(req), limit), limit);
    StoreOrderContents(ts, caller, req, order);
    forall t | t in items ensures t in ts && Selects(caller, req, t) {
      assert t in order;
      assert t in multiset(order);
    }
  }

  /** The response is the `page`-th window of `limit` items of the full ordered
      listing; `total` counts the full listing and `count` the window. */
  lemma ListTasksWindow(ts: seq<Task>, caller: UserId, req: ListRequest, order: seq<Task>)
    requires ValidPaging(req) && StoreOrder(ts, caller, req, order)
    ensures var r := ListTasksIn(ts, caller, req, order);
            var skip := Skip(PageOf(req), LimitOf(req));
            && r.total == |order|
            && r.tasks == order[Min(skip, |order|)..Min(skip + LimitOf(req), |order|)]
            && r.count == |r.tasks| == Min(LimitOf(req), Max(0, r.total - skip))
            && r.count <= LimitOf(req)
            && r.page == PageOf(req)
            && r.pages == CeilDiv(r.total, LimitOf(req))
  {
    assert |multiset(order)| == |order|;
    PageShape(order, Skip(PageOf(req), LimitOf(req)), LimitOf(req));
  }

  /** The response is sorted by `sortBy` (default `createdAt`): non-decreasing
      for `sortOrder == "asc"`, non-increasing for any other value. */
  lemma ListTasksSorted(ts: seq<Task>, caller: UserId, req: ListRequest, order: seq<Task>)
    requires ValidPaging(req) && StoreOrder(ts, caller, req, order)
    ensures var r := ListTasksIn(ts, caller, req, order);
            var field := if req.sortBy.Some? then req.sortBy.value else "createdAt";
            forall i, j :: 0 <= i < j < |r.tasks| ==>
              if req.sortOrder == Some("asc") then KeyLe(KeyOf(r.tasks[i], field), KeyOf(r.tasks[j], field))
              else KeyLe(KeyOf(r.tasks[j], field), KeyOf(r.tasks[i], field))
  {
    PageSorted(SortOf(req), order, Skip(PageOf(req), LimitOf(req)), LimitOf(req));
  }

  // ---------------------------------------------------------------------------
  // Ties
  // ---------------------------------------------------------------------------

  /** Tasks that may come in either order have equal keys. */
  lemma InOrderAntisymmetric(spec: SortSpec, a: Task, b: Task)
    requires InOrder(spec, a, b) && InOrder(spec, b, a)
    ensures KeyOf(a, spec.field) == KeyOf(b, spec.field)
  {
    KeyLeAntisymmetric(KeyOf(a, spec.field), KeyOf(b, spec.field));
  }

  /** No two distinct tasks of `m` share a sort key, and none occurs twice. */
  predicate NoTies(spec: SortSpec, m: multiset<Task>) {
    && (forall x :: x in m ==> m[x] == 1)
    && (forall x, y :: x in m && y in m && x != y ==> KeyOf(x, spec.field) != KeyOf(y, spec.field))
  }

  /** Without ties, two sorted arrangements of the same tasks have the same head. */
  lemma SortedHeadsAgree(spec: SortSpec, a: seq<Task>, b: seq<Task>)
    requires SortedBy(spec, a) && SortedBy(spec, b) && multiset(a) == multiset(b)
    requires NoTies(spec, multiset(a)) && a != []
    ensures b != [] && a[0] == b[0]
  {
    assert |b| == |multiset(b)| == |a|;
    if a[0] != b[0] {
      assert a[0] in multiset(b) && b[0] in multiset(a);
      var j :| 0 <= j < |b| && b[j] == a[0];
      var i :| 0 <= i < |a| && a[i] == b[0];
      assert InOrder(spec, b[0], b[j]) && InOrder(spec, a[0], a[i]);
      InOrderAntisymmetric(spec, a[0], b[0]);
      assert false;
    }
  }

  lemma SortedTail(spec: SortSpec, a: seq<Task>)
    requires SortedBy(spec, a) && a != []
    ensures SortedBy(spec, a[1..])
  {
    forall i, j | 0 <= i < j < |a| - 1 ensures InOrder(spec, a[1..][i], a[1..][j]) {
      assert a[1..][i] == a[i + 1] && a[1..][j] == a[j + 1];
    }
  }

  /** A part of a collection without ties has no ties. */
  lemma NoTiesPart(spec: SortSpec, m: multiset<Task>, part: multiset<Task>)
    requires NoTies(spec, m) && part <= m
    ensures NoTies(spec, part)
  {
    forall x | x in part ensures part[x] == 1 {
      assert x in m;
    }
  }

  /** Dropping equal heads leaves the same tasks in both arrangements. */
  lemma TailsSameTasks(a: seq<Task>, b: seq<Task>)
    requires multiset(a) == multiset(b) && a != [] && b != [] && a[0] == b[0]
    ensures multiset(a[1..]) == multiset(b[1..]) && multiset(a[1..]) <= multiset(a)
  {
    assert a == [a[0]] + a[1..] && b == [b[0]] + b[1..];
    assert multiset(a) == multiset{a[0]} + multiset(a[1..]);
    assert multiset(b) == multiset{b[0]} + multiset(b[1..]);
    assert multiset(a[1..]) == multiset(a) - multiset{a[0]};
    assert multiset(b[1..]) == multiset(b) - multiset{b[0]};
  }

  /** Without ties there is only one sorted arrangement of a collection of tasks:
      the store's order is then the same for every request. */
  lemma {:induction false} SortedPermutationUnique(spec: SortSpec, a: seq<Task>, b: seq<Task>)
    requires SortedBy(spec, a) && SortedBy(spec, b) && multiset(a) == multiset(b)
    requires NoTies(spec, multiset(a))
    ensures a == b
    decreases |a|
  {
    if a == [] {
      assert |b| == |multiset(b)| == 0;
    } else {
      SortedHeadsAgree(spec, a, b);
      SortedTail(spec, a);
      SortedTail(spec, b);
      TailsSameTasks(a, b);
      NoTiesPart(spec, multiset(a), multiset(a[1..]));
      SortedPermutationUnique(spec, a[1..], b[1..]);
      assert a == [a[0]] + a[1..] && b == [b[0]] + b[1..];
    }
  }

  // ---------------------------------------------------------------------------
  // Walking all pages
  // ---------------------------------------------------------------------------

  lemma SkipNext(page: nat, limit: nat)
    requires page >= 1
    ensures Skip(page + 1, limit) == Skip(page, limit) + limit
  {
    var p: nat := page - 1;
    assert (p + 1) * limit == p * limit + limit;
  }

  /** Pages 1..n of `s`, one after the other. */
  function Pages(s: seq<Task>, limit: nat, n: nat): seq<Task> {
    if n == 0 then [] else Pages(s, limit, n - 1) + Page(s, Skip(n, limit), limit)
  }

  /** Pages 1..n of `s` are its first `n * limit` items. */
  lemma {:induction false} PagesArePrefix(s: seq<Task>, limit: nat, n: nat)
    ensures Pages(s, limit, n) == s[..Min(|s|, Skip(n + 1, limit))]
  {
    if n == 0 {
      assert Skip(1, limit) == 0;
    } else {
      PagesArePrefix(s, limit, n - 1);
      SkipNext(n, limit);
      var a, b := Min(|s|, Skip(n, limit)), Min(|s|, Skip(n + 1, limit));
      assert s[..a] + s[a..b] == s[..b];
    }
  }

  /** Pages 1..`CeilDiv(|s|, limit)` of `s` are all of `s`. */
  lemma AllPagesAreWhole(s: seq<Task>, limit: nat)
    requires limit > 0
    ensures Pages(s, limit, CeilDiv(|s|, limit)) == s
  {
    var n := CeilDiv(|s|, limit);
    CeilDivIsLeastCover(|s|, limit);
    PagesArePrefix(s, limit, n);
    assert Skip(n + 1, limit) == n * limit;
    assert s[..|s|] == s;
  }

  /** The request asking for page `p` instead. */
  function AtPage(req: ListRequest, p: nat): ListRequest {
    req.(page := Some(p))
  }

  /** The number of items on pages 1..n of `s`. */
  function PageCounts(s: seq<Task>, limit: nat, n: nat): nat {
    if n == 0 then 0 else PageCounts(s, limit, n - 1) + |Page(s, Skip(n, limit), limit)|
  }

  lemma {:induction false} PageCountsArePagesLength(s: seq<Task>, limit: nat, n: nat)
    ensures PageCounts(s, limit, n) == |Pages(s, limit, n)|
  {
    if n > 0 {
      PageCountsArePagesLength(s, limit, n - 1);
    }
  }

  /** A client walks pages 1..n with one `limit`; the store answers the
      request for page `p` in the order `orders[p - 1]`. The tasks of the
      responses, one after the other. */
  function WalkTasks(ts: seq<Task>, caller: UserId, req: ListRequest, orders: seq<seq<Task>>, n: nat): seq<Task>
    requires LimitOf(req) >= 1 && n <= |orders|
  {
    if n == 0 then []
    else WalkTasks(ts, caller, req, orders, n - 1) + ListTasksIn(ts, caller, AtPage(req, n), orders[n - 1]).tasks
  }

  /** The sum of the `count`s of the responses to pages 1..n. */
  function WalkCounts(ts: seq<Task>, caller: UserId, req: ListRequest, orders: seq<seq<Task>>, n: nat): nat
    requires LimitOf(req) >= 1 && n <= |orders|
  {
    if n == 0 then 0
    else WalkCounts(ts, caller, req, orders, n - 1) + ListTasksIn(ts, caller, AtPage(req, n), orders[n - 1]).count
  }

  /** Each page's count depends only on how many tasks are selected, not on
      the order the store returns them in. */
  lemma {:induction false} WalkCountsArePageCounts(ts: seq<Task>, caller: UserId, req: ListRequest, orders: seq<seq<Task>>, n: nat)
    requires LimitOf(req) >= 1 && n <= |orders|
    requires forall k :: 0 <= k < |orders| ==> StoreOrder(ts, caller, req, orders[k])
    ensures WalkCounts(ts, caller, req, orders, n) == PageCounts(Ordered(ts, caller, req), LimitOf(req), n)
  {
    if n > 0 {
      var o, limit := orders[n - 1], LimitOf(req);
      WalkCountsArePageCounts(ts, caller, req, orders, n - 1);
      WalkCountStep(ts, caller, req, o, n);
      assert WalkCounts(ts, caller, req, orders, n)
             == WalkCounts(ts, caller, req, orders, n - 1) + ListTasksIn(ts, caller, AtPage(req, n), o).count;
      assert PageCounts(Ordered(ts, caller, req), limit, n)
             == PageCounts(Ordered(ts, caller, req), limit, n - 1) + |Page(Ordered(ts, caller, req), Skip(n, limit), limit)|;
    }
  }

  /** The `count` of page `n` under any store order is the size of page `n`
      of the stand-in order. */
  lemma WalkCountStep(ts: seq<Task>, caller: UserId, req: ListRequest, o: seq<Task>, n: nat)
    requires LimitOf(req) >= 1 && n >= 1 && StoreOrder(ts, caller, req, o)
    ensures ListTasksIn(ts, caller, AtPage(req, n), o).count
            == |Page(Ordered(ts, caller, req), Skip(n, LimitOf(req)), LimitOf(req))|
  {
    var s, limit := Ordered(ts, caller, req), LimitOf(req);
    StoreOrderLength(ts, caller, req, o);
    StoreOrderLength(ts, caller, req, s);
    PageSizesAgree(o, s, Skip(n, limit), limit);
  }

  /** Pages of two sequences of one length have the same size. */
  lemma PageSizesAgree(o: seq<Task>, s: seq<Task>, skip: nat, limit: nat)
    requires |o| == |s|
    ensures |Page(o, skip, limit)| == |Page(s, skip, limit)|
  {
  }

  /** When every request sees the same order `s`, the walk is pages 1..n of `s`. */
  lemma {:induction false} WalkTasksArePages(ts: seq<Task>, caller: UserId, req: ListRequest, orders: seq<seq<Task>>, n: nat, s: seq<Task>)
    requires LimitOf(req) >= 1 && n <= |orders|
    requires forall k :: 0 <= k < |orders| ==> orders[k] == s
    ensures WalkTasks(ts, caller, req, orders, n) == Pages(s, LimitOf(req), n)
  {
    if n > 0 {
      WalkTasksArePages(ts, caller, req, orders, n - 1, s);
    }
  }

  /** Walking pages 1..`pages` with a fixed `limit`, whatever sorted order the
      store uses for each request: the `count`s add up to `total`. When no two
      selected tasks share a sort key, every request sees the same order, and
      the walk returns every selected task exactly once, in sorted order. */
  lemma AllPagesCoverListing(ts: seq<Task>, caller: UserId, req: ListRequest, orders: seq<seq<Task>>)
    requires ValidPaging(req)
    requires |orders| == CeilDiv(CountDocuments(ts, QueryOf(caller, req)), LimitOf(req))
    requires forall k :: 0 <= k < |orders| ==> StoreOrder(ts, caller, req, orders[k])
    ensures WalkCounts(ts, caller, req, orders, |orders|) == CountDocuments(ts, QueryOf(caller, req))
    ensures NoTies(SortOf(req), multiset(Find(ts, QueryOf(caller, req)))) ==>
              WalkTasks(ts, caller, req, orders, |orders|) == Ordered(ts, caller, req)
  {
    var s, limit := Ordered(ts, caller, req), LimitOf(req);
    assert |s| == |multiset(s)| == CountDocuments(ts, QueryOf(caller, req));
    WalkCountsArePageCounts(ts, caller, req, orders, |orders|);
    AllPagesAreWhole(s, limit);
    PageCountsArePagesLength(s, limit, |orders|);
    if NoTies(SortOf(req), multiset(Find(ts, QueryOf(caller, req)))) {
      forall k | 0 <= k < |orders| ensures orders[k] == s {
        SortedPermutationUnique(SortOf(req), s, orders[k]);
      }
      WalkTasksArePages(ts, caller, req, orders, |orders|, s);
    }
  }

  /** Two tasks of user 7 with the same `createdAt`, and a request for the
      default listing one task per page. */
  const TiedFirst := Task(1, 7, "a", None, "pending", "low", None, 5, 5)
  const TiedSecond := Task(2, 7, "b", None, "pending", "low", None, 5, 5)
  const OnePerPage := ListRequest(None, None, None, None, None, None, Some(1))

  /** Both orders of the two tied tasks are orders the store may use. */
  lemma TiedPairOrders()
    ensures StoreOrder([TiedFirst, TiedSecond], 7, OnePerPage, [TiedFirst, TiedSecond])
    ensures StoreOrder([TiedFirst, TiedSecond], 7, OnePerPage, [TiedSecond, TiedFirst])
  {
    var a, b := TiedFirst, TiedSecond;
    var q := QueryOf(7, OnePerPage);
    assert Find([a, b], q) == [a, b] by {
      assert [a, b][1..] == [b];
      assert Find([b], q) == [b] by { assert [b][1..] == []; }
    }
    assert KeyOf(a, "createdAt") == KeyOf(b, "createdAt");
    assert multiset([a, b]) == multiset([b, a]);
  }

  /** With ties the walk need not cover the listing: when the store orders the
      two tied tasks differently for the two page requests, the walk returns
      the first task twice and the second never. */
  lemma TiesCanRepeatTasks()
    ensures var a, b := TiedFirst, TiedSecond;
            && StoreOrder([a, b], 7, OnePerPage, [a, b])
            && StoreOrder([a, b], 7, OnePerPage, [b, a])
            && WalkTasks([a, b], 7, OnePerPage, [[a, b], [b, a]], 2) == [a, a]
  {
    TiedPairOrders();
    SwappedWalk([TiedFirst, TiedSecond], 7, OnePerPage, TiedFirst, TiedSecond);
  }

  /** One task per page, over the orders `[a, b]` and then `[b, a]`: the walk
      returns `a` twice. */
  lemma SwappedWalk(ts: seq<Task>, caller: UserId, req: ListRequest, a: Task, b: Task)
    requires LimitOf(req) == 1
    ensures WalkTasks(ts, caller, req, [[a, b], [b, a]], 2) == [a, a]
  {
    var orders := [[a, b], [b, a]];
    assert Skip(1, 1) == 0 && Skip(2, 1) == 1;
    assert [a, b][0..1] == [a] && [b, a][1..2] == [a];
    assert WalkTasks(ts, caller, req, orders, 1) == [a];
  }
}
