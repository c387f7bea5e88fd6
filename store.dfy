/** The task store and the six request handlers of the task controller. Every
    handler is scoped to the calling user: a lookup matches a task only when
    both its id and its owner agree, and what one user can observe depends on
    that user's own tasks alone. */
module Store {
  import opened Tasks
  import opened Listing
  import opened Stats

  // ---------------------------------------------------------------------------
  // Request bodies and replies
  // ---------------------------------------------------------------------------

  /** The fields a create request takes from its body. */
  datatype TaskInput = TaskInput(
    title: string,
    description: Option<string>,
    status: string,
    priority: string,
    dueDate: Option<int>)

  /** An update body: each present field replaces the stored one. The body is
      passed to the store unfiltered, so it may also carry a new `user`. */
  datatype Patch = Patch(
    title: Option<string>,
    description: Option<string>,
    status: Option<string>,
    priority: Option<string>,
    dueDate: Option<int>,
    user: Option<UserId>)

  /** The answer of a single-task handler: the task, or "Task not found". */
  datatype Reply = Found(task: Task) | NotFound

  // ---------------------------------------------------------------------------
  // Owner-scoped lookup
  // ---------------------------------------------------------------------------

  /** The filter `{ _id: id, user: owner }`. */
  predicate IsTarget(t: Task, id: TaskId, owner: UserId) {
    t.id == id && t.owner == owner
  }

  /** `findOne({ _id: id, user: owner })`: the position of the first task with
      that id and that owner, or none when no task has both. */
  function FindOne(ts: seq<Task>, id: TaskId, owner: UserId): (r: Option<nat>)
    ensures r.Some? ==> r.value < |ts| && IsTarget(ts[r.value], id, owner)
    ensures r.Some? ==> forall j :: 0 <= j < r.value ==> !IsTarget(ts[j], id, owner)
    ensures r.None? <==> forall j :: 0 <= j < |ts| ==> !IsTarget(ts[j], id, owner)
  {
    if ts == [] then None
    else if IsTarget(ts[0], id, owner) then Some(0)
    else
      var rest := FindOne(ts[1..], id, owner);
      assert forall j :: 1 <= j < |ts| ==> ts[j] == ts[1..][j - 1];
      if rest.None? then None else Some(rest.value + 1)
  }

  /** `findById(id)`: the position of the first task with that id, whoever
      owns it. */
  function FindById(ts: seq<Task>, id: TaskId): (r: Option<nat>)
    ensures r.Some? ==> r.value < |ts| && ts[r.value].id == id
    ensures r.None? <==> forall j :: 0 <= j < |ts| ==> ts[j].id != id
  {
    if ts == [] then None
    else if ts[0].id == id then Some(0)
    else
      var rest := FindById(ts[1..], id);
      assert forall j :: 1 <= j < |ts| ==> ts[j] == ts[1..][j - 1];
      if rest.None? then None else Some(rest.value + 1)
  }

  /** The task `findOne` returns, if any. */
  function FoundTask(ts: seq<Task>, id: TaskId, owner: UserId): (r: Option<Task>)
    ensures r.Some? ==> r.value in ts && IsTarget(r.value, id, owner)
    ensures r.None? <==> forall t :: t in ts ==> !IsTarget(t, id, owner)
  {
    var i := FindOne(ts, id, owner);
    if i.Some? then Some(ts[i.value]) else None
  }

  /** The lookup tries the first task, then the rest. */
  lemma FoundTaskCons(ts: seq<Task>, id: TaskId, owner: UserId)
    requires ts != []
    ensures FoundTask(ts, id, owner) ==
              if IsTarget(ts[0], id, owner) then Some(ts[0]) else FoundTask(ts[1..], id, owner)
  {
    if !IsTarget(ts[0], id, owner) {
      var rest := FindOne(ts[1..], id, owner);
      if rest.Some? {
        assert ts[rest.value + 1] == ts[1..][rest.value];
      }
    }
  }

  /** No two stored tasks share an id. */
  predicate UniqueIds(ts: seq<Task>) {
    forall i, j :: 0 <= i < j < |ts| ==> ts[i].id != ts[j].id
  }

  /** With unique ids, the task found by id and owner is the one found by id. */
  lemma FindByIdAgrees(ts: seq<Task>, id: TaskId, owner: UserId)
    requires UniqueIds(ts) && FindOne(ts, id, owner).Some?
    ensures FindById(ts, id) == FindOne(ts, id, owner)
  {
    var i, k := FindOne(ts, id, owner).value, FindById(ts, id).value;
    assert ts[i].id == ts[k].id;
  }

  // ---------------------------------------------------------------------------
  // Changes to one task
  // ---------------------------------------------------------------------------

  /** The task a create request stores: the body's fields, the caller as owner. */
  function NewTask(id: TaskId, caller: UserId, input: TaskInput, now: int): (t: Task)
    ensures t.id == id && t.owner == caller
    ensures t.title == input.title && t.description == input.description
    ensures t.status == input.status && t.priority == input.priority && t.dueDate == input.dueDate
  {
    Task(id, caller, input.title, input.description, input.status, input.priority, input.dueDate, now, now)
  }

  function Pick<T>(given: Option<T>, current: T): T {
    if given.Some? then given.value else current
  }

  /** `findByIdAndUpdate(id, body)`: present fields replace stored ones; the id
      and the creation time stay. */
  function Apply(t: Task, p: Patch, now: int): (r: Task)
    ensures r.id == t.id && r.createdAt == t.createdAt && r.updatedAt == now
    ensures r.owner == (if p.user.Some? then p.user.value else t.owner)
    ensures r.title == (if p.title.Some? then p.title.value else t.title)
    ensures r.status == (if p.status.Some? then p.status.value else t.status)
    ensures r.priority == (if p.priority.Some? then p.priority.value else t.priority)
    ensures p.description.Some? ==> r.description == p.description
    ensures p.description.None? ==> r.description == t.description
    ensures p.dueDate.Some? ==> r.dueDate == p.dueDate
    ensures p.dueDate.None? ==> r.dueDate == t.dueDate
  {
    t.(owner := Pick(p.user, t.owner),
       title := Pick(p.title, t.title),
       description := if p.description.Some? then p.description else t.description,
       status := Pick(p.status, t.status),
       priority := Pick(p.priority, t.priority),
       dueDate := if p.dueDate.Some? then p.dueDate else t.dueDate,
       updatedAt := now)
  }

  /** The store without its `i`-th task. */
  function RemoveAt(ts: seq<Task>, i: nat): (r: seq<Task>)
    requires i < |ts|
    ensures |r| == |ts| - 1
    ensures multiset(r) == multiset(ts) - multiset{ts[i]}
  {
    assert ts == ts[..i] + [ts[i]] + ts[i + 1..];
    ts[..i] + ts[i + 1..]
  }

  // ---------------------------------------------------------------------------
  // The store and its handlers
  // ---------------------------------------------------------------------------

  class TaskStore {
    /** The stored tasks, in insertion order. */
    var tasks: seq<Task>
    /** The id the next created task receives. */
    var nextId: TaskId

    /** Ids are unique and all below `nextId`. */
    ghost predicate Valid()
      reads this
    {
      && UniqueIds(tasks)
      && forall j :: 0 <= j < |tasks| ==> tasks[j].id < nextId
    }

    constructor ()
      ensures Valid() && tasks == [] && nextId == 0
    {
      tasks := [];
      nextId := 0;
    }

    /** `getTasks`: the filter built from the request, the sorted page of the
        matching tasks, and the pagination figures. Only the caller's tasks
        that pass the given filters come back, at most `limit` of them, in the
        requested order, and `total` counts every match, not just this page. */
    method GetTasks(caller: UserId, req: ListRequest) returns (r: ListResult)
      requires ValidPaging(req)
      ensures r == ListTasks(tasks, caller, req)
      ensures forall t :: t in r.tasks ==> t in tasks && Selects(caller, req, t)
      ensures r.total == |Ordered(tasks, caller, req)|
      ensures r.tasks == Page(Ordered(tasks, caller, req), Skip(PageOf(req), LimitOf(req)), LimitOf(req))
      ensures r.count == |r.tasks| <= LimitOf(req)
      ensures r.page == PageOf(req) && r.pages == CeilDiv(r.total, LimitOf(req))
      ensures SortedBy(SortOf(req), r.tasks)
    {
      var query := BuildQuery(caller, req);
      var limit := LimitOf(req);
      var order := SortTasks(SortOf(req), Find(tasks, query));
      var items := Page(order, Skip(PageOf(req), limit), limit);
      var total := CountDocuments(tasks, query);
      r := ListResult(|items|, total, PageOf(req), CeilDiv(total, limit), items);
      ListTasksSelects(tasks, caller, req, order);
      ListTasksWindow(tasks, caller, req, order);
      PageSorted(SortOf(req), order, Skip(PageOf(req), limit), limit);
    }

    /** `getTask`: the caller's task with that id, or not found when there is
        none or it belongs to someone else. */
    method GetTask(caller: UserId, id: TaskId) returns (r: Reply)
      ensures r.Found? <==> exists j :: 0 <= j < |tasks| && IsTarget(tasks[j], id, caller)
      ensures r.Found? ==> r.task in tasks && IsTarget(r.task, id, caller)
      ensures r.Found? ==> Some(r.task) == FoundTask(tasks, id, caller)
    {
      var found := FindOne(tasks, id, caller);
      if found.None? {
        return NotFound;
      }
      r := Found(tasks[found.value]);
    }

    /** `createTask`: appends one task owned by the caller under a fresh id. */
    method CreateTask(caller: UserId, input: TaskInput, now: int) returns (t: Task)
      requires Valid()
      modifies this
      ensures Valid()
      ensures t == NewTask(old(nextId), caller, input, now)
      ensures tasks == old(tasks) + [t]
      ensures forall j :: 0 <= j < |old(tasks)| ==> old(tasks)[j].id != t.id
      ensures nextId == old(nextId) + 1
    {
      t := NewTask(nextId, caller, input, now);
      tasks := tasks + [t];
      nextId := nextId + 1;
    }

    /** `updateTask`: not found, and no change, unless the caller owns a task
        with that id; otherwise that task, and only it, takes the patch. */
    method UpdateTask(caller: UserId, id: TaskId, patch: Patch, now: int) returns (r: Reply)
      requires Valid()
      modifies this
      ensures Valid() && nextId == old(nextId)
      ensures FindOne(old(tasks), id, caller).None? ==> r == NotFound && tasks == old(tasks)
      ensures FindOne(old(tasks), id, caller).Some? ==>
                var i := FindOne(old(tasks), id, caller).value;
                && tasks == old(tasks)[i := Apply(old(tasks)[i], patch, now)]
                && r == Found(tasks[i])
    {
      var found := FindOne(tasks, id, caller);
      if found.None? {
        return NotFound;
      }
      FindByIdAgrees(tasks, id, caller);
      var i := FindById(tasks, id).value;
      var updated := Apply(tasks[i], patch, now);
      tasks := tasks[i := updated];
      r := Found(updated);
    }

    /** `deleteTask`: not found, and no change, unless the caller owns a task
        with that id; otherwise exactly that task is removed and returned. */
    method DeleteTask(caller: UserId, id: TaskId) returns (r: Reply)
      requires Valid()
      modifies this
      ensures Valid() && nextId == old(nextId)
      ensures FindOne(old(tasks), id, caller).None? ==> r == NotFound && tasks == old(tasks)
      ensures FindOne(old(tasks), id, caller).Some? ==>
                var i := FindOne(old(tasks), id, caller).value;
                && r == Found(old(tasks)[i])
                && tasks == RemoveAt(old(tasks), i)
    {
      var found := FindOne(tasks, id, caller);
      if found.None? {
        return NotFound;
      }
      var i := found.value;
      r := Found(tasks[i]);
      tasks := RemoveAt(tasks, i);
      RemoveKeepsUniqueIds(old(tasks), i, nextId);
    }

    /** `getTaskStats` with the group-by stages matching the caller's id as an
        id (the corrected pipeline): the caller's task count and the status
        and priority counts, each group-by folded into a map. The handler as
        written matches the id as a string and is `Stats.StatsAsWritten`. */
    method GetTaskStats(caller: UserId) returns (s: TaskStats)
      ensures s == StatsOf(tasks, caller)
      ensures s.total == |OwnedBy(tasks, caller)|
      ensures forall v :: v in s.byStatus ==> s.byStatus[v] > 0
      ensures forall v :: v in s.byPriority ==> s.byPriority[v] > 0
      ensures MapSum(s.byStatus) == s.total && MapSum(s.byPriority) == s.total
    {
      var total := CountDocuments(tasks, OwnerQuery(caller));
      var owned := OwnedBy(tasks, caller);
      var statusCounts := Group(owned, ByStatus);
      var priorityCounts := Group(owned, ByPriority);
      var statusStats := FoldRows(statusCounts);
      var priorityStats := FoldRows(priorityCounts);
      FoldedGroupIsCountMap(owned, ByStatus, statusStats);
      FoldedGroupIsCountMap(owned, ByPriority, priorityStats);
      s := TaskStats(total, statusStats, priorityStats);
      StatsConsistent(tasks, caller);
    }
  }

  /** Removing a task keeps the ids unique and below the bound. */
  lemma RemoveKeepsUniqueIds(ts: seq<Task>, i: nat, bound: nat)
    requires i < |ts| && UniqueIds(ts) && forall j :: 0 <= j < |ts| ==> ts[j].id < bound
    ensures UniqueIds(RemoveAt(ts, i))
    ensures forall j :: 0 <= j < |RemoveAt(ts, i)| ==> RemoveAt(ts, i)[j].id < bound
    ensures forall t :: t in RemoveAt(ts, i) ==> t.id != ts[i].id
  {
    var r := RemoveAt(ts, i);
    assert forall j :: 0 <= j < |r| ==> r[j] == ts[if j < i then j else j + 1];
  }

  // ---------------------------------------------------------------------------
  // Tenant isolation
  // ---------------------------------------------------------------------------

  /** A filter that scopes to one owner sees the store only through that
      owner's tasks. */
  lemma {:induction false} FindThroughOwner(ts: seq<Task>, q: Query)
    ensures Find(ts, q) == Find(OwnedBy(ts, q.owner), q)
  {
    if ts != [] {
      FindThroughOwner(ts[1..], q);
      var head := if ts[0].owner == q.owner then [ts[0]] else [];
      assert OwnedBy(ts, q.owner) == head + OwnedBy(ts[1..], q.owner);
      FindAppend(head, OwnedBy(ts[1..], q.owner), q);
      assert head != [] ==> head[1..] == [];
    }
  }

  /** The owner-scoped lookup sees the store only through that owner's tasks. */
  lemma {:induction false} FoundThroughOwner(ts: seq<Task>, id: TaskId, owner: UserId)
    ensures FoundTask(ts, id, owner) == FoundTask(OwnedBy(ts, owner), id, owner)
  {
    if ts != [] {
      FoundThroughOwner(ts[1..], id, owner);
      var owned, rest := OwnedBy(ts, owner), OwnedBy(ts[1..], owner);
      FoundTaskCons(ts, id, owner);
      if ts[0].owner == owner {
        assert owned == [ts[0]] + rest;
        assert owned[0] == ts[0] && owned[1..] == rest;
        FoundTaskCons(owned, id, owner);
      } else {
        assert owned == rest;
      }
    }
  }

  /** Everything a user can observe through the handlers, the listing for any
      request, a single-task lookup and the statistics, is determined by that
      user's own tasks: two stores that agree on them answer alike. For the
      listing this holds whatever order the store uses: both stores allow the
      same orders, and give the same response for each. */
  lemma ObservationsDependOnlyOnOwnTasks(ts: seq<Task>, us: seq<Task>, u: UserId, req: ListRequest, id: TaskId)
    requires OwnedBy(ts, u) == OwnedBy(us, u)
    requires ValidPaging(req)
    ensures forall o :: (StoreOrder(ts, u, req, o) <==> StoreOrder(us, u, req, o))
                        && ListTasksIn(ts, u, req, o) == ListTasksIn(us, u, req, o)
    ensures ListTasks(ts, u, req) == ListTasks(us, u, req)
    ensures FoundTask(ts, id, u) == FoundTask(us, id, u)
    ensures StatsOf(ts, u) == StatsOf(us, u)
  {
    var q := QueryOf(u, req);
    FindThroughOwner(ts, q);
    FindThroughOwner(us, q);
    FindThroughOwner(ts, OwnerQuery(u));
    FindThroughOwner(us, OwnerQuery(u));
    FoundThroughOwner(ts, id, u);
    FoundThroughOwner(us, id, u);
  }

  /** Creating a task for another user leaves `u`'s tasks as they were; a task
      created by `u` is appended to them. */
  lemma CreateOwnedBy(ts: seq<Task>, t: Task, u: UserId)
    ensures t.owner != u ==> OwnedBy(ts + [t], u) == OwnedBy(ts, u)
    ensures t.owner == u ==> OwnedBy(ts + [t], u) == OwnedBy(ts, u) + [t]
  {
    FindAppend(ts, [t], OwnerQuery(u));
    assert [t][1..] == [];
  }

  /** Updating another user's task, without handing it to `u`, leaves `u`'s
      tasks as they were. */
  lemma UpdateOwnedBy(ts: seq<Task>, i: nat, t: Task, u: UserId)
    requires i < |ts| && ts[i].owner != u && t.owner != u
    ensures OwnedBy(ts[i := t], u) == OwnedBy(ts, u)
  {
    var q := OwnerQuery(u);
    assert ts == ts[..i] + [ts[i]] + ts[i + 1..];
    assert ts[i := t] == ts[..i] + [t] + ts[i + 1..];
    FindAppend(ts[..i] + [ts[i]], ts[i + 1..], q);
    FindAppend(ts[..i], [ts[i]], q);
    FindAppend(ts[..i] + [t], ts[i + 1..], q);
    FindAppend(ts[..i], [t], q);
    assert [t][1..] == [] && [ts[i]][1..] == [];
  }

  /** Deleting another user's task leaves `u`'s tasks as they were. */
  lemma DeleteOwnedBy(ts: seq<Task>, i: nat, u: UserId)
    requires i < |ts| && ts[i].owner != u
    ensures OwnedBy(RemoveAt(ts, i), u) == OwnedBy(ts, u)
  {
    var q := OwnerQuery(u);
    var before, after := ts[..i], ts[i + 1..];
    assert RemoveAt(ts, i) == before + after;
    assert ts == (before + [ts[i]]) + after;
    assert Find([ts[i]], q) == [] by {
      assert [ts[i]][1..] == [];
    }
    FindAppend(before, [ts[i]], q);
    assert Find(before + [ts[i]], q) == Find(before, q);
    FindAppend(before + [ts[i]], after, q);
    FindAppend(before, after, q);
  }

  /** A user's create, update or delete is invisible to every other user `u`:
      the listing (in every order the store may use), the lookup and the
      statistics `u` gets are unchanged. An update that hands the task to `u`
      through the body's `user` field is the exception and is excluded. */
  lemma OthersSeeNoChange(ts: seq<Task>, caller: UserId, u: UserId, t: Task, i: nat, p: Patch, now: int, req: ListRequest, id: TaskId)
    requires caller != u && ValidPaging(req)
    ensures t.owner == caller ==>
              && (forall o :: (StoreOrder(ts + [t], u, req, o) <==> StoreOrder(ts, u, req, o))
                              && ListTasksIn(ts + [t], u, req, o) == ListTasksIn(ts, u, req, o))
              && ListTasks(ts + [t], u, req) == ListTasks(ts, u, req)
              && FoundTask(ts + [t], id, u) == FoundTask(ts, id, u)
              && StatsOf(ts + [t], u) == StatsOf(ts, u)
    ensures i < |ts| && ts[i].owner == caller && Apply(ts[i], p, now).owner != u ==>
              var after := ts[i := Apply(ts[i], p, now)];
              && (forall o :: (StoreOrder(after, u, req, o) <==> StoreOrder(ts, u, req, o))
                              && ListTasksIn(after, u, req, o) == ListTasksIn(ts, u, req, o))
              && ListTasks(after, u, req) == ListTasks(ts, u, req)
              && FoundTask(after, id, u) == FoundTask(ts, id, u)
              && StatsOf(after, u) == StatsOf(ts, u)
    ensures i < |ts| && ts[i].owner == caller ==>
              var after := RemoveAt(ts, i);
              && (forall o :: (StoreOrder(after, u, req, o) <==> StoreOrder(ts, u, req, o))
                              && ListTasksIn(after, u, req, o) == ListTasksIn(ts, u, req, o))
              && ListTasks(after, u, req) == ListTasks(ts, u, req)
              && FoundTask(after, id, u) == FoundTask(ts, id, u)
              && StatsOf(after, u) == StatsOf(ts, u)
  {
    if t.owner == caller {
      CreateOwnedBy(ts, t, u);
      ObservationsDependOnlyOnOwnTasks(ts + [t], ts, u, req, id);
    }
    if i < |ts| && ts[i].owner == caller {
      if Apply(ts[i], p, now).owner != u {
        UpdateOwnedBy(ts, i, Apply(ts[i], p, now), u);
        ObservationsDependOnlyOnOwnTasks(ts[i := Apply(ts[i], p, now)], ts, u, req, id);
      }
      DeleteOwnedBy(ts, i, u);
      ObservationsDependOnlyOnOwnTasks(RemoveAt(ts, i), ts, u, req, id);
    }
  }

  /** After a successful delete, no user finds a task with that id any more. */
  lemma DeletedIsGone(ts: seq<Task>, id: TaskId, caller: UserId, u: UserId)
    requires UniqueIds(ts) && FindOne(ts, id, caller).Some?
    ensures FoundTask(RemoveAt(ts, FindOne(ts, id, caller).value), id, u).None?
  {
    var i := FindOne(ts, id, caller).value;
    var r := RemoveAt(ts, i);
    assert forall j :: 0 <= j < |r| ==> r[j] == ts[if j < i then j else j + 1];
  }

  /** A created task is found by its owner under its id; with the store's ids
      kept below the fresh id, it is the only task with that id. */
  lemma CreatedIsFound(ts: seq<Task>, t: Task)
    requires forall j :: 0 <= j < |ts| ==> ts[j].id != t.id
    ensures FoundTask(ts + [t], t.id, t.owner) == Some(t)
  {
    var s := ts + [t];
    assert s[|ts|] == t;
    var i := FindOne(s, t.id, t.owner).value;
    assert s[i].id == t.id;
  }
}
