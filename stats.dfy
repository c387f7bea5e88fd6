/** Task statistics: the caller's task count and the counts per status and per
    priority, produced by a group-by stage of the store and folded into maps. */
module Stats {
  import opened Tasks
  import opened Listing

  /** The two fields the statistics group by. */
  datatype GroupField = ByStatus | ByPriority

  function FieldValue(t: Task, g: GroupField): string {
    match g
    case ByStatus => t.status
    case ByPriority => t.priority
  }

  /** The number of tasks in `ts` whose field `g` holds `v`. */
  function CountWith(ts: seq<Task>, g: GroupField, v: string): nat {
    if ts == [] then 0
    else (if FieldValue(ts[0], g) == v then 1 else 0) + CountWith(ts[1..], g, v)
  }

  /** The values field `g` takes in `ts`. */
  function Values(ts: seq<Task>, g: GroupField): set<string> {
    set t | t in ts :: FieldValue(t, g)
  }

  lemma ValuesCons(ts: seq<Task>, g: GroupField)
    requires ts != []
    ensures Values(ts, g) == {FieldValue(ts[0], g)} + Values(ts[1..], g)
  {
    assert ts == [ts[0]] + ts[1..];
  }

  /** A value is counted at least once exactly when some task holds it. */
  lemma {:induction false} CountWithPositive(ts: seq<Task>, g: GroupField, v: string)
    ensures CountWith(ts, g, v) > 0 <==> v in Values(ts, g)
  {
    if ts != [] {
      CountWithPositive(ts[1..], g, v);
      ValuesCons(ts, g);
    }
  }

  // ---------------------------------------------------------------------------
  // The group-by stage and the fold into a map
  // ---------------------------------------------------------------------------

  /** One output row of the group-by stage: `{ _id: key, count }`. */
  datatype Row = Row(key: string, count: nat)

  predicate DistinctKeys(rows: seq<Row>) {
    forall i, j :: 0 <= i < j < |rows| ==> rows[i].key != rows[j].key
  }

  function KeysOf(rows: seq<Row>): set<string> {
    set i | 0 <= i < |rows| :: rows[i].key
  }

  /** The distinct values of field `g` in `ts`, each once. */
  function DistinctValues(ts: seq<Task>, g: GroupField): (vs: seq<string>)
    ensures forall i, j :: 0 <= i < j < |vs| ==> vs[i] != vs[j]
    ensures forall v :: v in vs <==> v in Values(ts, g)
  {
    if ts == [] then []
    else
      assert ts == [ts[0]] + ts[1..];
      var rest := DistinctValues(ts[1..], g);
      if FieldValue(ts[0], g) in rest then rest else [FieldValue(ts[0], g)] + rest
  }

  /** `$group: { _id: '$field', count: { $sum: 1 } }`: one row per value that
      occurs, with the number of tasks holding it. The order of the rows is
      not part of the contract. */
  function Group(ts: seq<Task>, g: GroupField): (rows: seq<Row>)
    ensures DistinctKeys(rows)
    ensures KeysOf(rows) == Values(ts, g)
    ensures forall i :: 0 <= i < |rows| ==> rows[i].count == CountWith(ts, g, rows[i].key) > 0
  {
    var vs := DistinctValues(ts, g);
    var rows := seq(|vs|, i requires 0 <= i < |vs| => Row(vs[i], CountWith(ts, g, vs[i])));
    assert forall i :: 0 <= i < |rows| ==> rows[i].key == vs[i];
    assert KeysOf(rows) == Values(ts, g) by {
      forall v | v in Values(ts, g) ensures v in KeysOf(rows) {
        var i :| 0 <= i < |vs| && vs[i] == v;
        assert rows[i].key == v;
      }
    }
    forall i | 0 <= i < |rows| ensures rows[i].count > 0 {
      CountWithPositive(ts, g, vs[i]);
    }
    rows
  }

  /** The `forEach` that copies the group-by rows into an object keyed by the
      group value. */
  method FoldRows(rows: seq<Row>) returns (m: map<string, nat>)
    requires DistinctKeys(rows)
    ensures m.Keys == KeysOf(rows)
    ensures forall i :: 0 <= i < |rows| ==> m[rows[i].key] == rows[i].count
  {
    m := map[];
    var i := 0;
    while i < |rows|
      invariant 0 <= i <= |rows|
      invariant m.Keys == KeysOf(rows[..i])
      invariant forall j :: 0 <= j < i ==> m[rows[j].key] == rows[j].count
    {
      assert KeysOf(rows[..i + 1]) == KeysOf(rows[..i]) + {rows[i].key} by {
        assert forall j :: 0 <= j <= i ==> rows[..i + 1][j] == rows[j];
        assert forall j :: 0 <= j < i ==> rows[..i][j] == rows[j];
      }
      m := m[rows[i].key := rows[i].count];
      i := i + 1;
    }
    assert rows[..i] == rows;
  }

  // ---------------------------------------------------------------------------
  // Count maps and their sum
  // ---------------------------------------------------------------------------

  /** The reference meaning of a statistics map: each value that occurs in `ts`
      mapped to the number of tasks holding it. Every count is positive. */
  function CountMap(ts: seq<Task>, g: GroupField): (m: map<string, nat>)
    ensures forall v :: v in m ==> m[v] > 0
  {
    var m := map v | v in Values(ts, g) :: CountWith(ts, g, v);
    forall v | v in m ensures m[v] > 0 {
      CountWithPositive(ts, g, v);
    }
    m
  }

  /** `m` without key `k`. */
  function Without(m: map<string, nat>, k: string): (r: map<string, nat>)
    requires k in m
    ensures r.Keys == m.Keys - {k}
    ensures |r| == |m| - 1
    ensures forall x :: x in r ==> r[x] == m[x]
  {
    var r := map x | x in m && x != k :: m[x];
    assert r.Keys == m.Keys - {k};
    r
  }

  /** Some key of a non-empty map. */
  ghost function AnyKey(m: map<string, nat>): (k: string)
    requires |m| > 0
    ensures k in m
  {
    assert exists k :: k in m.Keys;
    var k :| k in m; k
  }

  /** The sum of the values of a map. */
  ghost function MapSum(m: map<string, nat>): nat
    decreases |m|
  {
    if |m| == 0 then 0
    else
      var k := AnyKey(m);
      m[k] + MapSum(Without(m, k))
  }

  lemma WithoutCommutes(m: map<string, nat>, j: string, k: string)
    requires j in m && k in m && j != k
    ensures Without(Without(m, j), k) == Without(Without(m, k), j)
  {
    var a, b := Without(Without(m, j), k), Without(Without(m, k), j);
    assert a.Keys == b.Keys;
  }

  /** The sum does not depend on which key is taken out first. */
  lemma {:induction false} MapSumRemove(m: map<string, nat>, k: string)
    requires k in m
    ensures MapSum(m) == m[k] + MapSum(Without(m, k))
    decreases |m|
  {
    assert k in m.Keys;
    var j := AnyKey(m);
    if j != k {
      var mj, mk := Without(m, j), Without(m, k);
      MapSumRemove(mj, k);
      MapSumRemove(mk, j);
      WithoutCommutes(m, j, k);
    }
  }

  /** Setting a new key `k` to `c` adds `c` to the sum. */
  lemma MapSumAdd(m: map<string, nat>, k: string, c: nat)
    requires k !in m
    ensures MapSum(m[k := c]) == c + MapSum(m)
  {
    var m' := m[k := c];
    MapSumRemove(m', k);
    var w := Without(m', k);
    assert w.Keys == m.Keys;
    assert w == m;
  }

  /** Replacing the value of key `k` by `c` changes the sum by the difference. */
  lemma MapSumReplace(m: map<string, nat>, k: string, c: nat)
    requires k in m
    ensures MapSum(m[k := c]) == c + MapSum(m) - m[k]
  {
    var m' := m[k := c];
    MapSumRemove(m', k);
    MapSumRemove(m, k);
    var w, w' := Without(m, k), Without(m', k);
    assert w'.Keys == w.Keys;
    assert w' == w;
  }

  /** Counting one more task: its value's count goes up by one, or the value
      enters the map with count one. */
  lemma CountMapCons(ts: seq<Task>, g: GroupField)
    requires ts != []
    ensures var v, rest := FieldValue(ts[0], g), CountMap(ts[1..], g);
            CountMap(ts, g) == rest[v := if v in rest then rest[v] + 1 else 1]
  {
    var v, rest := FieldValue(ts[0], g), CountMap(ts[1..], g);
    var m, m' := CountMap(ts, g), rest[v := if v in rest then rest[v] + 1 else 1];
    ValuesCons(ts, g);
    assert m.Keys == m'.Keys;
    forall u | u in m ensures m[u] == m'[u] {
      CountMapConsAt(ts, g, u);
    }
  }

  lemma CountMapConsAt(ts: seq<Task>, g: GroupField, u: string)
    requires ts != [] && u in Values(ts, g)
    ensures var v, rest := FieldValue(ts[0], g), CountMap(ts[1..], g);
            CountMap(ts, g)[u] == if u == v && v !in rest then 1 else rest[u] + (if u == v then 1 else 0)
  {
    var v := FieldValue(ts[0], g);
    ValuesCons(ts, g);
    CountWithPositive(ts[1..], g, u);
  }

  /** The counts of a statistics map add up to the number of tasks grouped. */
  lemma {:induction false} CountMapSum(ts: seq<Task>, g: GroupField)
    ensures MapSum(CountMap(ts, g)) == |ts|
  {
    if ts == [] {
      assert CountMap(ts, g) == map[];
    } else {
      var v, rest := FieldValue(ts[0], g), CountMap(ts[1..], g);
      CountMapSum(ts[1..], g);
      CountMapCons(ts, g);
      if v in rest {
        MapSumReplace(rest, v, rest[v] + 1);
      } else {
        MapSumAdd(rest, v, 1);
      }
    }
  }

  /** Folding the group-by rows gives the reference count map. */
  lemma FoldedGroupIsCountMap(ts: seq<Task>, g: GroupField, m: map<string, nat>)
    requires var rows := Group(ts, g);
             && m.Keys == KeysOf(rows)
             && forall i :: 0 <= i < |rows| ==> m[rows[i].key] == rows[i].count
    ensures m == CountMap(ts, g)
  {
    var rows := Group(ts, g);
    forall v | v in m ensures m[v] == CountMap(ts, g)[v] {
      var i :| 0 <= i < |rows| && rows[i].key == v;
    }
  }

  // ---------------------------------------------------------------------------
  // The statistics response
  // ---------------------------------------------------------------------------

  /** The body of a statistics response. */
  datatype TaskStats = TaskStats(total: nat, byStatus: map<string, nat>, byPriority: map<string, nat>)

  /** The filter `{ user: caller }`. */
  function OwnerQuery(caller: UserId): Query {
    Query(caller, None, None, None)
  }

  /** The caller's tasks, in store order. */
  function OwnedBy(ts: seq<Task>, caller: UserId): seq<Task> {
    Find(ts, OwnerQuery(caller))
  }

  /** The caller's tasks are exactly the stored tasks whose owner is the caller. */
  lemma OwnedByMembers(ts: seq<Task>, caller: UserId, t: Task)
    ensures t in OwnedBy(ts, caller) <==> t in ts && t.owner == caller
  {
    FindMultiplicity(ts, OwnerQuery(caller), t);
    assert t in OwnedBy(ts, caller) <==> t in multiset(OwnedBy(ts, caller));
  }

  /** The statistics of the caller's tasks: `total` counts them, and the maps
      hold only positive counts. */
  function StatsOf(ts: seq<Task>, caller: UserId): (s: TaskStats)
    ensures s.total == |OwnedBy(ts, caller)|
    ensures forall v :: v in s.byStatus ==> s.byStatus[v] > 0
    ensures forall v :: v in s.byPriority ==> s.byPriority[v] > 0
  {
    var owned := OwnedBy(ts, caller);
    TaskStats(CountDocuments(ts, OwnerQuery(caller)), CountMap(owned, ByStatus), CountMap(owned, ByPriority))
  }

  /** `total` is the number of the caller's tasks; each map has a key exactly
      for the values present among them, with a positive count, and its counts
      add up to `total`. */
  lemma StatsConsistent(ts: seq<Task>, caller: UserId)
    ensures var s := StatsOf(ts, caller);
            var owned := OwnedBy(ts, caller);
            && s.total == |owned|
            && (forall v :: v in s.byStatus <==> exists t :: t in owned && t.status == v)
            && (forall v :: v in s.byPriority <==> exists t :: t in owned && t.priority == v)
            && (forall v :: v in s.byStatus ==> s.byStatus[v] > 0)
            && (forall v :: v in s.byPriority ==> s.byPriority[v] > 0)
            && MapSum(s.byStatus) == s.total
            && MapSum(s.byPriority) == s.total
  {
    var owned := OwnedBy(ts, caller);
    CountMapKeys(owned, ByStatus);
    CountMapKeys(owned, ByPriority);
    CountMapSum(owned, ByStatus);
    CountMapSum(owned, ByPriority);
  }

  /** A count map has a key exactly for the values some task holds. */
  lemma CountMapKeys(ts: seq<Task>, g: GroupField)
    ensures forall v :: v in CountMap(ts, g) <==> exists t :: t in ts && FieldValue(t, g) == v
  {
  }

  // ---------------------------------------------------------------------------
  // The aggregation's owner filter as written
  // ---------------------------------------------------------------------------

  /** A value the owner filter compares the stored `user` field with. The
      stored field is taken to hold an object id; the caller's id, as the
      request carries it, is a string. The store never equates values of different kinds. */
  datatype IdValue = OidValue(oid: UserId) | StringValue(text: string)

  /** `{ $match: { user: v } }` applied without any conversion of `v`. */
  function MatchUser(ts: seq<Task>, v: IdValue): (r: seq<Task>)
    ensures |r| <= |ts|
    ensures forall t :: t in r ==> t in ts && OidValue(t.owner) == v
  {
    if ts == [] then []
    else (if OidValue(ts[0].owner) == v then [ts[0]] else []) + MatchUser(ts[1..], v)
  }

  /** The statistics as the handler computes them: `countDocuments` converts the
      caller's id to an object id, the aggregation pipelines receive the string
      `callerIdText` unconverted. */
  function StatsAsWritten(ts: seq<Task>, caller: UserId, callerIdText: string): (s: TaskStats)
    ensures s.total == StatsOf(ts, caller).total
  {
    var matched := MatchUser(ts, StringValue(callerIdText));
    TaskStats(CountDocuments(ts, OwnerQuery(caller)), CountMap(matched, ByStatus), CountMap(matched, ByPriority))
  }

  /** As written, the group-by stages see no task at all: both maps are empty
      whatever the store holds, so they do not add up to `total` as soon as the
      caller owns a task. */
  lemma StatsAsWrittenLosesGroups(ts: seq<Task>, caller: UserId, callerIdText: string)
    ensures var s := StatsAsWritten(ts, caller, callerIdText);
            && s.byStatus == map[] && s.byPriority == map[]
            && s.total == |OwnedBy(ts, caller)|
            && ((exists t :: t in ts && t.owner == caller) ==> MapSum(s.byStatus) != s.total)
  {
    MatchUserString(ts, callerIdText);
    assert CountMap([], ByStatus) == map[];
    assert CountMap([], ByPriority) == map[];
    if exists t :: t in ts && t.owner == caller {
      var t :| t in ts && t.owner == caller;
      OwnedByMembers(ts, caller, t);
    }
  }

  /** No stored `user` field equals a string. */
  lemma {:induction false} MatchUserString(ts: seq<Task>, text: string)
    ensures MatchUser(ts, StringValue(text)) == []
  {
    if ts != [] {
      MatchUserString(ts[1..], text);
    }
  }

  /** With the caller's id converted to an object id, as the other queries of
      the handler do, the pipeline selects exactly the caller's tasks. */
  lemma {:induction false} MatchUserConverted(ts: seq<Task>, caller: UserId)
    ensures MatchUser(ts, OidValue(caller)) == OwnedBy(ts, caller)
  {
    if ts != [] {
      MatchUserConverted(ts[1..], caller);
    }
  }
}
