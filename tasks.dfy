/** The task record kept by the store, the keys it is sorted by, and the
    case-insensitive substring test used by the `search` filter. */
module Tasks {

  datatype Option<T> = None | Some(value: T)

  /** Opaque identifiers: a task's `_id` and a user's id. */
  type TaskId = nat
  type UserId = nat

  /** One stored task. `owner` is the `user` field the controller scopes every
      query by; `createdAt` and `updatedAt` are the store's timestamps. */
  datatype Task = Task(
    id: TaskId,
    owner: UserId,
    title: string,
    description: Option<string>,
    status: string,
    priority: string,
    dueDate: Option<int>,
    createdAt: int,
    updatedAt: int)

  // ---------------------------------------------------------------------------
  // Sort keys
  // ---------------------------------------------------------------------------

  /** The value a task holds under a sort field. Values of different kinds are
      ordered by the document store's type order: a missing field (null) before
      strings, strings before object ids, object ids before dates. */
  datatype Key = Missing | Text(s: string) | ObjectId(n: nat) | Date(t: int)

  function Rank(k: Key): nat {
    match k
    case Missing => 0
    case Text(_) => 1
    case ObjectId(_) => 2
    case Date(_) => 3
  }

  /** The fields of a stored task record that the model holds (the version
      key `__v` the document mapper adds is not among them). */
  const RecordFields: set<string> :=
    {"title", "description", "status", "priority", "dueDate", "createdAt", "updatedAt", "_id", "user"}

  /** The value of the field named `field` in `t`; a field the record does not
      have, or an optional field left unset, reads as missing. */
  function KeyOf(t: Task, field: string): (k: Key)
    ensures k.Missing? <==>
              || field !in RecordFields
              || (field == "description" && t.description.None?)
              || (field == "dueDate" && t.dueDate.None?)
  {
    if field == "title" then Text(t.title)
    else if field == "description" then
      (if t.description.Some? then Text(t.description.value) else Missing)
    else if field == "status" then Text(t.status)
    else if field == "priority" then Text(t.priority)
    else if field == "dueDate" then
      (if t.dueDate.Some? then Date(t.dueDate.value) else Missing)
    else if field == "createdAt" then Date(t.createdAt)
    else if field == "updatedAt" then Date(t.updatedAt)
    else if field == "_id" then ObjectId(t.id)
    else if field == "user" then ObjectId(t.owner)
    else Missing
  }

  /** Lexicographic order on strings, character by character (code point
      order): a prefix, the string itself included, comes before the strings
      it begins. */
  predicate TextLe(a: string, b: string): (r: bool)
    ensures a <= b ==> r
  {
    if a == [] then true
    else if b == [] then false
    else if a[0] != b[0] then a[0] < b[0]
    else TextLe(a[1..], b[1..])
  }

  lemma {:induction false} TextLeTotal(a: string, b: string)
    ensures TextLe(a, b) || TextLe(b, a)
  {
    if a != [] && b != [] && a[0] == b[0] {
      TextLeTotal(a[1..], b[1..]);
    }
  }

  lemma {:induction false} TextLeTransitive(a: string, b: string, c: string)
    requires TextLe(a, b) && TextLe(b, c)
    ensures TextLe(a, c)
  {
    if a != [] && b != [] && c != [] && a[0] == b[0] && b[0] == c[0] {
      TextLeTransitive(a[1..], b[1..], c[1..]);
    }
  }

  lemma {:induction false} TextLeAntisymmetric(a: string, b: string)
    requires TextLe(a, b) && TextLe(b, a)
    ensures a == b
  {
    if a != [] && b != [] && a[0] == b[0] {
      TextLeAntisymmetric(a[1..], b[1..]);
      assert a == [a[0]] + a[1..] && b == [b[0]] + b[1..];
    }
  }

  /** The store's order on keys: keys of different kinds compare by kind, keys
      of one kind by value; every key sorts with itself. */
  predicate KeyLe(a: Key, b: Key): (r: bool)
    ensures a == b ==> r
  {
    if Rank(a) != Rank(b) then Rank(a) < Rank(b)
    else match a
      case Missing => true
      case Text(s) => TextLe(s, b.s)
      case ObjectId(n) => n <= b.n
      case Date(t) => t <= b.t
  }

  lemma KeyLeTotal(a: Key, b: Key)
    ensures KeyLe(a, b) || KeyLe(b, a)
  {
    if a.Text? && b.Text? {
      TextLeTotal(a.s, b.s);
    }
  }

  /** Keys that sort both ways are equal: the order has ties only between
      equal keys. */
  lemma KeyLeAntisymmetric(a: Key, b: Key)
    requires KeyLe(a, b) && KeyLe(b, a)
    ensures a == b
  {
    if a.Text? && b.Text? {
      TextLeAntisymmetric(a.s, b.s);
    }
  }

  lemma KeyLeTransitive(a: Key, b: Key, c: Key)
    requires KeyLe(a, b) && KeyLe(b, c)
    ensures KeyLe(a, c)
  {
    if a.Text? && b.Text? && c.Text? {
      TextLeTransitive(a.s, b.s, c.s);
    }
  }

  // ---------------------------------------------------------------------------
  // Case-insensitive substring search
  // ---------------------------------------------------------------------------

  /** Simple case folding of one character (ASCII letters only). */
  function FoldChar(c: char): char {
    if 'A' <= c <= 'Z' then (c as int + 32) as char else c
  }

  /** `a` and `b` are the same string up to the case of their letters. */
  predicate EqualIgnoringCase(a: string, b: string) {
    |a| == |b| && forall k :: 0 <= k < |a| ==> FoldChar(a[k]) == FoldChar(b[k])
  }

  /** `text` starts with `term`, ignoring case. */
  predicate StartsWithIgnoringCase(text: string, term: string) {
    if term == [] then true
    else if text == [] then false
    else FoldChar(text[0]) == FoldChar(term[0]) && StartsWithIgnoringCase(text[1..], term[1..])
  }

  lemma {:induction false} StartsWithMeaning(text: string, term: string)
    ensures StartsWithIgnoringCase(text, term) <==>
            |term| <= |text| && EqualIgnoringCase(text[..|term|], term)
  {
    if term != [] && text != [] {
      StartsWithMeaning(text[1..], term[1..]);
      if |term| <= |text| {
        var a, b := text[..|term|], text[1..][..|term| - 1];
        assert forall k :: 1 <= k < |term| ==> a[k] == b[k - 1];
        if EqualIgnoringCase(a, term) {
          assert forall k :: 0 <= k < |term| - 1 ==> FoldChar(b[k]) == FoldChar(a[k + 1]);
        }
      }
    }
  }

  /** `term` occurs in `text` at position `i`, ignoring case. */
  predicate OccursAt(text: string, term: string, i: int) {
    0 <= i <= |text| - |term| && EqualIgnoringCase(text[i..i + |term|], term)
  }

  /** The `search` test: `term` occurs in `text` as a substring, ignoring case.
      Holds exactly when some window of `text` equals `term` up to case. */
  function ContainsIgnoringCase(text: string, term: string): (r: bool)
    ensures r <==> exists i :: OccursAt(text, term, i)
  {
    StartsWithMeaning(text, term);
    if StartsWithIgnoringCase(text, term) then
      assert text[0..|term|] == text[..|term|];
      assert OccursAt(text, term, 0);
      true
    else if text == [] then
      assert forall i :: !OccursAt(text, term, i);
      false
    else
      var r := ContainsIgnoringCase(text[1..], term);
      assert r ==> OccursAt(text, term, 1 + (var j :| OccursAt(text[1..], term, j); j)) by {
        if r {
          var j :| OccursAt(text[1..], term, j);
          assert text[j + 1..j + 1 + |term|] == text[1..][j..j + |term|];
        }
      }
      assert !r ==> forall i :: !OccursAt(text, term, i) by {
        if !r {
          forall i | OccursAt(text, term, i) ensures false {
            if i > 0 {
              assert text[i..i + |term|] == text[1..][i - 1..i - 1 + |term|];
              assert OccursAt(text[1..], term, i - 1);
            }
          }
        }
      }
      r
  }

  /** Searching is insensitive to the case of the search term itself: two terms
      that differ only in case select the same texts. */
  lemma SearchIgnoresTermCase(text: string, term1: string, term2: string)
    requires EqualIgnoringCase(term1, term2)
    ensures ContainsIgnoringCase(text, term1) == ContainsIgnoringCase(text, term2)
  {
    if ContainsIgnoringCase(text, term1) {
      var i :| OccursAt(text, term1, i);
      assert OccursAt(text, term2, i);
    }
    if ContainsIgnoringCase(text, term2) {
      var i :| OccursAt(text, term2, i);
      assert OccursAt(text, term1, i);
    }
  }
}
