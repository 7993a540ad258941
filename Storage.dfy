/**
 * The client-side store: one named collection of task records kept as an
 * ordered sequence. The functions here specify what the Store methods do to
 * that sequence; the class performs the same steps in place.
 */
module Storage {
  import opened Todos

  /** The browser's key-value storage, reduced to the collections it holds. */
  type Database = map<string, seq<Todo>>

  /** Creates the named collection empty when it is absent; an existing one is kept. */
  function Initialize(db: Database, name: string): (r: Database)
    ensures name in r && r[name] == (if name in db then db[name] else [])
    ensures r.Keys == db.Keys + {name}
    ensures forall k :: k in db && k != name ==> r[k] == db[k]
  {
    if name in db then db else db[name := []]
  }

  lemma InitializeIdempotent(db: Database, name: string)
    ensures Initialize(Initialize(db, name), name) == Initialize(db, name)
  {
  }

  /** The records matching `q`, in stored order. */
  function Matching(s: seq<Todo>, q: Query): (r: seq<Todo>)
    ensures |r| <= |s|
    ensures forall t :: t in r <==> t in s && Matches(t, q)
  {
    if s == [] then [] else (if Matches(s[0], q) then [s[0]] else []) + Matching(s[1..], q)
  }

  /** Filtering keeps stored order: it distributes over concatenation. */
  lemma {:induction false} MatchingAppend(a: seq<Todo>, b: seq<Todo>, q: Query)
    ensures Matching(a + b, q) == Matching(a, q) + Matching(b, q)
  {
    if a == [] {
      assert a + b == b;
    } else {
      assert (a + b)[1..] == a[1..] + b;
      MatchingAppend(a[1..], b, q);
    }
  }

  lemma {:induction false} MatchingNone(s: seq<Todo>, q: Query)
    requires forall t :: t in s ==> !Matches(t, q)
    ensures Matching(s, q) == []
  {
    if s != [] {
      assert s[0] in s;
      assert forall t :: t in s[1..] ==> t in s;
      MatchingNone(s[1..], q);
    }
  }

  /** A collection all of whose records match is returned whole; the empty query matches all. */
  lemma {:induction false} MatchingAll(s: seq<Todo>, q: Query)
    requires forall k :: 0 <= k < |s| ==> Matches(s[k], q)
    ensures Matching(s, q) == s
  {
    if s != [] {
      MatchingAll(s[1..], q);
    }
  }

  /** Splitting on `completed` partitions the collection. */
  lemma {:induction false} MatchingCompletedPartition(s: seq<Todo>)
    ensures |Matching(s, CompletedQuery(true))| + |Matching(s, CompletedQuery(false))| == |s|
  {
    if s != [] {
      MatchingCompletedPartition(s[1..]);
    }
  }

  /** The position of the first record with `id`, if any. */
  function IndexOfId(s: seq<Todo>, id: int): (r: Option<nat>)
    ensures r.Some? ==> r.value < |s| && s[r.value].id == id &&
                        forall j :: 0 <= j < r.value ==> s[j].id != id
    ensures r.None? ==> forall j :: 0 <= j < |s| ==> s[j].id != id
  {
    if s == [] then None
    else if s[0].id == id then Some(0)
    else match IndexOfId(s[1..], id)
      case None => None
      case Some(k) => Some(k + 1)
  }

  /** Position `j` holds the first record with `id`. */
  ghost predicate FirstWithId(s: seq<Todo>, id: int, j: int) {
    0 <= j < |s| && s[j].id == id && forall k :: 0 <= k < j ==> s[k].id != id
  }

  /** The update branch of save: merge `p` into the first record with `id`. */
  function UpdateFirst(s: seq<Todo>, id: int, p: Patch): (r: seq<Todo>)
    ensures |r| == |s|
    ensures forall j :: 0 <= j < |s| ==> r[j] == (if FirstWithId(s, id, j) then Merge(s[j], p) else s[j])
    ensures id !in Ids(s) ==> r == s
  {
    match IndexOfId(s, id)
    case None => s
    case Some(i) => s[i := Merge(s[i], p)]
  }

  /** With unique ids the update touches exactly the record carrying `id`, and ids stay unique. */
  lemma UpdateUnique(s: seq<Todo>, id: int, p: Patch)
    requires UniqueIds(s)
    ensures forall j :: 0 <= j < |s| ==>
      UpdateFirst(s, id, p)[j] == (if s[j].id == id then Merge(s[j], p) else s[j])
    ensures UniqueIds(UpdateFirst(s, id, p))
    ensures Ids(UpdateFirst(s, id, p)) == Ids(s)
  {
    var r := UpdateFirst(s, id, p);
    forall j | 0 <= j < |s| && s[j].id == id ensures FirstWithId(s, id, j) {
    }
    assert forall j :: 0 <= j < |s| ==> r[j].id == s[j].id;
    forall x | x in Ids(r) ensures x in Ids(s) {
      var t :| t in r && t.id == x;
      var j :| 0 <= j < |r| && r[j] == t;
      assert s[j] in s;
    }
    forall x | x in Ids(s) ensures x in Ids(r) {
      var t :| t in s && t.id == x;
      var j :| 0 <= j < |s| && s[j] == t;
      assert r[j] in r;
    }
  }

  /** The records whose id is not in `xs`, in stored order. */
  function WithoutIds(s: seq<Todo>, xs: set<int>): (r: seq<Todo>)
    ensures |r| <= |s|
    ensures forall t :: t in r <==> t in s && t.id !in xs
  {
    if s == [] then [] else (if s[0].id in xs then [] else [s[0]]) + WithoutIds(s[1..], xs)
  }

  lemma {:induction false} WithoutNothing(s: seq<Todo>, xs: set<int>)
    requires forall k :: 0 <= k < |s| ==> s[k].id !in xs
    ensures WithoutIds(s, xs) == s
  {
    if s != [] {
      WithoutNothing(s[1..], xs);
    }
  }

  /** Removing in two rounds is removing the union at once. */
  lemma {:induction false} WithoutIdsTwice(s: seq<Todo>, xs: set<int>, ys: set<int>)
    ensures WithoutIds(WithoutIds(s, xs), ys) == WithoutIds(s, xs + ys)
  {
    if s != [] {
      WithoutIdsTwice(s[1..], xs, ys);
      var once := WithoutIds(s, xs);
      if s[0].id in xs {
        assert once == WithoutIds(s[1..], xs);
      } else {
        assert once == [s[0]] + WithoutIds(s[1..], xs);
        assert once[1..] == WithoutIds(s[1..], xs);
      }
    }
  }

  /** Removal keeps ids unique. */
  lemma {:induction false} WithoutIdsUnique(s: seq<Todo>, xs: set<int>)
    requires UniqueIds(s)
    ensures UniqueIds(WithoutIds(s, xs))
  {
    if s != [] {
      WithoutIdsUnique(s[1..], xs);
      var rest := WithoutIds(s[1..], xs);
      if s[0].id !in xs {
        forall t | t in rest ensures t.id != s[0].id {
          var j :| 0 <= j < |s[1..]| && s[1..][j] == t;
          assert s[j + 1] == t;
        }
        var r := [s[0]] + rest;
        forall i, j | 0 <= i < j < |r| ensures r[i].id != r[j].id {
          if i == 0 {
            assert r[j] in rest;
          } else {
            assert r[i] == rest[i - 1] && r[j] == rest[j - 1];
          }
        }
      }
    }
  }

  /**
   * The second loop of remove as written: a forward scan that splices out a
   * matching record and then moves past the record that slid into its place.
   */
  function SpliceRemove(s: seq<Todo>, id: int): (r: seq<Todo>)
    ensures |r| <= |s|
  {
    if s == [] then []
    else if s[0].id == id then (if |s| == 1 then [] else [s[1]] + SpliceRemove(s[2..], id))
    else [s[0]] + SpliceRemove(s[1..], id)
  }

  lemma {:induction false} SpliceRemoveAbsent(s: seq<Todo>, id: int)
    requires forall k :: 0 <= k < |s| ==> s[k].id != id
    ensures SpliceRemove(s, id) == s
  {
    if s != [] {
      SpliceRemoveAbsent(s[1..], id);
    }
  }

  /** With unique ids, remove deletes exactly the record with `id` and keeps the rest in order. */
  lemma {:induction false} SpliceRemoveUnique(s: seq<Todo>, id: int)
    requires UniqueIds(s)
    ensures SpliceRemove(s, id) == WithoutIds(s, {id})
  {
    if s != [] {
      if s[0].id == id {
        assert forall k :: 0 <= k < |s[1..]| ==> s[1..][k].id != id by {
          forall k | 0 <= k < |s[1..]| ensures s[1..][k].id != id {
            assert s[1..][k] == s[k + 1];
          }
        }
        WithoutNothing(s[1..], {id});
        if |s| > 1 {
          SpliceRemoveAbsent(s[2..], id);
          assert s[1..] == [s[1]] + s[2..];
        }
      } else {
        SpliceRemoveUnique(s[1..], id);
      }
    }
  }

  /** One step of the scan over a record that does not match. */
  lemma SpliceStepKeep(t: seq<Todo>, i: nat, id: int)
    requires i < |t| && t[i].id != id
    ensures t[..i] + SpliceRemove(t[i..], id) == t[..i + 1] + SpliceRemove(t[i + 1..], id)
  {
    assert t[i..][1..] == t[i + 1..];
    assert t[..i + 1] == t[..i] + [t[i]];
  }

  /** One step of the scan over a matching record: splice it out and move past its successor. */
  lemma SpliceStepMatch(t: seq<Todo>, i: nat, id: int)
    requires i < |t| && t[i].id == id
    ensures var t' := t[..i] + t[i + 1..];
      (i + 1 <= |t'| ==> t[..i] + SpliceRemove(t[i..], id) == t'[..i + 1] + SpliceRemove(t'[i + 1..], id)) &&
      (i + 1 == |t'| + 1 ==> t[..i] + SpliceRemove(t[i..], id) == t')
  {
    var t' := t[..i] + t[i + 1..];
    if i + 1 < |t| {
      assert t[i..][2..] == t[i + 2..];
      assert t[i..][1] == t[i + 1];
      assert t'[..i + 1] == t[..i] + [t[i + 1]];
      assert t'[i + 1..] == t[i + 2..];
    } else {
      assert t' == t[..i];
    }
  }

  /** Without unique ids the scan skips the second of two adjacent duplicates. */
  lemma SpliceRemoveSkipsAdjacent(a: Todo, b: Todo)
    requires a.id == b.id
    ensures SpliceRemove([a, b], a.id) == [b]
    ensures WithoutIds([a, b], {a.id}) == []
  {
    assert [a, b][2..] == [];
  }

  class Store {
    const name: string
    /** The collection as stored under `name`. */
    var todos: seq<Todo>

    /** Opens the named collection of `db`, creating it empty when absent. */
    constructor(name: string, db: Database)
      ensures this.name == name
      ensures todos == Initialize(db, name)[name]
    {
      this.name := name;
      todos := Initialize(db, name)[name];
    }

    /** The records matching every field of `query`, in stored order. */
    method Find(query: Query) returns (r: seq<Todo>)
      ensures r == Matching(todos, query)
    {
      r := [];
      var i := 0;
      while i < |todos|
        invariant 0 <= i <= |todos|
        invariant r == Matching(todos[..i], query)
      {
        assert todos[..i + 1] == todos[..i] + [todos[i]];
        MatchingAppend(todos[..i], [todos[i]], query);
        if Matches(todos[i], query) {
          r := r + [todos[i]];
        }
        i := i + 1;
      }
      assert todos[..i] == todos;
    }

    method FindAll() returns (r: seq<Todo>)
      ensures r == todos
    {
      r := todos;
    }

    /**
     * Without an id, appends `data` as a new record with the id `newId` (the clock reading) and
     * returns it; with an id, merges `data` into the first record carrying it
     * and returns the whole collection.
     */
    method Save(data: Patch, id: Option<int>, newId: int) returns (result: seq<Todo>)
      modifies this
      ensures id.Some? ==> todos == UpdateFirst(old(todos), id.value, data) && result == todos
      ensures id.None? ==> todos == old(todos) + [Merge(Todo(newId, "", false), data)]
      ensures id.None? ==> result == [Merge(Todo(newId, "", false), data)]
    {
      if id.Some? {
        var i := 0;
        while i < |todos|
          invariant 0 <= i <= |todos|
          invariant todos == old(todos)
          invariant forall j :: 0 <= j < i ==> todos[j].id != id.value
        {
          if todos[i].id == id.value {
            assert IndexOfId(todos, id.value) == Some(i);
            todos := todos[i := Merge(todos[i], data)];
            break;
          }
          i := i + 1;
        }
        result := todos;
      } else {
        var item := Merge(Todo(newId, "", false), data);
        todos := todos + [item];
        result := [item];
      }
    }

    /** Deletes the records carrying `id` the way the source's two loops do. */
    method Remove(id: int) returns (result: seq<Todo>)
      modifies this
      ensures todos == SpliceRemove(old(todos), id) && result == todos
    {
      var todoId: Option<int> := None;
      var i := 0;
      while i < |todos|
        invariant 0 <= i <= |todos|
        invariant todoId.Some? ==> todoId.value == id
        invariant todoId.None? <==> forall j :: 0 <= j < i ==> todos[j].id != id
      {
        if todos[i].id == id {
          todoId := Some(todos[i].id);
        }
        i := i + 1;
      }
      if todoId.None? {
        SpliceRemoveAbsent(todos, id);
      }

      i := 0;
      while i < |todos|
        invariant 0 <= i <= |todos| + 1
        invariant todoId.None? ==> todos == old(todos) && i <= |todos|
        invariant todoId.Some? && i <= |todos| ==>
          SpliceRemove(old(todos), id) == todos[..i] + SpliceRemove(todos[i..], id)
        invariant todoId.Some? && i == |todos| + 1 ==> SpliceRemove(old(todos), id) == todos
        decreases |todos| + 1 - i
      {
        if todoId == Some(todos[i].id) {
          SpliceStepMatch(todos, i, id);
          todos := todos[..i] + todos[i + 1..];
        } else if todoId.Some? {
          SpliceStepKeep(todos, i, id);
        }
        i := i + 1;
      }
      if i <= |todos| {
        assert todos[..i] == todos && todos[i..] == [];
      }
      result := todos;
    }

    /** Replaces the collection with an empty one. */
    method Drop() returns (result: seq<Todo>)
      modifies this
      ensures todos == [] && result == []
    {
      todos := [];
      result := [];
    }
  }
}
