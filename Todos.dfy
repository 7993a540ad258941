/** The task record and the partial records used to query and update it. */
module Todos {

  datatype Option<T> = None | Some(value: T)

  /** One task as the store keeps it. */
  datatype Todo = Todo(id: int, title: string, completed: bool)

  /** A field-equality filter: each present field must equal the record's field. */
  datatype Query = Query(id: Option<int>, title: Option<string>, completed: Option<bool>)

  /** The fields an update writes; an absent field keeps its stored value. */
  datatype Patch = Patch(title: Option<string>, completed: Option<bool>)

  /** The empty query, which every record matches. */
  const AnyTodo: Query := Query(None, None, None)

  function IdQuery(id: int): Query { Query(Some(id), None, None) }

  function CompletedQuery(c: bool): Query { Query(None, None, Some(c)) }

  predicate Matches(t: Todo, q: Query) {
    (q.id.Some? ==> t.id == q.id.value) &&
    (q.title.Some? ==> t.title == q.title.value) &&
    (q.completed.Some? ==> t.completed == q.completed.value)
  }

  /** Shallow per-field overwrite of `t` by the fields present in `p`; the id never changes. */
  function Merge(t: Todo, p: Patch): (r: Todo)
    ensures r.id == t.id
    ensures r.title == (if p.title.Some? then p.title.value else t.title)
    ensures r.completed == (if p.completed.Some? then p.completed.value else t.completed)
  {
    Todo(t.id,
         if p.title.Some? then p.title.value else t.title,
         if p.completed.Some? then p.completed.value else t.completed)
  }

  function Ids(s: seq<Todo>): set<int> {
    set t | t in s :: t.id
  }

  /** No two positions of the collection hold the same id. */
  predicate UniqueIds(s: seq<Todo>) {
    forall i, j :: 0 <= i < j < |s| ==> s[i].id != s[j].id
  }

  /** The ids of a list of records, in list order. */
  function IdList(s: seq<Todo>): seq<int> {
    seq(|s|, k requires 0 <= k < |s| => s[k].id)
  }

  /** Concatenation regroups freely; the logs and views built step by step rely on it. */
  lemma AppendAssoc<T>(a: seq<T>, b: seq<T>, c: seq<T>)
    ensures a + (b + c) == a + b + c
  {
  }
}
