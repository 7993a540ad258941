/** The domain facade over the store: defaults for new tasks, query dispatch and counts. */
module TodoModel {
  import opened Todos
  import opened Strings
  import opened Storage

  datatype Counts = Counts(active: nat, completed: nat, total: nat)

  /** The three call shapes of read: no query, an id, or a field filter. */
  datatype ReadQuery = Everything | ById(id: int) | Where(query: Query)

  /** The counts of a collection: records not completed, records completed, all records. */
  function CountOf(s: seq<Todo>): Counts {
    Counts(|Matching(s, CompletedQuery(false))|, |Matching(s, CompletedQuery(true))|, |s|)
  }

  lemma CountOfSnoc(a: seq<Todo>, t: Todo)
    ensures CountOf(a + [t]) == if t.completed
      then Counts(CountOf(a).active, CountOf(a).completed + 1, CountOf(a).total + 1)
      else Counts(CountOf(a).active + 1, CountOf(a).completed, CountOf(a).total + 1)
  {
    MatchingAppend(a, [t], CompletedQuery(true));
    MatchingAppend(a, [t], CompletedQuery(false));
  }

  /** Every record is either active or completed. */
  lemma CountIdentity(s: seq<Todo>)
    ensures CountOf(s).active + CountOf(s).completed == CountOf(s).total
  {
    MatchingCompletedPartition(s);
  }

  /** The record a new task becomes: trimmed title, a missing title read as empty, not completed. */
  function NewTodo(title: Option<string>, id: int): (t: Todo)
    ensures t.id == id && !t.completed
    ensures title.None? ==> t.title == ""
    ensures title.Some? ==> t.title == Trim(title.value)
  {
    Todo(id, Trim(if title.Some? then title.value else ""), false)
  }

  class Model {
    const storage: Store

    constructor(storage: Store)
      ensures this.storage == storage
    {
      this.storage := storage;
    }

    /** Stores a new task with the id `newId` (the clock reading) and returns it. */
    method Create(title: Option<string>, newId: int) returns (created: seq<Todo>)
      modifies storage
      ensures storage.todos == old(storage.todos) + [NewTodo(title, newId)]
      ensures created == [NewTodo(title, newId)]
    {
      var t := if title.Some? then title.value else "";
      created := storage.Save(Patch(Some(Trim(t)), Some(false)), None, newId);
    }

    method Read(query: ReadQuery) returns (r: seq<Todo>)
      ensures query.Everything? ==> r == storage.todos
      ensures query.ById? ==> r == Matching(storage.todos, IdQuery(query.id))
      ensures query.Where? ==> r == Matching(storage.todos, query.query)
    {
      match query
      case Everything =>
        r := storage.FindAll();
      case ById(id) =>
        r := storage.Find(IdQuery(id));
      case Where(q) =>
        r := storage.Find(q);
    }

    /** Merges `data` into the record carrying `id`. */
    method Update(id: int, data: Patch) returns (r: seq<Todo>)
      modifies storage
      ensures storage.todos == UpdateFirst(old(storage.todos), id, data) && r == storage.todos
    {
      r := storage.Save(data, Some(id), 0);
    }

    method Remove(id: int) returns (r: seq<Todo>)
      modifies storage
      ensures storage.todos == SpliceRemove(old(storage.todos), id) && r == storage.todos
    {
      r := storage.Remove(id);
    }

    method RemoveAll() returns (r: seq<Todo>)
      modifies storage
      ensures storage.todos == [] && r == []
    {
      r := storage.Drop();
    }

    /** Counts the active, completed and all records in one pass. */
    method GetCount() returns (c: Counts)
      ensures c == CountOf(storage.todos)
      ensures c.active + c.completed == c.total
    {
      var todos := storage.FindAll();
      var active, completed, total := 0, 0, 0;
      var i := 0;
      while i < |todos|
        invariant 0 <= i <= |todos|
        invariant Counts(active, completed, total) == CountOf(todos[..i])
        invariant active + completed == total
      {
        assert todos[..i + 1] == todos[..i] + [todos[i]];
        CountOfSnoc(todos[..i], todos[i]);
        if todos[i].completed {
          completed := completed + 1;
        } else {
          active := active + 1;
        }
        total := total + 1;
        i := i + 1;
      }
      assert todos[..i] == todos;
      c := Counts(active, completed, total);
    }
  }

  /** Reading by id finds at most one record when ids are unique, and finds it exactly when it is stored. */
  lemma ReadByIdUnique(s: seq<Todo>, id: int)
    requires UniqueIds(s)
    ensures |Matching(s, IdQuery(id))| <= 1
    ensures Matching(s, IdQuery(id)) != [] <==> id in Ids(s)
  {
    var r := Matching(s, IdQuery(id));
    if |r| > 1 {
      MatchingUniqueShape(s, id);
    }
    if id in Ids(s) {
      var t :| t in s && t.id == id;
      assert t in r;
    }
  }

  lemma {:induction false} MatchingUniqueShape(s: seq<Todo>, id: int)
    requires UniqueIds(s)
    ensures |Matching(s, IdQuery(id))| <= 1
  {
    if s != [] {
      MatchingUniqueShape(s[1..], id);
      if s[0].id == id {
        forall t | t in s[1..] ensures t.id != id {
          var j :| 0 <= j < |s[1..]| && s[1..][j] == t;
          assert s[j + 1] == t;
        }
        MatchingNone(s[1..], IdQuery(id));
      }
    }
  }
}
