/**
 * The controller: turns view events into model operations and issues render
 * commands back to the view. The view is reduced to the log of commands it is
 * sent. A JavaScript exception (an unknown route, a missing record) ends the
 * current event: the methods return `ok == false` and do nothing further.
 */
module Control {
  import opened Todos
  import opened Strings
  import opened Storage
  import opened TodoModel

  /** The render commands the controller sends to the view. */
  datatype Command =
    | ShowEntries(entries: seq<Todo>)
    | RemoveItem(id: int)
    | UpdateElementCount(active: nat)
    | ClearCompletedButton(completedCount: nat, visible: bool)
    | ToggleAll(checked: bool)
    | ContentBlockVisibility(visible: bool)
    | SetFilter(page: string)
    | ClearNewTodo
    | ElementComplete(id: int, completed: bool)
    | EditItem(id: int, title: string)
    | EditItemDone(id: int, title: string)

  /** The commands _updateCount issues for the counts `c`. */
  function CountCommands(c: Counts): seq<Command> {
    [UpdateElementCount(c.active),
     ClearCompletedButton(c.completed, c.completed > 0),
     ToggleAll(c.completed == c.total),
     ContentBlockVisibility(c.total > 0)]
  }

  /**
   * What the count commands tell the view about the collection: the number of
   * active records, whether any record is completed, whether all are, and
   * whether there is any record at all.
   */
  lemma CountCommandsMeaning(s: seq<Todo>)
    ensures CountCommands(CountOf(s))[0].active == |Matching(s, CompletedQuery(false))|
    ensures CountCommands(CountOf(s))[1].visible <==> exists t :: t in s && t.completed
    ensures CountCommands(CountOf(s))[2].checked <==> forall t :: t in s ==> t.completed
    ensures CountCommands(CountOf(s))[3].visible <==> s != []
  {
    var done := Matching(s, CompletedQuery(true));
    var open := Matching(s, CompletedQuery(false));
    MatchingCompletedPartition(s);
    if exists t :: t in s && t.completed {
      var t :| t in s && t.completed;
      assert t in done;
    } else {
      MatchingNone(s, CompletedQuery(true));
    }
    if forall t :: t in s ==> t.completed {
      MatchingNone(s, CompletedQuery(false));
    } else {
      var t :| t in s && !t.completed;
      assert t in open;
    }
  }

  /** charAt(0).toUpperCase(), for the ASCII letters that route names use. */
  function UpperAscii(c: char): char {
    if 'a' <= c <= 'z' then (c as int - 32) as char else c
  }

  function Capitalize(s: string): string {
    if s == [] then [] else [UpperAscii(s[0])] + s[1..]
  }

  /** The filter of the show method named `'show' + name`, when there is one. */
  function ShowQuery(name: string): Option<Query> {
    if name == "All" then Some(AnyTodo)
    else if name == "Active" then Some(CompletedQuery(false))
    else if name == "Completed" then Some(CompletedQuery(true))
    else None
  }

  /** The route is set and names one of the three show methods, so _filter does not throw. */
  predicate Ready(route: string) {
    route != "" && ShowQuery(Capitalize(route)).Some?
  }

  /** The re-render test of _filter. */
  function Redraws(force: bool, last: string, name: string): (r: bool)
    ensures r <==> force || !(last == "All" && name == "All")
  {
    force || last != "All" || last != name
  }

  /** The commands _filter issues on the collection `s`. */
  function FilterLog(s: seq<Todo>, route: string, last: string, force: bool): seq<Command> {
    if route == "" then []
    else
      var name := Capitalize(route);
      CountCommands(CountOf(s)) +
      (if Redraws(force, last, name) && ShowQuery(name).Some?
       then [ShowEntries(Matching(s, ShowQuery(name).value))] else [])
  }

  /** _lastActiveRoute after _filter. */
  function LastAfter(route: string, last: string): string {
    if Ready(route) then Capitalize(route) else last
  }

  /** The route _updateFilterState stores for a page. */
  function RouteOf(page: string): string {
    if page == "" then "All" else page
  }

  /** The text before the first '/'. */
  function UntilSlash(s: string): (r: string)
    ensures |r| <= |s| && r == s[..|r|] && '/' !in r
    ensures |r| < |s| ==> s[|r|] == '/'
  {
    if s == [] || s[0] == '/' then [] else [s[0]] + UntilSlash(s[1..])
  }

  /** locationHash.split('/')[1], or '' when the hash has no '/'. */
  function RoutePage(hash: string): string {
    if hash == [] then []
    else if hash[0] == '/' then UntilSlash(hash[1..])
    else RoutePage(hash[1..])
  }

  /** The page is the piece between the first and the second '/'. */
  lemma {:induction false} RoutePageOf(pre: string, page: string, rest: string)
    requires '/' !in pre && '/' !in page
    requires rest == [] || rest[0] == '/'
    ensures RoutePage(pre + "/" + page + rest) == page
  {
    if pre == [] {
      assert (pre + "/" + page + rest)[1..] == page + rest;
      UntilSlashOf(page, rest);
    } else {
      assert (pre + "/" + page + rest)[1..] == pre[1..] + "/" + page + rest;
      RoutePageOf(pre[1..], page, rest);
    }
  }

  lemma {:induction false} UntilSlashOf(page: string, rest: string)
    requires '/' !in page
    requires rest == [] || rest[0] == '/'
    ensures UntilSlash(page + rest) == page
  {
    if page != [] {
      assert (page + rest)[1..] == page[1..] + rest;
      UntilSlashOf(page[1..], rest);
    } else {
      assert page + rest == rest;
    }
  }

  /** The route with no hash, or with an empty page, is "All". */
  lemma RouteDefault()
    ensures RouteOf(RoutePage("")) == "All" && RouteOf(RoutePage("#/")) == "All"
  {
    RoutePageOf("#", "", "");
    assert "#" + "/" + "" + "" == "#/";
  }

  /** The routes the "Active" and "Completed" filter links lead to. */
  lemma RouteActive()
    ensures RouteOf(RoutePage("#/active")) == "active"
  {
    RoutePageOf("#", "active", "");
    assert "#" + "/" + "active" + "" == "#/active";
  }

  lemma RouteCompleted()
    ensures RouteOf(RoutePage("#/completed")) == "completed"
  {
    RoutePageOf("#", "completed", "");
    assert "#" + "/" + "completed" + "" == "#/completed";
  }

  /** The filter each of the three routes renders. */
  lemma RouteFilters()
    ensures ShowQuery(Capitalize("All")) == Some(AnyTodo)
    ensures ShowQuery(Capitalize("active")) == Some(CompletedQuery(false))
    ensures ShowQuery(Capitalize("completed")) == Some(CompletedQuery(true))
  {
    assert Capitalize("active") == "Active";
    assert Capitalize("completed") == "Completed";
  }

  /** The stored collection after removing the records `ids` one by one, stopping after a throw. */
  function RemovalState(s: seq<Todo>, ids: seq<int>, route: string): seq<Todo>
    decreases |ids|
  {
    if ids == [] then s
    else if Ready(route) then RemovalState(SpliceRemove(s, ids[0]), ids[1..], route)
    else SpliceRemove(s, ids[0])
  }

  /** The commands one removeItem issues; `s` is the collection after the removal. */
  function RemoveItemLog(s: seq<Todo>, id: int, route: string, last: string): seq<Command> {
    [RemoveItem(id)] + FilterLog(s, route, last, false)
  }

  /** The commands removing the records `ids` one by one issues, stopping after a throw. */
  function RemovalLog(s: seq<Todo>, ids: seq<int>, route: string, last: string): seq<Command>
    decreases |ids|
  {
    if ids == [] then []
    else
      var s' := SpliceRemove(s, ids[0]);
      RemoveItemLog(s', ids[0], route, last) +
      (if Ready(route) then RemovalLog(s', ids[1..], route, LastAfter(route, last)) else [])
  }

  /** The stored collection after setting `completed := c` on the records `ids` one by one. */
  function ToggleState(s: seq<Todo>, ids: seq<int>, c: bool): seq<Todo>
    decreases |ids|
  {
    if ids == [] then s else ToggleState(UpdateFirst(s, ids[0], Patch(None, Some(c))), ids[1..], c)
  }

  function ToggleLog(ids: seq<int>, c: bool): seq<Command> {
    seq(|ids|, k requires 0 <= k < |ids| => ElementComplete(ids[k], c))
  }

  /** With unique ids, a record's id is among those of the matches exactly when it matches. */
  lemma IdAmongMatches(s: seq<Todo>, q: Query, j: int)
    requires UniqueIds(s) && 0 <= j < |s|
    ensures s[j].id in IdList(Matching(s, q)) <==> Matches(s[j], q)
  {
    var m := Matching(s, q);
    if s[j].id in IdList(m) {
      var k :| 0 <= k < |m| && IdList(m)[k] == s[j].id;
      assert m[k] in m;
      var j' :| 0 <= j' < |s| && s[j'] == m[k];
      assert j' == j;
    }
    if Matches(s[j], q) {
      assert s[j] in m;
      var k :| 0 <= k < |m| && m[k] == s[j];
      assert IdList(m)[k] == s[j].id;
    }
  }

  /** The ids of a non-empty list are its head and the ids of its tail. */
  lemma IdSetCons(ids: seq<int>)
    requires ids != []
    ensures (set x | x in ids) == {ids[0]} + (set x | x in ids[1..])
  {
    assert ids == [ids[0]] + ids[1..];
  }

  /** Under unique ids, one removal removes the record with that id and keeps ids unique. */
  lemma RemoveOneUnique(s: seq<Todo>, id: int)
    requires UniqueIds(s)
    ensures SpliceRemove(s, id) == WithoutIds(s, {id})
    ensures UniqueIds(SpliceRemove(s, id))
  {
    SpliceRemoveUnique(s, id);
    WithoutIdsUnique(s, {id});
  }

  /** Under unique ids, removing one by one (with a route that does not throw) removes the set at once. */
  lemma {:induction false} RemovalStateUnique(s: seq<Todo>, ids: seq<int>, route: string)
    requires UniqueIds(s)
    ensures UniqueIds(RemovalState(s, ids, route))
    ensures Ready(route) ==> RemovalState(s, ids, route) == WithoutIds(s, set x | x in ids)
    decreases |ids|
  {
    if ids == [] {
      WithoutNothing(s, set x | x in ids);
    } else {
      var s' := SpliceRemove(s, ids[0]);
      RemoveOneUnique(s, ids[0]);
      if Ready(route) {
        RemovalStateUnique(s', ids[1..], route);
        WithoutIdsTwice(s, {ids[0]}, set x | x in ids[1..]);
        IdSetCons(ids);
      }
    }
  }

  /** Removing the ids of the completed records leaves the active ones in order. */
  lemma {:induction false} WithoutCompleted(s: seq<Todo>, xs: set<int>)
    requires UniqueIds(s)
    requires forall j :: 0 <= j < |s| ==> (s[j].id in xs <==> s[j].completed)
    ensures WithoutIds(s, xs) == Matching(s, CompletedQuery(false))
  {
    if s != [] {
      assert UniqueIds(s[1..]) by {
        forall i, j | 0 <= i < j < |s[1..]| ensures s[1..][i].id != s[1..][j].id {
          assert s[1..][i] == s[i + 1] && s[1..][j] == s[j + 1];
        }
      }
      assert forall j :: 0 <= j < |s[1..]| ==> (s[1..][j].id in xs <==> s[1..][j].completed) by {
        forall j | 0 <= j < |s[1..]| ensures s[1..][j].id in xs <==> s[1..][j].completed {
          assert s[1..][j] == s[j + 1];
        }
      }
      WithoutCompleted(s[1..], xs);
    }
  }

  /** removeCompletedItems, with unique ids and a working route, keeps exactly the active records in order. */
  lemma RemoveCompletedEffect(s: seq<Todo>, route: string)
    requires UniqueIds(s) && Ready(route)
    ensures RemovalState(s, IdList(Matching(s, CompletedQuery(true))), route) == Matching(s, CompletedQuery(false))
    ensures UniqueIds(RemovalState(s, IdList(Matching(s, CompletedQuery(true))), route))
  {
    var ids := IdList(Matching(s, CompletedQuery(true)));
    RemovalStateUnique(s, ids, route);
    var xs := set x | x in ids;
    forall j | 0 <= j < |s| ensures s[j].id in xs <==> s[j].completed {
      IdAmongMatches(s, CompletedQuery(true), j);
    }
    WithoutCompleted(s, xs);
  }

  /** Under unique ids, toggling the records `ids` one by one sets `completed` on exactly those records. */
  lemma {:induction false} ToggleStateUnique(s: seq<Todo>, ids: seq<int>, c: bool)
    requires UniqueIds(s)
    ensures var r := ToggleState(s, ids, c);
      |r| == |s| && UniqueIds(r) &&
      forall j :: 0 <= j < |s| ==> r[j] == (if s[j].id in ids then s[j].(completed := c) else s[j])
    decreases |ids|
  {
    if ids != [] {
      var p := Patch(None, Some(c));
      var u := UpdateFirst(s, ids[0], p);
      UpdateUnique(s, ids[0], p);
      ToggleStateUnique(u, ids[1..], c);
      assert forall j :: 0 <= j < |s| ==> u[j].id == s[j].id;
      assert forall x :: x in ids <==> x == ids[0] || x in ids[1..] by {
        assert ids == [ids[0]] + ids[1..];
      }
    }
  }

  /** toggleAll(c), with unique ids, leaves every record completed == c and changes nothing else. */
  lemma ToggleAllEffect(s: seq<Todo>, c: bool)
    requires UniqueIds(s)
    ensures var r := ToggleState(s, IdList(Matching(s, CompletedQuery(!c))), c);
      |r| == |s| && UniqueIds(r) && forall j :: 0 <= j < |s| ==> r[j] == s[j].(completed := c)
  {
    var ids := IdList(Matching(s, CompletedQuery(!c)));
    ToggleStateUnique(s, ids, c);
    forall j | 0 <= j < |s| ensures s[j].id in ids <==> s[j].completed == !c {
      IdAmongMatches(s, CompletedQuery(!c), j);
    }
  }

  /** One step of removing the records `ids[k..]` one by one, with a route that does not throw. */
  lemma RemovalStep(s: seq<Todo>, ids: seq<int>, k: nat, route: string, last: string)
    requires k < |ids| && Ready(route)
    ensures RemovalState(s, ids[k..], route) == RemovalState(SpliceRemove(s, ids[k]), ids[k + 1..], route)
    ensures RemovalLog(s, ids[k..], route, last) ==
      RemoveItemLog(SpliceRemove(s, ids[k]), ids[k], route, last) +
      RemovalLog(SpliceRemove(s, ids[k]), ids[k + 1..], route, LastAfter(route, last))
  {
    assert ids[k..][0] == ids[k] && ids[k..][1..] == ids[k + 1..];
  }

  /** One step of toggling the records `ids[k..]` one by one. */
  lemma ToggleStep(s: seq<Todo>, ids: seq<int>, k: nat, c: bool)
    requires k < |ids|
    ensures ToggleState(s, ids[k..], c) == ToggleState(UpdateFirst(s, ids[k], Patch(None, Some(c))), ids[k + 1..], c)
  {
    assert ids[k..][0] == ids[k] && ids[k..][1..] == ids[k + 1..];
  }

  /** Removing with a route that throws stops after the first removal. */
  lemma RemovalStop(s: seq<Todo>, ids: seq<int>, route: string, last: string)
    requires ids != [] && !Ready(route)
    ensures RemovalState(s, ids, route) == SpliceRemove(s, ids[0])
    ensures RemovalLog(s, ids, route, last) == RemoveItemLog(SpliceRemove(s, ids[0]), ids[0], route, last)
  {
  }

  /** One more toggled record adds one command to the log. */
  lemma ToggleLogSnoc(ids: seq<int>, k: nat, c: bool)
    requires k < |ids|
    ensures ToggleLog(ids[..k + 1], c) == ToggleLog(ids[..k], c) + [ElementComplete(ids[k], c)]
  {
  }

  /** Appending a record with a fresh id keeps ids unique. */
  lemma AppendFresh(s: seq<Todo>, t: Todo)
    requires UniqueIds(s) && t.id !in Ids(s)
    ensures UniqueIds(s + [t])
  {
    var r := s + [t];
    forall i, j | 0 <= i < j < |r| ensures r[i].id != r[j].id {
      if j == |s| {
        assert r[i] == s[i];
        assert s[i] in s;
      } else {
        assert r[i] == s[i] && r[j] == s[j];
      }
    }
  }

  /**
   * The two space-stripping loops of editItemSave: the first drops leading spaces, the
   * second trailing ones; each step here moves an index instead of re-slicing the string.
   */
  method StripEdgeSpaces(title: string) returns (r: string)
    ensures r == TrimBy(title, IsSpace)
    ensures r != [] ==> r[0] != ' ' && r[|r| - 1] != ' '
  {
    var i := 0;
    while i < |title| && title[i] == ' '
      invariant i <= |title|
      invariant LeadingRun(title, IsSpace, i) == TrimStart(title, IsSpace)
    {
      i := i + 1;
    }
    var e := |title|;
    while e > i && title[e - 1] == ' '
      invariant i <= e <= |title|
      invariant TrailingRun(title, IsSpace, i, e) == TrimEnd(title, IsSpace)
    {
      e := e - 1;
    }
    r := title[i..e];
    TrimIsStripped(title, IsSpace);
  }

  class Controller {
    const model: Model
    /** The route set by the last setView; "" until then (undefined in the source). */
    var activeRoute: string
    /** The capitalised route of the last successful _filter; "" until then. */
    var lastActiveRoute: string
    /** Every command sent to the view so far. */
    var rendered: seq<Command>

    /** Ids are unique, as fresh ids keep them. */
    ghost predicate Valid()
      reads model.storage
    {
      UniqueIds(model.storage.todos)
    }

    constructor(model: Model)
      ensures this.model == model
      ensures activeRoute == "" && lastActiveRoute == "" && rendered == []
    {
      this.model := model;
      activeRoute := "";
      lastActiveRoute := "";
      rendered := [];
    }

    /** Loads the route named by the location hash. */
    method SetView(locationHash: string) returns (ok: bool)
      modifies this
      ensures activeRoute == RouteOf(RoutePage(locationHash))
      ensures ok == Ready(activeRoute)
      ensures lastActiveRoute == LastAfter(activeRoute, old(lastActiveRoute))
      ensures rendered == old(rendered) +
        FilterLog(model.storage.todos, activeRoute, old(lastActiveRoute), false) +
        (if ok then [SetFilter(RoutePage(locationHash))] else [])
    {
      var page := RoutePage(locationHash);
      ok := UpdateFilterState(page);
    }

    method ShowAll()
      modifies this
      ensures rendered == old(rendered) + [ShowEntries(model.storage.todos)]
      ensures activeRoute == old(activeRoute) && lastActiveRoute == old(lastActiveRoute)
    {
      var data := model.Read(Everything);
      rendered := rendered + [ShowEntries(data)];
    }

    method ShowActive()
      modifies this
      ensures rendered == old(rendered) + [ShowEntries(Matching(model.storage.todos, CompletedQuery(false)))]
      ensures activeRoute == old(activeRoute) && lastActiveRoute == old(lastActiveRoute)
    {
      var data := model.Read(Where(CompletedQuery(false)));
      rendered := rendered + [ShowEntries(data)];
    }

    method ShowCompleted()
      modifies this
      ensures rendered == old(rendered) + [ShowEntries(Matching(model.storage.todos, CompletedQuery(true)))]
      ensures activeRoute == old(activeRoute) && lastActiveRoute == old(lastActiveRoute)
    {
      var data := model.Read(Where(CompletedQuery(true)));
      rendered := rendered + [ShowEntries(data)];
    }

    /** Adds a task unless its trimmed title is empty; `newId` stands for the clock reading the store uses as id. */
    method AddItem(title: string, newId: int) returns (ok: bool)
      modifies this, model.storage
      ensures activeRoute == old(activeRoute)
      ensures Trim(title) == "" ==> (ok && model.storage.todos == old(model.storage.todos) &&
        rendered == old(rendered) && lastActiveRoute == old(lastActiveRoute))
      ensures Trim(title) != "" ==>
        model.storage.todos == old(model.storage.todos) + [Todo(newId, Trim(title), false)] &&
        ok == Ready(activeRoute) &&
        lastActiveRoute == LastAfter(activeRoute, old(lastActiveRoute)) &&
        rendered == old(rendered) + [ClearNewTodo] +
          FilterLog(model.storage.todos, activeRoute, old(lastActiveRoute), true)
      ensures old(Valid()) && newId !in Ids(old(model.storage.todos)) ==> Valid()
    {
      if Trim(title) == "" {
        return true;
      }
      var created := model.Create(Some(title), newId);
      if old(Valid()) && newId !in Ids(old(model.storage.todos)) {
        AppendFresh(old(model.storage.todos), created[0]);
      }
      rendered := rendered + [ClearNewTodo];
      ok := Filter(true);
    }

    /** Enters edit mode for the record `id`; throws when there is no such record. */
    method EditItem(id: int) returns (ok: bool)
      modifies this
      ensures model.storage.todos == old(model.storage.todos)
      ensures activeRoute == old(activeRoute) && lastActiveRoute == old(lastActiveRoute)
      ensures ok <==> Matching(model.storage.todos, IdQuery(id)) != []
      ensures rendered == old(rendered) +
        (if ok then [Command.EditItem(id, Matching(model.storage.todos, IdQuery(id))[0].title)] else [])
    {
      var data := model.Read(ById(id));
      if |data| == 0 {
        return false;
      }
      rendered := rendered + [Command.EditItem(id, data[0].title)];
      ok := true;
    }

    /**
     * Leaves edit mode: saves the title without its edge spaces, or removes the
     * record when nothing is left of the title.
     */
    method EditItemSave(id: int, title: string) returns (ok: bool)
      modifies this, model.storage
      ensures activeRoute == old(activeRoute)
      ensures TrimBy(title, IsSpace) != "" ==>
        ok && model.storage.todos == UpdateFirst(old(model.storage.todos), id, Patch(Some(TrimBy(title, IsSpace)), None)) &&
        rendered == old(rendered) + [EditItemDone(id, TrimBy(title, IsSpace))] &&
        lastActiveRoute == old(lastActiveRoute)
      ensures TrimBy(title, IsSpace) == "" ==>
        model.storage.todos == SpliceRemove(old(model.storage.todos), id) &&
        ok == Ready(activeRoute) &&
        lastActiveRoute == LastAfter(activeRoute, old(lastActiveRoute)) &&
        rendered == old(rendered) + RemoveItemLog(model.storage.todos, id, activeRoute, old(lastActiveRoute))
      ensures old(Valid()) ==> Valid()
    {
      var stripped := StripEdgeSpaces(title);
      if |stripped| != 0 {
        var _ := model.Update(id, Patch(Some(stripped), None));
        if old(Valid()) {
          UpdateUnique(old(model.storage.todos), id, Patch(Some(stripped), None));
        }
        rendered := rendered + [EditItemDone(id, stripped)];
        ok := true;
      } else {
        ok := RemoveItem(id);
      }
    }

    /** Leaves edit mode showing the stored title; throws when there is no such record. */
    method EditItemCancel(id: int) returns (ok: bool)
      modifies this
      ensures model.storage.todos == old(model.storage.todos)
      ensures activeRoute == old(activeRoute) && lastActiveRoute == old(lastActiveRoute)
      ensures ok <==> Matching(model.storage.todos, IdQuery(id)) != []
      ensures rendered == old(rendered) +
        (if ok then [EditItemDone(id, Matching(model.storage.todos, IdQuery(id))[0].title)] else [])
    {
      var data := model.Read(ById(id));
      if |data| == 0 {
        return false;
      }
      rendered := rendered + [EditItemDone(id, data[0].title)];
      ok := true;
    }

    method RemoveItem(id: int) returns (ok: bool)
      modifies this, model.storage
      ensures model.storage.todos == SpliceRemove(old(model.storage.todos), id)
      ensures activeRoute == old(activeRoute)
      ensures ok == Ready(activeRoute)
      ensures lastActiveRoute == LastAfter(activeRoute, old(lastActiveRoute))
      ensures rendered == old(rendered) + RemoveItemLog(model.storage.todos, id, activeRoute, old(lastActiveRoute))
      ensures old(Valid()) ==> Valid()
    {
      ghost var before := model.storage.todos;
      var _ := model.Remove(id);
      assert UniqueIds(before) ==> UniqueIds(model.storage.todos) by {
        if UniqueIds(before) {
          RemoveOneUnique(before, id);
        }
      }
      rendered := rendered + [Command.RemoveItem(id)];
      ok := Filter(false);
    }

    /** Removes every completed record, one removeItem per record. */
    method RemoveCompletedItems() returns (ok: bool)
      modifies this, model.storage
      ensures activeRoute == old(activeRoute)
      ensures ok == Ready(activeRoute)
      ensures lastActiveRoute == LastAfter(activeRoute, old(lastActiveRoute))
      ensures var ids := IdList(Matching(old(model.storage.todos), CompletedQuery(true)));
        model.storage.todos == RemovalState(old(model.storage.todos), ids, activeRoute) &&
        rendered == old(rendered) + RemovalLog(old(model.storage.todos), ids, activeRoute, old(lastActiveRoute)) +
          (if Ready(activeRoute) || ids == []
           then FilterLog(model.storage.todos, activeRoute,
                          if ids == [] then old(lastActiveRoute) else LastAfter(activeRoute, old(lastActiveRoute)), false)
           else [])
      ensures old(Valid()) ==> Valid()
      ensures old(Valid()) && ok ==> model.storage.todos == Matching(old(model.storage.todos), CompletedQuery(false))
    {
      var data := model.Read(Where(CompletedQuery(true)));
      if old(Valid()) {
        RemovalStateUnique(model.storage.todos, IdList(data), activeRoute);
        if Ready(activeRoute) {
          RemoveCompletedEffect(model.storage.todos, activeRoute);
        }
      }
      ok := RemoveEach(IdList(data));
      if !ok {
        return;
      }
      ok := Filter(false);
    }

    /** removeItem on each of `ids` in turn, stopping at the first throw. */
    method RemoveEach(ids: seq<int>) returns (ok: bool)
      modifies this, model.storage
      ensures activeRoute == old(activeRoute)
      ensures ok == (ids == [] || Ready(activeRoute))
      ensures lastActiveRoute == if ids == [] then old(lastActiveRoute) else LastAfter(activeRoute, old(lastActiveRoute))
      ensures model.storage.todos == RemovalState(old(model.storage.todos), ids, activeRoute)
      ensures rendered == old(rendered) + RemovalLog(old(model.storage.todos), ids, activeRoute, old(lastActiveRoute))
    {
      ghost var last0 := lastActiveRoute;
      ghost var goal := RemovalState(model.storage.todos, ids, activeRoute);
      ghost var log := rendered + RemovalLog(model.storage.todos, ids, activeRoute, last0);
      assert ids[0..] == ids;
      ok := true;
      var k := 0;
      while k < |ids|
        invariant 0 <= k <= |ids| && ok
        invariant activeRoute == old(activeRoute)
        invariant k > 0 ==> Ready(activeRoute)
        invariant lastActiveRoute == if k == 0 then last0 else LastAfter(activeRoute, last0)
        invariant goal == RemovalState(model.storage.todos, ids[k..], activeRoute)
        invariant log == rendered + RemovalLog(model.storage.todos, ids[k..], activeRoute, lastActiveRoute)
      {
        ok := RemoveNext(ids, k, goal, log);
        if !ok {
          return;
        }
        k := k + 1;
      }
      assert ids[k..] == [];
    }

    /**
     * One pass of the removal loop: removes `ids[k]`, and when the filter does not throw,
     * what is left to do still leads to the final collection `goal` and the full log `log`;
     * when it throws, `goal` and `log` are reached.
     */
    method RemoveNext(ids: seq<int>, k: nat, ghost goal: seq<Todo>, ghost log: seq<Command>) returns (ok: bool)
      requires k < |ids|
      requires goal == RemovalState(model.storage.todos, ids[k..], activeRoute)
      requires log == rendered + RemovalLog(model.storage.todos, ids[k..], activeRoute, lastActiveRoute)
      modifies this, model.storage
      ensures activeRoute == old(activeRoute)
      ensures ok == Ready(activeRoute)
      ensures lastActiveRoute == LastAfter(activeRoute, old(lastActiveRoute))
      ensures ok ==> goal == RemovalState(model.storage.todos, ids[k + 1..], activeRoute)
      ensures ok ==> log == rendered + RemovalLog(model.storage.todos, ids[k + 1..], activeRoute, lastActiveRoute)
      ensures !ok ==> goal == model.storage.todos && log == rendered
    {
      ghost var cur, r, last := model.storage.todos, rendered, lastActiveRoute;
      ok := RemoveItem(ids[k]);
      if ok {
        RemovalStep(cur, ids, k, activeRoute, last);
        ghost var next := model.storage.todos;
        AppendAssoc(r, RemoveItemLog(next, ids[k], activeRoute, last),
                    RemovalLog(next, ids[k + 1..], activeRoute, lastActiveRoute));
      } else {
        assert ids[k..][0] == ids[k];
        RemovalStop(cur, ids[k..], activeRoute, last);
      }
    }

    method ToggleComplete(id: int, completed: bool, silent: bool) returns (ok: bool)
      modifies this, model.storage
      ensures model.storage.todos == UpdateFirst(old(model.storage.todos), id, Patch(None, Some(completed)))
      ensures activeRoute == old(activeRoute)
      ensures ok == (silent || Ready(activeRoute))
      ensures lastActiveRoute == if silent then old(lastActiveRoute) else LastAfter(activeRoute, old(lastActiveRoute))
      ensures silent ==> rendered == old(rendered) + [ElementComplete(id, completed)]
      ensures !silent ==>
        rendered == old(rendered) + [ElementComplete(id, completed)] +
          FilterLog(model.storage.todos, activeRoute, old(lastActiveRoute), false)
      ensures old(Valid()) ==> Valid()
    {
      var _ := model.Update(id, Patch(None, Some(completed)));
      if old(Valid()) {
        UpdateUnique(old(model.storage.todos), id, Patch(None, Some(completed)));
      }
      rendered := rendered + [ElementComplete(id, completed)];
      ok := true;
      if !silent {
        ok := Filter(false);
      }
    }

    /** Sets `completed` on every record that is not already at that value. */
    method ToggleAllItems(completed: bool) returns (ok: bool)
      modifies this, model.storage
      ensures activeRoute == old(activeRoute)
      ensures ok == Ready(activeRoute)
      ensures lastActiveRoute == LastAfter(activeRoute, old(lastActiveRoute))
      ensures var ids := IdList(Matching(old(model.storage.todos), CompletedQuery(!completed)));
        model.storage.todos == ToggleState(old(model.storage.todos), ids, completed) &&
        rendered == old(rendered) + ToggleLog(ids, completed) +
          FilterLog(model.storage.todos, activeRoute, old(lastActiveRoute), false)
      ensures old(Valid()) ==> (Valid() && |model.storage.todos| == |old(model.storage.todos)| &&
        forall j :: 0 <= j < |model.storage.todos| ==>
          model.storage.todos[j] == old(model.storage.todos)[j].(completed := completed))
    {
      var data := model.Read(Where(CompletedQuery(!completed)));
      if old(Valid()) {
        ToggleAllEffect(model.storage.todos, completed);
      }
      ToggleEach(IdList(data), completed);
      ok := Filter(false);
    }

    /** toggleComplete on each of `ids` in turn, without re-filtering. */
    method ToggleEach(ids: seq<int>, completed: bool)
      modifies this, model.storage
      ensures activeRoute == old(activeRoute) && lastActiveRoute == old(lastActiveRoute)
      ensures model.storage.todos == ToggleState(old(model.storage.todos), ids, completed)
      ensures rendered == old(rendered) + ToggleLog(ids, completed)
    {
      ghost var s0, r0 := model.storage.todos, rendered;
      assert ids[0..] == ids;
      var k := 0;
      while k < |ids|
        invariant 0 <= k <= |ids|
        invariant activeRoute == old(activeRoute) && lastActiveRoute == old(lastActiveRoute)
        invariant ToggleState(s0, ids, completed) == ToggleState(model.storage.todos, ids[k..], completed)
        invariant rendered == r0 + ToggleLog(ids[..k], completed)
      {
        ToggleNext(ids, k, completed, ToggleState(s0, ids, completed), r0);
        k := k + 1;
      }
      assert ids[k..] == [] && ids[..k] == ids;
    }

    /**
     * One pass of the toggle loop: sets `completed` on `ids[k]`, so that toggling the rest
     * still leads to `goal` and the log grows by one command past `r0`.
     */
    method ToggleNext(ids: seq<int>, k: nat, completed: bool, ghost goal: seq<Todo>, ghost r0: seq<Command>)
      requires k < |ids|
      requires goal == ToggleState(model.storage.todos, ids[k..], completed)
      requires rendered == r0 + ToggleLog(ids[..k], completed)
      modifies this, model.storage
      ensures activeRoute == old(activeRoute) && lastActiveRoute == old(lastActiveRoute)
      ensures goal == ToggleState(model.storage.todos, ids[k + 1..], completed)
      ensures rendered == r0 + ToggleLog(ids[..k + 1], completed)
    {
      ToggleStep(model.storage.todos, ids, k, completed);
      ToggleLogSnoc(ids, k, completed);
      AppendAssoc(r0, ToggleLog(ids[..k], completed), [ElementComplete(ids[k], completed)]);
      var _ := ToggleComplete(ids[k], completed, true);
    }

    /** Sends the counts to the view. */
    method UpdateCount()
      modifies this
      ensures rendered == old(rendered) + CountCommands(CountOf(model.storage.todos))
      ensures activeRoute == old(activeRoute) && lastActiveRoute == old(lastActiveRoute)
    {
      var todos := model.GetCount();
      rendered := rendered + [UpdateElementCount(todos.active)];
      rendered := rendered + [ClearCompletedButton(todos.completed, todos.completed > 0)];
      rendered := rendered + [ToggleAll(todos.completed == todos.total)];
      rendered := rendered + [ContentBlockVisibility(todos.total > 0)];
    }

    /** Refreshes the counts and re-renders the list for the active route when needed. */
    method Filter(force: bool) returns (ok: bool)
      modifies this
      ensures activeRoute == old(activeRoute)
      ensures ok == Ready(activeRoute)
      ensures lastActiveRoute == LastAfter(activeRoute, old(lastActiveRoute))
      ensures rendered == old(rendered) + FilterLog(model.storage.todos, activeRoute, old(lastActiveRoute), force)
    {
      if activeRoute == "" {
        return false;
      }
      var route := Capitalize(activeRoute);
      UpdateCount();
      if force || lastActiveRoute != "All" || lastActiveRoute != route {
        if route == "All" {
          MatchingAll(model.storage.todos, AnyTodo);
          ShowAll();
        } else if route == "Active" {
          ShowActive();
        } else if route == "Completed" {
          ShowCompleted();
        } else {
          return false;
        }
      }
      lastActiveRoute := route;
      ok := true;
    }

    /** Stores the route of `currentPage`, refreshes the list and marks the filter selected. */
    method UpdateFilterState(currentPage: string) returns (ok: bool)
      modifies this
      ensures activeRoute == RouteOf(currentPage)
      ensures ok == Ready(activeRoute)
      ensures lastActiveRoute == LastAfter(activeRoute, old(lastActiveRoute))
      ensures rendered == old(rendered) +
        FilterLog(model.storage.todos, activeRoute, old(lastActiveRoute), false) +
        (if ok then [SetFilter(currentPage)] else [])
    {
      activeRoute := currentPage;
      if currentPage == "" {
        activeRoute := "All";
      }
      ok := Filter(false);
      if ok {
        rendered := rendered + [SetFilter(currentPage)];
      }
    }
  }
}
