# A verified model of the todo-list application core

The application keeps a list of tasks (an id, a title, a completed flag) in the
browser's local storage and shows it through a view. Four pieces make up its
core, and each is a module here:

- `Storage` (js/store.js): the named collection, its queries, and insert, update,
  remove and drop. `Store` is a class whose `todos` field is the stored sequence.
  Pure functions (`Matching`, `UpdateFirst`, `SpliceRemove`) say what each method
  does to that sequence. `WithoutIds` is the reference removal: `SpliceRemove`,
  the loop `remove` runs, is proved equal to it when ids are unique, and differs
  from it on adjacent records with one id.
- `TodoModel` (js/model.js): the facade over the store. It supplies the defaults
  for a new task, dispatches the three shapes of `read`, and counts active,
  completed and all records in one pass.
- `Control` (js/controller.js): the controller. It turns view events into model
  calls and render commands. The view becomes a field `rendered`, the log of
  every `Command` sent to it. A JavaScript exception ends the current event; here
  it is the result `ok == false`, and nothing after it happens. Three things throw:
  - an unset route, because `_filter` then calls `charAt` on `undefined`
    (js/controller.js:255) before it renders anything;
  - an unknown route, because `this['show' + route]` is then not a function
    (js/controller.js:265); the count commands have been rendered by then;
  - a missing record in `editItem`/`editItemCancel`, because `data[0]` is then
    undefined.
- `Template` (js/template.js): HTML escaping of titles, the list-item markup of a
  task, the counter text and the clear-completed label.

`Todos` holds the shared records and queries. `Strings` holds the JavaScript
string operations the core uses: `String.prototype.trim` with ECMAScript's full
whitespace set, and integer-to-decimal conversion.

Things the source takes from the outside world become parameters:
- The clock reading that `save` uses as a new id is the parameter `newId`.
- The browser storage is a `Database` map, handed to the `Store` constructor.
- The store calls every callback synchronously, so each callback is modelled as
  the step that follows the store call.

Facts proved about this model:
- Removal and toggling: with unique ids and a route that names a show method,
  `removeCompletedItems` leaves exactly the active records, in order (under an
  unknown route the first removal's `_filter` throws, and the rest are kept).
  `toggleAll(c)` sets `completed == c` on every record and changes nothing else.
  Every controller operation keeps ids unique; for `addItem` that needs the clock
  reading used as the new id not to be stored already.
- Queries: `find` returns the matching records in stored order, and matching
  distributes over concatenation. The count commands tell the view:
  - the number of active records;
  - whether any record is completed;
  - whether all records are;
  - whether there is any record at all.
- Escaping: `escape` leaves a string unchanged exactly when it has none of the six
  special characters. Its output holds none of `< > " ' \``. Unescaping gives the
  title back.
- Rendering: `show` concatenates the items its four `replace` calls build, one per
  task. When no title holds a `$`, that is exactly the intended markup: the
  escaped title shown verbatim (see "## Findings" for the other case).
- Text helpers: the counter text reads back to its number. Trimming is
  idempotent, and blank exactly when every character is whitespace.

The re-render test of `_filter` (`force || last !== 'All' || last !== route`) is
modelled as written. The comment above it (js/controller.js:260-263) says the
list is recreated when the last route is not "All" or when the route changes.
The test does exactly that: it redraws unless it is not forced and both the last
route and the current one are "All" (`Control.Redraws`).

## Model

| member | source | states |
|---|---|---|
| `Todos.Matches` | js/store.js:50-55 | a record matches a query when it agrees with every field the query names; fields the query leaves out are not compared |
| `Todos.Merge` | js/store.js:99-101 | each field the patch carries replaces the record's field; the id and every field the patch leaves out are kept |
| `Todos.AppendAssoc` | js/template.js:94 | text and logs built by appending can be regrouped freely; a lemma used by the proofs |
| `Storage.Initialize` | js/store.js:18-24 | the named collection exists afterwards; an existing one is kept, a missing one starts empty; no other collection changes |
| `Storage.InitializeIdempotent` | js/store.js:18-24 | opening the same collection twice is the same as opening it once |
| `Storage.Matching` | js/store.js:49-56 | a record is in the result exactly when it is stored and agrees with every field of the query; the result is no longer than the collection |
| `Storage.MatchingAppend` | js/store.js:49-56 | filtering keeps stored order: it distributes over concatenation |
| `Storage.MatchingNone` | js/store.js:49-56 | when no record matches, the result is empty |
| `Storage.MatchingAll` | js/store.js:50-55 | when every record matches (as with the empty query), the whole collection is returned |
| `Storage.MatchingCompletedPartition` | js/store.js:49-56 | the completed and the not-completed records together number the whole collection |
| `Storage.IndexOfId` | js/store.js:97-98 | the position found holds the id and no earlier position does; with no position, no record has the id |
| `Storage.UpdateFirst` | js/store.js:95-104 | the length is kept; only the first record with the id is merged with the patch; an absent id changes nothing |
| `Storage.UpdateUnique` | js/store.js:95-104 | with unique ids the update touches exactly the record carrying the id, and the set of ids and their uniqueness are kept |
| `Storage.WithoutIds` | js/store.js:127-146 | reference removal: a record survives exactly when it is stored and its id is not among those removed |
| `Storage.WithoutNothing` | js/store.js:127-146 | removing ids no record carries changes nothing |
| `Storage.WithoutIdsTwice` | js/controller.js:187-189 | removing in two rounds is removing the union at once |
| `Storage.WithoutIdsUnique` | js/store.js:138-142 | removal keeps ids unique |
| `Storage.SpliceRemove` | js/store.js:138-142 | the forward splice loop as written never lengthens the collection |
| `Storage.SpliceRemoveAbsent` | js/store.js:132-142 | removing an id no record carries leaves the collection unchanged |
| `Storage.SpliceRemoveUnique` | js/store.js:127-146 | with unique ids the splice loop removes exactly the record with the id and keeps the others in order |
| `Storage.SpliceRemoveSkipsAdjacent` | js/store.js:138-142 | with two adjacent records of one id the loop removes only the first, while the reference removal removes both |
| `Storage.Store.constructor` | js/store.js:13-27 | the store reads its collection from storage, empty when it was absent |
| `Storage.Store.Find` | js/store.js:42-57 | the scan returns exactly the matching records in stored order |
| `Storage.Store.FindAll` | js/store.js:64-67 | returns the stored collection |
| `Storage.Store.Save` | js/store.js:78-119 | with an id: the first record carrying it is merged with the data and the whole collection is returned; without: a new record with the clock id is appended and returned alone |
| `Storage.Store.Remove` | js/store.js:127-146 | the two loops leave the collection the splice-remove function gives and return it |
| `Storage.Store.Drop` | js/store.js:153-157 | the collection becomes empty and the empty collection is returned |
| `TodoModel.CountOf` | js/model.js:96-115 | the counts of a collection: how many records are not completed, how many are, and how many there are |
| `TodoModel.CountOfSnoc` | js/model.js:104-112 | one more record raises the total and exactly one of the active and completed counts |
| `TodoModel.CountIdentity` | js/model.js:104-112 | active plus completed equals total |
| `TodoModel.NewTodo` | js/model.js:20-27 | a new task carries the given id, the trimmed title (empty when missing), and is not completed |
| `TodoModel.Model.constructor` | js/model.js:10-12 | the model keeps the store it is given |
| `TodoModel.Model.Create` | js/model.js:20-30 | appends the new task and returns it |
| `TodoModel.Model.Read` | js/model.js:45-58 | no query gives the whole collection, an id gives the records with that id, a field filter gives the matching records |
| `TodoModel.Model.Update` | js/model.js:68-70 | merges the data into the first record with the id and returns the collection |
| `TodoModel.Model.Remove` | js/model.js:78-80 | removes as the store's remove does and returns the collection |
| `TodoModel.Model.RemoveAll` | js/model.js:87-89 | the collection becomes empty |
| `TodoModel.Model.GetCount` | js/model.js:96-115 | the one-pass loop yields the active, completed and total counts of the collection, and active plus completed equals total |
| `TodoModel.ReadByIdUnique` | js/model.js:52-54 | with unique ids, reading by id finds at most one record, and finds one exactly when the id is stored |
| `TodoModel.MatchingUniqueShape` | js/model.js:52-54 | with unique ids, at most one record matches an id query |
| `Strings.IsWs` | js/model.js:25 | the characters `trim` removes: the WhiteSpace and LineTerminator characters of ECMAScript |
| `Strings.Trim` | js/model.js:25 | `String.prototype.trim`: the title without its leading and trailing runs of those characters |
| `Strings.StrippedUnique` | js/model.js:25 | removing maximal runs at both ends can give only one result |
| `Strings.LeadingRun` | js/model.js:25 | the index reached from a start position skips only stripped characters and stops at a kept one or the end |
| `Strings.TrailingRun` | js/model.js:25 | the index reached backwards skips only stripped characters and stops at the lower bound or after a kept one |
| `Strings.TrimIsStripped` | js/model.js:25 | trimming always removes a maximal run at each end: what it removes is stripped and what it keeps starts and ends with a kept character |
| `Strings.TrimByIsStripped` | js/model.js:25 | trimming removes exactly the maximal runs of whitespace at both ends |
| `Strings.TrimByClean` | js/model.js:25 | a string with no whitespace at its ends is left as it is |
| `Strings.TrimByIdempotent` | js/model.js:25 | trimming twice is trimming once |
| `Strings.TrimEmptyIff` | js/controller.js:99-101 | a title is rejected as blank exactly when every character is whitespace |
| `Strings.SpacesAreNotAllWhitespace` | js/controller.js:125-133 | editItemSave's loops strip only spaces: a tab-only title survives them although trim would empty it |
| `Strings.NatToDecimal` | js/template.js:89 | a number's decimal numeral is non-empty and made only of digits |
| `Strings.IntToDecimal` | js/template.js:89 | the id as `replace` converts it to text: a minus sign for a negative number, then the decimal numeral of its magnitude |
| `Strings.DecimalRoundTrip` | js/template.js:111 | reading back a numeral gives the number it was made from |
| `Control.CountCommands` | js/controller.js:239-246 | the four commands _updateCount renders for the counts: the active count, the clear button with its visibility, the toggle-all state and the list visibility |
| `Control.CountCommandsMeaning` | js/controller.js:236-248 | the count commands carry the number of active records, show the clear button exactly when some record is completed, check toggle-all exactly when all are, and show the list exactly when it is non-empty |
| `Control.Capitalize` | js/controller.js:255 | the route with its first letter upper-cased and the rest kept |
| `Control.ShowQuery` | js/controller.js:265 | the filter of the show method `this['show' + route]` names, or none when no such method exists |
| `Control.FilterLog` | js/controller.js:254-269 | the commands one _filter run renders: nothing for an unset route; otherwise the count commands, then the list of the route when the re-render test holds and the route names a show method |
| `Control.LastAfter` | js/controller.js:268 | the last route after _filter: the capitalised route when the run does not throw, the old one otherwise |
| `Control.Redraws` | js/controller.js:264 | the list is redrawn unless it is not forced and both the last and the current route are "All" |
| `Control.RoutePage` | js/controller.js:55-56 | `locationHash.split('/')[1] \|\| ''`: the text between the first and the second '/', empty without a '/' |
| `Control.RouteOf` | js/controller.js:279-283 | the route _updateFilterState stores: "All" for the empty page, the page otherwise |
| `Control.UntilSlash` | js/controller.js:55 | the result is the longest prefix without '/', followed by '/' or by the end |
| `Control.RoutePageOf` | js/controller.js:55-56 | the page is the text between the first and the second '/' |
| `Control.UntilSlashOf` | js/controller.js:55 | a slash-free page followed by '/' or by the end is read back whole |
| `Control.RouteDefault` | js/controller.js:55-56 | an empty hash and "#/" both lead to the route "All" |
| `Control.RouteActive` | js/controller.js:55-56 | "#/active" leads to the route "active" |
| `Control.RouteCompleted` | js/controller.js:55-56 | "#/completed" leads to the route "completed" |
| `Control.RouteFilters` | js/controller.js:64-89 | the routes All, active and completed render all records, the active ones and the completed ones |
| `Control.RemovalState` | js/controller.js:187-189 | the collection after removeItem on each id in turn; after a throw nothing more is removed |
| `Control.RemoveItemLog` | js/controller.js:174-178 | the commands one removeItem renders: the removeItem command for the id, then what the unforced filter run renders |
| `Control.RemovalLog` | js/controller.js:187-189 | the commands removeItem on each id in turn renders, up to and including the run that throws |
| `Control.ToggleState` | js/controller.js:224-226 | the collection after the silent toggleComplete on each id in turn |
| `Control.ToggleLog` | js/controller.js:224-226 | one elementComplete command per toggled id, in order |
| `Control.IdAmongMatches` | js/controller.js:186-189 | with unique ids, a record's id is among the ids of the matches exactly when the record matches |
| `Control.RemoveOneUnique` | js/controller.js:174-176 | with unique ids one removal removes that id's record and keeps ids unique |
| `Control.RemovalStateUnique` | js/controller.js:184-193 | removing one by one keeps ids unique, and when the route does not throw it removes the whole set of ids |
| `Control.WithoutCompleted` | js/controller.js:184-193 | removing exactly the completed records' ids leaves the active records in order |
| `Control.RemoveCompletedEffect` | js/controller.js:184-193 | with unique ids and a working route, removeCompletedItems leaves exactly the active records, in order, with ids unique |
| `Control.ToggleStateUnique` | js/controller.js:221-227 | with unique ids, toggling one by one sets the flag on exactly the listed records and keeps length and unique ids |
| `Control.ToggleAllEffect` | js/controller.js:221-230 | with unique ids, toggleAll(c) leaves every record completed == c and changes nothing else |
| `Control.AppendFresh` | js/store.js:113-115 | appending a record with an id not yet stored keeps ids unique |
| `Control.StripEdgeSpaces` | js/controller.js:125-131 | the two loops remove exactly the leading and the trailing runs of spaces |
| `Control.Controller.constructor` | js/controller.js:11-14 | a new controller has no route, no last route and has rendered nothing |
| `Control.Controller.SetView` | js/controller.js:54-58 | stores the route of the hash's page and refreshes as _updateFilterState does |
| `Control.Controller.ShowAll` | js/controller.js:64-69 | renders every record |
| `Control.Controller.ShowActive` | js/controller.js:74-79 | renders the records not completed |
| `Control.Controller.ShowCompleted` | js/controller.js:84-89 | renders the completed records |
| `Control.Controller.AddItem` | js/controller.js:96-107 | a blank title changes nothing; otherwise the trimmed task is appended, the input is cleared and a forced refresh follows; a fresh id keeps ids unique |
| `Control.Controller.EditItem` | js/controller.js:112-117 | enters edit mode with the stored title, and throws exactly when no record has the id |
| `Control.Controller.EditItemSave` | js/controller.js:122-140 | a title with something left after stripping edge spaces is saved and shown; otherwise the record is removed as removeItem does; ids stay unique |
| `Control.Controller.EditItemCancel` | js/controller.js:145-150 | leaves edit mode showing the stored title, and throws exactly when no record has the id |
| `Control.Controller.RemoveItem` | js/controller.js:158-179 | removes the record, renders its removal, then refreshes; ids stay unique |
| `Control.Controller.RemoveCompletedItems` | js/controller.js:184-193 | calls removeItem for each completed record in order, stopping at a throw, then refreshes; with unique ids and a working route exactly the active records remain |
| `Control.Controller.RemoveEach` | js/controller.js:187-189 | the loop's final collection and log are those of removing the ids one by one |
| `Control.Controller.RemoveNext` | js/controller.js:188 | one removeItem call keeps the loop's way to the final collection and log, or reaches them when the route throws |
| `Control.Controller.ToggleComplete` | js/controller.js:203-215 | merges the flag into the record and renders it; refreshes unless silent; ids stay unique |
| `Control.Controller.ToggleAllItems` | js/controller.js:221-230 | silently toggles every record whose flag differs, then refreshes; with unique ids every record ends with the new flag and nothing else changes |
| `Control.Controller.ToggleEach` | js/controller.js:224-226 | the loop's final collection and log are those of toggling the ids one by one |
| `Control.Controller.ToggleNext` | js/controller.js:225 | one silent toggleComplete call keeps the loop's way to the final collection and adds one command to the log |
| `Control.Controller.UpdateCount` | js/controller.js:236-248 | renders the four count commands of the collection |
| `Control.Controller.Filter` | js/controller.js:254-269 | refreshes the counts, redraws the list of the active route when the re-render test holds, and records the route; throws on an unset route before the counts and on an unknown route after them |
| `Control.Controller.UpdateFilterState` | js/controller.js:274-288 | stores the page as route ("All" for the empty page), refreshes, then marks the filter selected unless the refresh threw |
| `Template.EscapeChar` | js/template.js:9-16 | the entity of each of the six special characters; any other character stands for itself |
| `Template.ReplaceEach` | js/template.js:38 | every special character replaced by its entity |
| `Template.Escape` | js/template.js:36-40 | the replacement applied only when the string is non-empty and has a special character, the string itself otherwise |
| `Template.ReplaceEachPlain` | js/template.js:36-40 | a string without special characters is not changed by the replacement |
| `Template.EscapeIsReplaceEach` | js/template.js:36-40 | the has-special-character shortcut does not change the result of escaping |
| `Template.ReplaceEachAppend` | js/template.js:38 | escaping distributes over concatenation |
| `Template.ReplaceEachGrows` | js/template.js:36-40 | escaping never shortens a string and lengthens every string with a special character |
| `Template.EscapeUnchangedIff` | js/template.js:36-40 | escaping leaves a string unchanged exactly when it has none of the six special characters |
| `Template.ReplaceEachSafe` | js/template.js:9-16 | replaced text holds none of the markup characters |
| `Template.EscapeSafe` | js/template.js:9-40 | escaped text holds none of `<`, `>`, `"`, `'` or the backquote |
| `Template.UnescapePlain` | js/template.js:9-16 | a character other than '&' reads back as itself |
| `Template.UnescapeEntity` | js/template.js:9-16 | each entity of the table reads back as its character |
| `Template.UnescapeReplaceEach` | js/template.js:9-16 | reading the entities back undoes the replacement |
| `Template.UnescapeEscape` | js/template.js:36-40 | escaping loses nothing: the title can be read back |
| `Template.ReplaceEachNoDollar` | js/template.js:38 | escaping adds no '$' |
| `Template.GetSubstitution` | js/template.js:89-92 | the replacement text `replace` inserts for a string replacement: `$$`, `$&`, `` $` `` and `$'` expanded, every other character kept |
| `Template.ReplaceFirst` | js/template.js:89-92 | `s.replace(pat, rep)` with string arguments: only the first occurrence is replaced, by the expanded replacement |
| `Template.IndexOfFrom` | js/template.js:89-92 | the position found is the first occurrence of the pattern from the start position; with none, the pattern does not occur |
| `Template.GetSubstitutionPlain` | js/template.js:89-92 | a replacement without '$' is inserted as it is |
| `Template.DefaultTemplate` | js/template.js:47-56 | the list-item markup with its four placeholders |
| `Template.CompletedClass` | js/template.js:81-87 | the class word: "completed" for a completed task, empty otherwise |
| `Template.CheckedAttr` | js/template.js:81-87 | the checkbox attribute: "checked" for a completed task, empty otherwise |
| `Template.FragmentAsWritten` | js/template.js:80-92 | one list item as the four `replace` calls build it from the default markup |
| `Template.FragmentAsWrittenShape` | js/template.js:89-92 | the four replace calls fill the id, class and checked slots, and put the title through replacement-pattern expansion |
| `Template.Fragment` | js/template.js:47-92 | the intended list item: the default markup with the decimal id, the class and checked words, and the escaped title filled in verbatim |
| `Template.FragmentShape` | js/template.js:47-92 | filling the slots verbatim gives the item markup with the decimal id, the class and checked words of a completed task, and the escaped title, which reads back to the title |
| `Template.FragmentAsWrittenAgrees` | js/template.js:89-92 | for a title without '$' the replace calls give exactly the intended markup |
| `Template.DollarTitleMisrendered` | js/template.js:90 | the title "$$" is rendered as "$" by the code as written |
| `Template.AmpersandTitleMisrendered` | js/template.js:90 | the title "$&" is escaped to "$&amp;", whose `$&` expands to the placeholder, so the label reads "{{title}}amp;" |
| `Template.ShowAsWritten` | js/template.js:79-95 | the view the loop of show builds: the as-written items of the tasks, in order |
| `Template.ShowAsWrittenAgrees` | js/template.js:79-95 | when no title holds a `$`, show renders the intended markup |
| `Template.ShowDollarMisrendered` | js/template.js:79-95 | a one-task list titled "$$" is rendered other than intended |
| `Template.ShowSpec` | js/template.js:79-95 | the intended view: the intended items of the tasks concatenated in list order, empty for no task |
| `Template.ShowSpecSnoc` | js/template.js:79-95 | one more task adds its fragment at the end of the view |
| `Template.ShowSpecAppend` | js/template.js:79-95 | the view of a concatenation is the concatenation of the views |
| `Template.ShowSpecSplit` | js/template.js:79-95 | a task's fragment sits in the view between the views of the tasks before and after it |
| `Template.Show` | js/template.js:75-98 | the loop yields the items the replace calls build for all tasks, in order, and for titles without `$` that is the intended markup |
| `Template.ItemCounter` | js/template.js:107-112 | the count, then " item" for exactly one task and " items" otherwise, then " left" |
| `Template.LeadingDigits` | js/template.js:111 | the result is the longest prefix made of digits |
| `Template.LeadingDigitsOf` | js/template.js:111 | digits followed by a non-digit are read back whole |
| `Template.ItemCounterReadsBack` | js/template.js:107-112 | the counter text starts with the number, which reads back, followed by " item left" for one and " items left" otherwise |
| `Template.ItemCounterOne` | js/template.js:107-112 | one task gives "1 item left" and none gives "0 items left" |
| `Template.ClearCompletedButton` | js/template.js:121-127 | the label is non-empty exactly when some task is completed, and then reads "Clear completed" |
| `Template.ClearCompletedShownIff` | js/template.js:121-127 | given the counts of a collection, the label shows exactly when some record is completed |

## Left out

- view.js is not part of this model. The draw commands the controller sends are
  kept in the `rendered` log. The DOM, templates in the page and event wiring are
  not modelled.
- The event bindings of the controller's constructor (js/controller.js:16-46) are
  left out. Each handler is a method that is called directly.
- localStorage and the JSON round trip: the stored collection is kept as a
  sequence of records. `JSON.stringify`/`JSON.parse` are taken to return equal
  records.
- Callbacks: the store calls each one synchronously before returning, so the
  model runs the callback's work as the next step.
- `Store.find` without a callback returns at once (js/store.js:43-45). Every
  caller in the core passes one, so that path is not modelled.
- Record fields and query fields are limited to id, title and completed. These
  are the only ones the core reads or writes; the source's `for (key in ...)`
  loops take any key.
- Storage.Store.Save: the clock reading `new Date().getTime()` is the parameter
  `newId`. Uniqueness of ids is proved under the assumption that this reading is
  not already stored. On insert the model fills a field missing from the data with
  `""` or `false`, where the source stores the record without that key; every
  caller in the core (`model.create`) passes both title and completed.
- TodoModel.Model.Update: an id of 0 is falsy in JavaScript, so `save` would take
  the insert path. Ids are clock readings and never 0, so the model always takes
  the update path for an id.
- TodoModel.Model.Read: a string id is converted by `parseInt(query, 10)` in the
  source. The model receives the parsed number (`ById`).
- Storage.Store.Remove: the source compares ids with `==`, which would also match
  a string id against a number. All ids here are integers.
- Control.Capitalize: only ASCII letters are upper-cased. A route starting with
  any other letter never names a show method whichever way it is cased, so the
  outcome of `_filter` is the same.
- Control.Controller.Filter: an unset route (undefined in the source) is the
  empty string. `_updateFilterState` never stores the empty string, so the two
  cannot be confused.
- Strings.NatToDecimal: JavaScript prints numbers of 10^21 and above in
  exponent form. The model always writes plain digits, which matches every clock
  reading.
- Template.Escape: escaping of `undefined` or of non-string titles is not
  modelled. Every title here is a string, and the empty title returns itself as
  in the source.

## Findings

| source | as written | input that shows it | evidently intended | confidence | as-written member | corrected member |
|---|---|---|---|---|---|---|
| js/template.js:90 | `template.replace('{{title}}', escape(title))` passes the escaped title as a replacement string, so `$$` in it becomes `$`, and `$&` becomes the placeholder text; `$&` fires whenever a `$` precedes one of the six special characters, since every entity starts with `&` (`` $` `` and `$'` cannot occur, as escaping turns both characters into entities) | a task titled `$$` gets the label `$`; a task titled `$&` gets the label `{{title}}amp;` | the label shows the title's text, escaped and otherwise verbatim | not executed | `Template.DollarTitleMisrendered` | `Template.FragmentShape` |
