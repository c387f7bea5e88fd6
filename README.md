# Task controller of a multi-user task API, modelled in Dafny

The project models the task controller of a small REST API (`controllers/taskController.js`). Every user keeps their own tasks. The controller has six handlers:

- `getTasks` lists the caller's tasks. It filters by status, priority and a case-insensitive search term, sorts by one field in either direction, and returns one page with `count`, `total`, `page` and `pages`.
- `getTask`, `updateTask` and `deleteTask` first look a task up by id *and* owner. When that fails they answer "Task not found" and change nothing.
- `createTask` stores a new task owned by the caller.
- `getTaskStats` counts the caller's tasks and groups them by status and by priority into two maps.

The document store behind the controller is modelled as an in-memory sequence of task records:

- its `find`, `countDocuments`, sort, `skip`/`limit`, `findOne`, `findByIdAndUpdate`, `deleteOne` and `$group` are functions over that sequence;
- the handlers are methods of the class `Store.TaskStore`, whose `tasks` field they read and reassign.

Modules:

- `Tasks` (tasks.dfy): the task record, sort keys ordered by the store's type order (missing < string < object id < date), and the case-insensitive substring test used by `search`.
- `Listing` (listing.dfy):
  - the request and the filter descriptor, built field by field;
  - `find` and `countDocuments`;
  - the sort: the store may return the selected tasks in any sorted permutation, possibly a different one for each request; an insertion sort supplies one such order;
  - the page window and `Math.ceil(total / limit)`;
  - the listing response for any such order, and walking all its pages.
- `Stats` (stats.dfy): the group-by rows, the `forEach` fold into a map, the reference count maps and the sum of their values, and the statistics response.
- `Store` (store.dfy): owner-scoped lookup, the store class with the six handlers, and tenant isolation. A user's observations (listing, lookup, statistics) depend only on that user's own tasks. Another user's create, update or delete leaves them unchanged, other than an update that hands the task to that user.

Two points where the model follows what the code does:

- The code passes the request body to `findByIdAndUpdate` unfiltered (controllers/taskController.js:126-133), so an update can change `user`. `Store.Patch` therefore carries an optional `user`, and `Store.Apply` honours it. The isolation lemmas only exclude an update that hands a task *to* the observing user.
- The statistics maps are meant to add up to `total`. As written they do not (see Findings). `Stats.StatsAsWritten` models the handler as written. `Store.TaskStore.GetTaskStats` and `Stats.StatsOf` model the corrected pipeline, for which the sums are proved.

## Model

| member | source | states |
|---|---|---|
| Tasks.ContainsIgnoringCase | controllers/taskController.js:22-27 | the search test holds exactly when some window of the text equals the term up to letter case |
| Tasks.SearchIgnoresTermCase | controllers/taskController.js:24-25 | with the `i` option, two terms that differ only in letter case select the same texts |
| Tasks.KeyOf | controllers/taskController.js:30-31 | the sort key of a task under `sortBy`: missing exactly when the field is not one a task record has, or is the unset `description` or `dueDate` |
| Tasks.TextLe | controllers/taskController.js:36 | strings compare character by character; a prefix, the string itself included, sorts before the strings it begins |
| Tasks.KeyLe | controllers/taskController.js:36 | keys of different kinds compare by the store's type order (missing, string, object id, date), keys of one kind by value; every key sorts with itself |
| Tasks.KeyLeTotal | controllers/taskController.js:30-36 | any two sort keys are comparable, so a sort by any field is well defined |
| Tasks.KeyLeTransitive | controllers/taskController.js:30-36 | the key order is transitive, so sorted output is ordered pairwise and not only between neighbours |
| Tasks.KeyLeAntisymmetric | controllers/taskController.js:36 | two keys that sort both ways are equal, so only tasks with equal keys are tied |
| Listing.BuildQuery | controllers/taskController.js:11-27 | builds the filter descriptor one condition at a time. The descriptor matches a task iff the task is the caller's and passes every status/priority/search filter that is present and non-empty |
| Listing.QueryOf | controllers/taskController.js:11-27 | the filter descriptor is scoped to the caller and matches exactly the tasks the request asks for |
| Listing.SortOf | controllers/taskController.js:30-31 | the sort field is `sortBy` when present, even when empty, and `createdAt` otherwise; the sort is ascending exactly when `sortOrder` is `asc` |
| Listing.Find | controllers/taskController.js:35 | `find` returns at most the stored tasks, each a stored task that matches the filter |
| Listing.FindMultiplicity | controllers/taskController.js:35 | `find` returns each matching task as often as the store holds it, and no other task |
| Listing.FindAppend | controllers/taskController.js:35 | `find` over two concatenated stores is the concatenation of the two results |
| Listing.CountDocuments | controllers/taskController.js:41 | `countDocuments` equals the number of tasks `find` returns for the same filter |
| Listing.Insert | controllers/taskController.js:36 | inserting into a sorted sequence gives a sorted sequence with exactly one more occurrence of the task |
| Listing.SortTasks | controllers/taskController.js:36 | the sort returns a sorted permutation of its input; tie order is left open |
| Listing.Page | controllers/taskController.js:34-38 | `skip`/`limit` return at most `limit` items, all taken from the sorted listing |
| Listing.PageShape | controllers/taskController.js:34-38 | a page holds `min(limit, max(0, n - skip))` items: the items from position `skip` on, in order |
| Listing.PageSorted | controllers/taskController.js:36-38 | a page of a sorted sequence is sorted |
| Listing.CeilDiv | controllers/taskController.js:48 | there are no pages exactly when there are no matching tasks |
| Listing.CeilDivIsLeastCover | controllers/taskController.js:48 | `pages` is the least number of `limit`-sized pages that hold `total` items |
| Listing.StoreOrder | controllers/taskController.js:35-36 | the orders the store may return for `find(query).sort(sort)`: exactly the matching tasks, as often as stored, sorted by the request's sort; tied tasks in any order |
| Listing.StoreOrderLength | controllers/taskController.js:35-41 | every such order lists as many tasks as `countDocuments` counts for the same filter |
| Listing.Ordered | controllers/taskController.js:35-36 | for every store and request there is an order the store may use: a sorted permutation of the matching tasks |
| Listing.StoreOrderContents | controllers/taskController.js:35-36 | before paging, any order the store may use holds every task the request selects, as often as stored, and nothing else |
| Listing.ListTasksIn | controllers/taskController.js:34-48 | the response when the store returns the matches in a given order: its tasks come from that order, `count` is their number and at most `limit`, `total` is `countDocuments`, `page` is echoed and `pages == ceil(total/limit)` |
| Listing.ListTasks | controllers/taskController.js:34-48 | the listing response: only the caller's stored tasks that pass the filters, `count` the page size and at most `limit`, `total` the count of all matches, `page` echoed and `pages == ceil(total/limit)` |
| Listing.ListTasksSelects | controllers/taskController.js:11-38 | whatever order the store uses, every returned task is a stored task of the caller that passes the given status, priority and search filters |
| Listing.ListTasksWindow | controllers/taskController.js:34-48 | whatever order the store uses, `tasks` is the slice of that order starting at `(page-1)*limit`. `total` is the order's length and `count == min(limit, max(0, total - skip)) <= limit`. `page` is echoed and `pages == ceil(total/limit)` |
| Listing.ListTasksSorted | controllers/taskController.js:30-36 | whatever order the store uses, returned tasks are ordered by `sortBy` (default `createdAt`): non-decreasing for `sortOrder == "asc"`, non-increasing otherwise |
| Listing.InOrderAntisymmetric | controllers/taskController.js:36 | two tasks that may come in either order have equal sort keys |
| Listing.SortedPermutationUnique | controllers/taskController.js:36 | when no two selected tasks share a sort key, there is only one sorted permutation, so every request sees the same order |
| Listing.SkipNext | controllers/taskController.js:34 | the next page starts `limit` items later |
| Listing.PagesArePrefix | controllers/taskController.js:34-38 | pages 1..n one after the other are the first `n*limit` items of the listing |
| Listing.AllPagesAreWhole | controllers/taskController.js:34-48 | pages 1..`pages` together are the whole listing |
| Listing.PageCountsArePagesLength | controllers/taskController.js:45 | the item counts of pages 1..n add up to the length of those pages together |
| Listing.WalkCountsArePageCounts | controllers/taskController.js:45 | whatever order each page request sees, the `count`s of pages 1..n add up to the sizes of pages 1..n of one fixed order |
| Listing.WalkTasksArePages | controllers/taskController.js:34-38 | when every page request sees the same order, pages 1..n one after the other are pages 1..n of that order |
| Listing.AllPagesCoverListing | controllers/taskController.js:34-48 | whatever order each page request sees, the `count`s of pages 1..`pages` add up to `total`. When no two selected tasks share a sort key, the pages together are the whole listing, in order, each task once |
| Listing.TiedPairOrders | controllers/taskController.js:36 | two tasks of one user with equal `createdAt` may be listed in either order |
| Listing.TiesCanRepeatTasks | controllers/taskController.js:34-38 | with such a tie and one task per page, the store may return the same task on both pages and the other on neither |
| Stats.CountWithPositive | controllers/taskController.js:183 | a value has a positive count iff some task holds it |
| Stats.DistinctValues | controllers/taskController.js:183 | the group keys: each value present, once |
| Stats.Group | controllers/taskController.js:181-189 | the group-by gives one row per value present, with distinct keys and a positive count equal to the number of tasks holding the value |
| Stats.FoldRows | controllers/taskController.js:192-200 | the `forEach` fold gives a map whose keys are the row keys and whose value at each key is that row's count |
| Stats.CountMap | controllers/taskController.js:192-200 | the reference statistics map; every count in it is positive |
| Stats.CountMapCons | controllers/taskController.js:183 | one more task raises its value's count by one, or adds the value with count one |
| Stats.CountMapSum | controllers/taskController.js:181-200 | the counts of a statistics map add up to the number of tasks grouped |
| Stats.FoldedGroupIsCountMap | controllers/taskController.js:192-200 | folding the group-by rows yields the reference count map |
| Stats.OwnedByMembers | controllers/taskController.js:179 | the caller's tasks are exactly the stored tasks the caller owns |
| Stats.StatsOf | controllers/taskController.js:177-209 | the corrected statistics: `total` is the number of the caller's tasks and every map count is positive |
| Stats.StatsConsistent | controllers/taskController.js:177-209 | `total` is the number of the caller's tasks. Each map has a key exactly for the values present, each count is positive, and each map's counts add up to `total` |
| Stats.MatchUser | controllers/taskController.js:182 | the `$match` stage keeps only stored tasks whose `user` equals the given value, in store order |
| Stats.StatsAsWritten | controllers/taskController.js:179-189 | the statistics as the handler computes them; its `total` agrees with the corrected one |
| Stats.StatsAsWrittenLosesGroups | controllers/taskController.js:181-189 | as written, both maps are empty whatever the store holds, so once the caller owns a task they no longer add up to `total` |
| Stats.MatchUserString | controllers/taskController.js:182 | the unconverted string id matches no stored task |
| Stats.MatchUserConverted | controllers/taskController.js:182 | with the id converted, the pipeline's match selects exactly the caller's tasks |
| Store.FindOne | controllers/taskController.js:61-64 | the owner-scoped lookup finds the first task with both that id and that owner, and finds none iff no task has both |
| Store.FindById | controllers/taskController.js:126-133 | the lookup by id alone finds a task with that id, and finds none iff no task has it |
| Store.FoundTask | controllers/taskController.js:61-71 | the found task is stored and has that id and that owner; nothing is found iff no stored task has both |
| Store.FindByIdAgrees | controllers/taskController.js:113-133 | with unique ids, the update by id touches the task the owner-scoped guard found |
| Store.NewTask | controllers/taskController.js:87-96 | a created task carries the body's fields, the given id, and the caller as owner |
| Store.Apply | controllers/taskController.js:126-133 | an update replaces exactly the fields present in the body, including `user`, and keeps the id and creation time |
| Store.RemoveAt | controllers/taskController.js:162 | removing one task leaves the store with exactly that occurrence fewer |
| Store.TaskStore.GetTasks | controllers/taskController.js:6-54 | the response is `Listing.ListTasks`: only the caller's stored tasks that pass the filters, sorted by the request's sort, the `(page-1)*limit` window of the sorted matches, `count <= limit`, `total` all matches, `pages == ceil(total/limit)` |
| Store.TaskStore.GetTask | controllers/taskController.js:59-80 | found iff the caller owns a task with that id; the found task is stored with that id and owner |
| Store.TaskStore.CreateTask | controllers/taskController.js:85-106 | appends exactly one task, owned by the caller, under an id no stored task has; ids stay unique |
| Store.TaskStore.UpdateTask | controllers/taskController.js:111-143 | not found and no change unless the caller owns a task with that id. Otherwise only that task changes, to the patched task, which is returned |
| Store.TaskStore.DeleteTask | controllers/taskController.js:148-172 | not found and no change unless the caller owns a task with that id. Otherwise exactly that task is removed and returned |
| Store.TaskStore.GetTaskStats | controllers/taskController.js:177-213 | the corrected pipeline (the caller's id converted to an object id in `$match`): the response is the caller's statistics, with positive counts and each map summing to `total`. The handler as written is `Stats.StatsAsWritten` |
| Store.RemoveKeepsUniqueIds | controllers/taskController.js:162 | deleting keeps ids unique and bounded, and no remaining task has the deleted id |
| Store.FindThroughOwner | controllers/taskController.js:11 | a filter scoped to an owner sees the store only through that owner's tasks |
| Store.FoundThroughOwner | controllers/taskController.js:61-64 | the owner-scoped lookup sees the store only through that owner's tasks |
| Store.ObservationsDependOnlyOnOwnTasks | controllers/taskController.js:11-213 | two stores that agree on a user's tasks allow the same store orders and give that user the same listing in each of them, for every request; they also give the same lookup for every id and the same statistics |
| Store.CreateOwnedBy | controllers/taskController.js:89-96 | a task created by another user leaves a user's tasks unchanged; one created by the user is appended to them |
| Store.UpdateOwnedBy | controllers/taskController.js:126-133 | updating another user's task, without handing it over, leaves a user's tasks unchanged |
| Store.DeleteOwnedBy | controllers/taskController.js:162 | deleting another user's task leaves a user's tasks unchanged |
| Store.OthersSeeNoChange | controllers/taskController.js:85-172 | one user's create, update or delete changes no other user's listing (in any order the store may use), lookup or statistics, other than an update that hands the task to that user |
| Store.DeletedIsGone | controllers/taskController.js:150-162 | after a successful delete, no user finds a task with that id |
| Store.CreatedIsFound | controllers/taskController.js:89-96 | a created task is found by its owner under its new id |

## Left out

- Tasks.ContainsIgnoringCase: the `search` term is used as a regular expression. The model treats it as a literal substring, so it agrees with the code only for terms without regular-expression metacharacters.
- Tasks.FoldChar: folds ASCII letters only. Unicode case folding is not modelled.
- Listing.ListRequest: `status`, `priority`, `search`, `sortBy` and `sortOrder` are modelled as single strings. The query parser can also deliver an array (a repeated key) or an object (a bracketed key). The handler passes either on unchanged. The store then reads an array on `status` or `priority` as "any of" and an object as query operators, and a non-string `search` makes the `$regex` cast fail, an error that goes to `next(error)`. The route's query validation (routes/tasks.js is not part of this model) is assumed to ensure single strings.
- Parsing and coercion of the query-string values `page` and `limit` is not modelled. They arrive as naturals, and `Listing.ValidPaging` requires both to be at least 1.
- `limit` 0 is not modelled. The code then calls `.limit(0)`, which the store reads as no limit, so every matching task comes back. `pages` is `Infinity` (`NaN` when `total` is 0), which the JSON reply writes as `null`.
- `page` 0 is not modelled. It asks for a negative skip, which the store refuses; the error goes to the error handler.
- Tasks.KeyOf: a `sortBy` that is present but empty, or that starts with `$` (other than `$natural`, which the store accepts and answers in insertion order or its reverse, one of the orders `Listing.StoreOrder` allows, since every task reads as missing under it), makes the store reject the sort with a field-path error, which goes to `next(error)`. The model reads every name that is not a task field as a missing key, so such a request gets a listing instead of an error. The version key `__v` that the document mapper adds by default is not a field of the model either; every task would hold the same value there, since no handler modelled here changes it, so a sort by `__v` lists the same tasks as the model's all-missing keys.
- An id that is not a well-formed object id makes the store raise a cast error, which goes to the error handler. Ids are modelled as naturals, so this path is absent.
- models/Task.js is not part of this model. Schema defaults, enumerations, required fields and the validators run by `runValidators: true` are therefore not modelled. A create or update always succeeds in the model.
- Timestamps: `createdAt` and `updatedAt` are set from a `now` parameter standing for the store's clock. The model assumes the schema keeps timestamps.
- Store.Patch: setting a field to null, and body fields the schema does not know, are not modelled.
- Concurrency is not modelled:
  - between the separate `find` and `countDocuments` calls;
  - between the guard `findOne` and `findByIdAndUpdate` (a concurrent delete would make the update return null);
  - between `findOne` and `deleteOne`.
- HTTP status codes, the `success` and `message` fields of the JSON envelope, `async`/`await` and `next(error)` are not modelled. Replies are `Found`/`NotFound`, the listing result, or the statistics record.
- The order among tasks with equal sort keys is left to the store, and may differ from one request to the next. The listing lemmas hold for every sorted permutation (`Listing.StoreOrder`). Walking all pages returns each task exactly once only when no two selected tasks share a sort key; `Listing.TiesCanRepeatTasks` shows a tie that breaks it. `Listing.ListTasks` and `Store.TaskStore.GetTasks` fix one permitted order, the insertion sort's.
- Store.TaskStore.DeleteTask: `task.deleteOne()` deletes by the loaded document's id. The model removes the position the owner-scoped lookup found, which is the same task because ids are unique.

## Findings

| source | as written | input that shows it | evidently intended | confidence | as-written member | corrected member |
|---|---|---|---|---|---|---|
| controllers/taskController.js:181-189 | the aggregation pipelines match `user` against `req.user.id`, a string. Aggregation pipelines get no schema casting, so if `user` is stored as an object id (models/Task.js is not part of this model), no task matches | a caller owning one task with status `pending` gets `total: 1, byStatus: {}, byPriority: {}` | the caller's id is converted to an object id, as `countDocuments` does, so the maps count the caller's tasks and sum to `total` | medium, not executed; depends on the schema's type for `user` | Stats.StatsAsWrittenLosesGroups | Stats.MatchUserConverted |
