# Todo store: a Dafny model

This project models the core of a small Java todo application that exists in two variants:

- **restapi** keeps its Todos in memory: a `HashSet<Todo>` guarded by a read/write lock.
- **pg-dbcp** keeps them in a PostgreSQL table `todos` reached through JDBC.

Both variants share one entity. A Todo has an id fixed at construction, plus a mutable title, description and done flag. Equality and hash code depend on the id alone. That is why the set behaves as a collection keyed by id.

Each variant has a repository (get-all, get-by-id, insert, update, delete-by-id, delete-all) and a service on top of it. The service offers pending and completed views, a lookup that answers null, delete-completed, and plain delegation for everything else.

The modules follow the program's structure:

- `JavaLang` (java_lang.dfy) holds the Java platform pieces the code relies on:
  - null and `Optional`, both as `Option`;
  - `Boolean.parseBoolean` with `String.equalsIgnoreCase`;
  - `String.hashCode` over the UTF-16 code units of the string, in 32-bit `int` arithmetic.
- `TodoModel` (todo.dfy) is the Todo class. `id` is a `const` because it has no setter. Each setter is a method that changes one field.
- `TodoFilters` (todo_filters.dfy) defines the stream filter both services use for their pending and completed views. It also proves that the two views partition the list they come from.
- `MemoryRepository` (memory_repository.dfy) is the restapi repository:
  - a class whose `todoStore: seq<Todo>` holds the references the `HashSet` holds;
  - `HashSet.add` and `HashSet.remove` use id equality, which is what `Todo.equals` gives;
  - the invariant `Valid()` says no two stored Todos share an id.
- `MemoryService` (memory_service.dfy) is the restapi service. `deleteCompletedTodos` is a loop over the completed snapshot, proved against a filter of the store.
- `SqlRepository` (sql_repository.dfy) is the pg-dbcp repository:
  - The table is a field `table: seq<Row>`.
  - Each SQL statement is given its effect on the rows.
  - `updateTodo` is modelled in full:
    - its guards;
    - the `StringBuilder` that writes `update todos set … where id = ?` under a `commaRequired` flag;
    - the `index++` parameter bindings;
    - what the executed statement does to the rows.
  - A ghost log `deleteRequests` records the argument of every `deleteTodoById` call. This makes "one delete per completed item" statable.
- `SqlService` (sql_service.dfy) is the pg-dbcp service. Its request id `contextId` is only passed on. No contract mentions it, so every `contextId` gives the same result and the same new state.

Every `getAll` of pg-dbcp builds fresh `Todo` objects from the rows it reads. The pg-dbcp views are therefore stated on the rows the Todos were read from (`RowsOf`).

## Model

Source paths (relative to the repository root):

- Todo: `pg-dbcp/src/main/java/pg/dbcp/model/Todo.java`
- in-memory repository: `restapi/src/main/java/restapi/repository/TodoRepository.java`
- restapi service: `restapi/src/main/java/service/TodoService.java`
- relational repository: `pg-dbcp/src/main/java/pg/dbcp/repository/TodoRepository.java`
- pg-dbcp service: `pg-dbcp/src/main/java/pg/dbcp/service/TodoService.java`

| member | source | states |
|---|---|---|
| TodoModel.Todo.constructor | pg-dbcp/src/main/java/pg/dbcp/model/Todo.java:10-24 | The Todo's id is the argument. Title and description start null and done starts false. `id` is a `const`, so every later `getId` returns the same id. |
| TodoModel.Todo.SetTitle | pg-dbcp/src/main/java/pg/dbcp/model/Todo.java:31-33 | Sets the title. Description and done are unchanged, and the id cannot change. |
| TodoModel.Todo.SetDescription | pg-dbcp/src/main/java/pg/dbcp/model/Todo.java:39-41 | Sets the description. Title and done are unchanged. |
| TodoModel.Todo.SetDone | pg-dbcp/src/main/java/pg/dbcp/model/Todo.java:47-49 | Sets the done flag. Title and description are unchanged. |
| TodoModel.Todo.Equals | pg-dbcp/src/main/java/pg/dbcp/model/Todo.java:51-59 | True exactly when the argument is a non-null Todo with the same id. Always true for the object itself. |
| TodoModel.EqualsIsIdEquality | pg-dbcp/src/main/java/pg/dbcp/model/Todo.java:51-59 | Two Todos are equal if and only if their ids are equal, whatever their other fields hold. |
| TodoModel.EqualsIsEquivalence | pg-dbcp/src/main/java/pg/dbcp/model/Todo.java:51-59 | `equals` is reflexive, symmetric and transitive on Todos. |
| TodoModel.EqualTodosHashAlike | pg-dbcp/src/main/java/pg/dbcp/model/Todo.java:51-64 | An object equal to a Todo is a Todo with the same hash code. This is the `equals`/`hashCode` contract the `HashSet` relies on. |
| TodoModel.Todo.HashCode | pg-dbcp/src/main/java/pg/dbcp/model/Todo.java:61-64 | A Todo's hash is its id's `String.hashCode`: the polynomial hash of the id's UTF-16 code units modulo 2^32. |
| JavaLang.StringHashCode | pg-dbcp/src/main/java/pg/dbcp/model/Todo.java:61-64 | `String.hashCode` is the documented polynomial sum of u[i]·31^(n-1-i) over the string's code units u, modulo 2^32. |
| JavaLang.UnitsHash | pg-dbcp/src/main/java/pg/dbcp/model/Todo.java:61-64 | The loop `h = 31*h + unit` in wrapping `int` arithmetic equals that polynomial sum modulo 2^32, for every sequence of code units. |
| JavaLang.Utf16 | pg-dbcp/src/main/java/pg/dbcp/model/Todo.java:61-64 | A character of the Basic Multilingual Plane is one code unit, its own value. Any other character is a high surrogate followed by a low surrogate, and the pair decodes back to the character. |
| JavaLang.CodeUnits | pg-dbcp/src/main/java/pg/dbcp/model/Todo.java:61-64 | A string has between one and two code units per character. A string whose characters all lie in the Basic Multilingual Plane has exactly its characters as code units. |
| JavaLang.StringHashCodeExamples | pg-dbcp/src/main/java/pg/dbcp/model/Todo.java:61-64 | "" hashes to 0 and "ab" to 3105. U+1F600 hashes to 1772899, the value of its surrogate pair 0xD83D·31 + 0xDE00. |
| JavaLang.ToInt32 | pg-dbcp/src/main/java/pg/dbcp/model/Todo.java:61-64 | Wrap-around to a 32-bit `int` keeps the value modulo 2^32, and keeps it exactly when it is already in range. |
| JavaLang.PolynomialHashSnoc | pg-dbcp/src/main/java/pg/dbcp/model/Todo.java:61-64 | Appending a character multiplies the polynomial hash by 31 and adds the character. |
| JavaLang.ParseBoolean | restapi/src/main/java/restapi/repository/TodoRepository.java:70 | `Boolean.parseBoolean` is true for "true", and false for null and for any text that is not four characters long. ParseBooleanSpellings gives the exact set. |
| JavaLang.EqualsIgnoreCase | restapi/src/main/java/restapi/repository/TodoRepository.java:70 | Equal strings are equal ignoring case. Strings equal ignoring case have the same length, and where the second has a lower-case letter, the first has that letter or its upper-case form. |
| JavaLang.ParseBooleanSpellings | restapi/src/main/java/restapi/repository/TodoRepository.java:70 | `Boolean.parseBoolean(s)` is true if and only if s is non-null, has four characters and is "true" up to the case of each letter. |
| JavaLang.ParseBooleanExamples | restapi/src/main/java/restapi/repository/TodoRepository.java:70 | parseBoolean accepts "true", "TRUE" and "tRuE". It rejects null, "false", "yes", "" and "true ". |
| JavaLang.ToLowerAscii | restapi/src/main/java/restapi/repository/TodoRepository.java:70 | Case folding maps 'A'..'Z' to 'a'..'z' and leaves every other character alone. |
| JavaLang.FoldsTo | restapi/src/main/java/restapi/repository/TodoRepository.java:70 | A character folds to a lower-case letter if and only if it is that letter or its upper-case form. |
| MemoryRepository.IdEquals | restapi/src/main/java/restapi/repository/TodoRepository.java:32 | `todo.getId().equals(id)` holds exactly when id is non-null and is the Todo's id. A null id never matches. |
| MemoryRepository.FirstMatch | restapi/src/main/java/restapi/repository/TodoRepository.java:32 | `findFirst` position: the first Todo whose id equals the argument; none before it does. |
| MemoryRepository.FindById | restapi/src/main/java/restapi/repository/TodoRepository.java:29-36 | Present if and only if the id is non-null and stored. A present result is a stored Todo with that id, and with unique ids it is the only one. |
| MemoryRepository.Without | restapi/src/main/java/restapi/repository/TodoRepository.java:73 | Removal by id keeps exactly the stored Todos with another id. Afterwards the id is absent. |
| MemoryRepository.SetAdd | restapi/src/main/java/restapi/repository/TodoRepository.java:46 | `HashSet.add(t)`, also used by updateTodo at line 74, leaves t's id present and keeps every element. The only element it can add is t. The set grows by one exactly when no element had t's id. |
| MemoryRepository.SetRemove | restapi/src/main/java/restapi/repository/TodoRepository.java:98 | `HashSet.remove(t)` removes the element equal to t, so t's id is absent afterwards. |
| MemoryRepository.WithoutAbsent | restapi/src/main/java/restapi/repository/TodoRepository.java:98 | Removing an id that no Todo carries changes nothing. |
| MemoryRepository.WithoutUnique | restapi/src/main/java/restapi/repository/TodoRepository.java:73 | Removing an id keeps ids unique. |
| MemoryRepository.WithoutSize | restapi/src/main/java/restapi/repository/TodoRepository.java:98 | With unique ids, removal takes out exactly one Todo when the id is stored, and none otherwise. |
| MemoryRepository.ConsUnique | restapi/src/main/java/restapi/repository/TodoRepository.java:73 | Putting a Todo with a new id before a store with unique ids keeps ids unique. |
| MemoryRepository.AppendUnique | restapi/src/main/java/restapi/repository/TodoRepository.java:46 | Adding a Todo whose id is absent keeps ids unique. |
| MemoryRepository.UniqueTail | restapi/src/main/java/restapi/repository/TodoRepository.java:17 | The rest of a store with unique ids has unique ids and lacks the first Todo's id. |
| MemoryRepository.HasIdCons | restapi/src/main/java/restapi/repository/TodoRepository.java:32 | An id is stored if and only if it is the first Todo's id or is stored in the rest. |
| MemoryRepository.WithoutAppendSame | restapi/src/main/java/restapi/repository/TodoRepository.java:73-74 | Removing an id after adding a Todo with it is removing it before. |
| MemoryRepository.WithoutTwice | restapi/src/main/java/restapi/repository/TodoRepository.java:98 | Removing an id twice is removing it once. |
| MemoryRepository.TodoRepository.constructor | restapi/src/main/java/restapi/repository/TodoRepository.java:17 | The store starts empty and valid. |
| MemoryRepository.TodoRepository.GetAll | restapi/src/main/java/restapi/repository/TodoRepository.java:20-27 | Exactly the stored Todos. |
| MemoryRepository.TodoRepository.GetById | restapi/src/main/java/restapi/repository/TodoRepository.java:29-36 | Empty if and only if the id is null or not stored. Otherwise it is the stored Todo with that id, the only one when the store is valid. |
| MemoryRepository.TodoRepository.InsertTodo | restapi/src/main/java/restapi/repository/TodoRepository.java:38-51 | Returns false and changes nothing for a stored id. Otherwise returns true and adds exactly that Todo. Ids stay unique. |
| MemoryRepository.IsReplacement | restapi/src/main/java/restapi/repository/TodoRepository.java:61-71 | The field rules of an update: same id, each null field carried over, each non-null field taken, done parsed leniently. A replacement equals the Todo it replaces under `Todo.equals` and has the same hash. |
| MemoryRepository.TodoRepository.UpdateTodo | restapi/src/main/java/restapi/repository/TodoRepository.java:53-79 | False and no change for a null or absent id. Otherwise the stored Todo is replaced by a fresh one with the same id: each null field is carried over, each non-null one replaces it, and done is parsed leniently. The size is unchanged and ids stay unique. |
| MemoryRepository.UpdateKeepsOthers | restapi/src/main/java/restapi/repository/TodoRepository.java:73-75 | After a replacement the id is stored exactly once, the size is unchanged, and every Todo with another id is as before. |
| MemoryRepository.TodoRepository.DeleteAllTodos | restapi/src/main/java/restapi/repository/TodoRepository.java:81-88 | The store is empty. |
| MemoryRepository.TodoRepository.DeleteTodoById | restapi/src/main/java/restapi/repository/TodoRepository.java:90-103 | False and no change when the id is null or absent. Otherwise true, and exactly the Todo with that id is removed; the size drops by one. |
| TodoFilters.WithDone | restapi/src/main/java/service/TodoService.java:25-31 | The filter keeps exactly the Todos with the given flag and never grows the list. |
| TodoFilters.ViewsPartition | restapi/src/main/java/service/TodoService.java:25-31 | The list is a merge of its pending and completed views, each in the list's order. Their multisets add up to the list's, and no Todo is in both. |
| TodoFilters.InterleavingMultiset | restapi/src/main/java/service/TodoService.java:25-31 | A merge loses nothing and duplicates nothing. |
| TodoFilters.WithDoneFlags | restapi/src/main/java/service/TodoService.java:25-31 | Every position of a view carries the flag it was filtered for. |
| TodoFilters.WithDoneKeepsAll | restapi/src/main/java/service/TodoService.java:25-31 | A list whose Todos all carry the flag passes the filter unchanged. |
| TodoFilters.WithDoneIdempotent | restapi/src/main/java/service/TodoService.java:25-31 | Filtering a view again by the same flag gives the same view. |
| TodoFilters.NoneCompletedAllPending | restapi/src/main/java/service/TodoService.java:58-60 | A list with no completed Todo is all pending. So a second deleteCompletedTodos leaves the store as it is. |
| MemoryService.TodoService.constructor | restapi/src/main/java/service/TodoService.java:17-19 | The service wraps the given repository. |
| MemoryService.TodoService.GetAllTodos | restapi/src/main/java/service/TodoService.java:21-23 | What the repository's getAll returns. |
| MemoryService.TodoService.GetPendingTodos | restapi/src/main/java/service/TodoService.java:25-27 | Exactly the Todos of getAllTodos that are not done. |
| MemoryService.TodoService.GetCompletedTodos | restapi/src/main/java/service/TodoService.java:29-31 | Exactly the Todos of getAllTodos that are done. |
| MemoryService.TodoService.ViewsPartitionAll | restapi/src/main/java/service/TodoService.java:25-31 | The two views partition getAllTodos in order, and no Todo is in both. |
| MemoryService.TodoService.GetTodoById | restapi/src/main/java/service/TodoService.java:33-40 | Null if and only if the id is null or absent. Otherwise it is the stored Todo with that id, which is the repository's present value. |
| MemoryService.TodoService.AddTodo | restapi/src/main/java/service/TodoService.java:42-44 | The repository's insertTodo result and effect. |
| MemoryService.TodoService.UpdateTodo | restapi/src/main/java/service/TodoService.java:46-48 | The repository's updateTodo result and effect. |
| MemoryService.TodoService.DeleteAllTodos | restapi/src/main/java/service/TodoService.java:50-52 | The store is empty. |
| MemoryService.TodoService.DeleteTodoById | restapi/src/main/java/service/TodoService.java:54-56 | The repository's deleteTodoById result and effect. |
| MemoryService.TodoService.DeleteCompletedTodos | restapi/src/main/java/service/TodoService.java:58-60 | The loop deletes the completed snapshot by id. Afterwards the store is exactly the Todos that were pending, none of them done, and ids stay unique. |
| MemoryService.KeepIds | restapi/src/main/java/service/TodoService.java:59 | What the deletes of a set of ids leave: Todos of the store whose id is not in the set. |
| MemoryService.KeepIdsWithout | restapi/src/main/java/service/TodoService.java:59 | One more delete by id adds that id to the deleted set. |
| MemoryService.KeepIdsNone | restapi/src/main/java/service/TodoService.java:59 | Deleting no id keeps the store. |
| MemoryService.DeleteStep | restapi/src/main/java/service/TodoService.java:59 | Deleting the next snapshot Todo's id extends the deleted prefix by one. |
| MemoryService.KeepIdsPending | restapi/src/main/java/service/TodoService.java:58-60 | When exactly the done Todos have their id in the set, the deletes leave exactly the pending Todos. |
| MemoryService.CompletedIds | restapi/src/main/java/service/TodoService.java:58-60 | With unique ids, a stored Todo's id is a completed Todo's id if and only if it is done itself. |
| MemoryService.DeleteCompletedLeavesPending | restapi/src/main/java/service/TodoService.java:58-60 | With unique ids, deleting the completed ids leaves exactly the pending Todos, and no done Todo remains. |
| SqlRepository.RowOf | pg-dbcp/src/main/java/pg/dbcp/repository/TodoRepository.java:37-45 | A Todo's row holds its id, title, description and done flag in columns id, title, description and isDone. getAll reads them back this way, and insertTodo binds them in the same order at lines 120-123. |
| SqlRepository.RowsOf | pg-dbcp/src/main/java/pg/dbcp/repository/TodoRepository.java:36-48 | The rows of a list of Todos, position by position. |
| SqlRepository.TodoRepository.constructor | pg-dbcp/src/main/java/pg/dbcp/repository/TodoRepository.java:24-26 | The repository stands for the given table and has logged no delete. |
| SqlRepository.TodoRepository.ReadTodos | pg-dbcp/src/main/java/pg/dbcp/repository/TodoRepository.java:36-48 | The result-set loop builds one fresh Todo per row, in order, carrying that row's fields. |
| SqlRepository.TodoRepository.GetAll | pg-dbcp/src/main/java/pg/dbcp/repository/TodoRepository.java:28-57 | Fresh Todos for exactly the rows of the table, in table order. |
| SqlRepository.RowsWithId | pg-dbcp/src/main/java/pg/dbcp/repository/TodoRepository.java:65 | The select by id finds exactly the rows with that id, and none if and only if the id is absent. |
| SqlRepository.TodoRepository.GetById | pg-dbcp/src/main/java/pg/dbcp/repository/TodoRepository.java:59-100 | Empty for a null id and for an absent id. Otherwise it is a fresh Todo holding the first matching row. |
| SqlRepository.TodoRepository.InsertTodo | pg-dbcp/src/main/java/pg/dbcp/repository/TodoRepository.java:102-132 | False and no change for a null Todo or a present id. Otherwise true, and the Todo's row is added. Unique ids stay unique. |
| SqlRepository.AppendRowUnique | pg-dbcp/src/main/java/pg/dbcp/repository/TodoRepository.java:115-124 | Inserting a row whose id is absent keeps ids unique. |
| SqlRepository.TodoRepository.UpdateTodo | pg-dbcp/src/main/java/pg/dbcp/repository/TodoRepository.java:134-185 | True if and only if the id is non-null, some field is supplied and the id is present. Then the field rules apply to the rows with that id; otherwise nothing changes. Unique ids stay unique. |
| SqlRepository.TodoRepository.RunUpdateStatement | pg-dbcp/src/main/java/pg/dbcp/repository/TodoRepository.java:169-182 | Building, binding and executing the statement applies the field rules to the rows with that id and to no other row. |
| SqlRepository.AssignedColumns | pg-dbcp/src/main/java/pg/dbcp/repository/TodoRepository.java:150-165 | title, description and isDone are each assigned if and only if their argument is non-null. They come in that order, each at most once. |
| SqlRepository.Assignments | pg-dbcp/src/main/java/pg/dbcp/repository/TodoRepository.java:150-165 | One `" col = ?"` assignment per assigned column, in order. |
| SqlRepository.AssignmentLiterals | pg-dbcp/src/main/java/pg/dbcp/repository/TodoRepository.java:151-163 | The three appended texts are the three columns' assignments. |
| SqlRepository.JoinSnoc | pg-dbcp/src/main/java/pg/dbcp/repository/TodoRepository.java:155-163 | Adding one more part to a comma-join puts a comma before it exactly when parts were already written. |
| SqlRepository.AssignmentsSnoc | pg-dbcp/src/main/java/pg/dbcp/repository/TodoRepository.java:150-165 | One more column adds its assignment at the end. |
| SqlRepository.BuilderStep | pg-dbcp/src/main/java/pg/dbcp/repository/TodoRepository.java:146-165 | While `commaRequired` tells whether an assignment was written, appending a comma when required and then an assignment extends the comma-separated clause by that column. |
| SqlRepository.UpdateStatement | pg-dbcp/src/main/java/pg/dbcp/repository/TodoRepository.java:146-167 | The update statement for some SET columns starts with `update todos set` and ends with ` where id = ?`. SetClauseEnds, SetClauseCounts and PlaceholderCount state what lies between. |
| SqlRepository.BuildUpdateSql | pg-dbcp/src/main/java/pg/dbcp/repository/TodoRepository.java:146-167 | The builder produces `update todos set`, then the comma-separated assignments of exactly the assigned columns, then ` where id = ?`. |
| SqlRepository.SetClauseEnds | pg-dbcp/src/main/java/pg/dbcp/repository/TodoRepository.java:146-165 | A non-empty SET clause starts with a blank and ends with `?`, so it has no leading and no trailing comma. |
| SqlRepository.SetClauseCounts | pg-dbcp/src/main/java/pg/dbcp/repository/TodoRepository.java:146-165 | A SET clause of k columns holds k-1 commas and k placeholders. |
| SqlRepository.ColumnNameCounts | pg-dbcp/src/main/java/pg/dbcp/repository/TodoRepository.java:151-163 | No column name holds a `?` or a comma. |
| SqlRepository.AssignmentCounts | pg-dbcp/src/main/java/pg/dbcp/repository/TodoRepository.java:151-163 | Each assignment holds one `?`, at its end, and no comma, and it starts with a blank. |
| SqlRepository.PrefixCount | pg-dbcp/src/main/java/pg/dbcp/repository/TodoRepository.java:148 | `update todos set` holds no placeholder. |
| SqlRepository.SuffixCount | pg-dbcp/src/main/java/pg/dbcp/repository/TodoRepository.java:167 | ` where id = ?` holds one placeholder. |
| SqlRepository.PlaceholderCount | pg-dbcp/src/main/java/pg/dbcp/repository/TodoRepository.java:146-176 | The statement for k assigned columns holds k+1 placeholders, as many as are bound. |
| SqlRepository.UpdateStatementExample | pg-dbcp/src/main/java/pg/dbcp/repository/TodoRepository.java:146-167 | With only a title, the statement is `update todos set title = ? where id = ?`. |
| SqlRepository.UpdateStatementCommaExample | pg-dbcp/src/main/java/pg/dbcp/repository/TodoRepository.java:146-167 | With a title and a done string, the two assignments are separated by one comma. |
| SqlRepository.BindStep | pg-dbcp/src/main/java/pg/dbcp/repository/TodoRepository.java:172-175 | Binding the next supplied column at the current index keeps the bindings numbered 1, 2, … in column order. |
| SqlRepository.BindColumns | pg-dbcp/src/main/java/pg/dbcp/repository/TodoRepository.java:172-175 | The k-th supplied column's value is bound at index k, and index ends one past the last. The done value is parsed leniently. |
| SqlRepository.BindId | pg-dbcp/src/main/java/pg/dbcp/repository/TodoRepository.java:176 | Binding the id next puts it at index k+1. |
| SqlRepository.BindParameters | pg-dbcp/src/main/java/pg/dbcp/repository/TodoRepository.java:172-176 | One binding per placeholder: the assigned fields at indices 1..k in column order, and the id at k+1. |
| SqlRepository.ExecuteUpdate | pg-dbcp/src/main/java/pg/dbcp/repository/TodoRepository.java:177 | Executing the bound statement changes only rows with the bound id and keeps the table's size. |
| SqlRepository.UpdatedRow | pg-dbcp/src/main/java/pg/dbcp/repository/TodoRepository.java:134-185 | An updated row keeps its id. Each supplied title or description replaces the old one. With no field supplied the row is unchanged. |
| SqlRepository.ApplyUpdate | pg-dbcp/src/main/java/pg/dbcp/repository/TodoRepository.java:134-185 | The field rules, applied to every row with the id. A null field keeps the column, a non-null one sets it, and done is parsed leniently. Other rows are unchanged and the size is kept. |
| SqlRepository.ApplyUpdateUnique | pg-dbcp/src/main/java/pg/dbcp/repository/TodoRepository.java:134-185 | An update keeps ids unique. |
| SqlRepository.SetColumnRule | pg-dbcp/src/main/java/pg/dbcp/repository/TodoRepository.java:172-177 | Setting a supplied column to its bound value and then applying the field rules of the remaining columns is the same as applying the field rules of all of them. |
| SqlRepository.AssignFromRules | pg-dbcp/src/main/java/pg/dbcp/repository/TodoRepository.java:172-177 | Setting the bound columns in order gives every assigned column its argument and leaves the others alone. |
| SqlRepository.ExecutedUpdateMeaning | pg-dbcp/src/main/java/pg/dbcp/repository/TodoRepository.java:169-182 | The statement built and bound by updateTodo has the effect the field rules describe. |
| SqlRepository.TodoRepository.DeleteAllTodos | pg-dbcp/src/main/java/pg/dbcp/repository/TodoRepository.java:187-198 | The table is empty. |
| SqlRepository.RowsWithoutId | pg-dbcp/src/main/java/pg/dbcp/repository/TodoRepository.java:201 | The delete by id keeps exactly the rows with another id. |
| SqlRepository.RowsWithoutIdUnique | pg-dbcp/src/main/java/pg/dbcp/repository/TodoRepository.java:200-214 | Deleting by id keeps ids unique. |
| SqlRepository.UniqueRowTail | pg-dbcp/src/main/java/pg/dbcp/repository/TodoRepository.java:200-214 | The rest of a table with unique ids has unique ids and lacks the first row's id. |
| SqlRepository.ConsRowUnique | pg-dbcp/src/main/java/pg/dbcp/repository/TodoRepository.java:200-214 | Putting a row with a new id before a table with unique ids keeps ids unique. |
| SqlRepository.TodoRepository.DeleteTodoById | pg-dbcp/src/main/java/pg/dbcp/repository/TodoRepository.java:200-214 | Always true. The rows with the id are deleted (none for a null id), and the call is logged. |
| SqlService.TodoService.constructor | pg-dbcp/src/main/java/pg/dbcp/service/TodoService.java:17-19 | The service wraps the given repository. |
| SqlService.TodoService.GetAllTodos | pg-dbcp/src/main/java/pg/dbcp/service/TodoService.java:21-23 | Fresh Todos for exactly the table's rows, whatever the contextId. |
| SqlService.RowsWithDone | pg-dbcp/src/main/java/pg/dbcp/service/TodoService.java:25-31 | Exactly the rows with the flag, in table order. None when no row has it. |
| SqlService.RowsOfWithDone | pg-dbcp/src/main/java/pg/dbcp/service/TodoService.java:25-31 | Filtering the Todos read from a table is filtering its rows. |
| SqlService.RowsOfConcat | pg-dbcp/src/main/java/pg/dbcp/service/TodoService.java:25-31 | The rows of two lists joined are their rows joined. |
| SqlService.RowViewsPartition | pg-dbcp/src/main/java/pg/dbcp/service/TodoService.java:21-31 | Pending and completed rows are disjoint, together make up the table in order, and their multisets add up to it. |
| SqlService.TodoService.GetPendingTodos | pg-dbcp/src/main/java/pg/dbcp/service/TodoService.java:25-27 | Fresh Todos for exactly the rows that are not done, in table order. |
| SqlService.TodoService.GetCompletedTodos | pg-dbcp/src/main/java/pg/dbcp/service/TodoService.java:29-31 | Fresh Todos for exactly the done rows, in table order. |
| SqlService.TodoService.GetTodoById | pg-dbcp/src/main/java/pg/dbcp/service/TodoService.java:33-40 | Null if and only if the repository's Optional is empty; otherwise that Todo. |
| SqlService.TodoService.AddTodo | pg-dbcp/src/main/java/pg/dbcp/service/TodoService.java:42-44 | The repository's insertTodo result and effect. |
| SqlService.TodoService.UpdateTodo | pg-dbcp/src/main/java/pg/dbcp/service/TodoService.java:46-48 | The repository's updateTodo result and effect. |
| SqlService.TodoService.DeleteAllTodos | pg-dbcp/src/main/java/pg/dbcp/service/TodoService.java:50-52 | The table is empty. |
| SqlService.TodoService.DeleteTodoById | pg-dbcp/src/main/java/pg/dbcp/service/TodoService.java:54-56 | The repository's deleteTodoById result (true) and effect. |
| SqlService.TodoService.DeleteEachById | pg-dbcp/src/main/java/pg/dbcp/service/TodoService.java:59 | The forEach issues one delete per Todo, in order. The table keeps exactly the rows whose id none of them carries. |
| SqlService.TodoService.DeleteCompletedTodos | pg-dbcp/src/main/java/pg/dbcp/service/TodoService.java:58-60 | Issues one delete per done row, in table order. Afterwards no done row remains. With unique ids, exactly the pending rows are left and the ids stay unique. |
| SqlService.RowsWithDoneUnique | pg-dbcp/src/main/java/pg/dbcp/service/TodoService.java:25-31 | A view of a table with unique ids has unique ids. |
| SqlService.KeepRowIds | pg-dbcp/src/main/java/pg/dbcp/service/TodoService.java:59 | What the deletes of a set of ids leave: rows whose id is not in the set. |
| SqlService.IdsOfRows | pg-dbcp/src/main/java/pg/dbcp/service/TodoService.java:59 | The ids of some rows, position by position. |
| SqlService.DeleteRequests | pg-dbcp/src/main/java/pg/dbcp/service/TodoService.java:59 | One deleteTodoById argument per id, in order. |
| SqlService.KeepRowIdsWithout | pg-dbcp/src/main/java/pg/dbcp/service/TodoService.java:59 | One more delete by id adds the id to the deleted set. |
| SqlService.KeepRowIdsNone | pg-dbcp/src/main/java/pg/dbcp/service/TodoService.java:59 | Deleting no id keeps the table. |
| SqlService.DeleteStep | pg-dbcp/src/main/java/pg/dbcp/service/TodoService.java:59 | Deleting the next id extends the deleted prefix by one. |
| SqlService.RequestStep | pg-dbcp/src/main/java/pg/dbcp/service/TodoService.java:59 | The next call extends the delete log by the next id. |
| SqlService.KeepRowIdsPending | pg-dbcp/src/main/java/pg/dbcp/service/TodoService.java:58-60 | When exactly the done rows have their id in the set, the deletes leave exactly the pending rows. |
| SqlService.NoDoneRowRemains | pg-dbcp/src/main/java/pg/dbcp/service/TodoService.java:58-60 | Deleting the done rows' ids leaves no done row, whatever the ids. |
| SqlService.DeleteCompletedLeavesPendingRows | pg-dbcp/src/main/java/pg/dbcp/service/TodoService.java:58-60 | With unique ids, deleting the done rows' ids leaves exactly the pending rows. |
| SqlService.DeleteCompletedOutcome | pg-dbcp/src/main/java/pg/dbcp/service/TodoService.java:58-60 | The combined outcome of the deletes: no done row, and with unique ids exactly the pending rows. |
| SqlService.NoDoneRowsAllPending | pg-dbcp/src/main/java/pg/dbcp/service/TodoService.java:58-60 | A table without done rows is all pending and yields no delete. So a second deleteCompletedTodos issues no delete and, with unique ids, leaves the table as it is. |
| SqlService.RowsWithDoneKeepsAll | pg-dbcp/src/main/java/pg/dbcp/service/TodoService.java:25-31 | A table whose rows all carry the flag passes the filter unchanged. |

## Left out

- The `ReentrantReadWriteLock` of the in-memory repository is left out. The model is sequential, so the gap between the read-locked lookup and the write-locked change is not represented.
- The controllers, Spark routing, Gson serialisation, session request ids, the `Application` classes and the DBCP pool configuration in `TodoDataStore` are not part of this model. They are HTTP, JSON and I/O wiring.
- JDBC is abstracted. Connections, prepared statements and result sets are not modelled:
  - The table is a field, and each statement is given its effect on that field.
  - `SQLException` handling and all logging are left out.
  - The model has no failing database. In the source, an `SQLException` is logged and the method carries on. `insertTodo` then returns false. `getAll` returns the Todos it read before the exception, possibly none. `getById` returns `Optional.empty()` even when the row exists. `updateTodo` and `deleteTodoById` still return true.
- `SqlRepository.UniqueRowIds` is an assumption about the database, as a primary key on `id` would ensure it. The schema is not part of this model. The repository's contracts therefore state uniqueness as kept ("if the ids were unique, they stay unique"). `SqlRepository.TodoRepository.DeleteTodoById` does not restate this; the lemma `SqlRepository.RowsWithoutIdUnique` states it for the table the delete leaves.
- The no-argument `Todo()` constructor draws a random UUID. It is left out: callers build a Todo with the id they pass, which stands for a fresh id.
- `Todo.toString` is display-only and is left out.
- Getters are the fields themselves: `getId` is the `const id`, and the other getters are `title`, `description` and `isDone`.
- A Todo with a null id is left out in both variants, and so is `insertTodo(null)` in the in-memory repository. Both controllers build Todos with the no-argument constructor, which always draws an id. In the in-memory variant a null id would throw a `NullPointerException` in `equals`, `hashCode` or `getId`. In the relational variant, `insertTodo` would find no row through `getById`, which answers empty for a null id without querying. It would then insert a row with a NULL id. The relational repository's own null check on the Todo is modelled.
- Iteration order of the `HashSet` is hash-dependent. The model stores Todos in insertion order, and "the pending view in the same relative order" is stated against that order. Database row order without `order by` is unspecified; the model uses the table's order.
- `MemoryRepository.TodoRepository.GetAll` returns the stored references themselves, as the sequence value. The model does not copy the list, but nothing later mutates those Todos in place.
- `JavaLang.StringHashCode`: an id is a sequence of Unicode code points, encoded to UTF-16 code units for hashing. A Java string can also hold a lone surrogate, which no Dafny string holds, so such ids are not modelled.
- `JavaLang.EqualsIgnoreCase`: case folding covers ASCII letters only. That is all `"true"` needs, though Java's folding also covers other scripts.
- `ResultSet.getBoolean` on a NULL `isDone` column gives false in JDBC. The model's rows always hold a boolean.
- An empty-string id is looked up like any other id, as the code does. No special case is made for it.
- The restapi service imports `repository.TodoRepository` and `model.Todo` from a package that is not part of this model. It is modelled over the in-memory repository, with the pg-dbcp Todo standing for the restapi one (same fields, id-only equality).
- The pg-dbcp service's `contextId` is modelled as a parameter that is only passed on. No contract depends on it, which is how "contextId has no effect" is stated; there is no separate lemma comparing two calls.

