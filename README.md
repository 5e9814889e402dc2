# Coding-projects catalogue: data-access layer and player page

This project models the data-access class `Database` of a small course-catalogue web
application and the controller action that opens a project's video player. The
catalogue has seven tables:

- `Project`
- `Video`, ordered per project by `video_order`
- `Session`
- `User`
- `User_Session`, the memberships with a permission level
- `User_Project`, the progress records with a bookmark and a completion time
- `Category`, ordered globally by `category_order`

Every `Database` method is a short sequence of SQL statements.

The model keeps each table as a sequence field of the Dafny class `Store.Database`, and
runs each statement against the sequences in the order the source issues them.
The statements map to Dafny like this (module `Query` defines the generic operations):

| SQL | Dafny |
|---|---|
| `SELECT ... WHERE` | `Filter` |
| single-row `fetch` | `FetchFirst`; `None` stands for PDO's `false` or NULL |
| `UPDATE ... WHERE` | `UpdateWhere` |
| `DELETE ... WHERE` | `Filter` with the negated condition |
| `INSERT` | appends one row |
| `MAX` / `MIN` | `MaxOf` / `MinOf`, `None` for NULL |
| `ORDER BY` | `SortBy` |

The modules:

- `Rows` holds the row datatypes.
- `Ordering` holds the rules of the two order columns: the next order is max + 1, and a move swaps a video's order with its neighbour's.
- `Store` holds the class, the snapshot `Tables` of its state, and the lemmas about whole-state changes.
- `Web` holds the controller's `videoPlayer`.

Two invariants are tracked:

- **Primary keys**: `Database.Valid`, i.e. `Store.Keyed`. Ids are unique in every table, and each AUTO_INCREMENT table hands out ids from its own counter.
- **Foreign keys**: `Database.Integrity`, i.e. `Store.Linked`. Every reference resolves, and a bookmark names a video of the bookmarked project.

The model does not assume that the database enforces either invariant. The cascades of the delete methods are what keep the foreign keys. Every mutating method is proved to preserve both, under the conditions stated below.

## Model

| member | source | states |
|---|---|---|
| Store.Database.GetProjects | model/database.php:34-43 | the result holds exactly the rows of the project table, each as often as in the table |
| Store.Database.GetVideos | model/database.php:51-60 | the result is sorted by ascending order and is a permutation of the project's videos; a video is in it iff it belongs to the project |
| Store.Database.GetSession | model/database.php:68-85 | one entry per membership of the user, taken by ascending last login with NULL first; each entry is the lookup of that membership's session, `None` when the session row is missing |
| Store.Database.GetSessionById | model/database.php:93-102 | `None` iff no session has the id; otherwise a session row with that id |
| Store.Database.GetUserByLogin | model/database.php:111-119 | `None` iff no user has both the name and the password; otherwise a user row matching both |
| Store.Database.UpdateSession | model/database.php:128-137 | the session table after the UPDATE; each row with the id carries the new title and description; the set of ids and both invariants are kept |
| Store.Database.GetUsersBySession | model/database.php:145-152 | as a set: a pair (id, nickname) is in the result iff some user joins some membership of the session on the user id (the inner join); how often a pair appears is not stated |
| Store.Roster | model/database.php:145-152 | the inner join of the user table with the session's memberships, as a set: characterised by membership in both directions, not by multiplicity |
| Store.Database.GetUserById | model/database.php:160-166 | `None` iff no user has the id; otherwise a user row with that id |
| Store.Database.UpdateUser | model/database.php:176-183 | the user table after the UPDATE; each row with the id carries the new name, nickname and password; the ids and both invariants are kept |
| Store.Database.DeleteSession | model/database.php:190-199 | the memberships of the session are deleted, then the session; exactly its id leaves the key set; no membership names it; user rows are untouched; both invariants are kept |
| Store.Database.DeleteUser | model/database.php:206-219 | the state becomes `WithoutUser`: the user's memberships, then their progress records, then the user row are deleted; exactly the user's key goes; nothing names the user; both invariants are kept |
| Store.WithoutUser | model/database.php:206-219 | the tables after the three DELETEs of `deleteUser` in source order: the user's memberships, then their progress records, then the user row; its properties are proved in `WithoutUserKeeps` |
| Store.WithoutUserKeeps | model/database.php:206-219 | deleting a user with their memberships and progress removes exactly their key, leaves nothing naming them, and preserves the primary-key and foreign-key invariants |
| Store.Database.CreateUser | model/database.php:230-241 | one user row with a fresh id, NULL extra and no admin flag is appended, then one "user" membership for it; the id is returned; afterwards the user's permission in the session is "user"; both invariants are kept (foreign keys when the session exists) |
| Store.UserCreated | model/database.php:230-241 | inserting a user at its counter plus a membership of that user adds exactly the new key, keeps ids unique and references resolving, and no earlier membership names the new user |
| Store.Database.GetUserSessionPermission | model/database.php:250-256 | `None` iff the user has no membership in the session; otherwise the permission of such a membership |
| Store.Database.GetUserProjectDate | model/database.php:266-273 | `None` when the pair has no progress record; when it has one, the result is the completion time (or `None` for NULL) of some record of the pair |
| Store.Database.GiveUserProject | model/database.php:281-290 | every record of the pair is stamped with `now`, then one more record is appended; the pair's record count grows by exactly one; every record of the pair holds `now`, and so does the one the date query reads; primary keys are kept, and foreign keys for an existing user and project |
| Store.Completed | model/database.php:281-290 | the progress table after `giveUserProject`: the UPDATE stamps every record of the pair, then the INSERT appends a record with no bookmark and the stamp; its properties are proved in `CompletedPair` and `CompletedLinked` |
| Store.CompletedPair | model/database.php:281-290 | after update-then-insert, the pair has one more record, every record of the pair is stamped, and the first one is too |
| Store.CompletedLinked | model/database.php:281-290 | for an existing user and project, update-then-insert keeps every reference resolving |
| Store.Database.RemoveUserProject | model/database.php:298-303 | the completion time of every record of the pair is cleared; neither the table's row count nor the pair's changes; the date query then yields `None`; primary and foreign keys are kept |
| Store.Database.GetProjectById | model/database.php:311-318 | `None` iff no project has the id; otherwise a project row with that id |
| Store.Database.UpdateProject | model/database.php:328-335 | the project table after the UPDATE; each row with the id carries the new title, description and category; the ids are kept; foreign keys are kept when the category exists |
| Store.Database.CreateProject | model/database.php:345-351 | one project row with a fresh id and the placeholder image `test.png` is appended and its id returned; exactly that key is added; foreign keys are kept when the category exists |
| Store.Database.UpdateVideoById | model/database.php:360-365 | the video table after the UPDATE; each row with the id carries the new title and URL; keys, unique orders and both invariants are kept |
| Store.Database.RemoveVideo | model/database.php:372-383 | the state becomes `WithoutVideo`: bookmarks naming the video are set to NULL, then only that video row is deleted, with no renumbering of the rest; no bookmark or video with the id remains; unique orders and both invariants are kept |
| Store.WithoutVideo | model/database.php:372-383 | the tables after `removeVideo`: every bookmark naming the video is cleared, then the video row is deleted, with no renumbering of the others; its properties are proved in `WithoutVideoKeeps` |
| Store.WithoutVideoKeeps | model/database.php:372-383 | clearing the bookmarks and deleting the video leaves neither the video nor a bookmark to it, and keeps the ids unique, the orders unique and every reference resolving |
| Store.Database.AddVideo | model/database.php:393-404 | appends exactly one video for the project, at order 1 when it had none and otherwise at the maximum + 1, and returns that order; prior rows are unchanged; the new order is now the project's maximum; unique orders and primary keys are kept, and foreign keys when the project exists |
| Store.VideoInserted | model/database.php:393-404 | a video inserted at its counter and at its project's next order keeps ids and orders unique, becomes the project's maximum, and keeps references resolving for an existing project |
| Ordering.NextOrder | model/database.php:393-404 | MAX + 1 with the NULL maximum read as 0: 1 for no rows; otherwise one past a present order, and above every order |
| Ordering.AppendAtNextOrder | model/database.php:393-404 | a video appended at its project's next order keeps every project's orders unique |
| Ordering.AppendedIsMax | model/database.php:393-404 | after the insert at the next order, that order is the project's maximum |
| Store.Database.RemoveProject | model/database.php:411-426 | the state becomes `WithoutProject`: the project's progress records, then its videos, then the project are deleted, and rows of other projects are kept; exactly the key goes; unique orders and both invariants are kept |
| Store.Database.GetCategory | model/database.php:433-440 | the result holds exactly the rows of the category table, each as often as in the table |
| Store.Database.GetCategoryById | model/database.php:448-454 | `None` iff no category has the id; otherwise a category row with that id |
| Store.Database.UpdateCategory | model/database.php:463-469 | the category table after the UPDATE; each row with the id carries the new title and description; the ids, unique category orders and both invariants are kept |
| Store.Database.RemoveCategory | model/database.php:476-485 | the state becomes `WithoutCategory`: each project the category held when the call began is removed with its cascade, one at a time in the loop, then the category is deleted; no project of the category remains; exactly its key goes; unique video orders, unique category orders and both invariants are kept |
| Store.WithoutProject | model/database.php:411-426 | the tables after `removeProject`: the project's progress records, then its videos, then the project row are deleted; its properties are proved through `WithoutOneMore` and `WithoutProjectsKeeps` |
| Store.WithoutProjectsKeeps | model/database.php:411-426 | deleting a set of projects together with their videos and progress records keeps the ids unique, the remaining orders unique and every reference resolving |
| Store.WithoutOneMore | model/database.php:479-481 | deleting one more project after a set of them is the same as deleting the enlarged set |
| Store.DeletedPrefix | model/database.php:479-481 | one loop step of the category removal: after removing the first i+1 held projects, the state is the removal of the first i of them followed by the project at position i |
| Store.WithoutCategory | model/database.php:476-485 | the tables after `removeCategory`: every project of the category is deleted with its children, then the category row; its properties are proved in `WithoutCategoryKeeps` |
| Store.WithoutCategoryKeeps | model/database.php:476-485 | deleting a category after its projects leaves no project of it, removes exactly its key, and keeps both invariants, unique video orders and unique category orders |
| Store.Database.GetProjectByCategoryId | model/database.php:493-499 | a project is in the result iff it is in the table and has that category |
| Store.Database.AddCategory | model/database.php:508-520 | appends one category with a fresh id at the global maximum order + 1 (1 for the first) and returns the id; the new order is above every existing one; exactly the key is added; unique category orders and both invariants are kept |
| Store.CategoryInserted | model/database.php:508-520 | a category inserted at its counter and the next global order adds exactly its key and keeps ids, category orders and references intact |
| Ordering.AppendAtNextCategoryOrder | model/database.php:508-520 | a category appended at the next global order keeps category orders unique |
| Store.Database.UploadProjectImage | model/database.php:529-534 | every project with the id gets the file path as its image; ids and both invariants are kept |
| Store.Database.MoveVideoUpOrDown | model/database.php:543-571 | the video table becomes `Moved`; keys and both invariants are kept; with unique orders and a video of this project, orders stay unique and the multiset of the project's orders is preserved |
| Ordering.Moved | model/database.php:543-571 | the video table after a guarded move: the first video with the id takes the nearest order strictly below (up) or above (down) among the videos of the project passed in, and the video holding that order takes its old order; unchanged when the video or the neighbour is missing; its properties are proved in `MovedSwapsWithNeighbour`, `MovedKeepsOrders`, `MovedKeepsUniqueOrders` and `MovedAtEdgeIsNoOp` |
| Ordering.RunMove | model/database.php:545-569 | the statements of the move (fetch the video, fetch the neighbour order, fetch the neighbour, two single-row UPDATEs), run step by step with the guard that skips both UPDATEs when there is no neighbour, yield exactly `Moved`; the unguarded statements are `OrderColumnAsWritten` |
| Ordering.NeighbourOrder | model/database.php:552-558 | `None` iff no video of the project lies strictly below (up) or above (down); otherwise the greatest lower or least higher order present in the project |
| Ordering.MovedSwapsWithNeighbour | model/database.php:543-571 | with unique ids and orders, the video takes its neighbour's order, the neighbour takes its order, and every other row is unchanged |
| Ordering.MovedKeepsOrders | model/database.php:543-571 | for ids distinct and a video of the project passed in, a move permutes that project's orders: the multiset is unchanged |
| Ordering.SwapKeepsOrders | model/database.php:565-569 | the two single-row UPDATEs of a swap permute the project's orders |
| Ordering.MovedKeepsUniqueOrders | model/database.php:543-571 | for ids distinct, orders unique and a video of the project passed in, a move keeps the orders of every project unique |
| Ordering.MovedAtEdgeIsNoOp | model/database.php:555-569 | moving up the lowest video of the project, or down the highest, leaves the table unchanged |
| Ordering.MovedOnlyReorders | model/database.php:565-569 | a move keeps every row in place and changes only the order column |
| Store.MovedStore | model/database.php:543-571 | a move keeps the video ids unique and below the counter, keeps the video keys and every video's project, and under unique orders keeps them unique and their project's multiset |
| Store.MovedTables | model/database.php:543-571 | a move keeps the video keys, the primary-key and foreign-key invariants, and with unique orders and the video in the project keeps the orders unique and the project's multiset of orders |
| Ordering.OrderColumnAsWritten | model/database.php:565-569 | the order column as the source's unguarded UPDATEs leave it, NULL as `None`; one entry per row |
| Ordering.AsWrittenAgreesWithMoved | model/database.php:555-569 | whenever a neighbour exists, the as-written order column equals that of `Moved` at every row |
| Ordering.AsWrittenNullsOrderAtEdge | model/database.php:555-569 | at the edge the as-written column holds NULL at the moved video, where `Moved` keeps its order |
| Ordering.LoneVideoMovedUp | model/database.php:555-569 | moving up the lone video of a project at order 1 stores NULL as its order, while `Moved` leaves the table unchanged |
| Store.Database.GetMaxOrder | model/database.php:579-585 | `None` iff the project has no videos; otherwise an order present in the project and at least every order of it |
| Store.Database.GetMinOrder | model/database.php:593-599 | `None` iff the project has no videos; otherwise an order present in the project and at most every order of it |
| Web.Controller.VideoPlayer | controller/Controller.php:20-35 | `project_id` becomes the parameter; `video` becomes the default video of `getVideos(item)` when there is one, and is left as it was otherwise |
| Web.FirstAtOrderOne | controller/Controller.php:27-32 | scanning the project's videos in list order and stopping at the first one with order 1 yields the default video, and nothing when no video has order 1 |
| Web.DefaultVideo | controller/Controller.php:27-32 | `None` iff no listed video has order 1; otherwise a listed video with order 1 |
| Web.FirstOrderOne | controller/Controller.php:28-31 | the first entry of the list with order 1 is the default video, as the loop's `break` on the first match selects it |
| Web.PlayerStartsAtFirstVideo | controller/Controller.php:23-32 | the default video exists iff the project has a video at order 1, and it is a video of that project at order 1; under unique orders it is the only one |

## Left out

- The PDO connection, `config.php` and the echo of a connection error (model/database.php:18-27) are setup and I/O. The `Database` constructor is replaced by one that starts from empty tables.
- The SQL text and the prepare/execute calls are not modelled. Each statement is modelled by its effect on the tables.
- `lastInsertId` is not modelled. Each table the core inserts into with a `DEFAULT` id (projects, videos, users, categories) has its own counter field, which hands out the next id. Sessions are never inserted and have no counter.
- `NOW()` is a `now` parameter of `CreateUser` and `GiveUserProject`. Timestamps are natural numbers.
- Integer columns are unbounded integers. Column widths and overflow of the counters are not modelled.
- Ties in `ORDER BY video_order` and `ORDER BY user_session_last_login` can come back in any order in SQL. The model gives one fixed order, that of `SortBy`.
- index.php is not part of this model. It is the router and template rendering.
- `projectsPage`, `sessionsPage` and `loginPage` are not modelled. They only render templates, and `sessionsPage` calls `getSession()` without its argument. `loginPage` calls a `getUser` method that does not exist and dumps `$_SESSION`.
- The template rendering at the end of `videoPlayer` is not modelled.
- Passwords are compared in plain text, as the source does. Nothing is proved about password handling.
- The two UPDATEs of a move are not atomic, so a concurrent request can interleave between them. Concurrency is not modelled.
- `uploadProjectImage` models only its one-column UPDATE. Storing the file is not modelled.
- Store.Database.GetUserProjectDate: the contract does not say which record is read when the pair has several; it says only that some record of the pair holds the returned time, or NULL as `None`.
- Store.Database.GetUsersBySession: the contract states the result as a set of (id, nickname) pairs; the number of times a pair appears, one per matching (user, membership) pair in the join, is computed by `Roster` but not stated.
- Store.Roster: its contract too states the join as a set; multiplicities are not stated.
- Store.Database.MoveVideoUpOrDown: the model writes nothing when there is no neighbour, unlike the source (see Findings). The permutation and uniqueness promises hold only when orders are unique in the project and the video belongs to the project passed in.
- Statement failures are not modelled: no statement raises a `PDOException`. Were primary or foreign keys enforced by the database, `createUser` for a missing session (model/database.php:237-239, after its User row is already in), `createProject`/`updateProject` for a missing category, `addVideo` for a missing project and `giveUserProject` for a missing user or project would fail, where the model appends or keeps the dangling row. Its `Integrity` promises are stated only for calls whose references resolve.
- A fetch that finds no row returns `false` in PHP, and reading a field of it (model/database.php:255, 272, 557) gives a warning and `NULL`. The model reads such a missing row as `None` and does not model the warning.
- Store.Database.GiveUserProject: the UPDATE and the INSERT (model/database.php:283, 287) each evaluate `NOW()`, and MySQL may give the two statements different times. The model passes one `now` to both, so its promise that every record of the pair holds `now` relies on both calls returning the same time.
- Store.Database.GetUserByLogin: name and password are compared by exact string equality. The SQL comparison uses the columns' collation, which may ignore case; collations are not modelled.
- Store.Database.CreateUser: the permission "user" is promised only when the foreign keys held before the call. Without them, a dangling membership that already names the fresh id could be the one the permission query reads.

## Findings

| source | as written | input that shows it | evidently intended | confidence | as-written member | corrected member |
|---|---|---|---|---|---|---|
| model/database.php:555-569 | With no neighbour in the chosen direction, the MAX/MIN query yields NULL and the neighbour fetch finds no row. The first UPDATE still runs for the current video and sends NULL for its `video_order`. Whether NULL is then stored, coerced to 0 or rejected depends on the column's nullability and the SQL mode; the model takes the column as nullable and stores NULL. | A project with one video (id 1, order 1) moved "up". | No neighbour means nothing changes, and the video keeps order 1 so that the player still opens with it. | not executed | Ordering.OrderColumnAsWritten, Ordering.LoneVideoMovedUp | Ordering.Moved, Ordering.MovedAtEdgeIsNoOp |
