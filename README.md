# In-memory record store with login

This project models the core of a small actix-web record store that exists in
two variants. Each variant keeps a `Database` of two keyed tables in memory:

- The "task" variant (`src/code_template.rs`) keeps tasks and users. It
  offers full create, read, update and delete on tasks. Login compares
  plaintext passwords.
- The "service" variant (`src/main.rs`) keeps services and users. It offers
  insert and read on services. Registration stores a bcrypt hash of the
  password, and login checks a password with bcrypt's `verify`.

Both start from the snapshot file when it loads and from an empty database
when it does not.

Modules:

- `Common` (common.dfy): the integer types, `Option` and the response
  category `Status` (200 `Ok`, 400 `BadRequest`, 401 `Unauthorized`).
- `KeyedTable` (keyed_table.dfy): a `HashMap` becomes a Dafny `map`. A hash
  map's iteration order is unspecified, so every operation that iterates takes
  that order as a parameter `order`. The parameter must satisfy
  `IsIterationOrder(order, keys)`: each key exactly once.
- `Users` (users.dfy): the `User` record and the scan behind
  `get_user_by_name`. It also holds the three-way login decision, which both
  variants share. The password check (equality, or bcrypt `verify`) is a
  parameter of that decision.
- `TaskStore` (task_store.dfy) and `ServiceStore` (service_store.dfy): one
  `Database` class per variant, plus the handlers' effects on it and the
  startup fallback. The class has `map` fields that its methods reassign. Its
  read-only queries are functions with `reads this`.

bcrypt's `hash` and `verify` come from a foreign library, so they are
parameters. `Register` receives the hash function for that one call, which
covers the random salt. Results about a successful login after registration
take `verify(p, hash(p))` as an explicit hypothesis. That is the library's
promise, not something this code guarantees.

## Model

| member | source | states |
|---|---|---|
| `KeyedTable.IterationOrderLength` | src/code_template.rs:54-56 | an iteration order visits exactly as many entries as the table has keys |
| `KeyedTable.ValuesInOrder` | src/code_template.rs:54-56 | collecting values along an order yields one value per visited key, the i-th being the value under the i-th key |
| `KeyedTable.ValuesInOrderExact` | src/main.rs:54-56 | along an iteration order, the collected values number exactly the table's keys; every key's value appears at the position that key is visited; nothing else appears |
| `Users.FindByName` | src/code_template.rs:72-74 | the scan finds nothing iff no visited user has the name; a found user is stored, has the name, and is the first user with that name in the order |
| `Users.FindByNameNoneIff` | src/main.rs:62-64 | over a whole table, the lookup is None iff no stored user has the name, in every iteration order |
| `Users.FindByNameUnique` | src/code_template.rs:72-74 | when exactly one stored user has the name, the lookup returns that user in every iteration order |
| `Users.DuplicateNamesAreAmbiguous` | src/main.rs:62-64 | with two users of the same name, two iteration orders make the lookup return different users |
| `Users.LoginDecision` | src/code_template.rs:166-181 | Unauthorized iff no stored user has the name; Ok only if a stored user of that name passes the password check; BadRequest only if one fails it |
| `Users.LoginDecisionUnique` | src/main.rs:141-150 | when the name belongs to exactly one user, login is Ok if that user's password passes the check and BadRequest if not, in every iteration order |
| `TaskStore.Database.constructor` | src/code_template.rs:37-42 | `new()` gives empty task and user tables |
| `TaskStore.Database.FromSnapshot` | src/code_template.rs:85-89 | a database built from a loaded snapshot holds exactly the snapshot's two tables |
| `TaskStore.Database.Get` | src/code_template.rs:50-52 | a task is returned iff its id is stored, and it is the stored task |
| `TaskStore.Database.GetAll` | src/code_template.rs:54-56 | returns exactly the stored tasks, one per key: its length is the number of stored ids and each id's task appears where the order visits it |
| `TaskStore.Database.Insert` | src/code_template.rs:46-48 | afterwards `Get(task.id)` is the task; every other id's lookup and the whole user table are unchanged; records stay filed under their own ids |
| `TaskStore.Database.Update` | src/code_template.rs:62-64 | the same new state as `Insert`; an id that was absent is created |
| `TaskStore.Database.Delete` | src/code_template.rs:58-60 | afterwards `Get(id)` is None; an absent id leaves the tasks unchanged; other tasks and all users are untouched |
| `TaskStore.Database.InsertUser` | src/code_template.rs:68-70 | overwrites the user entry at `user.id` only; tasks unchanged |
| `TaskStore.Database.GetUserByName` | src/code_template.rs:72-74 | None iff no stored user has the name; otherwise a stored user with that name |
| `TaskStore.CreateTask` | src/code_template.rs:98-106 | inserts the task (tasks overwritten at its id only, users unchanged) and answers Ok |
| `TaskStore.UpdateTask` | src/code_template.rs:131-139 | overwrites or creates the task at its id and answers Ok |
| `TaskStore.DeleteTask` | src/code_template.rs:142-150 | removes the id if present and answers Ok whether or not it was present |
| `TaskStore.Register` | src/code_template.rs:156-164 | stores the submitted user as it is, with its plaintext password, at its id, and answers Ok |
| `TaskStore.Login` | src/code_template.rs:166-181 | reads only: Unauthorized iff the name is unknown; Ok only if a user of that name has exactly the given password; BadRequest only if one has a different one |
| `TaskStore.RegisterThenLogin` | src/code_template.rs:156-181 | after registering an account whose name no other account uses, login with that name is Ok iff the password equals the registered one, else BadRequest |
| `TaskStore.LoginScenario` | src/code_template.rs:166-181 | alice registered with "secret": "secret" gives Ok, "wrong" gives BadRequest, unknown bob gives Unauthorized |
| `TaskStore.Startup` | src/code_template.rs:185-188 | a fresh database that holds the loaded snapshot when loading succeeded and is empty otherwise |
| `ServiceStore.Database.constructor` | src/main.rs:39-44 | `new()` gives empty service and user tables |
| `ServiceStore.Database.FromSnapshot` | src/main.rs:73-77 | a database built from a loaded snapshot holds exactly the snapshot's two tables |
| `ServiceStore.Database.Get` | src/main.rs:50-52 | a service is returned iff its id is stored, and it is the stored service |
| `ServiceStore.Database.GetAll` | src/main.rs:54-56 | returns exactly the stored services, one per key, in iteration order |
| `ServiceStore.Database.Insert` | src/main.rs:46-48 | afterwards `Get(service.id)` is the service; other ids and all users are unchanged |
| `ServiceStore.Database.InsertUser` | src/main.rs:58-60 | overwrites the user entry at `user.id` only; other users and all services are unchanged |
| `ServiceStore.Database.GetUserByName` | src/main.rs:62-64 | None iff no stored user has the name; otherwise a stored user with that name |
| `ServiceStore.CreateService` | src/main.rs:84-92 | inserts the service at its id and answers Ok |
| `ServiceStore.Register` | src/main.rs:118-134 | stores, at the request's id, an account with the request's username and `hash(password)` as its password, changes nothing else, and answers Ok |
| `ServiceStore.Login` | src/main.rs:136-151 | reads only: Unauthorized iff the name is unknown; Ok only if `verify(given, stored hash)` holds for a user of that name; BadRequest only if it fails for one |
| `ServiceStore.RegisterThenLogin` | src/main.rs:118-151 | after registering an account whose name no other account uses, login with that name is Ok iff `verify` accepts the password against the stored hash; with bcrypt's promise, the registered password logs in |
| `ServiceStore.Startup` | src/main.rs:155-158 | a fresh database that holds the loaded snapshot when loading succeeded and is empty otherwise |

## Left out

- HTTP routing, handler signatures, JSON request framing, response bodies and the server bootstrap are left out. Only the response category (`Status`) is modelled.
- `read_task`, `read_all_tasks`, `read_service` and `read_all_services` are left out: they only turn `Get`/`GetAll` results into 200 or 404 responses.
- `home_page` is left out: it returns a constant greeting.
- The CORS configuration is left out: it is framework configuration.
- The `Mutex`, its locking and the panic on a poisoned lock are left out. The database is one sequential object, so each handler runs as one atomic step.
- `save_to_file` (serde_json plus a file write) is left out. Every handler discards its result, so it has no effect on the in-memory state or on the response.
- `load_from_file` is left out except for its outcome. That outcome is the `Option<Snapshot>` input of `Startup`, where `None` means the file was missing or malformed.
- bcrypt's internals, its cost factor and salting are left out. The `expect` panics when hashing or verifying fails are also left out.
- A failed `verify`, for example on a malformed stored hash, is not a third login outcome. In the code, `expect` turns it into a panic, not a rejected login. The model follows the code and has no such rejection.
- `ServiceStore.Register`: says that the stored password is `hash(password)`, but does not prove it differs from the plaintext. That would be a property of bcrypt, not of this code.
- `Service.price` (`f32`) is carried as its 32-bit pattern, because nothing computes with it.
- Ids are kept within `u64` by the `U64` type. No arithmetic is done on them.
- The unused `Claims` struct and the unused imports are left out.
- `KeyedById`: the store's own operations keep every record under its own id. A loaded snapshot may break this, so it is not assumed anywhere.
- Strings are sequences of characters. Rust compares `String` values byte by byte, which gives the same equality.
