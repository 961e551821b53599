/**
 * The "task" variant of the record store: a `Database` holding a task table
 * and a user table, the handlers' effects on it, plaintext login, and the
 * startup fallback to an empty database.
 */
module TaskStore {
  import opened Common
  import opened KeyedTable
  import opened Users

  datatype Task = Task(id: U64, name: string, completed: bool)

  /** What a successfully read and deserialized snapshot file holds. */
  datatype Snapshot = Snapshot(tasks: map<U64, Task>, users: map<U64, User>)

  /** The password check of this variant: the given plaintext must equal the stored plaintext. */
  function PlainMatch(given: string, stored: string): bool
  {
    given == stored
  }

  class Database {
    var tasks: map<U64, Task>
    var users: map<U64, User>

    /**
     * Every record is filed under its own id. The store's own operations keep
     * this; a snapshot read from disk need not satisfy it.
     */
    ghost predicate KeyedById()
      reads this
    {
      && (forall id :: id in tasks ==> tasks[id].id == id)
      && (forall id :: id in users ==> users[id].id == id)
    }

    /** `Database::new()`: both tables empty. */
    constructor ()
      ensures tasks == map[] && users == map[]
      ensures KeyedById()
    {
      tasks := map[];
      users := map[];
    }

    /** A database holding exactly what a snapshot file held. */
    constructor FromSnapshot(s: Snapshot)
      ensures tasks == s.tasks && users == s.users
    {
      tasks := s.tasks;
      users := s.users;
    }

    /** `get`: the task stored under `id`, or nothing. */
    function Get(id: U64): (r: Option<Task>)
      reads this
      ensures r.Some? <==> id in tasks
      ensures r.Some? ==> r.value == tasks[id]
    {
      if id in tasks then Some(tasks[id]) else None
    }

    /** `get_all`: every stored task, one per key, in the iteration order `order`. */
    function GetAll(order: seq<U64>): (r: seq<Task>)
      reads this
      requires IsIterationOrder(order, tasks.Keys)
      ensures |r| == |order| == |tasks|
      ensures forall i :: 0 <= i < |r| ==> r[i] == tasks[order[i]]
      ensures forall id :: id in tasks ==>
        exists i :: 0 <= i < |r| && order[i] == id && r[i] == tasks[id]
    {
      ValuesInOrderExact(tasks, order);
      ValuesInOrder(tasks, order)
    }

    /** `insert`: file `task` under its id, replacing any task already there. */
    method Insert(task: Task)
      modifies this
      ensures tasks == old(tasks)[task.id := task] && users == old(users)
      ensures Get(task.id) == Some(task)
      ensures forall id :: id != task.id ==> Get(id) == old(Get(id))
      ensures old(KeyedById()) ==> KeyedById()
    {
      tasks := tasks[task.id := task];
    }

    /**
     * `update`: the same overwrite as `Insert`; an id that is not stored yet is
     * created rather than refused.
     */
    method Update(task: Task)
      modifies this
      ensures tasks == old(tasks)[task.id := task] && users == old(users)
      ensures Get(task.id) == Some(task)
      ensures old(task.id !in tasks) ==> tasks.Keys == old(tasks.Keys) + {task.id}
      ensures forall id :: id != task.id ==> Get(id) == old(Get(id))
      ensures old(KeyedById()) ==> KeyedById()
    {
      tasks := tasks[task.id := task];
    }

    /** `delete`: drop the task under `id`; an absent id changes nothing. */
    method Delete(id: U64)
      modifies this
      ensures tasks == old(tasks) - {id} && users == old(users)
      ensures Get(id) == None
      ensures old(id !in tasks) ==> tasks == old(tasks)
      ensures forall other :: other != id ==> Get(other) == old(Get(other))
      ensures old(KeyedById()) ==> KeyedById()
    {
      tasks := tasks - {id};
    }

    /** `insert_user`: file `user` under its id, replacing any user already there. */
    method InsertUser(user: User)
      modifies this
      ensures users == old(users)[user.id := user] && tasks == old(tasks)
      ensures old(KeyedById()) ==> KeyedById()
    {
      users := users[user.id := user];
    }

    /**
     * `get_user_by_name`: nothing exactly when no stored user has the name;
     * otherwise some stored user with that name (which one depends on the
     * iteration order when names repeat).
     */
    function GetUserByName(name: string, order: seq<U64>): (r: Option<User>)
      reads this
      requires IsIterationOrder(order, users.Keys)
      ensures r.None? <==> forall id :: id in users ==> users[id].username != name
      ensures r.Some? ==> exists id :: id in users && users[id] == r.value && r.value.username == name
    {
      FindByNameNoneIff(users, order, name);
      FindByName(users, order, name)
    }
  }

  /** `create_task`: insert the task and answer 200. */
  method CreateTask(db: Database, task: Task) returns (s: Status)
    modifies db
    ensures s == Ok
    ensures db.tasks == old(db.tasks)[task.id := task] && db.users == old(db.users)
  {
    db.Insert(task);
    s := Ok;
  }

  /** `update_task`: overwrite (or create) the task and answer 200. */
  method UpdateTask(db: Database, task: Task) returns (s: Status)
    modifies db
    ensures s == Ok
    ensures db.tasks == old(db.tasks)[task.id := task] && db.users == old(db.users)
  {
    db.Update(task);
    s := Ok;
  }

  /** `delete_task`: remove the task if present and answer 200 either way. */
  method DeleteTask(db: Database, id: U64) returns (s: Status)
    modifies db
    ensures s == Ok
    ensures db.tasks == old(db.tasks) - {id} && db.users == old(db.users)
  {
    db.Delete(id);
    s := Ok;
  }

  /** `register`: store the submitted user as it is, plaintext password included, and answer 200. */
  method Register(db: Database, user: User) returns (s: Status)
    modifies db
    ensures s == Ok
    ensures db.users == old(db.users)[user.id := user] && db.tasks == old(db.tasks)
    ensures db.users[user.id].password == user.password
  {
    db.InsertUser(user);
    s := Ok;
  }

  /**
   * `login`: `Unauthorized` when no user has the name, otherwise `Ok` or
   * `BadRequest` as the found user's plaintext password equals the given one.
   * It only reads the database.
   */
  function Login(db: Database, request: User, order: seq<U64>): (s: Status)
    reads db
    requires IsIterationOrder(order, db.users.Keys)
    ensures s == Unauthorized <==> forall id :: id in db.users ==> db.users[id].username != request.username
    ensures s == Ok ==>
      exists id :: id in db.users && db.users[id].username == request.username &&
        db.users[id].password == request.password
    ensures s == BadRequest ==>
      exists id :: id in db.users && db.users[id].username == request.username &&
        db.users[id].password != request.password
  {
    LoginDecision(db.users, order, request, PlainMatch)
  }

  /**
   * Registering an account whose name no other account uses, then logging in
   * with that name, succeeds exactly when the given password is the registered
   * one, and is a `BadRequest` otherwise.
   */
  lemma RegisterThenLogin(users: map<U64, User>, user: User, request: User, order: seq<U64>)
    requires forall id :: id in users && id != user.id ==> users[id].username != user.username
    requires request.username == user.username
    requires IsIterationOrder(order, users[user.id := user].Keys)
    ensures LoginDecision(users[user.id := user], order, request, PlainMatch) ==
      if request.password == user.password then Ok else BadRequest
  {
    LoginDecisionUnique(users[user.id := user], order, request, PlainMatch, user.id);
  }

  /**
   * After registering alice with password "secret", logging in as alice with
   * "secret" succeeds, with "wrong" is a `BadRequest`, and as bob (unknown) is
   * `Unauthorized`: the two rejections are told apart.
   */
  lemma LoginScenario(order: seq<U64>)
    requires IsIterationOrder(order, {1})
    ensures
      var users := map[][1 := User(1, "alice", "secret")];
      && LoginDecision(users, order, User(0, "alice", "secret"), PlainMatch) == Ok
      && LoginDecision(users, order, User(0, "alice", "wrong"), PlainMatch) == BadRequest
      && LoginDecision(users, order, User(0, "bob", "secret"), PlainMatch) == Unauthorized
  {
  }

  /**
   * Startup: the loaded snapshot when the file could be read and parsed,
   * otherwise an empty database.
   */
  method Startup(loaded: Option<Snapshot>) returns (db: Database)
    ensures fresh(db)
    ensures loaded.None? ==> db.tasks == map[] && db.users == map[]
    ensures loaded.Some? ==> db.tasks == loaded.value.tasks && db.users == loaded.value.users
  {
    if loaded.Some? {
      db := new Database.FromSnapshot(loaded.value);
    } else {
      db := new Database();
    }
  }
}
