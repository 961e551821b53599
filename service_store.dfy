/**
 * The "service" variant of the record store: a `Database` holding a service
 * table and a user table, registration that stores a bcrypt hash instead of
 * the password, login through bcrypt's verify, and the startup fallback.
 *
 * bcrypt is a foreign library: its `hash` and `verify` are parameters here.
 * A salted hash gives different outputs on different calls, so each call of
 * `Register` is handed the hash function it is to use, salt included.
 */
module ServiceStore {
  import opened Common
  import opened KeyedTable
  import opened Users

  datatype Service = Service(id: U64, name: string, price: F32, duration: U32)

  /** What a successfully read and deserialized snapshot file holds. */
  datatype Snapshot = Snapshot(services: map<U64, Service>, users: map<U64, User>)

  /** The account `register` builds: the request's id and username with the hash of its password. */
  function HashedUser(request: User, hash: string -> string): User
  {
    User(request.id, request.username, hash(request.password))
  }

  class Database {
    var services: map<U64, Service>
    var users: map<U64, User>

    /**
     * Every record is filed under its own id. The store's own operations keep
     * this; a snapshot read from disk need not satisfy it.
     */
    ghost predicate KeyedById()
      reads this
    {
      && (forall id :: id in services ==> services[id].id == id)
      && (forall id :: id in users ==> users[id].id == id)
    }

    /** `Database::new()`: both tables empty. */
    constructor ()
      ensures services == map[] && users == map[]
      ensures KeyedById()
    {
      services := map[];
      users := map[];
    }

    /** A database holding exactly what a snapshot file held. */
    constructor FromSnapshot(s: Snapshot)
      ensures services == s.services && users == s.users
    {
      services := s.services;
      users := s.users;
    }

    /** `get`: the service stored under `id`, or nothing. */
    function Get(id: U64): (r: Option<Service>)
      reads this
      ensures r.Some? <==> id in services
      ensures r.Some? ==> r.value == services[id]
    {
      if id in services then Some(services[id]) else None
    }

    /** `get_all`: every stored service, one per key, in the iteration order `order`. */
    function GetAll(order: seq<U64>): (r: seq<Service>)
      reads this
      requires IsIterationOrder(order, services.Keys)
      ensures |r| == |order| == |services|
      ensures forall i :: 0 <= i < |r| ==> r[i] == services[order[i]]
      ensures forall id :: id in services ==>
        exists i :: 0 <= i < |r| && order[i] == id && r[i] == services[id]
    {
      ValuesInOrderExact(services, order);
      ValuesInOrder(services, order)
    }

    /** `insert`: file `service` under its id, replacing any service already there. */
    method Insert(service: Service)
      modifies this
      ensures services == old(services)[service.id := service] && users == old(users)
      ensures Get(service.id) == Some(service)
      ensures forall id :: id != service.id ==> Get(id) == old(Get(id))
      ensures old(KeyedById()) ==> KeyedById()
    {
      services := services[service.id := service];
    }

    /** `insert_user`: file `user` under its id, replacing any user already there. */
    method InsertUser(user: User)
      modifies this
      ensures users == old(users)[user.id := user] && services == old(services)
      ensures forall id :: id in users && id != user.id ==> users[id] == old(users)[id]
      ensures old(KeyedById()) ==> KeyedById()
    {
      users := users[user.id := user];
    }

    /**
     * `get_user_by_name`: nothing exactly when no stored user has the name;
     * otherwise some stored user with that name (which one depends on the
     * iteration order when names repeat).
     */
    function GetUserByName(name: string, order: seq<U64>): (r: Option<User>)
      reads this
      requires IsIterationOrder(order, users.Keys)
      ensures r.None? <==> forall id :: id in users ==> users[id].username != name
      ensures r.Some? ==> exists id :: id in users && users[id] == r.value && r.value.username == name
    {
      FindByNameNoneIff(users, order, name);
      FindByName(users, order, name)
    }
  }

  /** `create_service`: insert the service and answer 200. */
  method CreateService(db: Database, service: Service) returns (s: Status)
    modifies db
    ensures s == Ok
    ensures db.services == old(db.services)[service.id := service] && db.users == old(db.users)
  {
    db.Insert(service);
    s := Ok;
  }

  /**
   * `register`: store an account with the request's id and username and the
   * hash of its password in place of the password, and answer 200.
   */
  method Register(db: Database, request: User, hash: string -> string) returns (s: Status)
    modifies db
    ensures s == Ok
    ensures db.users == old(db.users)[request.id := HashedUser(request, hash)]
    ensures db.services == old(db.services)
    ensures request.id in db.users && db.users[request.id].username == request.username
    ensures db.users[request.id].password == hash(request.password)
  {
    var account := HashedUser(request, hash);
    db.InsertUser(account);
    s := Ok;
  }

  /**
   * `login`: `Unauthorized` when no user has the name, otherwise `Ok` or
   * `BadRequest` as `verify(given, stored hash)` holds or not for the found
   * user. It only reads the database.
   */
  function Login(db: Database, request: User, order: seq<U64>,
                 verify: (string, string) -> bool): (s: Status)
    reads db
    requires IsIterationOrder(order, db.users.Keys)
    ensures s == Unauthorized <==> forall id :: id in db.users ==> db.users[id].username != request.username
    ensures s == Ok ==>
      exists id :: id in db.users && db.users[id].username == request.username &&
        verify(request.password, db.users[id].password)
    ensures s == BadRequest ==>
      exists id :: id in db.users && db.users[id].username == request.username &&
        !verify(request.password, db.users[id].password)
  {
    LoginDecision(db.users, order, request, verify)
  }

  /**
   * Registering an account whose name no other account uses, then logging in
   * with that name, is `Ok` exactly when `verify` accepts the given password
   * against the stored hash, and `BadRequest` otherwise. Under bcrypt's own
   * promise that a password verifies against its hash, logging in with the
   * registered password is `Ok`.
   */
  lemma RegisterThenLogin(users: map<U64, User>, request: User, hash: string -> string,
                          verify: (string, string) -> bool, attempt: User, order: seq<U64>)
    requires forall id :: id in users && id != request.id ==> users[id].username != request.username
    requires attempt.username == request.username
    requires IsIterationOrder(order, users[request.id := HashedUser(request, hash)].Keys)
    ensures LoginDecision(users[request.id := HashedUser(request, hash)], order, attempt, verify) ==
      if verify(attempt.password, hash(request.password)) then Ok else BadRequest
    ensures attempt.password == request.password && verify(request.password, hash(request.password)) ==>
      LoginDecision(users[request.id := HashedUser(request, hash)], order, attempt, verify) == Ok
  {
    LoginDecisionUnique(users[request.id := HashedUser(request, hash)], order, attempt, verify, request.id);
  }

  /**
   * Startup: the loaded snapshot when the file could be read and parsed,
   * otherwise an empty database.
   */
  method Startup(loaded: Option<Snapshot>) returns (db: Database)
    ensures fresh(db)
    ensures loaded.None? ==> db.services == map[] && db.users == map[]
    ensures loaded.Some? ==> db.services == loaded.value.services && db.users == loaded.value.users
  {
    if loaded.Some? {
      db := new Database.FromSnapshot(loaded.value);
    } else {
      db := new Database();
    }
  }
}
