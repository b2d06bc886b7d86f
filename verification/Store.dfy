/** The state of the in-memory backend and what each operation makes of it (backend/memory). */
module Store {
  import opened Common
  import opened Scopes
  import Format
  import ApiKey

  type Time = int

  datatype Resource = Resource(pid: string, url: Option<string>, metadata: Option<string>,
                               created: Time, updated: Time, tags: seq<string>, deleted: bool)
  datatype ResourceCreate = ResourceCreate(url: Option<string>, metadata: Option<string>, tags: seq<string>)
  datatype ResourceUpdate = ResourceUpdate(url: Option<Option<string>>, metadata: Option<Option<string>>,
                                           tags: Option<seq<string>>, deleted: Option<bool>)
  datatype Namespace = Namespace(id: string, tags: seq<string>, format: Format.Format, created: Time, updated: Time)
  datatype KeyInfo = KeyInfo(id: string, comment: string, created: Time, expires: Option<Time>,
                             userScopes: seq<UserScope>, namespaceScopes: seq<(string, NamespaceScope)>)
  datatype KeyRequest = KeyRequest(comment: string, expires: Option<Time>,
                                   userScopes: seq<UserScope>, namespaceScopes: seq<(string, NamespaceScope)>)
  datatype KeyRecord = KeyRecord(info: KeyInfo, stored: ApiKey.Stored)
  datatype UserInfo = UserInfo(username: string, superuser: bool, password: bool)
  datatype User = User(superuser: bool, passwordHash: string, keys: map<string, KeyRecord>)

  datatype StoreState = StoreState(
    users: map<string, User>,
    namespaces: map<string, Namespace>,
    resources: map<string, map<string, Resource>>,
    roles: map<string, map<string, Role>>,
    mounts: map<string, string>,        // base URI -> namespace
    grants: map<string, set<string>>)   // username -> patterns

  datatype StoreError =
    | UserNotFound | DuplicateUsername
    | NamespaceNotFound | DuplicateNamespaceID
    | InvalidRole | RoleNotFound
    | ResourceNotFound | PIDAllocationFailed
    | MountNotFound | MountGrantNotFound
    | HashFailed | KeyCollision | KeyNotFound | InvalidKey

  type Outcome<T> = (StoreState, Result<T, StoreError>)

  const EMPTY: StoreState := StoreState(map[], map[], map[], map[], map[], map[])

  function Inner<V>(m: map<string, map<string, V>>, key: string): map<string, V> {
    if key in m then m[key] else map[]
  }

  function Granted(m: map<string, set<string>>, key: string): set<string> {
    if key in m then m[key] else {}
  }

  // ---- users ------------------------------------------------------------------

  /** What callers are told about a user. */
  function Info(name: string, u: User): UserInfo {
    UserInfo(name, u.superuser, u.passwordHash != "")
  }

  function CreateUser(st: StoreState, name: string, superuser: bool): (r: Outcome<UserInfo>)
    ensures r.0 == st.(users := r.0.users)
  {
    if name in st.users then (st, Err(DuplicateUsername))
    else
      var u := User(superuser, "", map[]);
      (st.(users := st.users[name := u]), Ok(Info(name, u)))
  }

  function UpdateUser(st: StoreState, name: string, superuser: Option<bool>): (r: Outcome<UserInfo>)
    ensures r.0 == st.(users := r.0.users)
  {
    if name !in st.users then (st, Err(UserNotFound))
    else
      var u := st.users[name].(superuser := Or(superuser, st.users[name].superuser));
      (st.(users := st.users[name := u]), Ok(Info(name, u)))
  }

  /** The roles without one user; a namespace left without any role entry disappears. */
  function WithoutUser(roles: map<string, map<string, Role>>, name: string): map<string, map<string, Role>> {
    map ns | ns in roles && roles[ns] - {name} != map[] :: roles[ns] - {name}
  }

  function DeleteUser(st: StoreState, name: string): (r: Outcome<()>)
    ensures r.0 == st.(users := r.0.users, roles := r.0.roles, grants := r.0.grants)
  {
    if name !in st.users then (st, Err(UserNotFound))
    else (st.(users := st.users - {name}, roles := WithoutUser(st.roles, name), grants := st.grants - {name}), Ok(()))
  }

  /** Clears the password, or stores the hash of a new one; hashing is foreign and may fail. */
  function SetPassword(st: StoreState, name: string, hashed: Option<Option<string>>): (r: Outcome<bool>)
    ensures r.0 == st.(users := r.0.users)
  {
    if name !in st.users then (st, Err(UserNotFound))
    else match hashed
      case None => (WithPassword(st, name, ""), Ok(false))
      case Some(None) => (st, Err(HashFailed))
      case Some(Some(hash)) => (WithPassword(st, name, hash), Ok(true))
  }

  function WithPassword(st: StoreState, name: string, hash: string): StoreState
    requires name in st.users
  {
    st.(users := st.users[name := st.users[name].(passwordHash := hash)])
  }

  // ---- API keys ----------------------------------------------------------------

  /** Some user already holds a key with this prefix and digest. */
  ghost predicate Collides(st: StoreState, stored: ApiKey.Stored) {
    exists name, id :: name in st.users && id in st.users[name].keys && st.users[name].keys[id].stored == stored
  }

  function NewKeyInfo(id: string, req: KeyRequest, now: Time): KeyInfo {
    KeyInfo(id, req.comment, now, req.expires, req.userScopes, req.namespaceScopes)
  }

  ghost function CreateKey(st: StoreState, format: ApiKey.KeyFormat, name: string, id: string, key: string,
                           req: KeyRequest, now: Time): (r: Outcome<KeyInfo>)
    ensures r.0 == st.(users := r.0.users)
  {
    if name !in st.users then (st, Err(UserNotFound))
    else match ApiKey.Hash(format, key)
      case None => (st, Err(HashFailed))
      case Some(stored) =>
        if id in st.users[name].keys || Collides(st, stored) then (st, Err(KeyCollision))
        else
          var record := KeyRecord(NewKeyInfo(id, req, now), stored);
          (WithKeys(st, name, st.users[name].keys[id := record]), Ok(record.info))
  }

  function WithKeys(st: StoreState, name: string, keys: map<string, KeyRecord>): StoreState
    requires name in st.users
  {
    st.(users := st.users[name := st.users[name].(keys := keys)])
  }

  function RevokeKey(st: StoreState, name: string, id: string): (r: Outcome<()>)
    ensures r.0 == st.(users := r.0.users)
  {
    if name !in st.users then (st, Err(UserNotFound))
    else if id !in st.users[name].keys then (st, Err(KeyNotFound))
    else (WithKeys(st, name, st.users[name].keys - {id}), Ok(()))
  }

  // ---- namespaces ---------------------------------------------------------------

  function CreateNamespace(st: StoreState, ns: string, tags: seq<string>, format: Format.Format,
                           owner: Option<string>, now: Time): (r: Outcome<Namespace>)
    ensures r.0 == st.(namespaces := r.0.namespaces, resources := r.0.resources, roles := r.0.roles)
  {
    if owner.Some? && owner.value !in st.users then (st, Err(UserNotFound))
    else if ns in st.namespaces then (st, Err(DuplicateNamespaceID))
    else
      var created := Namespace(ns, tags, format, now, now);
      var roles := if owner.Some? then st.roles[ns := Inner(st.roles, ns)[owner.value := Manager]] else st.roles;
      (st.(namespaces := st.namespaces[ns := created], resources := st.resources[ns := map[]], roles := roles), Ok(created))
  }

  function UpdateNamespace(st: StoreState, ns: string, tags: Option<seq<string>>, now: Time): (r: Outcome<Namespace>)
    ensures r.0 == st.(namespaces := r.0.namespaces)
  {
    if ns !in st.namespaces then (st, Err(NamespaceNotFound))
    else
      var was := st.namespaces[ns];
      var changed := was.(tags := if tags.Some? then tags.value else was.tags, updated := now);
      (st.(namespaces := st.namespaces[ns := changed]), Ok(changed))
  }

  // ---- roles ----------------------------------------------------------------------

  /** The explicit role of a user in a namespace, NoRole without an entry. */
  function RoleOf(st: StoreState, ns: string, name: string): Role {
    if name in Inner(st.roles, ns) then st.roles[ns][name] else NoRole
  }

  function WithoutRole(roles: map<string, map<string, Role>>, ns: string, name: string): map<string, map<string, Role>> {
    if ns !in roles then roles
    else if roles[ns] - {name} == map[] then roles - {ns}
    else roles[ns := roles[ns] - {name}]
  }

  function SetRole(st: StoreState, ns: string, name: string, role: Role): (r: Outcome<()>)
    ensures r.0 == st.(roles := r.0.roles)
  {
    if !role.Known() then (st, Err(InvalidRole))
    else if ns !in st.namespaces then (st, Err(NamespaceNotFound))
    else if role == NoRole then (st.(roles := WithoutRole(st.roles, ns, name)), Ok(()))
    else (st.(roles := st.roles[ns := Inner(st.roles, ns)[name := role]]), Ok(()))
  }

  function DeleteRole(st: StoreState, ns: string, name: string): (r: Outcome<()>)
    ensures r.0 == st.(roles := r.0.roles)
  {
    if name !in Inner(st.roles, ns) then (st, Err(RoleNotFound))
    else (st.(roles := WithoutRole(st.roles, ns, name)), Ok(()))
  }

  // ---- mounts and mount grants -------------------------------------------------------

  function SetMount(st: StoreState, uri: string, ns: string): (r: Outcome<()>)
    ensures r.0 == st.(mounts := r.0.mounts)
  {
    if ns !in st.namespaces then (st, Err(NamespaceNotFound))
    else (st.(mounts := st.mounts[uri := ns]), Ok(()))
  }

  function DeleteMount(st: StoreState, uri: string): (r: Outcome<()>)
    ensures r.0 == st.(mounts := r.0.mounts)
  {
    if uri !in st.mounts then (st, Err(MountNotFound))
    else (st.(mounts := st.mounts - {uri}), Ok(()))
  }

  function SetGrant(st: StoreState, name: string, pattern: string): (r: Outcome<()>)
    ensures r.0 == st.(grants := r.0.grants)
  {
    if name !in st.users then (st, Err(UserNotFound))
    else (st.(grants := st.grants[name := Granted(st.grants, name) + {pattern}]), Ok(()))
  }

  function DeleteGrant(st: StoreState, name: string, pattern: string): (r: Outcome<()>)
    ensures r.0 == st.(grants := r.0.grants)
  {
    if name !in st.users then (st, Err(UserNotFound))
    else if pattern !in Granted(st.grants, name) then (st, Err(MountGrantNotFound))
    else if st.grants[name] == {pattern} then (st.(grants := st.grants - {name}), Ok(()))
    else (st.(grants := st.grants[name := st.grants[name] - {pattern}]), Ok(()))
  }

  // ---- resources ------------------------------------------------------------------------

  function NewResource(pid: string, req: ResourceCreate, now: Time): Resource {
    Resource(pid, req.url, req.metadata, now, now, req.tags, false)
  }

  function WithResources(st: StoreState, ns: string, byPID: map<string, Resource>): StoreState {
    st.(resources := st.resources[ns := byPID])
  }

  function CreateResource(st: StoreState, ns: string, pid: string, req: ResourceCreate, now: Time): (r: Outcome<Resource>)
    ensures r.0 == st.(resources := r.0.resources)
  {
    if ns !in st.namespaces then (st, Err(NamespaceNotFound))
    else if pid in Inner(st.resources, ns) then (st, Err(PIDAllocationFailed))
    else
      var r := NewResource(pid, req, now);
      (WithResources(st, ns, Inner(st.resources, ns)[pid := r]), Ok(r))
  }

  predicate Distinct<T(==)>(s: seq<T>) {
    forall i, j :: 0 <= i < j < |s| ==> s[i] != s[j]
  }

  function NewResources(pids: seq<string>, reqs: seq<ResourceCreate>, now: Time): seq<Resource>
    requires |pids| == |reqs|
  {
    seq(|pids|, i requires 0 <= i < |pids| => NewResource(pids[i], reqs[i], now))
  }

  /** A map with the first n resources of a batch written into it. */
  function Added(byPID: map<string, Resource>, batch: seq<Resource>, n: nat): map<string, Resource>
    requires n <= |batch|
  {
    if n == 0 then byPID else Added(byPID, batch, n - 1)[batch[n - 1].pid := batch[n - 1]]
  }

  /** No PID of a batch occurs twice in it or is already taken. */
  predicate Unused(pids: seq<string>, byPID: map<string, Resource>) {
    Distinct(pids) && forall i :: 0 <= i < |pids| ==> pids[i] !in byPID
  }

  function BatchCreate(st: StoreState, ns: string, pids: seq<string>, reqs: seq<ResourceCreate>,
                       now: Time): (r: Outcome<seq<Resource>>)
    ensures r.0 == st.(resources := r.0.resources)
  {
    if ns !in st.namespaces then (st, Err(NamespaceNotFound))
    else if |pids| != |reqs| then (st, Err(PIDAllocationFailed))
    else if !Unused(pids, Inner(st.resources, ns)) then (st, Err(PIDAllocationFailed))
    else
      var batch := NewResources(pids, reqs, now);
      (WithResources(st, ns, Added(Inner(st.resources, ns), batch, |batch|)), Ok(batch))
  }

  function Or<T>(update: Option<T>, before: T): T {
    if update.Some? then update.value else before
  }

  function UpdateResource(st: StoreState, ns: string, pid: string, req: ResourceUpdate, now: Time): (r: Outcome<Resource>)
    ensures r.0 == st.(resources := r.0.resources)
  {
    if ns !in st.namespaces then (st, Err(NamespaceNotFound))
    else if pid !in Inner(st.resources, ns) then (st, Err(ResourceNotFound))
    else
      var prev := Inner(st.resources, ns)[pid];
      var r := prev.(url := Or(req.url, prev.url), tags := Or(req.tags, prev.tags), deleted := Or(req.deleted, prev.deleted),
                     metadata := Or(req.metadata, prev.metadata), updated := now);
      (WithResources(st, ns, Inner(st.resources, ns)[pid := r]), Ok(r))
  }

  // ---- every operation at once ---------------------------------------------------------------

  datatype Op =
    | OpCreateUser(name: string, superuser: bool)
    | OpUpdateUser(name: string, flag: Option<bool>)
    | OpDeleteUser(name: string)
    | OpSetPassword(name: string, hashed: Option<Option<string>>)
    | OpCreateKey(format: ApiKey.KeyFormat, name: string, id: string, key: string, keyReq: KeyRequest, now: Time)
    | OpRevokeKey(name: string, id: string)
    | OpCreateNamespace(ns: string, nsTags: seq<string>, pidFormat: Format.Format, owner: Option<string>, now: Time)
    | OpUpdateNamespace(ns: string, tags: Option<seq<string>>, now: Time)
    | OpSetRole(ns: string, name: string, role: Role)
    | OpDeleteRole(ns: string, name: string)
    | OpSetMount(uri: string, ns: string)
    | OpDeleteMount(uri: string)
    | OpSetGrant(name: string, pattern: string)
    | OpDeleteGrant(name: string, pattern: string)
    | OpCreateResource(ns: string, pid: string, req: ResourceCreate, now: Time)
    | OpBatchCreate(ns: string, pids: seq<string>, reqs: seq<ResourceCreate>, now: Time)
    | OpUpdateResource(ns: string, pid: string, update: ResourceUpdate, now: Time)

  ghost function Apply(st: StoreState, op: Op): StoreState {
    match op
    case OpCreateUser(name, superuser) => CreateUser(st, name, superuser).0
    case OpUpdateUser(name, flag) => UpdateUser(st, name, flag).0
    case OpDeleteUser(name) => DeleteUser(st, name).0
    case OpSetPassword(name, hashed) => SetPassword(st, name, hashed).0
    case OpCreateKey(format, name, id, key, req, now) => CreateKey(st, format, name, id, key, req, now).0
    case OpRevokeKey(name, id) => RevokeKey(st, name, id).0
    case OpCreateNamespace(ns, tags, format, owner, now) => CreateNamespace(st, ns, tags, format, owner, now).0
    case OpUpdateNamespace(ns, tags, now) => UpdateNamespace(st, ns, tags, now).0
    case OpSetRole(ns, name, role) => SetRole(st, ns, name, role).0
    case OpDeleteRole(ns, name) => DeleteRole(st, ns, name).0
    case OpSetMount(uri, ns) => SetMount(st, uri, ns).0
    case OpDeleteMount(uri) => DeleteMount(st, uri).0
    case OpSetGrant(name, pattern) => SetGrant(st, name, pattern).0
    case OpDeleteGrant(name, pattern) => DeleteGrant(st, name, pattern).0
    case OpCreateResource(ns, pid, req, now) => CreateResource(st, ns, pid, req, now).0
    case OpBatchCreate(ns, pids, reqs, now) => BatchCreate(st, ns, pids, reqs, now).0
    case OpUpdateResource(ns, pid, update, now) => UpdateResource(st, ns, pid, update, now).0
  }

  ghost function ApplyAll(st: StoreState, ops: seq<Op>): StoreState
    decreases |ops|
  {
    if ops == [] then st else ApplyAll(Apply(st, ops[0]), ops[1..])
  }

  // ---- cross-map invariants ---------------------------------------------------------------------

  ghost predicate ResourcesConsistent(st: StoreState) {
    && st.resources.Keys == st.namespaces.Keys
    && (forall ns, pid :: ns in st.resources && pid in st.resources[ns] ==> st.resources[ns][pid].pid == pid)
    && (forall ns :: ns in st.namespaces ==> st.namespaces[ns].id == ns)
  }

  /** Every entry belongs to a namespace and is a known role other than none; no inner map is empty. */
  ghost predicate RoleMapConsistent(roles: map<string, map<string, Role>>, namespaces: set<string>) {
    && (forall ns :: ns in roles ==> ns in namespaces && roles[ns] != map[])
    && (forall ns, name :: ns in roles && name in roles[ns] ==> roles[ns][name].Known() && roles[ns][name] != NoRole)
  }

  ghost predicate RolesConsistent(st: StoreState) {
    RoleMapConsistent(st.roles, st.namespaces.Keys)
  }

  ghost predicate MountsConsistent(st: StoreState) {
    && (forall uri :: uri in st.mounts ==> st.mounts[uri] in st.namespaces)
    && (forall name :: name in st.grants ==> name in st.users && st.grants[name] != {})
  }

  ghost predicate KeysConsistent(st: StoreState) {
    && (forall name, id :: name in st.users && id in st.users[name].keys ==> st.users[name].keys[id].info.id == id)
    && (forall name, id, name', id' ::
          (name in st.users && id in st.users[name].keys && name' in st.users && id' in st.users[name'].keys
           && st.users[name].keys[id].stored == st.users[name'].keys[id'].stored) ==> name == name' && id == id')
  }

  ghost predicate Consistent(st: StoreState) {
    ResourcesConsistent(st) && RolesConsistent(st) && MountsConsistent(st) && KeysConsistent(st)
  }

  predicate SameIdentity(a: Namespace, b: Namespace) {
    a.id == b.id && a.format == b.format && a.created == b.created
  }

  /** Nothing that identifies a namespace or a resource is ever lost or altered. */
  ghost predicate Preserves(before: StoreState, after: StoreState) {
    && (forall ns :: ns in before.namespaces ==> ns in after.namespaces && SameIdentity(before.namespaces[ns], after.namespaces[ns]))
    && (forall ns, pid :: ns in before.resources && pid in before.resources[ns] ==>
          && ns in after.resources && pid in after.resources[ns]
          && after.resources[ns][pid].created == before.resources[ns][pid].created)
  }

  lemma {:induction false} AddedKeys(byPID: map<string, Resource>, batch: seq<Resource>, pids: seq<string>, n: nat)
    requires n <= |batch| == |pids|
    requires forall i :: 0 <= i < |pids| ==> batch[i].pid == pids[i]
    ensures Added(byPID, batch, n).Keys == byPID.Keys + (set pid | pid in pids[..n])
  {
    if n > 0 {
      AddedKeys(byPID, batch, pids, n - 1);
      assert pids[..n] == pids[..n - 1] + [pids[n - 1]];
    }
  }

  lemma {:induction false} AddedBefore(byPID: map<string, Resource>, batch: seq<Resource>, n: nat, pid: string)
    requires n <= |batch| && pid in byPID
    requires forall i :: 0 <= i < |batch| ==> batch[i].pid != pid
    ensures pid in Added(byPID, batch, n) && Added(byPID, batch, n)[pid] == byPID[pid]
  {
    if n > 0 {
      AddedBefore(byPID, batch, n - 1, pid);
    }
  }

  lemma {:induction false} AddedAt(byPID: map<string, Resource>, batch: seq<Resource>, n: nat, i: nat)
    requires i < n <= |batch|
    requires forall i, j :: 0 <= i < j < |batch| ==> batch[i].pid != batch[j].pid
    ensures batch[i].pid in Added(byPID, batch, n) && Added(byPID, batch, n)[batch[i].pid] == batch[i]
  {
    if i < n - 1 {
      AddedAt(byPID, batch, n - 1, i);
    }
  }

  lemma BatchAdds(st: StoreState, ns: string, pids: seq<string>, reqs: seq<ResourceCreate>, now: Time)
    requires BatchCreate(st, ns, pids, reqs, now).1.Ok?
    ensures var before := Inner(st.resources, ns);
            var after := Inner(BatchCreate(st, ns, pids, reqs, now).0.resources, ns);
            && after.Keys == before.Keys + (set pid | pid in pids)
            && (forall pid :: pid in before ==> after[pid] == before[pid])
            && (forall i :: 0 <= i < |pids| ==> after[pids[i]] == NewResource(pids[i], reqs[i], now))
  {
    var byPID, batch := Inner(st.resources, ns), NewResources(pids, reqs, now);
    AddedKeys(byPID, batch, pids, |pids|);
    assert pids[..|pids|] == pids;
    forall pid | pid in byPID
      ensures Added(byPID, batch, |batch|)[pid] == byPID[pid]
    {
      AddedBefore(byPID, batch, |batch|, pid);
    }
    forall i: nat | i < |pids|
      ensures Added(byPID, batch, |batch|)[pids[i]] == batch[i]
    {
      AddedAt(byPID, batch, |batch|, i);
    }
  }

  /** Dropping keys, or moving none, cannot make two of them collide. */
  lemma FewerKeys(st: StoreState, after: StoreState)
    requires KeysConsistent(st)
    requires forall name, id :: name in after.users && id in after.users[name].keys ==>
               name in st.users && id in st.users[name].keys && after.users[name].keys[id] == st.users[name].keys[id]
    ensures KeysConsistent(after)
  {
  }

  lemma CreateKeyKept(st: StoreState, format: ApiKey.KeyFormat, name: string, id: string, key: string, req: KeyRequest, now: Time)
    requires KeysConsistent(st)
    ensures KeysConsistent(CreateKey(st, format, name, id, key, req, now).0)
  {
    var (after, r) := CreateKey(st, format, name, id, key, req, now);
    if r.Ok? {
      var stored := ApiKey.Hash(format, key).value;
      forall a, i | a in after.users && i in after.users[a].keys && (a != name || i != id)
        ensures a in st.users && i in st.users[a].keys && after.users[a].keys[i] == st.users[a].keys[i]
        ensures st.users[a].keys[i].stored != stored
      {
        assert !Collides(st, stored);
      }
      assert after.users[name].keys[id].stored == stored;
    }
  }

  // Which operations touch which maps.

  predicate TouchesUsers(op: Op) {
    op.OpCreateUser? || op.OpUpdateUser? || op.OpDeleteUser? || op.OpSetPassword? || op.OpCreateKey? || op.OpRevokeKey?
  }

  predicate TouchesRoles(op: Op) {
    op.OpDeleteUser? || op.OpCreateNamespace? || op.OpSetRole? || op.OpDeleteRole?
  }

  predicate TouchesNamespaces(op: Op) {
    op.OpCreateNamespace? || op.OpUpdateNamespace?
  }

  predicate TouchesResources(op: Op) {
    op.OpCreateNamespace? || op.OpCreateResource? || op.OpBatchCreate? || op.OpUpdateResource?
  }

  predicate TouchesMounts(op: Op) {
    op.OpSetMount? || op.OpDeleteMount?
  }

  predicate TouchesGrants(op: Op) {
    op.OpDeleteUser? || op.OpSetGrant? || op.OpDeleteGrant?
  }

  /** What each operation leaves alone. */
  lemma OpFrame(st: StoreState, op: Op)
    ensures !TouchesUsers(op) ==> Apply(st, op).users == st.users
    ensures !TouchesRoles(op) ==> Apply(st, op).roles == st.roles
    ensures !TouchesNamespaces(op) ==> Apply(st, op).namespaces == st.namespaces
    ensures !TouchesResources(op) ==> Apply(st, op).resources == st.resources
    ensures !TouchesMounts(op) ==> Apply(st, op).mounts == st.mounts
    ensures !TouchesGrants(op) ==> Apply(st, op).grants == st.grants
  {
    hide CreateUser, UpdateUser, DeleteUser, SetPassword, CreateKey, RevokeKey, CreateNamespace, UpdateNamespace,
         SetRole, DeleteRole, SetMount, DeleteMount, SetGrant, DeleteGrant, CreateResource, BatchCreate, UpdateResource;
  }

  /** Only DeleteUser removes users. */
  lemma UsersRemain(st: StoreState, op: Op)
    requires !op.OpDeleteUser?
    ensures st.users.Keys <= Apply(st, op).users.Keys
  {
    if !TouchesUsers(op) {
      OpFrame(st, op);
    }
  }

  lemma CreateUserKeysKept(st: StoreState, name: string, superuser: bool)
    requires KeysConsistent(st)
    ensures KeysConsistent(CreateUser(st, name, superuser).0)
  {
  }

  lemma UserRecordKeysKept(st: StoreState, name: string, changed: User)
    requires KeysConsistent(st) && name in st.users
    requires forall id :: id in changed.keys ==> id in st.users[name].keys && changed.keys[id] == st.users[name].keys[id]
    ensures KeysConsistent(st.(users := st.users[name := changed]))
  {
    FewerKeys(st, st.(users := st.users[name := changed]));
  }

  lemma PasswordKeysKept(st: StoreState, name: string, hashed: Option<Option<string>>)
    requires KeysConsistent(st)
    ensures KeysConsistent(SetPassword(st, name, hashed).0)
  {
    hide KeysConsistent;
    if name in st.users {
      UserRecordKeysKept(st, name, SetPassword(st, name, hashed).0.users[name]);
    }
  }

  lemma KeysKept(st: StoreState, op: Op)
    requires KeysConsistent(st)
    ensures KeysConsistent(Apply(st, op))
  {
    if !TouchesUsers(op) {
      OpFrame(st, op);
    } else if op.OpCreateKey? {
      CreateKeyKept(st, op.format, op.name, op.id, op.key, op.keyReq, op.now);
    } else if op.OpCreateUser? {
      CreateUserKeysKept(st, op.name, op.superuser);
    } else if op.OpDeleteUser? {
      FewerKeys(st, DeleteUser(st, op.name).0);
    } else if op.name in st.users {
      var user := st.users[op.name];
      match op
      case OpUpdateUser(name, flag) => UserRecordKeysKept(st, name, user.(superuser := Or(flag, user.superuser)));
      case OpSetPassword(name, hashed) => PasswordKeysKept(st, name, hashed);
      case OpRevokeKey(name, id) => UserRecordKeysKept(st, name, user.(keys := user.keys - {id}));
    }
  }

  ghost predicate KeepsResources(st: StoreState, after: StoreState) {
    ResourcesConsistent(after) && Preserves(st, after)
  }

  /** Writing resources under their own PIDs into an existing namespace, losing none. */
  lemma ResourcesGrow(st: StoreState, ns: string, byPID: map<string, Resource>)
    requires ResourcesConsistent(st) && ns in st.namespaces
    requires forall pid :: pid in byPID ==> byPID[pid].pid == pid
    requires forall pid :: pid in st.resources[ns] ==> pid in byPID && byPID[pid].created == st.resources[ns][pid].created
    ensures KeepsResources(st, WithResources(st, ns, byPID))
  {
  }

  lemma NamespaceAddedConsistent(st: StoreState, added: Namespace, roles: map<string, map<string, Role>>)
    requires ResourcesConsistent(st)
    ensures ResourcesConsistent(st.(namespaces := st.namespaces[added.id := added],
                                    resources := st.resources[added.id := map[]], roles := roles))
  {
  }

  lemma NamespaceAddedPreserves(st: StoreState, added: Namespace, roles: map<string, map<string, Role>>)
    requires ResourcesConsistent(st) && added.id !in st.namespaces
    ensures Preserves(st, st.(namespaces := st.namespaces[added.id := added],
                              resources := st.resources[added.id := map[]], roles := roles))
  {
  }

  lemma CreateNamespaceKept(st: StoreState, ns: string, tags: seq<string>, format: Format.Format, owner: Option<string>, now: Time)
    requires ResourcesConsistent(st)
    ensures KeepsResources(st, CreateNamespace(st, ns, tags, format, owner, now).0)
  {
    var (after, r) := CreateNamespace(st, ns, tags, format, owner, now);
    if r.Ok? {
      NamespaceAddedConsistent(st, r.value, after.roles);
      NamespaceAddedPreserves(st, r.value, after.roles);
    }
  }

  lemma UpdateNamespaceKept(st: StoreState, ns: string, tags: Option<seq<string>>, now: Time)
    requires ResourcesConsistent(st)
    ensures KeepsResources(st, UpdateNamespace(st, ns, tags, now).0)
  {
  }

  lemma CreateResourceKept(st: StoreState, ns: string, pid: string, req: ResourceCreate, now: Time)
    requires ResourcesConsistent(st)
    ensures KeepsResources(st, CreateResource(st, ns, pid, req, now).0)
  {
    if CreateResource(st, ns, pid, req, now).1.Ok? {
      ResourcesGrow(st, ns, st.resources[ns][pid := NewResource(pid, req, now)]);
    }
  }

  lemma UpdateResourceKept(st: StoreState, ns: string, pid: string, req: ResourceUpdate, now: Time)
    requires ResourcesConsistent(st)
    ensures KeepsResources(st, UpdateResource(st, ns, pid, req, now).0)
  {
    var (after, r) := UpdateResource(st, ns, pid, req, now);
    if r.Ok? {
      ResourcesGrow(st, ns, st.resources[ns][pid := r.value]);
    }
  }

  lemma BatchKept(st: StoreState, ns: string, pids: seq<string>, reqs: seq<ResourceCreate>, now: Time)
    requires ResourcesConsistent(st)
    ensures KeepsResources(st, BatchCreate(st, ns, pids, reqs, now).0)
  {
    var (after, r) := BatchCreate(st, ns, pids, reqs, now);
    if r.Ok? {
      BatchAdds(st, ns, pids, reqs, now);
      var byPID := after.resources[ns];
      forall pid | pid in byPID
        ensures byPID[pid].pid == pid
      {
        if pid in pids {
          var i :| 0 <= i < |pids| && pids[i] == pid;
        }
      }
      ResourcesGrow(st, ns, byPID);
    }
  }

  lemma ResourcesKept(st: StoreState, op: Op)
    requires ResourcesConsistent(st)
    ensures KeepsResources(st, Apply(st, op))
  {
    OpFrame(st, op);
    match op
    case OpCreateNamespace(ns, tags, format, owner, now) => CreateNamespaceKept(st, ns, tags, format, owner, now);
    case OpUpdateNamespace(ns, tags, now) => UpdateNamespaceKept(st, ns, tags, now);
    case OpCreateResource(ns, pid, req, now) => CreateResourceKept(st, ns, pid, req, now);
    case OpBatchCreate(ns, pids, reqs, now) => BatchKept(st, ns, pids, reqs, now);
    case OpUpdateResource(ns, pid, update, now) => UpdateResourceKept(st, ns, pid, update, now);
    case _ =>
  }

  lemma WithoutRoleKept(roles: map<string, map<string, Role>>, namespaces: set<string>, ns: string, name: string)
    requires RoleMapConsistent(roles, namespaces)
    ensures RoleMapConsistent(WithoutRole(roles, ns, name), namespaces)
  {
  }

  lemma WithoutUserKept(roles: map<string, map<string, Role>>, namespaces: set<string>, name: string)
    requires RoleMapConsistent(roles, namespaces)
    ensures RoleMapConsistent(WithoutUser(roles, name), namespaces)
  {
  }

  lemma WithRoleKept(roles: map<string, map<string, Role>>, namespaces: set<string>, ns: string, name: string, role: Role)
    requires RoleMapConsistent(roles, namespaces) && ns in namespaces && role.Known() && role != NoRole
    ensures RoleMapConsistent(roles[ns := Inner(roles, ns)[name := role]], namespaces)
  {
    var entry := Inner(roles, ns)[name := role];
    assert name in entry;
  }

  lemma RolesKept(st: StoreState, op: Op)
    requires RolesConsistent(st)
    ensures RolesConsistent(Apply(st, op))
  {
    var known := st.namespaces.Keys;
    OpFrame(st, op);
    match op
    case OpCreateNamespace(ns, tags, format, owner, now) =>
      if CreateNamespace(st, ns, tags, format, owner, now).1.Ok? && owner.Some? {
        WithRoleKept(st.roles, known + {ns}, ns, owner.value, Manager);
      }
    case OpDeleteUser(name) => WithoutUserKept(st.roles, known, name);
    case OpSetRole(ns, name, role) =>
      WithoutRoleKept(st.roles, known, ns, name);
      if SetRole(st, ns, name, role).1.Ok? && role != NoRole {
        WithRoleKept(st.roles, known, ns, name, role);
      }
    case OpDeleteRole(ns, name) => WithoutRoleKept(st.roles, known, ns, name);
    case _ =>
  }

  lemma MountsKept(st: StoreState, op: Op)
    requires MountsConsistent(st)
    ensures MountsConsistent(Apply(st, op))
  {
    OpFrame(st, op);
    if !op.OpDeleteUser? {
      UsersRemain(st, op);
    }
    match op
    case OpSetGrant(name, pattern) => GrantAdded(st, name, pattern);
    case OpDeleteGrant(name, pattern) => GrantRemoved(st, name, pattern);
    case _ =>
  }

  lemma GrantAdded(st: StoreState, name: string, pattern: string)
    requires MountsConsistent(st)
    ensures MountsConsistent(SetGrant(st, name, pattern).0)
  {
    assert pattern in Granted(st.grants, name) + {pattern};
  }

  lemma GrantRemoved(st: StoreState, name: string, pattern: string)
    requires MountsConsistent(st)
    ensures MountsConsistent(DeleteGrant(st, name, pattern).0)
  {
    if DeleteGrant(st, name, pattern).1.Ok? && st.grants[name] != {pattern} {
      assert exists other :: other in st.grants[name] && other != pattern;
    }
  }

  lemma ApplyConsistent(st: StoreState, op: Op)
    requires Consistent(st)
    ensures Consistent(Apply(st, op)) && Preserves(st, Apply(st, op))
  {
    KeysKept(st, op);
    ResourcesKept(st, op);
    RolesKept(st, op);
    MountsKept(st, op);
  }

  lemma PreservesTransitive(a: StoreState, b: StoreState, c: StoreState)
    requires Preserves(a, b) && Preserves(b, c)
    ensures Preserves(a, c)
  {
  }

  /** In every state reachable from the empty backend the maps agree with each other, and along the
      way no namespace changes its id, format or creation date and no PID disappears. */
  lemma {:induction false} RunConsistent(st: StoreState, ops: seq<Op>)
    requires Consistent(st)
    ensures Consistent(ApplyAll(st, ops)) && Preserves(st, ApplyAll(st, ops))
    decreases |ops|
  {
    if ops != [] {
      ApplyConsistent(st, ops[0]);
      RunConsistent(Apply(st, ops[0]), ops[1..]);
      PreservesTransitive(st, Apply(st, ops[0]), ApplyAll(st, ops));
    }
  }

  lemma EmptyConsistent()
    ensures Consistent(EMPTY)
  {
  }

  /** The issued PIDs: every (namespace, PID) pair in store. */
  ghost function Pids(resources: map<string, map<string, Resource>>): set<(string, string)> {
    set ns, pid | ns in resources && pid in resources[ns] :: (ns, pid)
  }

  // ---- a batch is its items one by one --------------------------------------------------------------

  /** Creating the items one after the other at one time, stopping at the first that fails. */
  function CreateEach(st: StoreState, ns: string, pids: seq<string>, reqs: seq<ResourceCreate>, now: Time): Outcome<seq<Resource>>
    requires |pids| == |reqs|
  {
    if pids == [] then (st, Ok([]))
    else
      var last := |pids| - 1;
      var (before, done) := CreateEach(st, ns, pids[..last], reqs[..last], now);
      if done.Err? then (before, done)
      else
        var (after, r) := CreateResource(before, ns, pids[last], reqs[last], now);
        (after, if r.Ok? then Ok(done.value + [r.value]) else Err(r.error))
  }

  /** A batch succeeds exactly when every single creation would, and then reaches the same state and
      result; otherwise it changes nothing. The one exception is below. */
  lemma {:induction false} BatchIsEach(st: StoreState, ns: string, pids: seq<string>, reqs: seq<ResourceCreate>, now: Time)
    requires Consistent(st) && |pids| == |reqs|
    requires ns in st.namespaces || pids != []
    ensures var (batch, each) := (BatchCreate(st, ns, pids, reqs, now), CreateEach(st, ns, pids, reqs, now));
            && (batch.1.Ok? <==> each.1.Ok?)
            && (batch.1.Ok? ==> batch == each)
            && (batch.1.Err? ==> batch.0 == st)
    decreases |pids|
  {
    if pids == [] {
      assert WithResources(st, ns, Inner(st.resources, ns)) == st;
      assert NewResources(pids, reqs, now) == [];
    } else if ns !in st.namespaces {
      if |pids| > 1 {
        BatchIsEach(st, ns, pids[..|pids| - 1], reqs[..|pids| - 1], now);
      }
    } else {
      var last := |pids| - 1;
      BatchIsEach(st, ns, pids[..last], reqs[..last], now);
      UnusedOneMore(pids, Inner(st.resources, ns));
      if Unused(pids[..last], Inner(st.resources, ns)) {
        BatchAdds(st, ns, pids[..last], reqs[..last], now);
        BatchExtends(Inner(st.resources, ns), pids, reqs, now);
        var shorter := NewResources(pids[..last], reqs[..last], now);
        CreateOnto(st, ns, Added(Inner(st.resources, ns), shorter, last), pids[last], reqs[last], now);
      }
    }
  }

  /** The exception: the empty batch is refused in an unknown namespace, where no creation at all would fail. */
  lemma EmptyBatchDiffers(st: StoreState, ns: string, now: Time)
    ensures BatchCreate(st, ns, [], [], now).1.Ok? <==> ns in st.namespaces
    ensures CreateEach(st, ns, [], [], now).1.Ok?
  {
  }

  lemma CreateOnto(st: StoreState, ns: string, byPID: map<string, Resource>, pid: string, req: ResourceCreate, now: Time)
    requires ns in st.namespaces
    ensures var r := NewResource(pid, req, now);
            CreateResource(WithResources(st, ns, byPID), ns, pid, req, now)
              == if pid in byPID then (WithResources(st, ns, byPID), Err(PIDAllocationFailed))
                 else (WithResources(st, ns, byPID[pid := r]), Ok(r))
  {
    assert st.resources[ns := byPID][ns := byPID[pid := NewResource(pid, req, now)]]
        == st.resources[ns := byPID[pid := NewResource(pid, req, now)]];
  }

  lemma UnusedOneMore(pids: seq<string>, byPID: map<string, Resource>)
    requires pids != []
    ensures var last := |pids| - 1;
            Unused(pids, byPID) <==> Unused(pids[..last], byPID) && pids[last] !in pids[..last] && pids[last] !in byPID
  {
    var last := |pids| - 1;
    assert forall i :: 0 <= i < last ==> pids[..last][i] == pids[i];
  }

  lemma BatchExtends(byPID: map<string, Resource>, pids: seq<string>, reqs: seq<ResourceCreate>, now: Time)
    requires |pids| == |reqs| > 0
    ensures var last := |pids| - 1;
            var shorter, longer := NewResources(pids[..last], reqs[..last], now), NewResources(pids, reqs, now);
            var r := NewResource(pids[last], reqs[last], now);
            && longer == shorter + [r]
            && Added(byPID, longer, |pids|) == Added(byPID, shorter, last)[r.pid := r]
  {
    var last := |pids| - 1;
    var shorter, longer := NewResources(pids[..last], reqs[..last], now), NewResources(pids, reqs, now);
    assert longer == shorter + [NewResource(pids[last], reqs[last], now)];
    AddedPrefix(byPID, shorter, longer, last);
  }

  lemma {:induction false} AddedPrefix(byPID: map<string, Resource>, a: seq<Resource>, b: seq<Resource>, n: nat)
    requires n <= |a| <= |b| && forall i :: 0 <= i < n ==> a[i] == b[i]
    ensures Added(byPID, a, n) == Added(byPID, b, n)
  {
    if n > 0 {
      AddedPrefix(byPID, a, b, n - 1);
    }
  }
}
