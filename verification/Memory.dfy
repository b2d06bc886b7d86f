/** The in-memory backend (backend/memory): six maps under one lock, each method one atomic step. */
module Memory {
  import opened Common
  import opened Scopes
  import opened Sorting
  import opened Paging
  import opened Store
  import Format
  import ApiKey

  datatype Mount = Mount(baseURI: string, ns: string)

  /** A mount as listings sort it: by namespace, then base URI. */
  function MountPair(m: map<string, string>, uri: string): (string, string)
    requires uri in m
  {
    (m[uri], uri)
  }

  predicate UserPasses(u: User, superuser: Option<bool>, password: Option<bool>) {
    (superuser.None? || u.superuser == superuser.value) && (password.None? || (u.passwordHash != "") == password.value)
  }

  function ListedNames(st: StoreState, superuser: Option<bool>, password: Option<bool>): (names: seq<string>)
    ensures SortedBy(StringLess, names)
    ensures forall name :: name in names <==> name in st.users && UserPasses(st.users[name], superuser, password)
  {
    Keys(st.users, (name: string, u: User) => UserPasses(u, superuser, password))
  }

  function ListedUsers(st: StoreState, superuser: Option<bool>, password: Option<bool>): seq<UserInfo> {
    var names := ListedNames(st, superuser, password);
    seq(|names|, i requires 0 <= i < |names| =>
      Info(names[i], st.users[names[i]]))
  }

  function ListedIds(st: StoreState, tag: Option<string>): (ids: seq<string>)
    ensures SortedBy(StringLess, ids)
    ensures forall id :: id in ids <==> id in st.namespaces && (tag.None? || tag.value in st.namespaces[id].tags)
  {
    Keys(st.namespaces, (id: string, ns: Namespace) => tag.None? || tag.value in ns.tags)
  }

  function ListedNamespaces(st: StoreState, tag: Option<string>): seq<Namespace> {
    Records(st.namespaces, ListedIds(st, tag))
  }

  predicate ResourcePasses(r: Resource, tag: Option<string>, deleted: Option<bool>) {
    (tag.None? || tag.value in r.tags) && (deleted.None? || r.deleted == deleted.value)
  }

  function ListedPids(byPID: map<string, Resource>, tag: Option<string>, deleted: Option<bool>): (pids: seq<string>)
    ensures SortedBy(StringLess, pids)
    ensures forall pid :: pid in pids <==> pid in byPID && ResourcePasses(byPID[pid], tag, deleted)
  {
    Keys(byPID, (pid: string, r: Resource) => ResourcePasses(r, tag, deleted))
  }

  function ListedResources(st: StoreState, ns: string, tag: Option<string>, deleted: Option<bool>): seq<Resource> {
    var byPID := Inner(st.resources, ns);
    Records(byPID, ListedPids(byPID, tag, deleted))
  }

  function KeyIds(keys: map<string, KeyRecord>): (ids: seq<string>)
    ensures SortedBy(StringLess, ids) && forall id :: id in ids <==> id in keys
  {
    Keys(keys, (id: string, r: KeyRecord) => true)
  }

  /** A user's keys by id. */
  function ListedKeys(keys: map<string, KeyRecord>): seq<KeyInfo> {
    Infos(Records(keys, KeyIds(keys)))
  }

  function ListedGrants(st: StoreState, name: string): seq<string> {
    StringOrder();
    Listing(StringLess, Granted(st.grants, name))
  }

  function ListedMounts(st: StoreState): (mounts: seq<Mount>)
    ensures forall m: Mount :: m in mounts <==> m.baseURI in st.mounts && st.mounts[m.baseURI] == m.ns
  {
    PairOrder();
    var pairs := Listing(PairLess, set uri | uri in st.mounts :: MountPair(st.mounts, uri));
    var mounts := seq(|pairs|, i requires 0 <= i < |pairs| => Mount(pairs[i].1, pairs[i].0));
    assert forall m: Mount :: m in mounts <==> (m.ns, m.baseURI) in pairs by {
      forall m: Mount | (m.ns, m.baseURI) in pairs
        ensures m in mounts
      {
        var i :| 0 <= i < |pairs| && pairs[i] == (m.ns, m.baseURI);
        assert mounts[i] == m;
      }
    }
    mounts
  }

  /** A user and key id whose record a raw key verifies against. */
  ghost predicate Owns(st: StoreState, format: ApiKey.KeyFormat, key: string, name: string, id: string) {
    name in st.users && id in st.users[name].keys && ApiKey.Verify(format, key, st.users[name].keys[id].stored)
  }

  /** The role map while a user is being dropped from it, `pending` namespaces still to visit. */
  function Swept(roles: map<string, map<string, Role>>, name: string, pending: set<string>): map<string, map<string, Role>> {
    map ns | ns in roles && (ns in pending || roles[ns] - {name} != map[]) ::
      if ns in pending then roles[ns] else roles[ns] - {name}
  }

  lemma SweepOne(roles: map<string, map<string, Role>>, name: string, pending: set<string>, ns: string)
    requires ns in pending && pending <= roles.Keys
    ensures ns in Swept(roles, name, pending) && Swept(roles, name, pending)[ns] == roles[ns]
    ensures Swept(roles, name, pending - {ns})
         == if roles[ns] - {name} == map[] then Swept(roles, name, pending) - {ns}
            else Swept(roles, name, pending)[ns := roles[ns] - {name}]
  {
  }

  class MemoryBackend {
    var users: map<string, User>
    var namespaces: map<string, Namespace>
    var resources: map<string, map<string, Resource>>
    var roles: map<string, map<string, Role>>
    var mounts: map<string, string>
    var mountGrants: map<string, set<string>>

    function State(): StoreState
      reads this
    {
      StoreState(users, namespaces, resources, roles, mounts, mountGrants)
    }

    ghost predicate Valid()
      reads this
    {
      Consistent(State())
    }

    constructor ()
      ensures Valid() && State() == EMPTY
    {
      users, namespaces, resources, roles, mounts, mountGrants := map[], map[], map[], map[], map[], map[];
    }

    // ---- users ----

    method CreateUser(name: string, superuser: bool) returns (r: Result<UserInfo, StoreError>)
      modifies this
      ensures (State(), r) == Store.CreateUser(old(State()), name, superuser)
    {
      if name in users {
        return Err(DuplicateUsername);
      }
      users := users[name := User(superuser, "", map[])];
      return Ok(Info(name, users[name]));
    }

    method GetUser(name: string) returns (r: Result<UserInfo, StoreError>)
      ensures r == if name in users then Ok(Info(name, users[name]))
                   else Err(UserNotFound)
    {
      if name !in users {
        return Err(UserNotFound);
      }
      return Ok(Info(name, users[name]));
    }

    method ListUsers(superuser: Option<bool>, password: Option<bool>, limit: nat, offset: nat) returns (page: Page<UserInfo>)
      ensures page == Cut(ListedUsers(State(), superuser, password), limit, offset)
    {
      var names := Collect(users, (name: string, u: User) => UserPasses(u, superuser, password));
      SortedUnique(StringLess, names, ListedNames(State(), superuser, password)) by { StringOrder(); }
      var known := users;
      var all := seq(|names|, i requires 0 <= i < |names| && names[i] in known =>
        Info(names[i], known[names[i]]));
      assert all == ListedUsers(State(), superuser, password);
      page := Cut(all, limit, offset);
    }

    method UpdateUser(name: string, superuser: Option<bool>) returns (r: Result<UserInfo, StoreError>)
      modifies this
      ensures (State(), r) == Store.UpdateUser(old(State()), name, superuser)
    {
      if name !in users {
        return Err(UserNotFound);
      }
      assert users == users[name := users[name].(superuser := users[name].superuser)];
      if superuser.Some? {
        users := users[name := users[name].(superuser := superuser.value)];
      }
      return Ok(Info(name, users[name]));
    }

    method DeleteUser(name: string) returns (r: Result<(), StoreError>)
      modifies this
      ensures (State(), r) == Store.DeleteUser(old(State()), name)
    {
      if name !in users {
        return Err(UserNotFound);
      }
      users := users - {name};
      DropRoles(name);
      mountGrants := mountGrants - {name};
      return Ok(());
    }

    /** The cascade over all namespaces. */
    method DropRoles(name: string)
      modifies this`roles
      ensures roles == WithoutUser(old(roles), name)
    {
      var pending := roles.Keys;
      assert roles == Swept(roles, name, pending);
      while pending != {}
        invariant pending <= old(roles).Keys && roles == Swept(old(roles), name, pending)
        decreases pending
      {
        var ns :| ns in pending;
        SweepOne(old(roles), name, pending, ns);
        var byUser := roles[ns] - {name};
        if |byUser| == 0 {
          roles := roles - {ns};
        } else {
          roles := roles[ns := byUser];
        }
        pending := pending - {ns};
      }
    }

    method SetPassword(name: string, hashed: Option<Option<string>>) returns (r: Result<bool, StoreError>)
      modifies this
      ensures (State(), r) == Store.SetPassword(old(State()), name, hashed)
    {
      if name !in users {
        return Err(UserNotFound);
      }
      if hashed.None? {
        users := users[name := users[name].(passwordHash := "")];
        return Ok(false);
      }
      if hashed.value.None? {
        return Err(HashFailed);
      }
      users := users[name := users[name].(passwordHash := hashed.value.value)];
      return Ok(true);
    }

    // ---- API keys ----

    method CreateKey(format: ApiKey.KeyFormat, name: string, id: string, key: string, req: KeyRequest, now: Time)
      returns (r: Result<KeyInfo, StoreError>)
      modifies this
      ensures (State(), r) == Store.CreateKey(old(State()), format, name, id, key, req, now)
    {
      if name !in users {
        return Err(UserNotFound);
      }
      var info := NewKeyInfo(id, req, now);
      var hashed := ApiKey.Hash(format, key);
      if hashed.None? {
        return Err(HashFailed);
      }
      if id in users[name].keys {
        return Err(KeyCollision);
      }
      var collision := Scan(hashed.value);
      if collision {
        return Err(KeyCollision);
      }
      users := users[name := users[name].(keys := users[name].keys[id := KeyRecord(info, hashed.value)])];
      return Ok(info);
    }

    /** The nested scan of all keys of all users. */
    method Scan(stored: ApiKey.Stored) returns (found: bool)
      ensures found <==> Collides(State(), stored)
    {
      var pending := users.Keys;
      while pending != {}
        invariant pending <= users.Keys
        invariant forall name, id :: name in users && name !in pending && id in users[name].keys ==>
                    users[name].keys[id].stored != stored
        decreases pending
      {
        var name :| name in pending;
        var keys := users[name].keys;
        var rest := keys.Keys;
        while rest != {}
          invariant rest <= keys.Keys
          invariant forall id :: id in keys && id !in rest ==> keys[id].stored != stored
          decreases rest
        {
          var id :| id in rest;
          if keys[id].stored == stored {
            return true;
          }
          rest := rest - {id};
        }
        pending := pending - {name};
      }
      return false;
    }

    method ListKeys(name: string, limit: nat, offset: nat) returns (r: Result<Page<KeyInfo>, StoreError>)
      ensures r == if name !in users then Err(UserNotFound)
                   else Ok(Cut(ListedKeys(users[name].keys), limit, offset))
    {
      if name !in users {
        return Err(UserNotFound);
      }
      var keys := users[name].keys;
      var ids := Collect(keys, (id: string, record: KeyRecord) => true);
      IsListing(StringLess, ids, keys.Keys) by { StringOrder(); }
      IsListing(StringLess, KeyIds(keys), keys.Keys) by { StringOrder(); }
      return Ok(Cut(Infos(Records(keys, ids)), limit, offset));
    }

    method RevokeKey(name: string, id: string) returns (r: Result<(), StoreError>)
      modifies this
      ensures (State(), r) == Store.RevokeKey(old(State()), name, id)
    {
      if name !in users {
        return Err(UserNotFound);
      }
      if id !in users[name].keys {
        return Err(KeyNotFound);
      }
      users := users[name := users[name].(keys := users[name].keys - {id})];
      return Ok(());
    }

    /** Finds an owner of the key whatever order users and keys are ranged over in. */
    method LookupUserByKey(format: ApiKey.KeyFormat, key: string) returns (r: Result<(string, KeyInfo), StoreError>)
      ensures r.Ok? ==> exists id :: Owns(State(), format, key, r.value.0, id) && users[r.value.0].keys[id].info == r.value.1
      ensures r.Err? ==> r.error == InvalidKey && forall name, id :: !Owns(State(), format, key, name, id)
    {
      var hashed := ApiKey.Hash(format, key);
      if hashed.None? {
        return Err(InvalidKey);
      }
      var pending := users.Keys;
      while pending != {}
        invariant pending <= users.Keys
        invariant forall name, id :: name in users && name !in pending && id in users[name].keys ==>
                    !Owns(State(), format, key, name, id)
        decreases pending
      {
        var name :| name in pending;
        var keys := users[name].keys;
        var rest := keys.Keys;
        while rest != {}
          invariant rest <= keys.Keys
          invariant forall id :: id in keys && id !in rest ==> !Owns(State(), format, key, name, id)
          decreases rest
        {
          var id :| id in rest;
          if keys[id].stored.prefix == hashed.value.prefix {
            if ApiKey.Verify(format, key, keys[id].stored) {
              assert Owns(State(), format, key, name, id);
              return Ok((name, keys[id].info));
            }
          }
          rest := rest - {id};
        }
        pending := pending - {name};
      }
      return Err(InvalidKey);
    }

    // ---- namespaces ----

    method CreateNamespace(ns: string, tags: seq<string>, format: Format.Format, owner: Option<string>, now: Time)
      returns (r: Result<Namespace, StoreError>)
      modifies this
      ensures (State(), r) == Store.CreateNamespace(old(State()), ns, tags, format, owner, now)
    {
      if owner.Some? && owner.value !in users {
        return Err(UserNotFound);
      }
      if ns in namespaces {
        return Err(DuplicateNamespaceID);
      }
      var created := Namespace(ns, tags, format, now, now);
      namespaces := namespaces[ns := created];
      resources := resources[ns := map[]];
      if owner.Some? {
        var byUser := if ns in roles then roles[ns] else map[];
        roles := roles[ns := byUser[owner.value := Manager]];
      }
      return Ok(created);
    }

    method GetNamespace(ns: string) returns (r: Result<Namespace, StoreError>)
      ensures r == if ns in namespaces then Ok(namespaces[ns]) else Err(NamespaceNotFound)
    {
      if ns !in namespaces {
        return Err(NamespaceNotFound);
      }
      return Ok(namespaces[ns]);
    }

    method ListNamespaces(tag: Option<string>, limit: nat, offset: nat) returns (page: Page<Namespace>)
      ensures page == Cut(ListedNamespaces(State(), tag), limit, offset)
    {
      var ids := Collect(namespaces, (id: string, ns: Namespace) => tag.None? || tag.value in ns.tags);
      SortedUnique(StringLess, ids, ListedIds(State(), tag)) by { StringOrder(); }
      page := Cut(Records(namespaces, ids), limit, offset);
    }

    method UpdateNamespace(ns: string, tags: Option<seq<string>>, now: Time) returns (r: Result<Namespace, StoreError>)
      modifies this
      ensures (State(), r) == Store.UpdateNamespace(old(State()), ns, tags, now)
    {
      if ns !in namespaces {
        return Err(NamespaceNotFound);
      }
      var changed := namespaces[ns];
      if tags.Some? {
        changed := changed.(tags := tags.value);
      }
      changed := changed.(updated := now);
      namespaces := namespaces[ns := changed];
      return Ok(changed);
    }

    // ---- roles ----

    method GetNamespaceRole(ns: string, name: string) returns (r: Result<Role, StoreError>)
      ensures r == if ns in namespaces then Ok(RoleOf(State(), ns, name)) else Err(NamespaceNotFound)
    {
      if ns !in namespaces {
        return Err(NamespaceNotFound);
      }
      if ns in roles && name in roles[ns] {
        return Ok(roles[ns][name]);
      }
      return Ok(NoRole);
    }

    method SetNamespaceRole(ns: string, name: string, role: Role) returns (r: Result<(), StoreError>)
      modifies this
      ensures (State(), r) == SetRole(old(State()), ns, name, role)
    {
      if !role.Known() {
        return Err(InvalidRole);
      }
      if ns !in namespaces {
        return Err(NamespaceNotFound);
      }
      if role == NoRole {
        if ns in roles {
          DropRole(ns, name);
        }
        return Ok(());
      }
      if ns !in roles {
        roles := roles[ns := map[]];
      }
      roles := roles[ns := roles[ns][name := role]];
      assert roles == old(roles)[ns := Inner(old(roles), ns)[name := role]];
      return Ok(());
    }

    method DeleteNamespaceRole(ns: string, name: string) returns (r: Result<(), StoreError>)
      modifies this
      ensures (State(), r) == DeleteRole(old(State()), ns, name)
    {
      if ns !in roles {
        return Err(RoleNotFound);
      }
      if name !in roles[ns] {
        return Err(RoleNotFound);
      }
      DropRole(ns, name);
      return Ok(());
    }

    /** Deletes an entry, and the inner map with it when that was the last one. */
    method DropRole(ns: string, name: string)
      requires ns in roles
      modifies this`roles
      ensures roles == WithoutRole(old(roles), ns, name)
    {
      roles := roles[ns := roles[ns] - {name}];
      if |roles[ns]| == 0 {
        roles := roles - {ns};
        assert roles == old(roles) - {ns};
      }
    }

    // ---- mounts and mount grants ----

    method SetMount(uri: string, ns: string) returns (r: Result<(), StoreError>)
      modifies this
      ensures (State(), r) == Store.SetMount(old(State()), uri, ns)
    {
      if ns !in namespaces {
        return Err(NamespaceNotFound);
      }
      mounts := mounts[uri := ns];
      return Ok(());
    }

    method DeleteMount(uri: string) returns (r: Result<(), StoreError>)
      modifies this
      ensures (State(), r) == Store.DeleteMount(old(State()), uri)
    {
      if uri !in mounts {
        return Err(MountNotFound);
      }
      mounts := mounts - {uri};
      return Ok(());
    }

    method ListMounts(limit: nat, offset: nat) returns (page: Page<Mount>)
      ensures page == Cut(ListedMounts(State()), limit, offset)
    {
      PairOrder();
      var pairs := Sort(PairLess, set uri | uri in mounts :: MountPair(mounts, uri));
      page := Cut(seq(|pairs|, i requires 0 <= i < |pairs| => Mount(pairs[i].1, pairs[i].0)), limit, offset);
    }

    method ListUserMountGrants(name: string, limit: nat, offset: nat) returns (r: Result<Page<string>, StoreError>)
      ensures r == if name in users then Ok(Cut(ListedGrants(State(), name), limit, offset)) else Err(UserNotFound)
    {
      if name !in users {
        return Err(UserNotFound);
      }
      StringOrder();
      var patterns := Sort(StringLess, Granted(mountGrants, name));
      return Ok(Cut(patterns, limit, offset));
    }

    method SetMountGrant(name: string, pattern: string) returns (r: Result<(), StoreError>)
      modifies this
      ensures (State(), r) == SetGrant(old(State()), name, pattern)
    {
      if name !in users {
        return Err(UserNotFound);
      }
      if name !in mountGrants {
        mountGrants := mountGrants[name := {}];
      }
      mountGrants := mountGrants[name := mountGrants[name] + {pattern}];
      assert mountGrants == old(mountGrants)[name := Granted(old(mountGrants), name) + {pattern}];
      return Ok(());
    }

    method DeleteMountGrant(name: string, pattern: string) returns (r: Result<(), StoreError>)
      modifies this
      ensures (State(), r) == DeleteGrant(old(State()), name, pattern)
    {
      if name !in users {
        return Err(UserNotFound);
      }
      if name !in mountGrants {
        return Err(MountGrantNotFound);
      }
      if pattern !in mountGrants[name] {
        return Err(MountGrantNotFound);
      }
      mountGrants := mountGrants[name := mountGrants[name] - {pattern}];
      assert old(mountGrants)[name] == (old(mountGrants)[name] - {pattern}) + {pattern};
      if |mountGrants[name]| == 0 {
        mountGrants := mountGrants - {name};
        assert mountGrants == old(mountGrants) - {name};
      }
      return Ok(());
    }

    // ---- resources ----

    method ListResources(ns: string, tag: Option<string>, deleted: Option<bool>, limit: nat, offset: nat)
      returns (r: Result<Page<Resource>, StoreError>)
      ensures r == if ns in namespaces then Ok(Cut(ListedResources(State(), ns, tag, deleted), limit, offset))
                   else Err(NamespaceNotFound)
    {
      if ns !in namespaces {
        return Err(NamespaceNotFound);
      }
      var byPID := Inner(resources, ns);
      var pids := Collect(byPID, (pid: string, r: Resource) => ResourcePasses(r, tag, deleted));
      SortedUnique(StringLess, pids, ListedPids(byPID, tag, deleted)) by { StringOrder(); }
      return Ok(Cut(Records(byPID, pids), limit, offset));
    }

    method CountAllResources() returns (n: nat)
      ensures n == |Pids(resources)|
    {
      n := 0;
      var pending := resources.Keys;
      ghost var counted: set<(string, string)> := {};
      while pending != {}
        invariant pending <= resources.Keys
        invariant counted == set ns, pid | ns in resources && ns !in pending && pid in resources[ns] :: (ns, pid)
        invariant n == |counted|
        decreases pending
      {
        var ns :| ns in pending;
        ghost var here := set pid | pid in resources[ns] :: (ns, pid);
        TagCount(ns, resources[ns].Keys);
        assert here !! counted;
        n := n + |resources[ns]|;
        counted := counted + here;
        pending := pending - {ns};
      }
      assert counted == Pids(resources);
    }

    method CreateResource(ns: string, pid: string, req: ResourceCreate, now: Time) returns (r: Result<Resource, StoreError>)
      requires Valid()
      modifies this
      ensures (State(), r) == Store.CreateResource(old(State()), ns, pid, req, now)
    {
      if ns !in namespaces {
        return Err(NamespaceNotFound);
      }
      if pid in resources[ns] {
        return Err(PIDAllocationFailed);
      }
      var res := NewResource(pid, req, now);
      resources := resources[ns := resources[ns][pid := res]];
      return Ok(res);
    }

    method BatchCreateResources(ns: string, pids: seq<string>, reqs: seq<ResourceCreate>, now: Time)
      returns (r: Result<seq<Resource>, StoreError>)
      requires Valid()
      modifies this
      ensures (State(), r) == BatchCreate(old(State()), ns, pids, reqs, now)
    {
      if ns !in namespaces {
        return Err(NamespaceNotFound);
      }
      if |pids| != |reqs| {
        return Err(PIDAllocationFailed);
      }
      var byPID := resources[ns];
      var unused := AllUnused(pids, byPID);
      if !unused {
        return Err(PIDAllocationFailed);
      }
      var out: seq<Resource> := [];
      ghost var batch := NewResources(pids, reqs, now);
      for i := 0 to |reqs|
        invariant State() == old(State()) && out == batch[..i] && byPID == Added(resources[ns], batch, i)
      {
        var res := NewResource(pids[i], reqs[i], now);
        byPID := byPID[pids[i] := res];
        out := out + [res];
      }
      assert out == batch;
      resources := resources[ns := byPID];
      return Ok(out);
    }

    static method AllUnused(pids: seq<string>, byPID: map<string, Resource>) returns (ok: bool)
      ensures ok <==> Unused(pids, byPID)
    {
      var seen: set<string> := {};
      for i := 0 to |pids|
        invariant seen == set pid | pid in pids[..i]
        invariant Unused(pids[..i], byPID)
      {
        UnusedOneMore(pids[..i + 1], byPID);
        assert pids[..i + 1][..i] == pids[..i];
        if pids[i] in seen || pids[i] in byPID {
          UnusedPrefix(pids, byPID, i + 1);
          return false;
        }
        seen := seen + {pids[i]};
        assert pids[..i + 1] == pids[..i] + [pids[i]];
      }
      assert pids[..|pids|] == pids;
      return true;
    }

    method GetResource(ns: string, pid: string) returns (r: Result<Resource, StoreError>)
      ensures r == if ns !in namespaces then Err(NamespaceNotFound)
                   else if pid !in Inner(resources, ns) then Err(ResourceNotFound)
                   else Ok(resources[ns][pid])
    {
      if ns !in namespaces {
        return Err(NamespaceNotFound);
      }
      if pid !in Inner(resources, ns) {
        return Err(ResourceNotFound);
      }
      return Ok(resources[ns][pid]);
    }

    method UpdateResource(ns: string, pid: string, req: ResourceUpdate, now: Time) returns (r: Result<Resource, StoreError>)
      requires Valid()
      modifies this
      ensures (State(), r) == Store.UpdateResource(old(State()), ns, pid, req, now)
    {
      if ns !in namespaces {
        return Err(NamespaceNotFound);
      }
      if pid !in resources[ns] {
        return Err(ResourceNotFound);
      }
      var res := resources[ns][pid];
      if req.url.Some? {
        res := res.(url := req.url.value);
      }
      if req.tags.Some? {
        res := res.(tags := req.tags.value);
      }
      if req.deleted.Some? {
        res := res.(deleted := req.deleted.value);
      }
      if req.metadata.Some? {
        res := res.(metadata := req.metadata.value);
      }
      res := res.(updated := now);
      resources := resources[ns := resources[ns][pid := res]];
      return Ok(res);
    }
  }

  function Infos(records: seq<KeyRecord>): seq<KeyInfo> {
    seq(|records|, i requires 0 <= i < |records| => records[i].info)
  }

  lemma UnusedPrefix(pids: seq<string>, byPID: map<string, Resource>, n: nat)
    requires n <= |pids| && !Unused(pids[..n], byPID)
    ensures !Unused(pids, byPID)
  {
  }

  lemma {:induction false} TagCount(ns: string, pids: set<string>)
    ensures |set pid | pid in pids :: (ns, pid)| == |pids|
  {
    if pids == {} {
      assert (set pid | pid in pids :: (ns, pid)) == {};
    } else {
      var pid :| pid in pids;
      TagCount(ns, pids - {pid});
      assert (set p | p in pids :: (ns, p)) == (set p | p in pids - {pid} :: (ns, p)) + {(ns, pid)};
    }
  }

  /** Stored prefix and digest pairs are unique, so a key has at most one owner and every iteration
      order of the lookup gives the same answer. */
  lemma OwnerUnique(st: StoreState, format: ApiKey.KeyFormat, key: string, name: string, id: string, name': string, id': string)
    requires KeysConsistent(st) && Owns(st, format, key, name, id) && Owns(st, format, key, name', id')
    ensures name == name' && id == id'
  {
  }

  /** Once its key is revoked, or its owner deleted, a raw key identifies nobody. */
  lemma OwnershipEnds(st: StoreState, format: ApiKey.KeyFormat, key: string, name: string, id: string)
    requires KeysConsistent(st) && Owns(st, format, key, name, id)
    ensures forall name', id' :: !Owns(Store.RevokeKey(st, name, id).0, format, key, name', id')
    ensures forall name', id' :: !Owns(Store.DeleteUser(st, name).0, format, key, name', id')
  {
    forall name', id' | Owns(st, format, key, name', id')
      ensures name' == name && id' == id
    {
      OwnerUnique(st, format, key, name, id, name', id');
    }
  }

  /** A run that neither revokes a key nor deletes its owner. */
  predicate Spares(ops: seq<Op>, name: string, id: string) {
    forall i :: 0 <= i < |ops| ==> ops[i] != OpRevokeKey(name, id) && ops[i] != OpDeleteUser(name)
  }

  /** A key record outlives every operation other than its revocation and its owner's deletion. */
  lemma RecordKept(st: StoreState, op: Op, name: string, id: string)
    requires name in st.users && id in st.users[name].keys && op != OpRevokeKey(name, id) && op != OpDeleteUser(name)
    ensures name in Apply(st, op).users && id in Apply(st, op).users[name].keys
    ensures Apply(st, op).users[name].keys[id] == st.users[name].keys[id]
  {
    if !TouchesUsers(op) {
      OpFrame(st, op);
    } else if op.OpCreateKey? {
      CreateKeyAdds(st, op.format, op.name, op.id, op.key, op.keyReq, op.now);
    } else {
      match op
      case OpCreateUser(_, _) =>
      case OpUpdateUser(_, _) =>
      case OpDeleteUser(_) =>
      case OpSetPassword(_, _) =>
      case OpRevokeKey(_, _) =>
    }
  }

  lemma CreateKeyAdds(st: StoreState, format: ApiKey.KeyFormat, name: string, id: string, key: string, req: KeyRequest, now: Time)
    ensures var (after, r) := Store.CreateKey(st, format, name, id, key, req, now);
            if r.Err? then after == st
            else
              && name in st.users && id !in st.users[name].keys && ApiKey.Hash(format, key).Some?
              && var record := KeyRecord(NewKeyInfo(id, req, now), ApiKey.Hash(format, key).value);
                 after == WithKeys(st, name, st.users[name].keys[id := record])
  {
  }

  lemma JustCreated(st: StoreState, format: ApiKey.KeyFormat, name: string, id: string, key: string, req: KeyRequest, now: Time)
    requires Store.CreateKey(st, format, name, id, key, req, now).1.Ok?
    ensures var after := Store.CreateKey(st, format, name, id, key, req, now).0;
            Owns(after, format, key, name, id) && after.users[name].keys[id].info == NewKeyInfo(id, req, now)
  {
    CreateKeyAdds(st, format, name, id, key, req, now);
  }

  /** After a successful CreateKey the raw key identifies its user and record, and nobody else's, until
      the key is revoked or the user deleted. */
  lemma {:induction false} KeyStaysOwned(st: StoreState, ops: seq<Op>, format: ApiKey.KeyFormat, key: string, name: string, id: string)
    requires Consistent(st) && Owns(st, format, key, name, id) && Spares(ops, name, id)
    ensures Owns(ApplyAll(st, ops), format, key, name, id)
    ensures ApplyAll(st, ops).users[name].keys[id] == st.users[name].keys[id]
    ensures forall name', id' :: Owns(ApplyAll(st, ops), format, key, name', id') ==> name' == name && id' == id
    decreases |ops|
  {
    RunConsistent(st, ops);
    if ops != [] {
      RecordKept(st, ops[0], name, id);
      ApplyConsistent(st, ops[0]);
      KeyStaysOwned(Apply(st, ops[0]), ops[1..], format, key, name, id);
    }
  }

  lemma CreatedKeyOwned(st: StoreState, format: ApiKey.KeyFormat, name: string, id: string, key: string, req: KeyRequest, now: Time,
                        ops: seq<Op>)
    requires Consistent(st) && Store.CreateKey(st, format, name, id, key, req, now).1.Ok? && Spares(ops, name, id)
    ensures var later := ApplyAll(Store.CreateKey(st, format, name, id, key, req, now).0, ops);
            && Owns(later, format, key, name, id)
            && later.users[name].keys[id].info == NewKeyInfo(id, req, now)
            && forall name', id' :: Owns(later, format, key, name', id') ==> name' == name && id' == id
  {
    var after := Store.CreateKey(st, format, name, id, key, req, now).0;
    assert after == Apply(st, OpCreateKey(format, name, id, key, req, now));
    ApplyConsistent(st, OpCreateKey(format, name, id, key, req, now));
    JustCreated(st, format, name, id, key, req, now);
    KeyStaysOwned(after, ops, format, key, name, id);
  }
}
