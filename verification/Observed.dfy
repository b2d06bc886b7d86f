/** What readers see after each change of the backend: which fields took which values, what else is as
    before, and when the change is refused (backend/memory). */
module Observed {
  import opened Common
  import opened Scopes
  import opened Sorting
  import opened Paging
  import opened Store
  import opened Memory
  import ApiKey
  import Format

  /** Every user but one is as before. */
  ghost predicate OtherUsersSame(st: StoreState, after: StoreState, name: string) {
    && after.users.Keys - {name} == st.users.Keys - {name}
    && forall other :: other in st.users && other != name ==> other in after.users && after.users[other] == st.users[other]
  }

  // ---- users and keys ------------------------------------------------------------

  lemma UserCreated(st: StoreState, name: string, superuser: bool)
    ensures var after, r := Apply(st, OpCreateUser(name, superuser)), CreateUser(st, name, superuser).1;
            if name in st.users then r == Err(DuplicateUsername) && after == st
            else
              && r.Ok? && r.value.username == name && r.value.superuser == superuser && !r.value.password
              && name in after.users && after.users[name].superuser == superuser
              && after.users[name].keys == map[] && after.users[name].passwordHash == ""
              && OtherUsersSame(st, after, name)
  {
  }

  lemma UserUpdated(st: StoreState, name: string, superuser: Option<bool>)
    ensures var after, r := Apply(st, OpUpdateUser(name, superuser)), UpdateUser(st, name, superuser).1;
            if name !in st.users then r == Err(UserNotFound) && after == st
            else
              && name in after.users
              && r.Ok? && r.value.username == name && r.value.superuser == after.users[name].superuser
              && r.value.password == (st.users[name].passwordHash != "")
              && (superuser.Some? ==> after.users[name].superuser == superuser.value)
              && (superuser.None? ==> after.users[name].superuser == st.users[name].superuser)
              && after.users[name].keys == st.users[name].keys
              && after.users[name].passwordHash == st.users[name].passwordHash
              && OtherUsersSame(st, after, name)
  {
  }

  lemma UserDeleted(st: StoreState, name: string)
    ensures var after, r := Apply(st, OpDeleteUser(name)), DeleteUser(st, name).1;
            if name !in st.users then r == Err(UserNotFound) && after == st
            else
              && r.Ok? && name !in after.users && name !in after.grants && OtherUsersSame(st, after, name)
              && (forall ns :: RoleOf(after, ns, name) == NoRole)
              && (forall ns, other :: other != name ==> RoleOf(after, ns, other) == RoleOf(st, ns, other))
              && (forall other :: other != name ==> Granted(after.grants, other) == Granted(st.grants, other))
  {
  }

  lemma PasswordWritten(st: StoreState, name: string, hashed: Option<Option<string>>)
    ensures var after, r := Apply(st, OpSetPassword(name, hashed)), SetPassword(st, name, hashed).1;
            if name !in st.users then r == Err(UserNotFound) && after == st
            else if hashed == Some(None) then r == Err(HashFailed) && after == st
            else
              && r.Ok? && r.value == hashed.Some? && name in after.users
              && (hashed.None? ==> after.users[name].passwordHash == "")
              && (hashed.Some? ==> after.users[name].passwordHash == hashed.value.value)
              && after.users[name].superuser == st.users[name].superuser && after.users[name].keys == st.users[name].keys
              && OtherUsersSame(st, after, name)
  {
  }

  ghost predicate AsRequested(x: KeyInfo, id: string, req: KeyRequest, now: Time) {
    && x.id == id && x.comment == req.comment && x.created == now && x.expires == req.expires
    && x.userScopes == req.userScopes && x.namespaceScopes == req.namespaceScopes
  }

  lemma KeyCreated(st: StoreState, format: ApiKey.KeyFormat, name: string, id: string, key: string, req: KeyRequest, now: Time)
    ensures var after := Apply(st, OpCreateKey(format, name, id, key, req, now));
            var r := CreateKey(st, format, name, id, key, req, now).1;
            if r.Ok? then
              && name in st.users && id !in st.users[name].keys && name in after.users && id in after.users[name].keys
              && r.value == after.users[name].keys[id].info && AsRequested(r.value, id, req, now)
              && Owns(after, format, key, name, id)
              && after.users[name].keys - {id} == st.users[name].keys
              && after.users[name].superuser == st.users[name].superuser
              && after.users[name].passwordHash == st.users[name].passwordHash
              && OtherUsersSame(st, after, name)
            else
              && after == st
              && (r.error == UserNotFound <==> name !in st.users)
              && (r.error == HashFailed <==> name in st.users && !ApiKey.IsKey(format, key))
              && (r.error in {UserNotFound, HashFailed, KeyCollision})
  {
    CreateKeyAdds(st, format, name, id, key, req, now);
  }

  /** A collision is a key id the user has already, or a prefix and digest that somebody has. */
  lemma KeyCollisionIff(st: StoreState, format: ApiKey.KeyFormat, name: string, id: string, key: string, req: KeyRequest, now: Time)
    ensures CreateKey(st, format, name, id, key, req, now).1 == Err(KeyCollision) <==>
              && name in st.users && ApiKey.IsKey(format, key)
              && (id in st.users[name].keys || exists other, other' :: Owns(st, format, key, other, other'))
  {
    hide ApiKey.IsKey;
    if ApiKey.IsKey(format, key) {
      ApiKey.VerifiesItself(format, key);
      forall other, other' | Owns(st, format, key, other, other')
        ensures Collides(st, ApiKey.Hash(format, key).value)
      {
        assert st.users[other].keys[other'].stored == ApiKey.Hash(format, key).value;
      }
      if Collides(st, ApiKey.Hash(format, key).value) {
        var other, other' :| other in st.users && other' in st.users[other].keys
                             && st.users[other].keys[other'].stored == ApiKey.Hash(format, key).value;
        assert Owns(st, format, key, other, other');
      }
    }
  }

  lemma KeyRevoked(st: StoreState, name: string, id: string)
    ensures var after, r := Apply(st, OpRevokeKey(name, id)), RevokeKey(st, name, id).1;
            if name !in st.users then r == Err(UserNotFound) && after == st
            else if id !in st.users[name].keys then r == Err(KeyNotFound) && after == st
            else
              && r.Ok? && name in after.users && after.users[name].keys == st.users[name].keys - {id}
              && after.users[name].superuser == st.users[name].superuser
              && after.users[name].passwordHash == st.users[name].passwordHash
              && OtherUsersSame(st, after, name)
  {
  }

  // ---- namespaces -------------------------------------------------------------------

  ghost predicate OtherNamespacesSame(st: StoreState, after: StoreState, ns: string) {
    && after.namespaces.Keys - {ns} == st.namespaces.Keys - {ns}
    && forall other :: other in st.namespaces && other != ns ==>
         other in after.namespaces && after.namespaces[other] == st.namespaces[other]
  }

  lemma NamespaceCreated(st: StoreState, ns: string, tags: seq<string>, format: Format.Format, owner: Option<string>, now: Time)
    ensures var after := Apply(st, OpCreateNamespace(ns, tags, format, owner, now));
            var r := CreateNamespace(st, ns, tags, format, owner, now).1;
            if owner.Some? && owner.value !in st.users then r == Err(UserNotFound) && after == st
            else if ns in st.namespaces then r == Err(DuplicateNamespaceID) && after == st
            else
              && r.Ok? && ns in after.namespaces && after.namespaces[ns] == r.value
              && r.value.id == ns && r.value.tags == tags && r.value.format == format && r.value.created == r.value.updated == now
              && OtherNamespacesSame(st, after, ns)
              && ns in after.resources && after.resources[ns] == map[]
              && (forall other :: other != ns ==> Inner(after.resources, other) == Inner(st.resources, other))
              && (owner.Some? ==> RoleOf(after, ns, owner.value) == Manager)
              && forall n, name :: n != ns || Some(name) != owner ==> RoleOf(after, n, name) == RoleOf(st, n, name)
  {
  }

  lemma NamespaceUpdated(st: StoreState, ns: string, tags: Option<seq<string>>, now: Time)
    ensures var after, r := Apply(st, OpUpdateNamespace(ns, tags, now)), Store.UpdateNamespace(st, ns, tags, now).1;
            if ns !in st.namespaces then r == Err(NamespaceNotFound) && after == st
            else
              && r.Ok? && ns in after.namespaces && after.namespaces[ns] == r.value
              && (tags.Some? ==> r.value.tags == tags.value) && (tags.None? ==> r.value.tags == st.namespaces[ns].tags)
              && r.value.updated == now && SameIdentity(r.value, st.namespaces[ns]) && OtherNamespacesSame(st, after, ns)
  {
  }

  lemma RoleSet(st: StoreState, ns: string, name: string, role: Role)
    ensures var after, r := Apply(st, OpSetRole(ns, name, role)), SetRole(st, ns, name, role).1;
            if role.UnknownRole? then r == Err(InvalidRole) && after == st
            else if ns !in st.namespaces then r == Err(NamespaceNotFound) && after == st
            else
              && r.Ok? && RoleOf(after, ns, name) == role
              && forall n, other :: n != ns || other != name ==> RoleOf(after, n, other) == RoleOf(st, n, other)
  {
  }

  lemma RoleRemoved(st: StoreState, ns: string, name: string)
    requires RolesConsistent(st)
    ensures var after, r := Apply(st, OpDeleteRole(ns, name)), DeleteRole(st, ns, name).1;
            if RoleOf(st, ns, name) == NoRole then r == Err(RoleNotFound) && after == st
            else
              && r.Ok? && RoleOf(after, ns, name) == NoRole
              && forall n, other :: n != ns || other != name ==> RoleOf(after, n, other) == RoleOf(st, n, other)
  {
  }

  // ---- mounts and grants ---------------------------------------------------------------

  lemma MountWritten(st: StoreState, uri: string, ns: string)
    ensures var after, r := Apply(st, OpSetMount(uri, ns)), SetMount(st, uri, ns).1;
            if ns !in st.namespaces then r == Err(NamespaceNotFound) && after == st
            else
              && r.Ok? && uri in after.mounts && after.mounts[uri] == ns
              && forall other :: other != uri ==>
                   (other in after.mounts <==> other in st.mounts) && (other in st.mounts ==> after.mounts[other] == st.mounts[other])
  {
  }

  lemma MountDeleted(st: StoreState, uri: string)
    ensures var after, r := Apply(st, OpDeleteMount(uri)), DeleteMount(st, uri).1;
            if uri !in st.mounts then r == Err(MountNotFound) && after == st
            else r.Ok? && uri !in after.mounts && after.mounts[uri := st.mounts[uri]] == st.mounts
  {
  }

  lemma GrantWritten(st: StoreState, name: string, pattern: string)
    ensures var after, r := Apply(st, OpSetGrant(name, pattern)), SetGrant(st, name, pattern).1;
            if name !in st.users then r == Err(UserNotFound) && after == st
            else
              && r.Ok?
              && forall other, p ::
                   (p in Granted(after.grants, other) <==> p in Granted(st.grants, other) || (other == name && p == pattern))
  {
  }

  lemma GrantDeleted(st: StoreState, name: string, pattern: string)
    ensures var after, r := Apply(st, OpDeleteGrant(name, pattern)), DeleteGrant(st, name, pattern).1;
            if name !in st.users then r == Err(UserNotFound) && after == st
            else if pattern !in Granted(st.grants, name) then r == Err(MountGrantNotFound) && after == st
            else
              && r.Ok?
              && forall other, p ::
                   (p in Granted(after.grants, other) <==> p in Granted(st.grants, other) && (other != name || p != pattern))
  {
  }

  // ---- resources -------------------------------------------------------------------------

  ghost predicate OtherResourcesSame(st: StoreState, after: StoreState, ns: string, pid: string) {
    forall n, p :: n != ns || p != pid ==>
      && (p in Inner(after.resources, n) <==> p in Inner(st.resources, n))
      && (p in Inner(st.resources, n) ==> Inner(after.resources, n)[p] == Inner(st.resources, n)[p])
  }

  lemma ResourceCreated(st: StoreState, ns: string, pid: string, req: ResourceCreate, now: Time)
    ensures var after, r := Apply(st, OpCreateResource(ns, pid, req, now)), Store.CreateResource(st, ns, pid, req, now).1;
            if ns !in st.namespaces then r == Err(NamespaceNotFound) && after == st
            else if pid in Inner(st.resources, ns) then r == Err(PIDAllocationFailed) && after == st
            else
              && r.Ok? && pid in Inner(after.resources, ns) && Inner(after.resources, ns)[pid] == r.value
              && r.value.pid == pid && r.value.url == req.url && r.value.metadata == req.metadata && r.value.tags == req.tags
              && !r.value.deleted && r.value.created == r.value.updated == now
              && OtherResourcesSame(st, after, ns, pid)
  {
  }

  lemma BatchVerdict(st: StoreState, ns: string, pids: seq<string>, reqs: seq<ResourceCreate>, now: Time)
    requires ResourcesConsistent(st) && |pids| == |reqs|
    ensures var (after, r) := BatchCreate(st, ns, pids, reqs, now);
            if ns !in st.namespaces then r == Err(NamespaceNotFound) && after == st
            else if (exists i, j :: 0 <= i < j < |pids| && pids[i] == pids[j])
                 || (exists i :: 0 <= i < |pids| && pids[i] in st.resources[ns])
            then r == Err(PIDAllocationFailed) && after == st
            else r.Ok?
  {
    hide Added, NewResources;
  }

  /** A batch in an existing namespace is refused as a whole for a PID stored or repeated; else every request
      gets its own record, under its own PID. */
  lemma BatchCreated(st: StoreState, ns: string, pids: seq<string>, reqs: seq<ResourceCreate>, now: Time)
    requires ResourcesConsistent(st) && |pids| == |reqs|
    ensures var after, r := Apply(st, OpBatchCreate(ns, pids, reqs, now)), BatchCreate(st, ns, pids, reqs, now).1;
            if ns !in st.namespaces then r == Err(NamespaceNotFound) && after == st
            else if (exists i, j :: 0 <= i < j < |pids| && pids[i] == pids[j])
                 || (exists i :: 0 <= i < |pids| && pids[i] in st.resources[ns])
            then r == Err(PIDAllocationFailed) && after == st
            else
              && r.Ok? && |r.value| == |pids|
              && (forall i :: 0 <= i < |pids| ==>
                    && r.value[i].pid == pids[i] && r.value[i].url == reqs[i].url && r.value[i].metadata == reqs[i].metadata
                    && r.value[i].tags == reqs[i].tags && !r.value[i].deleted && r.value[i].created == r.value[i].updated == now
                    && pids[i] in Inner(after.resources, ns) && Inner(after.resources, ns)[pids[i]] == r.value[i])
              && (forall p :: p !in pids ==>
                    && (p in Inner(after.resources, ns) <==> p in Inner(st.resources, ns))
                    && (p in Inner(st.resources, ns) ==> Inner(after.resources, ns)[p] == Inner(st.resources, ns)[p]))
              && forall n :: n != ns ==> Inner(after.resources, n) == Inner(st.resources, n)
  {
    BatchVerdict(st, ns, pids, reqs, now);
    if BatchCreate(st, ns, pids, reqs, now).1.Ok? {
      hide Unused;
      BatchAdds(st, ns, pids, reqs, now);
    }
  }

  /** Each field given takes the value given, and every other keeps its own. */
  ghost predicate AsUpdated(was: Resource, x: Resource, req: ResourceUpdate, now: Time) {
    && x.pid == was.pid && x.created == was.created && x.updated == now
    && (req.url.Some? ==> x.url == req.url.value) && (req.url.None? ==> x.url == was.url)
    && (req.metadata.Some? ==> x.metadata == req.metadata.value) && (req.metadata.None? ==> x.metadata == was.metadata)
    && (req.tags.Some? ==> x.tags == req.tags.value) && (req.tags.None? ==> x.tags == was.tags)
    && (req.deleted.Some? ==> x.deleted == req.deleted.value) && (req.deleted.None? ==> x.deleted == was.deleted)
  }

  lemma ResourceUpdated(st: StoreState, ns: string, pid: string, req: ResourceUpdate, now: Time)
    ensures var after, r := Apply(st, OpUpdateResource(ns, pid, req, now)), Store.UpdateResource(st, ns, pid, req, now).1;
            if ns !in st.namespaces then r == Err(NamespaceNotFound) && after == st
            else if pid !in Inner(st.resources, ns) then r == Err(ResourceNotFound) && after == st
            else
              && r.Ok? && pid in Inner(after.resources, ns) && Inner(after.resources, ns)[pid] == r.value
              && AsUpdated(Inner(st.resources, ns)[pid], r.value, req, now)
              && OtherResourcesSame(st, after, ns, pid)
  {
  }

  // ---- listings ----------------------------------------------------------------------------

  /** The users that pass the filters, each once, names ascending. */
  lemma UsersListed(st: StoreState, superuser: Option<bool>, password: Option<bool>)
    ensures var infos := ListedUsers(st, superuser, password);
            && (forall i, j :: 0 <= i < j < |infos| ==> StringLess(infos[i].username, infos[j].username))
            && forall x: UserInfo :: x in infos <==>
                 && x.username in st.users && x.superuser == st.users[x.username].superuser
                 && x.password == (st.users[x.username].passwordHash != "")
                 && (superuser.Some? ==> x.superuser == superuser.value) && (password.Some? ==> x.password == password.value)
  {
    var names, infos := ListedNames(st, superuser, password), ListedUsers(st, superuser, password);
    forall x: UserInfo | x.username in names && x == Info(x.username, st.users[x.username])
      ensures x in infos
    {
      var i :| 0 <= i < |names| && names[i] == x.username;
      assert infos[i] == x;
    }
  }

  /** The namespaces with the tag asked for, each once, ids ascending. */
  lemma NamespacesListed(st: StoreState, tag: Option<string>)
    requires ResourcesConsistent(st)
    ensures var listed := ListedNamespaces(st, tag);
            && (forall i, j :: 0 <= i < j < |listed| ==> StringLess(listed[i].id, listed[j].id))
            && forall x: Namespace :: x in listed <==>
                 x.id in st.namespaces && st.namespaces[x.id] == x && (tag.Some? ==> tag.value in x.tags)
  {
    hide ListedIds;
    var listed, ids := ListedNamespaces(st, tag), ListedIds(st, tag);
    forall x: Namespace | x.id in ids && st.namespaces[x.id] == x
      ensures x in listed
    {
      var i :| 0 <= i < |ids| && ids[i] == x.id;
      assert listed[i] == x;
    }
  }

  /** The resources of a namespace that pass the filters, each once, PIDs ascending. */
  lemma ResourcesListed(st: StoreState, ns: string, tag: Option<string>, deleted: Option<bool>)
    requires ResourcesConsistent(st)
    ensures var listed := ListedResources(st, ns, tag, deleted);
            && (forall i, j :: 0 <= i < j < |listed| ==> StringLess(listed[i].pid, listed[j].pid))
            && forall x: Resource :: x in listed <==>
                 && x.pid in Inner(st.resources, ns) && Inner(st.resources, ns)[x.pid] == x
                 && (tag.Some? ==> tag.value in x.tags) && (deleted.Some? ==> x.deleted == deleted.value)
  {
    hide ListedPids;
    var byPID := Inner(st.resources, ns);
    var listed, pids := ListedResources(st, ns, tag, deleted), ListedPids(byPID, tag, deleted);
    forall x: Resource | x.pid in pids && byPID[x.pid] == x
      ensures x in listed
    {
      var i :| 0 <= i < |pids| && pids[i] == x.pid;
      assert listed[i] == x;
    }
  }

  /** A user's keys, each once, ids ascending. */
  lemma KeysListed(keys: map<string, KeyRecord>)
    requires forall id :: id in keys ==> keys[id].info.id == id
    ensures var listed := ListedKeys(keys);
            && (forall i, j :: 0 <= i < j < |listed| ==> StringLess(listed[i].id, listed[j].id))
            && forall x: KeyInfo :: x in listed <==> x.id in keys && keys[x.id].info == x
  {
    hide KeyIds;
    var listed, ids := ListedKeys(keys), KeyIds(keys);
    forall x: KeyInfo | x.id in ids && keys[x.id].info == x
      ensures x in listed
    {
      var i :| 0 <= i < |ids| && ids[i] == x.id;
      assert listed[i] == x;
    }
  }

  /** The mounts, each once, by namespace and then by base URI. */
  lemma MountsListed(st: StoreState)
    ensures var listed := ListedMounts(st);
            && (forall m: Mount :: m in listed <==> m.baseURI in st.mounts && st.mounts[m.baseURI] == m.ns)
            && forall i, j :: 0 <= i < j < |listed| ==>
                 if listed[i].ns == listed[j].ns then StringLess(listed[i].baseURI, listed[j].baseURI)
                 else StringLess(listed[i].ns, listed[j].ns)
  {
    PairOrder();
  }

  /** A user's patterns, each once and ascending. */
  lemma GrantsListed(st: StoreState, name: string)
    ensures var listed := ListedGrants(st, name);
            && (forall p :: p in listed <==> p in Granted(st.grants, name))
            && forall i, j :: 0 <= i < j < |listed| ==> StringLess(listed[i], listed[j])
  {
    StringOrder();
  }
}
