/** Who may do what, and what that keeps: scope checks, the role endpoints and runs of requests
    (api/scopes.go, api/caller.go, server/roles.go, service/roles.go). */
module Access {
  import opened Common
  import opened Scopes
  import opened Store
  import opened Memory
  import ApiKey
  import Format
  import Mounts

  datatype ErrorCode =
    | Unauthorized | Forbidden | UnavailableInAnonymousMode
    | MissingNamespace | BadRole | MissingRole | DatabaseError
    | BackendError(cause: StoreError)

  /** How a caller proved who they are; an API key may narrow what they can do. */
  datatype Authentication = NoAuthentication | Impersonation | BasicAuthentication | TokenAuthentication(key: Option<KeyInfo>) {
    predicate AllowsUserScope(scope: UserScope) {
      TokenAuthentication? && key.Some? ==> HasUserScope(key.value, scope)
    }

    predicate AllowsNamespaceScope(ns: string, scope: NamespaceScope) {
      TokenAuthentication? && key.Some? ==> HasNamespaceScope(key.value, ns, scope)
    }
  }

  /** A key without any scopes grants them all; with scopes of one kind only, none of the other. */
  predicate HasUserScope(key: KeyInfo, scope: UserScope) {
    if key.userScopes == [] then key.namespaceScopes == [] else scope in key.userScopes
  }

  predicate HasNamespaceScope(key: KeyInfo, ns: string, scope: NamespaceScope) {
    if key.namespaceScopes == [] then key.userScopes == [] else (ns, scope) in key.namespaceScopes
  }

  datatype Caller = Caller(username: string, superuser: bool, auth: Authentication)

  // ---- deciding a scope -----------------------------------------------------------

  /** None when the scope is fulfilled. */
  function EvaluateUserScope(caller: Option<Caller>, scope: UserScope): Option<ErrorCode> {
    match UserDefinitionOf(scope)
    case None => Some(Unauthorized)
    case Some(definition) =>
      if caller.None? then (if definition.allowUnauthenticated then None else Some(Unauthorized))
      else if !caller.value.auth.AllowsUserScope(scope) then Some(Unauthorized)
      else if !caller.value.superuser && definition.requireSuperuser then Some(Forbidden)
      else None
  }

  function EvaluateNamespaceScope(ns: string, role: Role, caller: Option<Caller>, scope: NamespaceScope): Option<ErrorCode> {
    match DefinitionOf(scope)
    case None => Some(Unauthorized)
    case Some(definition) =>
      if caller.None? then (if definition.allowUnauthenticated then None else Some(Unauthorized))
      else if !caller.value.auth.AllowsNamespaceScope(ns, scope) then Some(Unauthorized)
      else if caller.value.superuser then None
      else if definition.requireSuperuser then Some(Forbidden)
      else if definition.minRole.LessThan(role) then None
      else Some(Forbidden)
  }

  function CheckUserScope(anonymous: bool, caller: Option<Caller>, scope: UserScope): Option<ErrorCode> {
    if !anonymous then EvaluateUserScope(caller, scope)
    else if UserDefinitionOf(scope).Some? && UserDefinitionOf(scope).value.anonymousMode then None
    else Some(UnavailableInAnonymousMode)
  }

  function CheckNamespaceScope(st: StoreState, anonymous: bool, ns: string, caller: Option<Caller>, scope: NamespaceScope)
    : Option<ErrorCode>
  {
    if anonymous then
      if DefinitionOf(scope).Some? && DefinitionOf(scope).value.anonymousMode then None else Some(UnavailableInAnonymousMode)
    else if caller.None? then EvaluateNamespaceScope(ns, NoRole, caller, scope)
    else if ns !in st.namespaces then Some(MissingNamespace)
    else EvaluateNamespaceScope(ns, RoleOf(st, ns, caller.value.username), caller, scope)
  }

  /** A higher role, superuser rights or an unrestricted login never lose a scope. */
  lemma ScopesMonotone(ns: string, low: Role, high: Role, caller: Caller, scope: NamespaceScope)
    requires low.LessThan(high) && EvaluateNamespaceScope(ns, low, Some(caller), scope).None?
    ensures EvaluateNamespaceScope(ns, high, Some(caller), scope).None?
    ensures EvaluateNamespaceScope(ns, low, Some(caller.(superuser := true)), scope).None?
    ensures EvaluateNamespaceScope(ns, low, Some(caller.(auth := BasicAuthentication)), scope).None?
  {
  }

  /** What the split of the role scopes comes to: short of a superuser, only a manager changes roles,
      and nobody their own. */
  lemma RoleScopesNeed(st: StoreState, anonymous: bool, ns: string, caller: Option<Caller>, target: string)
    requires caller.None? || !caller.value.superuser
    ensures CheckNamespaceScope(st, anonymous, ns, caller, SetRoleScope(caller, target)).None?
        ==> !anonymous && caller.Some? && caller.value.username != target && RoleOf(st, ns, caller.value.username) == Manager
    ensures CheckNamespaceScope(st, anonymous, ns, caller, RemoveRoleScope(caller, target)).None?
        ==> !anonymous && caller.Some? && caller.value.username != target && RoleOf(st, ns, caller.value.username) == Manager
  {
  }

  // ---- the role endpoints ------------------------------------------------------------

  function SetRoleScope(caller: Option<Caller>, target: string): NamespaceScope {
    if caller.Some? && caller.value.username == target then SetNamespaceRoleSelf else SetNamespaceRoleOther
  }

  function RemoveRoleScope(caller: Option<Caller>, target: string): NamespaceScope {
    if caller.Some? && caller.value.username == target then RemoveNamespaceRoleSelf else RemoveNamespaceRoleOther
  }

  type Served = (StoreState, Option<ErrorCode>)

  function ServeSetRole(st: StoreState, anonymous: bool, caller: Option<Caller>, ns: string, target: string, role: Role): Served {
    var denied := CheckNamespaceScope(st, anonymous, ns, caller, SetRoleScope(caller, target));
    if denied.Some? then (st, denied)
    else if role == NoRole then (st, Some(BadRole))
    else match SetRole(st, ns, target, role)
      case (after, Ok(_)) => (after, None)
      case (after, Err(InvalidRole)) => (after, Some(BadRole))
      case (after, Err(_)) => (after, Some(DatabaseError))
  }

  function ServeRemoveRole(st: StoreState, anonymous: bool, caller: Option<Caller>, ns: string, target: string): Served {
    var denied := CheckNamespaceScope(st, anonymous, ns, caller, RemoveRoleScope(caller, target));
    if denied.Some? then (st, denied)
    else if ns !in st.namespaces then (st, Some(MissingNamespace))
    else match DeleteRole(st, ns, target)
      case (after, Ok(_)) => (after, None)
      case (after, Err(_)) => (after, Some(MissingRole))
  }

  /** The handlers: the check and the change are separate backend calls. */
  class Server {
    const backend: MemoryBackend
    const anonymous: bool

    constructor (backend: MemoryBackend, anonymous: bool)
      ensures this.backend == backend && this.anonymous == anonymous
    {
      this.backend, this.anonymous := backend, anonymous;
    }

    method Check(ns: string, caller: Option<Caller>, scope: NamespaceScope) returns (denied: Option<ErrorCode>)
      ensures denied == CheckNamespaceScope(backend.State(), anonymous, ns, caller, scope)
    {
      if anonymous {
        var definition := DefinitionOf(scope);
        return if definition.Some? && definition.value.anonymousMode then None else Some(UnavailableInAnonymousMode);
      }
      var role := NoRole;
      if caller.Some? {
        var explicit := backend.GetNamespaceRole(ns, caller.value.username);
        if explicit.Err? {
          return Some(MissingNamespace);
        }
        role := explicit.value;
      }
      return EvaluateNamespaceScope(ns, role, caller, scope);
    }

    method SetNamespaceRole(caller: Option<Caller>, ns: string, target: string, role: Role) returns (error: Option<ErrorCode>)
      modifies backend
      ensures (backend.State(), error) == ServeSetRole(old(backend.State()), anonymous, caller, ns, target, role)
    {
      var scope := NamespaceScope.SetNamespaceRoleOther;
      if caller.Some? && caller.value.username == target {
        scope := NamespaceScope.SetNamespaceRoleSelf;
      }
      var denied := Check(ns, caller, scope);
      if denied.Some? {
        return denied;
      }
      if role == NoRole {
        return Some(BadRole);
      }
      var written := backend.SetNamespaceRole(ns, target, role);
      if written.Err? {
        return Some(if written.error == InvalidRole then BadRole else DatabaseError);
      }
      var stored := backend.GetNamespaceRole(ns, target);
      if stored.Err? {
        return Some(MissingNamespace);
      }
      return None;
    }

    method RemoveNamespaceRole(caller: Option<Caller>, ns: string, target: string) returns (error: Option<ErrorCode>)
      modifies backend
      ensures (backend.State(), error) == ServeRemoveRole(old(backend.State()), anonymous, caller, ns, target)
    {
      var scope := NamespaceScope.RemoveNamespaceRoleOther;
      if caller.Some? && caller.value.username == target {
        scope := NamespaceScope.RemoveNamespaceRoleSelf;
      }
      var denied := Check(ns, caller, scope);
      if denied.Some? {
        return denied;
      }
      var found := backend.GetNamespace(ns);
      if found.Err? {
        return Some(MissingNamespace);
      }
      var deleted := backend.DeleteNamespaceRole(ns, target);
      if deleted.Err? {
        return Some(if deleted.error == RoleNotFound then MissingRole else DatabaseError);
      }
      return None;
    }
  }

  // ---- every request that changes the store ------------------------------------------------

  /** A request is one of the two role endpoints, or a scope and the one backend operation its endpoint
      carries out when the scope is fulfilled. Retries of refused operations change nothing. */
  datatype Request =
    | SetRoleOf(ns: string, target: string, role: Role)
    | RemoveRoleOf(ns: string, target: string)
    | AtNamespace(ns: string, namespaceScope: NamespaceScope, op: Op)
    | AtUser(userScope: UserScope, op: Op)

  function NameOf(caller: Option<Caller>): Option<string> {
    if caller.Some? then Some(caller.value.username) else None
  }

  /** The routing table: which operation stands behind which scope, and on whose behalf. */
  predicate Routed(self: Option<string>, r: Request) {
    match r
    case SetRoleOf(_, _, _) => true
    case RemoveRoleOf(_, _) => true
    case AtNamespace(ns, scope, op) => (
      match scope
      case UpdateNamespace => op.OpUpdateNamespace? && op.ns == ns
      case CreateResource => op.OpCreateResource? && op.ns == ns
      case CreateResourceBatch => op.OpBatchCreate? && op.ns == ns
      case UpdateResource => op.OpUpdateResource? && op.ns == ns
      case _ => false)
    case AtUser(scope, op) =>
      match scope
      case CreateNamespaceScope => op.OpCreateNamespace? && op.owner == self
      case SetMountScope => op.OpSetMount?
      case DeleteMountScope => op.OpDeleteMount?
      case SetMountGrantScope => op.OpSetGrant?
      case DeleteMountGrantScope => op.OpDeleteGrant?
      case UpdateUserScope => op.OpUpdateUser?
      case CreateUserScope => op.OpCreateUser?
      case DeleteUserScope => op.OpDeleteUser?
      case IssueUserKeyScope => op.OpCreateKey? && Some(op.name) == self
      case SetUserPasswordScope => op.OpSetPassword? && Some(op.name) == self
      case RevokeUserKeyScope => op.OpRevokeKey? && Some(op.name) == self
      case _ => false
  }

  /** What an endpoint checks beyond its scope: mounts need a matching grant, accounts are never changed
      by their own user. */
  function Refused(st: StoreState, anonymous: bool, compile: Mounts.Compiler, caller: Option<Caller>, op: Op): Option<ErrorCode> {
    if anonymous || caller.None? then None
    else
      var name := caller.value.username;
      match op
      case OpSetMount(uri, _) => GrantRefused(st, compile, caller.value, uri)
      case OpDeleteMount(uri) => GrantRefused(st, compile, caller.value, uri)
      case OpUpdateUser(target, _) => if target == name then Some(Forbidden) else None
      case OpDeleteUser(target) => if target == name then Some(Forbidden) else None
      case _ => None
  }

  function GrantRefused(st: StoreState, compile: Mounts.Compiler, caller: Caller, uri: string): Option<ErrorCode> {
    if caller.superuser then None
    else match Mounts.FirstMatch(Mounts.Grants(st, caller.username, compile), uri)
      case Err(_) => Some(DatabaseError)
      case Ok(matched) => if matched then None else Some(Forbidden)
  }

  /** The store after a request, check and change as one step. */
  ghost function Serve(st: StoreState, anonymous: bool, compile: Mounts.Compiler, caller: Option<Caller>, r: Request): StoreState {
    match r
    case SetRoleOf(ns, target, role) => ServeSetRole(st, anonymous, caller, ns, target, role).0
    case RemoveRoleOf(ns, target) => ServeRemoveRole(st, anonymous, caller, ns, target).0
    case AtNamespace(ns, scope, op) =>
      if CheckNamespaceScope(st, anonymous, ns, caller, scope).Some? then st else Apply(st, op)
    case AtUser(scope, op) =>
      if CheckUserScope(anonymous, caller, scope).Some? || Refused(st, anonymous, compile, caller, op).Some? then st
      else Apply(st, op)
  }

  predicate Ordinary(caller: Option<Caller>) {
    caller.Some? ==> !caller.value.superuser
  }

  ghost predicate Managed(st: StoreState, ns: string) {
    exists name :: RoleOf(st, ns, name) == Manager
  }

  /** Some manager of the namespace has an account. Roles may also name users without one. */
  ghost predicate ManagedByAccount(st: StoreState, ns: string) {
    exists name :: name in st.users && RoleOf(st, ns, name) == Manager
  }

  /** Each manager still is one, or the acting user is, in the same namespace. */
  ghost predicate Retains(st: StoreState, after: StoreState, actor: Option<string>) {
    forall ns, name :: RoleOf(st, ns, name) == Manager ==>
      RoleOf(after, ns, name) == Manager || (actor.Some? && RoleOf(after, ns, actor.value) == Manager)
  }

  lemma RetainsManaged(st: StoreState, after: StoreState, actor: Option<string>)
    requires Retains(st, after, actor)
    ensures forall ns :: Managed(st, ns) ==> Managed(after, ns)
    ensures SameRanks(st, after) && (actor.Some? ==> actor.value in st.users) ==>
              forall ns :: ManagedByAccount(st, ns) ==> ManagedByAccount(after, ns)
  {
    hide RoleOf;
  }

  /** Same users, same superuser flags. */
  ghost predicate SameRanks(a: StoreState, b: StoreState) {
    a.users.Keys == b.users.Keys && forall name :: name in a.users ==> a.users[name].superuser == b.users[name].superuser
  }

  lemma RoleWritten(st: StoreState, ns: string, target: string, role: Role)
    requires SetRole(st, ns, target, role).1.Ok?
    ensures RoleOf(SetRole(st, ns, target, role).0, ns, target) == role
    ensures forall n, name :: n != ns || name != target ==> RoleOf(SetRole(st, ns, target, role).0, n, name) == RoleOf(st, n, name)
  {
  }

  lemma RoleDeleted(st: StoreState, ns: string, target: string)
    requires DeleteRole(st, ns, target).1.Ok?
    ensures RoleOf(DeleteRole(st, ns, target).0, ns, target) == NoRole
    ensures forall n, name :: n != ns || name != target ==> RoleOf(DeleteRole(st, ns, target).0, n, name) == RoleOf(st, n, name)
  {
  }

  /** Writing or deleting a role leaves a managed namespace managed exactly when the role written is
      manager or another manager exists. */
  lemma WriteKeepsManagerIff(st: StoreState, ns: string, target: string, role: Role)
    ensures SetRole(st, ns, target, role).1.Ok? ==>
              (Managed(SetRole(st, ns, target, role).0, ns) <==>
                role == Manager || exists other :: other != target && RoleOf(st, ns, other) == Manager)
    ensures DeleteRole(st, ns, target).1.Ok? ==>
              (Managed(DeleteRole(st, ns, target).0, ns) <==> exists other :: other != target && RoleOf(st, ns, other) == Manager)
  {
    if SetRole(st, ns, target, role).1.Ok? {
      RoleWritten(st, ns, target, role);
      assert RoleOf(SetRole(st, ns, target, role).0, ns, target) == role;
    }
    if DeleteRole(st, ns, target).1.Ok? {
      RoleDeleted(st, ns, target);
    }
  }

  /** An ordinary caller's role request keeps every manager but the target, so the caller, and the
      caller's own role. */
  lemma RoleRequestKeeps(st: StoreState, anonymous: bool, compile: Mounts.Compiler, caller: Option<Caller>, r: Request)
    requires Ordinary(caller) && (r.SetRoleOf? || r.RemoveRoleOf?)
    ensures var after := Serve(st, anonymous, compile, caller, r);
            && Retains(st, after, NameOf(caller)) && (forall ns :: Managed(st, ns) ==> Managed(after, ns))
            && (caller.Some? ==> forall ns :: RoleOf(after, ns, caller.value.username) == RoleOf(st, ns, caller.value.username))
            && after.users == st.users
  {
    var after := Serve(st, anonymous, compile, caller, r);
    RoleScopesNeed(st, anonymous, r.ns, caller, r.target);
    if after != st {
      hide RoleOf, CheckNamespaceScope, Managed;
      match r
      case SetRoleOf(ns, target, role) => RoleWritten(st, ns, target, role);
      case RemoveRoleOf(ns, target) => RoleDeleted(st, ns, target);
    }
    RetainsManaged(st, after, NameOf(caller));
  }

  /** The operations on accounts and grants, closed to ordinary callers. */
  predicate ForSuperusers(op: Op) {
    op.OpCreateUser? || op.OpUpdateUser? || op.OpDeleteUser? || op.OpSetGrant? || op.OpDeleteGrant?
  }

  lemma OrdinaryOps(st: StoreState, anonymous: bool, compile: Mounts.Compiler, caller: Option<Caller>, r: Request)
    requires Ordinary(caller) && Routed(NameOf(caller), r) && (r.AtNamespace? || r.AtUser?)
    ensures Serve(st, anonymous, compile, caller, r) == st
         || (Serve(st, anonymous, compile, caller, r) == Apply(st, r.op)
             && !ForSuperusers(r.op) && !r.op.OpSetRole? && !r.op.OpDeleteRole?)
  {
    hide Refused, Apply;
  }

  lemma RecordReplaced(st: StoreState, name: string, u: User)
    requires name in st.users && u.superuser == st.users[name].superuser
    ensures SameRanks(st, st.(users := st.users[name := u]))
  {
  }

  lemma OrdinaryOpKeepsUsers(st: StoreState, op: Op)
    requires !ForSuperusers(op)
    ensures SameRanks(st, Apply(st, op))
  {
    if !TouchesUsers(op) {
      OpFrame(st, op);
    } else {
      hide SameRanks, NewKeyInfo, Collides, ApiKey.Hash;
      SameRanksSelf(st);
      match op
      case OpSetPassword(name, hashed) => PasswordSet(st, name, hashed);
      case OpCreateKey(format, name, id, key, req, now) => KeyCreated(st, format, name, id, key, req, now);
      case OpRevokeKey(name, id) => KeyRevoked(st, name, id);
    }
  }

  lemma SameRanksSelf(st: StoreState)
    ensures SameRanks(st, st)
  {
  }

  lemma PasswordSet(st: StoreState, name: string, hashed: Option<Option<string>>)
    ensures SameRanks(st, Store.SetPassword(st, name, hashed).0)
  {
    SameRanksSelf(st);
    if name in st.users {
      RecordReplaced(st, name, Store.SetPassword(st, name, hashed).0.users[name]);
    }
  }

  lemma KeyCreated(st: StoreState, format: ApiKey.KeyFormat, name: string, id: string, key: string, req: KeyRequest, now: Time)
    ensures SameRanks(st, Store.CreateKey(st, format, name, id, key, req, now).0)
  {
    CreateKeyAdds(st, format, name, id, key, req, now);
    SameRanksSelf(st);
    var after := Store.CreateKey(st, format, name, id, key, req, now).0;
    if after != st {
      RecordReplaced(st, name, after.users[name]);
    }
  }

  lemma KeyRevoked(st: StoreState, name: string, id: string)
    ensures SameRanks(st, Store.RevokeKey(st, name, id).0)
  {
    SameRanksSelf(st);
    if name in st.users {
      RecordReplaced(st, name, st.users[name].(keys := st.users[name].keys - {id}));
    }
  }

  lemma OrdinaryOpKeepsManagers(st: StoreState, op: Op)
    requires !ForSuperusers(op) && !op.OpSetRole? && !op.OpDeleteRole?
    ensures forall ns, name :: RoleOf(st, ns, name) == Manager ==> RoleOf(Apply(st, op), ns, name) == Manager
  {
    if TouchesRoles(op) {
      OwnerAdded(st, op.ns, op.nsTags, op.pidFormat, op.owner, op.now);
    } else {
      OpFrame(st, op);
    }
  }

  lemma OwnerAdded(st: StoreState, ns: string, tags: seq<string>, format: Format.Format, owner: Option<string>, now: Time)
    ensures forall n, name :: RoleOf(st, n, name) == Manager ==>
              RoleOf(Store.CreateNamespace(st, ns, tags, format, owner, now).0, n, name) == Manager
  {
  }

  /** One request of an ordinary caller. */
  lemma OrdinaryRequestKeeps(st: StoreState, anonymous: bool, compile: Mounts.Compiler, caller: Option<Caller>, r: Request)
    requires Ordinary(caller) && Routed(NameOf(caller), r)
    ensures var after := Serve(st, anonymous, compile, caller, r);
            SameRanks(st, after) && Retains(st, after, NameOf(caller))
  {
    hide Apply, RoleOf, Routed;
    if r.SetRoleOf? || r.RemoveRoleOf? {
      RoleRequestKeeps(st, anonymous, compile, caller, r);
    } else {
      OrdinaryOps(st, anonymous, compile, caller, r);
      if Serve(st, anonymous, compile, caller, r) == Apply(st, r.op) {
        hide Serve;
        if Serve(st, anonymous, compile, caller, r) != st {
          OrdinaryOpKeepsUsers(st, r.op);
          OrdinaryOpKeepsManagers(st, r.op);
        }
      }
    }
  }

  // ---- runs of requests -----------------------------------------------------------------------

  /** A request with the login it comes with: the effective user, after any impersonation. */
  datatype Call = Call(user: Option<string>, auth: Authentication, request: Request)

  /** Serves a call: the account is loaded when the request arrives, and logins fail in anonymous mode. */
  ghost function ServeCall(st: StoreState, anonymous: bool, compile: Mounts.Compiler, call: Call): StoreState {
    if call.user.None? then Serve(st, anonymous, compile, None, call.request)
    else if anonymous || call.user.value !in st.users then st
    else
      var caller := Caller(call.user.value, st.users[call.user.value].superuser, call.auth);
      Serve(st, anonymous, compile, Some(caller), call.request)
  }

  ghost function ServeAll(st: StoreState, anonymous: bool, compile: Mounts.Compiler, calls: seq<Call>): StoreState
    decreases |calls|
  {
    if calls == [] then st else ServeAll(ServeCall(st, anonymous, compile, calls[0]), anonymous, compile, calls[1..])
  }

  /** No call comes from a user who is a superuser in this state. */
  ghost predicate ByOrdinaryUsers(st: StoreState, calls: seq<Call>) {
    forall i :: 0 <= i < |calls| ==>
      && Routed(calls[i].user, calls[i].request)
      && (calls[i].user.Some? && calls[i].user.value in st.users ==> !st.users[calls[i].user.value].superuser)
  }

  /** Requests served one at a time, none of them from a user who was a superuser at the start: every
      namespace that had a manager still has one, no user appears or disappears, and no superuser flag
      has changed, so none of the users has become a superuser on the way. And a namespace that had a
      manager with an account still has one. */
  lemma {:induction false} OrdinaryRunKeepsManagers(st: StoreState, anonymous: bool, compile: Mounts.Compiler, calls: seq<Call>)
    requires ByOrdinaryUsers(st, calls)
    ensures var after := ServeAll(st, anonymous, compile, calls);
            && SameRanks(st, after)
            && (forall ns :: Managed(st, ns) ==> Managed(after, ns))
            && (forall ns :: ManagedByAccount(st, ns) ==> ManagedByAccount(after, ns))
    decreases |calls|
  {
    hide Serve, Routed, Managed, ManagedByAccount, Retains;
    if calls != [] {
      var call := calls[0];
      var next := ServeCall(st, anonymous, compile, call);
      var caller := if call.user.None? || call.user.value !in st.users then None
                    else Some(Caller(call.user.value, st.users[call.user.value].superuser, call.auth));
      if next != st {
        OrdinaryRequestKeeps(st, anonymous, compile, caller, call.request);
        RetainsManaged(st, next, NameOf(caller));
      }
      assert forall i :: 0 <= i < |calls| - 1 ==> calls[1..][i] == calls[i + 1];
      OrdinaryRunKeepsManagers(next, anonymous, compile, calls[1..]);
    }
  }

  /** A namespace with two managers. */
  function TwoManagers(format: Format.Format): StoreState {
    StoreState(map["a" := User(false, "", map[]), "b" := User(false, "", map[])],
               map["n" := Namespace("n", [], format, 0, 0)], map["n" := map[]],
               map["n" := map["a" := Manager, "b" := Manager]], map[], map[])
  }

  lemma TwoManagersConsistent(format: Format.Format)
    ensures Consistent(TwoManagers(format))
  {
    assert "a" in TwoManagers(format).roles["n"];
  }

  /** The check and the change of a role request are two backend calls. When two managers remove each
      other and both checks run before both changes, the namespace is left without a manager: the
      guarantee is one of requests served one at a time. */
  lemma CheckThenRunLosesManagers(format: Format.Format)
    ensures var st := TwoManagers(format);
            var a, b := Some(Caller("a", false, BasicAuthentication)), Some(Caller("b", false, BasicAuthentication));
            && Managed(st, "n")
            && CheckNamespaceScope(st, false, "n", a, RemoveRoleScope(a, "b")).None?
            && CheckNamespaceScope(st, false, "n", b, RemoveRoleScope(b, "a")).None?
            && !Managed(DeleteRole(DeleteRole(st, "n", "b").0, "n", "a").0, "n")
  {
    var st := TwoManagers(format);
    assert RoleOf(st, "n", "a") == Manager && RoleOf(st, "n", "b") == Manager;
    RoleDeleted(st, "n", "b");
    RoleDeleted(DeleteRole(st, "n", "b").0, "n", "a");
    assert forall name :: name != "a" && name != "b" ==> RoleOf(st, "n", name) == NoRole;
  }
}
