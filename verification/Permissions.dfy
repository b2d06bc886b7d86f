/** What the permission scopes come to: who passes which, and what each role can and cannot do
    (api/scopes_namespace.go, api/scopes_user.go, api/credentials.go, server/mounts.go). */
module Permissions {
  import opened Common
  import opened Scopes
  import opened Store
  import opened Access
  import Format
  import Mounts
  import Observed

  // ---- the scopes open to each kind of caller ---------------------------------------

  const FOR_EVERYBODY: set<NamespaceScope> := {GetNamespace, GetResource}

  const FOR_USERS: set<NamespaceScope> := FOR_EVERYBODY + {GetNamespaceRoleSelf}

  const FOR_CONTRIBUTORS: set<NamespaceScope> :=
    FOR_USERS + {ListNamespaceMounts, NamespaceScope.CreateResource, CreateResourceBatch, SeeInNamespaceList}

  const FOR_EDITORS: set<NamespaceScope> :=
    FOR_CONTRIBUTORS + {ListResources, NamespaceScope.UpdateResource, SeeDeletedResource}

  const FOR_MANAGERS: set<NamespaceScope> :=
    FOR_EDITORS + {NamespaceScope.UpdateNamespace, ListNamespaceRoles, GetNamespaceRoleOther, SetNamespaceRoleOther,
                   RemoveNamespaceRoleOther}

  const FOR_SUPERUSERS: set<NamespaceScope> := FOR_MANAGERS + {SetNamespaceRoleSelf, RemoveNamespaceRoleSelf}

  const IN_ANONYMOUS_MODE: set<NamespaceScope> :=
    FOR_EVERYBODY + {NamespaceScope.UpdateNamespace, ListNamespaceMounts, ListResources, NamespaceScope.CreateResource,
                     CreateResourceBatch, NamespaceScope.UpdateResource, SeeDeletedResource, SeeInNamespaceList}

  /** Without a restricting key, each kind of caller passes exactly these scopes. */
  lemma NamespaceScopesOpenTo(ns: string, name: string, scope: NamespaceScope)
    ensures EvaluateNamespaceScope(ns, NoRole, None, scope).None? <==> scope in FOR_EVERYBODY
    ensures var ordinary := Some(Caller(name, false, BasicAuthentication));
            && (EvaluateNamespaceScope(ns, NoRole, ordinary, scope).None? <==> scope in FOR_USERS)
            && (EvaluateNamespaceScope(ns, Contributor, ordinary, scope).None? <==> scope in FOR_CONTRIBUTORS)
            && (EvaluateNamespaceScope(ns, Editor, ordinary, scope).None? <==> scope in FOR_EDITORS)
            && (EvaluateNamespaceScope(ns, Manager, ordinary, scope).None? <==> scope in FOR_MANAGERS)
    ensures EvaluateNamespaceScope(ns, NoRole, Some(Caller(name, true, BasicAuthentication)), scope).None? <==> scope in FOR_SUPERUSERS
  {
  }

  lemma ScopesInAnonymousMode(st: StoreState, ns: string, caller: Option<Caller>, scope: NamespaceScope)
    ensures CheckNamespaceScope(st, true, ns, caller, scope).None? <==> scope in IN_ANONYMOUS_MODE
  {
  }

  const USER_SCOPES_FOR_USERS: set<UserScope> :=
    {CreateNamespaceScope, SetMountScope, DeleteMountScope, IssueUserKeyScope, SetUserPasswordScope, RevokeUserKeyScope}

  const USER_SCOPES_FOR_SUPERUSERS: set<UserScope> :=
    USER_SCOPES_FOR_USERS + {SetMountGrantScope, DeleteMountGrantScope, UpdateUserScope, CreateUserScope, DeleteUserScope,
                             ImpersonateScope}

  lemma UserScopesOpenTo(name: string, scope: UserScope)
    ensures EvaluateUserScope(None, scope).Some?
    ensures EvaluateUserScope(Some(Caller(name, false, BasicAuthentication)), scope).None? <==> scope in USER_SCOPES_FOR_USERS
    ensures EvaluateUserScope(Some(Caller(name, true, BasicAuthentication)), scope).None? <==> scope in USER_SCOPES_FOR_SUPERUSERS
    ensures forall caller ::
              CheckUserScope(true, caller, scope).None? <==> scope in {CreateNamespaceScope, SetMountScope, DeleteMountScope}
  {
  }

  /** A key opens nothing its user could not do anyway; with scopes listed it opens only those, and with
      scopes of one kind only, none of the other. */
  lemma KeysNarrow(ns: string, role: Role, caller: Caller, key: KeyInfo, scope: NamespaceScope, userScope: UserScope)
    requires caller.auth == TokenAuthentication(Some(key))
    ensures var plain := Some(caller.(auth := BasicAuthentication));
            && (EvaluateNamespaceScope(ns, role, Some(caller), scope).None? <==>
                  && EvaluateNamespaceScope(ns, role, plain, scope).None?
                  && (key.namespaceScopes == [] ==> key.userScopes == [])
                  && (key.namespaceScopes != [] ==> (ns, scope) in key.namespaceScopes))
            && (EvaluateUserScope(Some(caller), userScope).None? <==>
                  && EvaluateUserScope(plain, userScope).None?
                  && (key.userScopes == [] ==> key.namespaceScopes == [])
                  && (key.userScopes != [] ==> userScope in key.userScopes))
  {
  }

  // ---- what each role can change -------------------------------------------------------

  /** The explicit role of a caller who is no superuser; nobody in particular has none. */
  function CallerRole(st: StoreState, ns: string, caller: Option<Caller>): Role {
    if caller.Some? then RoleOf(st, ns, caller.value.username) else NoRole
  }

  ghost predicate SameRecords(st: StoreState, after: StoreState) {
    forall ns, pid :: ns in st.resources && pid in st.resources[ns] ==>
      ns in after.resources && pid in after.resources[ns] && after.resources[ns][pid] == st.resources[ns][pid]
  }

  /** Without a role a caller changes nothing in a namespace. */
  lemma NoRoleNoChange(st: StoreState, compile: Mounts.Compiler, caller: Option<Caller>, r: Request)
    requires Ordinary(caller) && Routed(NameOf(caller), r) && r.AtNamespace? && CallerRole(st, r.ns, caller) == NoRole
    ensures Serve(st, false, compile, caller, r) == st
  {
    hide Apply;
  }

  /** A contributor adds resources, but alters no stored one and not the namespace. */
  lemma ContributorOnlyAdds(st: StoreState, compile: Mounts.Compiler, caller: Option<Caller>, r: Request)
    requires Ordinary(caller) && Routed(NameOf(caller), r) && r.AtNamespace? && CallerRole(st, r.ns, caller) == Contributor
    ensures var after := Serve(st, false, compile, caller, r);
            after.namespaces == st.namespaces && SameRecords(st, after)
  {
    OnlyCreates(st, compile, caller, r);
    if Serve(st, false, compile, caller, r) != st {
      OpFrame(st, r.op);
      CreationKeepsRecords(st, r.op);
    }
  }

  lemma OnlyCreates(st: StoreState, compile: Mounts.Compiler, caller: Option<Caller>, r: Request)
    requires Ordinary(caller) && Routed(NameOf(caller), r) && r.AtNamespace? && CallerRole(st, r.ns, caller) == Contributor
    ensures Serve(st, false, compile, caller, r) == st
         || ((r.op.OpCreateResource? || r.op.OpBatchCreate?) && Serve(st, false, compile, caller, r) == Apply(st, r.op))
  {
    hide Apply;
  }

  lemma CreationKeepsRecords(st: StoreState, op: Op)
    requires op.OpCreateResource? || op.OpBatchCreate?
    ensures SameRecords(st, Apply(st, op))
  {
    if op.OpBatchCreate? && BatchCreate(st, op.ns, op.pids, op.reqs, op.now).1.Ok? {
      hide Added, NewResources, Unused;
      BatchAdds(st, op.ns, op.pids, op.reqs, op.now);
    }
  }

  /** An editor changes resources, but not the namespace. */
  lemma EditorKeepsNamespace(st: StoreState, compile: Mounts.Compiler, caller: Option<Caller>, r: Request)
    requires Ordinary(caller) && Routed(NameOf(caller), r) && r.AtNamespace? && CallerRole(st, r.ns, caller) == Editor
    ensures Serve(st, false, compile, caller, r).namespaces == st.namespaces
  {
    EditorOps(st, compile, caller, r);
    OpFrame(st, r.op);
  }

  lemma EditorOps(st: StoreState, compile: Mounts.Compiler, caller: Option<Caller>, r: Request)
    requires Ordinary(caller) && Routed(NameOf(caller), r) && r.AtNamespace? && CallerRole(st, r.ns, caller) == Editor
    ensures Serve(st, false, compile, caller, r) == st
         || (!TouchesNamespaces(r.op) && Serve(st, false, compile, caller, r) == Apply(st, r.op))
  {
    hide Apply;
  }

  /** Conversely each role is enough: contributors create, editors update resources, managers the namespace. */
  lemma RolesSuffice(st: StoreState, compile: Mounts.Compiler, caller: Caller, r: Request)
    requires caller.auth.BasicAuthentication? && Routed(Some(caller.username), r) && r.AtNamespace? && r.ns in st.namespaces
    requires match RoleOf(st, r.ns, caller.username)
             case Contributor => r.op.OpCreateResource? || r.op.OpBatchCreate?
             case Editor => r.op.OpCreateResource? || r.op.OpBatchCreate? || r.op.OpUpdateResource?
             case Manager => true
             case _ => caller.superuser
    ensures Serve(st, false, compile, Some(caller), r) == Apply(st, r.op)
  {
    hide Apply;
  }

  // ---- checks beyond the scope -----------------------------------------------------------

  /** A login without a restricting key may change a mount exactly where a stored grant of the user matches;
      a superuser anywhere. */
  lemma MountsNeedGrants(st: StoreState, compile: Mounts.Compiler, caller: Caller, r: Request)
    requires caller.auth.BasicAuthentication? && Routed(Some(caller.username), r) && r.AtUser?
    requires r.op.OpSetMount? || r.op.OpDeleteMount?
    requires caller.username in st.users && Mounts.AllCompile(st, caller.username, compile)
    ensures Serve(st, false, compile, Some(caller), r)
         == if caller.superuser || Mounts.Granting(st, caller.username, compile, r.op.uri) then Apply(st, r.op) else st
  {
    hide Apply, Mounts.Grants, Mounts.FirstMatch, Mounts.Granting, Mounts.AllCompile, Mounts.VisibleMounts;
    Mounts.PathsAgree(st, caller.username, compile);
  }

  /** Every user creates namespaces and keeps their own keys and password; accounts and grants are a
      superuser's, except for the superuser's own account. */
  lemma UserRequestsServed(st: StoreState, compile: Mounts.Compiler, caller: Caller, r: Request)
    requires caller.auth.BasicAuthentication? && Routed(Some(caller.username), r) && r.AtUser?
    requires !r.op.OpSetMount? && !r.op.OpDeleteMount?
    ensures var own := (r.op.OpUpdateUser? || r.op.OpDeleteUser?) && r.op.name == caller.username;
            var everybody := r.op.OpCreateNamespace? || r.op.OpCreateKey? || r.op.OpSetPassword? || r.op.OpRevokeKey?;
            Serve(st, false, compile, Some(caller), r) == if (caller.superuser || everybody) && !own then Apply(st, r.op) else st
  {
    hide Apply;
  }

  /** In anonymous mode nobody logs in, and anybody changes namespaces, resources and mounts, nothing else. */
  lemma AnonymousRequests(st: StoreState, compile: Mounts.Compiler, r: Request)
    requires Routed(None, r)
    ensures var shared := (r.AtNamespace? || (r.AtUser? && (r.op.OpCreateNamespace? || r.op.OpSetMount? || r.op.OpDeleteMount?)));
            Serve(st, true, compile, None, r) == if shared then Apply(st, r.op) else st
  {
    hide Apply;
  }

  /** Nobody, not even a superuser, changes or deletes their own account. */
  lemma OwnAccountUntouched(st: StoreState, anonymous: bool, compile: Mounts.Compiler, caller: Option<Caller>, r: Request)
    requires r.AtUser? && (r.op.OpUpdateUser? || r.op.OpDeleteUser?) && Routed(NameOf(caller), r)
    requires NameOf(caller) == Some(r.op.name)
    ensures Serve(st, anonymous, compile, caller, r) == st
  {
    hide Apply;
  }

  // ---- a run in which every step takes effect --------------------------------------------------

  function SharingCalls(owner: string, guest: string, ns: string, format: Format.Format, pid: string, req: ResourceCreate, now: Time)
    : seq<Call>
  {
    [Call(Some(owner), BasicAuthentication, AtUser(CreateNamespaceScope, OpCreateNamespace(ns, [], format, Some(owner), now))),
     Call(Some(owner), BasicAuthentication, SetRoleOf(ns, guest, Contributor)),
     Call(Some(guest), BasicAuthentication, AtNamespace(ns, NamespaceScope.CreateResource, OpCreateResource(ns, pid, req, now)))]
  }

  /** One user creates a namespace and lets another contribute, who then creates a resource there. */
  lemma SharedNamespace(st: StoreState, compile: Mounts.Compiler, owner: string, guest: string, ns: string, format: Format.Format,
                        pid: string, req: ResourceCreate, now: Time)
    requires owner in st.users && guest in st.users && owner != guest && ns !in st.namespaces
    ensures var after := ServeAll(st, false, compile, SharingCalls(owner, guest, ns, format, pid, req, now));
            && RoleOf(after, ns, owner) == Manager && RoleOf(after, ns, guest) == Contributor
            && pid in Inner(after.resources, ns) && after.resources[ns][pid].url == req.url
  {
    hide Serve, Apply, RoleOf, Routed;
    var calls := SharingCalls(owner, guest, ns, format, pid, req, now);
    var first, second := Apply(st, calls[0].request.op), Apply(Apply(st, calls[0].request.op), OpSetRole(ns, guest, Contributor));
    ThreeCalls(st, compile, calls);
    NamespaceServed(st, compile, owner, ns, format, now);
    GuestAdmitted(first, compile, owner, guest, ns);
    Observed.RoleSet(first, ns, guest, Contributor);
    ResourceServed(second, compile, guest, ns, pid, req, now);
  }

  lemma ThreeCalls(st: StoreState, compile: Mounts.Compiler, calls: seq<Call>)
    requires |calls| == 3
    ensures ServeAll(st, false, compile, calls)
         == ServeCall(ServeCall(ServeCall(st, false, compile, calls[0]), false, compile, calls[1]), false, compile, calls[2])
  {
    hide ServeCall;
    assert calls[1..][1..] == [calls[2]];
    assert ServeAll(ServeCall(ServeCall(st, false, compile, calls[0]), false, compile, calls[1]), false, compile, [calls[2]])
        == ServeCall(ServeCall(ServeCall(st, false, compile, calls[0]), false, compile, calls[1]), false, compile, calls[2]);
  }

  lemma NamespaceServed(st: StoreState, compile: Mounts.Compiler, owner: string, ns: string, format: Format.Format, now: Time)
    requires owner in st.users && ns !in st.namespaces
    ensures var op := OpCreateNamespace(ns, [], format, Some(owner), now);
            var after := Apply(st, op);
            && ServeCall(st, false, compile, Call(Some(owner), BasicAuthentication, AtUser(CreateNamespaceScope, op))) == after
            && after.users == st.users && ns in after.namespaces && RoleOf(after, ns, owner) == Manager
            && Inner(after.resources, ns) == map[]
  {
    hide Serve;
    var op := OpCreateNamespace(ns, [], format, Some(owner), now);
    UserRequestsServed(st, compile, Caller(owner, st.users[owner].superuser, BasicAuthentication), AtUser(CreateNamespaceScope, op));
    Observed.NamespaceCreated(st, ns, [], format, Some(owner), now);
  }

  lemma GuestAdmitted(st: StoreState, compile: Mounts.Compiler, owner: string, guest: string, ns: string)
    requires owner in st.users && guest != owner && ns in st.namespaces && RoleOf(st, ns, owner) == Manager
    ensures var after := Apply(st, OpSetRole(ns, guest, Contributor));
            && ServeCall(st, false, compile, Call(Some(owner), BasicAuthentication, SetRoleOf(ns, guest, Contributor))) == after
            && after.users == st.users && after.namespaces == st.namespaces && after.resources == st.resources
  {
    hide RoleOf;
  }

  lemma ResourceServed(st: StoreState, compile: Mounts.Compiler, guest: string, ns: string, pid: string,
                       req: ResourceCreate, now: Time)
    requires guest in st.users && ns in st.namespaces && RoleOf(st, ns, guest) == Contributor && pid !in Inner(st.resources, ns)
    ensures var op := OpCreateResource(ns, pid, req, now);
            var after := Apply(st, op);
            var call := Call(Some(guest), BasicAuthentication, AtNamespace(ns, NamespaceScope.CreateResource, op));
            && ServeCall(st, false, compile, call) == after
            && (forall name :: RoleOf(after, ns, name) == RoleOf(st, ns, name))
            && pid in Inner(after.resources, ns) && after.resources[ns][pid].url == req.url
  {
    hide Serve, RoleOf;
    var op := OpCreateResource(ns, pid, req, now);
    var caller := Caller(guest, st.users[guest].superuser, BasicAuthentication);
    RolesSuffice(st, compile, caller, AtNamespace(ns, NamespaceScope.CreateResource, op));
    Observed.ResourceCreated(st, ns, pid, req, now);
    SameRoles(st, Apply(st, op), ns);
  }

  lemma SameRoles(st: StoreState, after: StoreState, ns: string)
    requires after.roles == st.roles
    ensures forall name :: RoleOf(after, ns, name) == RoleOf(st, ns, name)
  {
  }
}
