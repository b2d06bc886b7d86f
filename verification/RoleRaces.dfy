/** Role requests in flight at once: the scope check and the change are two backend calls, and those of
    other requests may come between them (server/internal/lowlevel/handle.go, server/roles.go). */
module RoleRaces {
  import opened Common
  import opened Scopes
  import opened Store
  import opened Access
  import Mounts

  /** Setting a role, or removing it. */
  datatype RoleRequest = RoleRequest(ns: string, target: string, role: Option<Role>) {
    function AsRequest(): Request {
      if role.Some? then SetRoleOf(ns, target, role.value) else RemoveRoleOf(ns, target)
    }

    function Scope(caller: Option<Caller>): NamespaceScope {
      if role.Some? then SetRoleScope(caller, target) else RemoveRoleScope(caller, target)
    }
  }

  /** A role request whose check has passed. */
  datatype Approved = Approved(caller: Option<Caller>, request: RoleRequest)

  datatype World = World(store: StoreState, approved: map<nat, Approved>)

  datatype Step =
    | CheckScope(id: nat, caller: Option<Caller>, request: RoleRequest)
    | Write(id: nat)

  /** The change alone. */
  function Written(st: StoreState, r: RoleRequest): StoreState {
    match r.role
    case Some(role) => if role == NoRole then st else SetRole(st, r.ns, r.target, role).0
    case None => if r.ns in st.namespaces then DeleteRole(st, r.ns, r.target).0 else st
  }

  /** Check and change with nothing in between are the request served as one step. */
  lemma ServedIsCheckThenWrite(st: StoreState, anonymous: bool, compile: Mounts.Compiler, caller: Option<Caller>, r: RoleRequest)
    ensures Serve(st, anonymous, compile, caller, r.AsRequest())
         == if CheckNamespaceScope(st, anonymous, r.ns, caller, r.Scope(caller)).None? then Written(st, r) else st
  {
  }

  function Next(w: World, anonymous: bool, step: Step): World {
    match step
    case CheckScope(id, caller, r) =>
      if id !in w.approved && CheckNamespaceScope(w.store, anonymous, r.ns, caller, r.Scope(caller)).None?
      then w.(approved := w.approved[id := Approved(caller, r)]) else w
    case Write(id) =>
      if id in w.approved then World(Written(w.store, w.approved[id].request), w.approved - {id}) else w
  }

  /** The state after the first k steps. */
  function After(w: World, anonymous: bool, steps: seq<Step>, k: nat): World
    requires k <= |steps|
  {
    if k == 0 then w else Next(After(w, anonymous, steps, k - 1), anonymous, steps[k - 1])
  }

  /** So a request alone, its two steps with nothing in between, leaves the store as serving it does. */
  lemma RequestAlone(w: World, anonymous: bool, compile: Mounts.Compiler, id: nat, caller: Option<Caller>, r: RoleRequest)
    requires id !in w.approved
    ensures After(w, anonymous, [CheckScope(id, caller, r), Write(id)], 2)
         == World(Serve(w.store, anonymous, compile, caller, r.AsRequest()), w.approved)
  {
    hide Serve, Written;
    ServedIsCheckThenWrite(w.store, anonymous, compile, caller, r);
    var steps := [CheckScope(id, caller, r), Write(id)];
    assert After(w, anonymous, steps, 1) == Next(After(w, anonymous, steps, 0), anonymous, steps[0]);
  }

  // ---- exactly when a namespace loses its last manager ---------------------------------

  /** The change takes effect, and not by making somebody manager. */
  predicate Lowers(st: StoreState, r: RoleRequest) {
    match r.role
    case Some(role) => role != NoRole && role != Manager && SetRole(st, r.ns, r.target, role).1.Ok?
    case None => r.ns in st.namespaces && DeleteRole(st, r.ns, r.target).1.Ok?
  }

  /** The step changes a role of the namespace in which nobody else is a manager. */
  ghost predicate DropsLastManager(w: World, step: Step, ns: string) {
    && step.Write? && step.id in w.approved && w.approved[step.id].request.ns == ns
    && Lowers(w.store, w.approved[step.id].request)
    && forall other :: other != w.approved[step.id].request.target ==> RoleOf(w.store, ns, other) != Manager
  }

  lemma WrittenRoles(st: StoreState, r: RoleRequest)
    ensures forall ns, name :: ns != r.ns || name != r.target ==> RoleOf(Written(st, r), ns, name) == RoleOf(st, ns, name)
    ensures Lowers(st, r) ==> RoleOf(Written(st, r), r.ns, r.target) != Manager
    ensures !Lowers(st, r) ==> RoleOf(Written(st, r), r.ns, r.target) == Manager || Written(st, r) == st
  {
    hide RoleOf;
    match r.role
    case Some(role) =>
      if role != NoRole && SetRole(st, r.ns, r.target, role).1.Ok? {
        RoleWritten(st, r.ns, r.target, role);
      }
    case None =>
      if r.ns in st.namespaces && DeleteRole(st, r.ns, r.target).1.Ok? {
        RoleDeleted(st, r.ns, r.target);
      }
  }

  lemma StepManagedIff(w: World, anonymous: bool, step: Step, ns: string)
    requires Managed(w.store, ns)
    ensures Managed(Next(w, anonymous, step).store, ns) <==> !DropsLastManager(w, step, ns)
  {
    hide RoleOf, Written, Lowers, CheckNamespaceScope;
    if step.Write? && step.id in w.approved {
      var r := w.approved[step.id].request;
      var after := Written(w.store, r);
      WrittenRoles(w.store, r);
      var manager :| RoleOf(w.store, ns, manager) == Manager;
      if r.ns == ns && Lowers(w.store, r) {
        assert forall other :: other != r.target ==> RoleOf(after, ns, other) == RoleOf(w.store, ns, other);
      } else if r.ns == ns {
        assert RoleOf(after, ns, r.target) == Manager || after == w.store;
      } else {
        assert RoleOf(after, ns, manager) == Manager;
      }
    }
  }

  ghost predicate AllManaged(w: World, anonymous: bool, steps: seq<Step>, n: nat, ns: string)
    requires n <= |steps|
  {
    forall k :: 0 <= k <= n ==> Managed(After(w, anonymous, steps, k).store, ns)
  }

  ghost predicate NoneDropped(w: World, anonymous: bool, steps: seq<Step>, n: nat, ns: string)
    requires n <= |steps|
  {
    forall k :: 0 <= k < n ==> !DropsLastManager(After(w, anonymous, steps, k), steps[k], ns)
  }

  /** However checks and changes interleave: a namespace stays managed through a whole run exactly when
      no change of the run lowers its last manager at the moment it is written. */
  lemma {:induction false} ManagedThroughoutIff(w: World, anonymous: bool, steps: seq<Step>, n: nat, ns: string)
    requires n <= |steps| && Managed(w.store, ns)
    ensures AllManaged(w, anonymous, steps, n, ns) <==> NoneDropped(w, anonymous, steps, n, ns)
  {
    hide Managed, DropsLastManager, Next;
    if n > 0 {
      ManagedThroughoutIff(w, anonymous, steps, n - 1, ns);
      var before := After(w, anonymous, steps, n - 1);
      assert AllManaged(w, anonymous, steps, n, ns)
        <==> AllManaged(w, anonymous, steps, n - 1, ns) && Managed(After(w, anonymous, steps, n).store, ns);
      assert NoneDropped(w, anonymous, steps, n, ns)
        <==> NoneDropped(w, anonymous, steps, n - 1, ns) && !DropsLastManager(before, steps[n - 1], ns);
      if Managed(before.store, ns) {
        StepManagedIff(before, anonymous, steps[n - 1], ns);
      }
    }
  }

  // ---- how much order is enough ----------------------------------------------------------

  /** At most one approved change per namespace is waiting to be written. */
  ghost predicate OneEach(w: World) {
    forall i, j :: i in w.approved && j in w.approved && i != j ==> w.approved[i].request.ns != w.approved[j].request.ns
  }

  /** Whoever got a change approved still is a manager there, and not its target. */
  ghost predicate StillManaging(w: World) {
    forall i :: i in w.approved ==>
      && w.approved[i].caller.Some? && w.approved[i].caller.value.username != w.approved[i].request.target
      && RoleOf(w.store, w.approved[i].request.ns, w.approved[i].caller.value.username) == Manager
  }

  /** All checks are for ordinary callers. */
  predicate OrdinaryStep(step: Step) {
    step.CheckScope? ==> Ordinary(step.caller)
  }

  lemma OneEachStep(w: World, anonymous: bool, step: Step)
    requires OneEach(w) && StillManaging(w) && OrdinaryStep(step)
    ensures StillManaging(Next(w, anonymous, step))
    ensures forall ns :: Managed(w.store, ns) ==> Managed(Next(w, anonymous, step).store, ns)
  {
    match step
    case CheckScope(id, caller, r) =>
      RoleScopesNeed(w.store, anonymous, r.ns, caller, r.target);
    case Write(id) =>
      if id in w.approved {
        hide RoleOf, Written, Lowers;
        WrittenRoles(w.store, w.approved[id].request);
        OthersManage(w, id);
      }
  }

  lemma OthersManage(w: World, id: nat)
    requires StillManaging(w) && id in w.approved
    requires forall ns, name :: ns != w.approved[id].request.ns || name != w.approved[id].request.target ==>
               RoleOf(Written(w.store, w.approved[id].request), ns, name) == RoleOf(w.store, ns, name)
    ensures forall ns :: Managed(w.store, ns) ==> Managed(Written(w.store, w.approved[id].request), ns)
  {
    hide RoleOf, Written;
    var r, after := w.approved[id].request, Written(w.store, w.approved[id].request);
    forall ns | Managed(w.store, ns)
      ensures Managed(after, ns)
    {
      var name :| RoleOf(w.store, ns, name) == Manager;
      assert ns == r.ns ==> RoleOf(after, ns, w.approved[id].caller.value.username) == Manager;
      assert ns != r.ns ==> RoleOf(after, ns, name) == Manager;
    }
  }

  /** As long as never two changes to one namespace are approved and unwritten at the same time, ordinary
      callers' requests keep every namespace managed, however else they interleave. */
  lemma {:induction false} OneEachKeepsManagers(w: World, anonymous: bool, steps: seq<Step>, n: nat)
    requires n <= |steps| && w.approved == map[] && forall k :: 0 <= k < n ==> OrdinaryStep(steps[k])
    requires forall k :: 0 <= k <= n ==> OneEach(After(w, anonymous, steps, k))
    ensures StillManaging(After(w, anonymous, steps, n))
    ensures forall ns :: Managed(w.store, ns) ==> Managed(After(w, anonymous, steps, n).store, ns)
  {
    hide Managed, OneEach, Next;
    if n > 0 {
      OneEachKeepsManagers(w, anonymous, steps, n - 1);
      OneEachStep(After(w, anonymous, steps, n - 1), anonymous, steps[n - 1]);
    }
  }
}
