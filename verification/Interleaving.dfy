/** Any number of requests in flight over one backend. Each backend call is one atomic step; between
    the steps of a request any other request may run (service/resources.go:61-132, 191-245). */
module Interleaving {
  import opened Common
  import opened IdGen
  import opened Store
  import opened Issuing
  import Format

  /** Where a request that creates resources has got to. Counting the namespace's resources only
      influences which candidates are generated, and those are arbitrary here. */
  datatype Thread =
    | Begun(ns: string, ins: Insertion)
    | Reading(ns: string, ins: Insertion, format: Format.Format, attempt: nat)
    | Inserting(ns: string, ins: Insertion, format: Format.Format, attempt: nat, pids: seq<string>)
    | Succeeded(ns: string, pids: seq<string>)
    | Stopped

  /** A PID handed out by a successful creation. */
  datatype Receipt = Receipt(thread: nat, ns: string, pid: string)

  datatype World = World(store: StoreState, threads: map<nat, Thread>, issued: seq<Receipt>)

  datatype Step =
    | Arrive(thread: nat, ns: string, ins: Insertion)
    | ReadNamespace(thread: nat)
    | DrawCandidates(thread: nat, answers: seq<Pulled>)
    | CallInsert(thread: nat, now: Time)
    | Otherwise(op: Op)   // any other backend call of any other request

  /** Resources are created by requests only. */
  predicate CreatesResources(op: Op) {
    op.OpCreateResource? || op.OpBatchCreate?
  }

  function Receipts(thread: nat, ns: string, pids: seq<string>): seq<Receipt> {
    seq(|pids|, i requires 0 <= i < |pids| => Receipt(thread, ns, pids[i]))
  }

  function AfterRead(w: World, t: Thread): Thread
    requires t.Begun?
  {
    if t.ns !in w.store.namespaces then Stopped
    else if t.ins.Count() == 0 then Succeeded(t.ns, [])
    else Reading(t.ns, t.ins, w.store.namespaces[t.ns].format, 0)
  }

  function AfterDraw(t: Thread, maxAttempts: nat, answers: seq<Pulled>): Thread
    requires t.Reading?
  {
    if t.attempt >= maxAttempts then Stopped
    else
      var (filled, _) := Fill(t.format, maxAttempts, t.ins.Count(), [], answers);
      if filled.Slots? then Inserting(t.ns, t.ins, t.format, t.attempt, filled.pids) else Stopped
  }

  /** One atomic step; steps that do not fit a request's position do nothing. */
  ghost function Next(w: World, maxAttempts: nat, step: Step): World {
    match step
    case Arrive(thread, ns, ins) =>
      if thread in w.threads then w else w.(threads := w.threads[thread := Begun(ns, ins)])
    case ReadNamespace(thread) =>
      if thread in w.threads && w.threads[thread].Begun?
      then w.(threads := w.threads[thread := AfterRead(w, w.threads[thread])]) else w
    case DrawCandidates(thread, answers) =>
      if thread in w.threads && w.threads[thread].Reading?
      then w.(threads := w.threads[thread := AfterDraw(w.threads[thread], maxAttempts, answers)]) else w
    case CallInsert(thread, now) =>
      if thread in w.threads && w.threads[thread].Inserting? && |w.threads[thread].pids| == w.threads[thread].ins.Count()
      then AfterInsert(w, thread, w.threads[thread], now) else w
    case Otherwise(op) =>
      if CreatesResources(op) then w else w.(store := Apply(w.store, op))
  }

  ghost function AfterInsert(w: World, thread: nat, t: Thread, now: Time): World
    requires t.Inserting? && |t.pids| == t.ins.Count()
  {
    var (after, r) := Insert(w.store, t.ns, t.ins, t.pids, now);
    match r
    case Ok(_) => World(after, w.threads[thread := Succeeded(t.ns, t.pids)], w.issued + Receipts(thread, t.ns, t.pids))
    case Err(PIDAllocationFailed) => World(after, w.threads[thread := Reading(t.ns, t.ins, t.format, t.attempt + 1)], w.issued)
    case Err(_) => World(after, w.threads[thread := Stopped], w.issued)
  }

  ghost function Run(w: World, maxAttempts: nat, steps: seq<Step>): World
    decreases |steps|
  {
    if steps == [] then w else Run(Next(w, maxAttempts, steps[0]), maxAttempts, steps[1..])
  }

  const START: World := World(EMPTY, map[], [])

  // ---- what every state satisfies ----------------------------------------------------

  predicate PidValid(st: StoreState, ns: string, pid: string) {
    ns in st.namespaces && Format.Accepts(st.namespaces[ns].format, pid) && IsSlug(pid)
  }

  ghost predicate StoredValid(st: StoreState) {
    forall ns, pid :: (ns, pid) in Pids(st.resources) ==> PidValid(st, ns, pid)
  }

  /** What a request holds in its hands is still good: formats never change. */
  ghost predicate ThreadValid(w: World, thread: nat, t: Thread) {
    match t
    case Begun(_, _) => true
    case Reading(ns, _, format, _) => ns in w.store.namespaces && w.store.namespaces[ns].format == format
    case Inserting(ns, ins, format, _, pids) =>
      && ns in w.store.namespaces && w.store.namespaces[ns].format == format
      && |pids| == ins.Count() && Insertable(format, pids)
    case Succeeded(ns, pids) => Distinct(pids) && forall i :: 0 <= i < |pids| ==> Receipt(thread, ns, pids[i]) in w.issued
    case Stopped => true
  }

  /** No two receipts are for the same PID of the same namespace. */
  ghost predicate NoneTwice(issued: seq<Receipt>) {
    forall i, j :: 0 <= i < j < |issued| ==> issued[i].ns != issued[j].ns || issued[i].pid != issued[j].pid
  }

  /** Exactly the PIDs with a receipt are stored. */
  ghost predicate Recorded(stored: set<(string, string)>, issued: seq<Receipt>) {
    forall ns, pid :: (ns, pid) in stored <==> exists r :: r in issued && r.ns == ns && r.pid == pid
  }

  ghost predicate Good(w: World) {
    && Consistent(w.store)
    && StoredValid(w.store)
    && (forall thread :: thread in w.threads ==> ThreadValid(w, thread, w.threads[thread]))
    && NoneTwice(w.issued)
    && Recorded(Pids(w.store.resources), w.issued)
    && |Pids(w.store.resources)| == |w.issued|
  }

  /** A successful insertion adds exactly its PIDs, none of which was there before. */
  lemma InsertAdds(st: StoreState, ns: string, ins: Insertion, pids: seq<string>, now: Time)
    requires |pids| == ins.Count() && Insert(st, ns, ins, pids, now).1.Ok?
    ensures var after := Insert(st, ns, ins, pids, now).0;
            && after == WithResources(st, ns, Inner(after.resources, ns)) && ns in st.namespaces
            && Inner(after.resources, ns).Keys == Inner(st.resources, ns).Keys + (set pid | pid in pids)
            && forall i :: 0 <= i < |pids| ==> pids[i] !in Inner(st.resources, ns)
  {
    if ins.Batch? {
      BatchAdds(st, ns, pids, ins.reqs, now);
    }
  }

  lemma InsertConsistent(st: StoreState, ns: string, ins: Insertion, pids: seq<string>, now: Time)
    requires Consistent(st) && |pids| == ins.Count()
    ensures Consistent(Insert(st, ns, ins, pids, now).0) && Preserves(st, Insert(st, ns, ins, pids, now).0)
  {
    hide Consistent, Preserves;
    var op := match ins
      case Single(req) => OpCreateResource(ns, pids[0], req, now)
      case Batch(reqs) => OpBatchCreate(ns, pids, reqs, now);
    assert Insert(st, ns, ins, pids, now).0 == Apply(st, op);
    ApplyConsistent(st, op);
  }

  lemma NewNamespacePids(st: StoreState, ns: string, tags: seq<string>, format: Format.Format, owner: Option<string>, now: Time)
    requires ResourcesConsistent(st)
    ensures Pids(CreateNamespace(st, ns, tags, format, owner, now).0.resources) == Pids(st.resources)
  {
  }

  lemma UpdatedPids(st: StoreState, ns: string, pid: string, req: ResourceUpdate, now: Time)
    ensures Pids(UpdateResource(st, ns, pid, req, now).0.resources) == Pids(st.resources)
  {
  }

  /** Operations other than the creation of resources leave the set of PIDs alone. */
  lemma PidsUnchanged(st: StoreState, op: Op)
    requires Consistent(st) && !CreatesResources(op)
    ensures Pids(Apply(st, op).resources) == Pids(st.resources)
  {
    if !TouchesResources(op) {
      OpFrame(st, op);
    } else {
      hide RolesConsistent, MountsConsistent, KeysConsistent;
      match op
      case OpCreateNamespace(ns, tags, format, owner, now) => NewNamespacePids(st, ns, tags, format, owner, now);
      case OpUpdateResource(ns, pid, update, now) => UpdatedPids(st, ns, pid, update, now);
    }
  }

  /** A namespace that is there stays there under the same format. */
  lemma FormatKept(before: StoreState, after: StoreState, ns: string)
    requires Preserves(before, after) && ns in before.namespaces
    ensures ns in after.namespaces && after.namespaces[ns].format == before.namespaces[ns].format
  {
  }

  lemma ThreadKept(w: World, after: World, thread: nat, t: Thread)
    requires ThreadValid(w, thread, t) && Preserves(w.store, after.store) && w.issued <= after.issued
    ensures ThreadValid(after, thread, t)
  {
    hide Format.Accepts, IsSlug, Insertable, Preserves;
    if t.Reading? || t.Inserting? {
      FormatKept(w.store, after.store, t.ns);
    }
  }

  /** Stored PIDs stay valid as long as every PID in the later store was there before. */
  lemma StoredKept(before: StoreState, after: StoreState)
    requires StoredValid(before) && Preserves(before, after) && Pids(after.resources) == Pids(before.resources)
    ensures StoredValid(after)
  {
    hide Format.Accepts, IsSlug, Preserves, Pids;
    forall ns, pid | (ns, pid) in Pids(after.resources)
      ensures PidValid(after, ns, pid)
    {
      assert PidValid(before, ns, pid);
      FormatKept(before, after, ns);
    }
  }

  /** Later stores with the same PIDs keep what was valid valid. */
  lemma StoreMoves(w: World, after: StoreState)
    requires Good(w) && Consistent(after) && Preserves(w.store, after) && Pids(after.resources) == Pids(w.store.resources)
    ensures Good(w.(store := after))
  {
    hide Consistent, Preserves, StoredValid, ThreadValid;
    StoredKept(w.store, after);
    forall thread | thread in w.threads
      ensures ThreadValid(w.(store := after), thread, w.threads[thread])
    {
      ThreadKept(w, w.(store := after), thread, w.threads[thread]);
    }
  }

  lemma ThreadMoves(w: World, thread: nat, t: Thread)
    requires Good(w) && ThreadValid(w, thread, t)
    ensures Good(w.(threads := w.threads[thread := t]))
  {
    hide Consistent, Format.Accepts, IsSlug, Insertable, StoredValid, NoneTwice;
    var after := w.(threads := w.threads[thread := t]);
    forall other | other in after.threads
      ensures ThreadValid(after, other, after.threads[other])
    {
      if other != thread {
        assert ThreadValid(w, other, w.threads[other]);
      }
    }
  }

  // ---- the insertion step ---------------------------------------------------------

  ghost function Pairs(ns: string, pids: seq<string>): set<(string, string)> {
    set pid | pid in pids :: (ns, pid)
  }

  lemma {:induction false} PairsCount(ns: string, pids: seq<string>)
    requires Distinct(pids)
    ensures |Pairs(ns, pids)| == |pids|
  {
    if pids == [] {
      assert Pairs(ns, pids) == {};
    } else {
      var last := |pids| - 1;
      PairsCount(ns, pids[..last]);
      assert pids == pids[..last] + [pids[last]];
      assert Pairs(ns, pids) == Pairs(ns, pids[..last]) + {(ns, pids[last])};
    }
  }

  /** What a successful insertion does to the set of stored PIDs. */
  lemma InsertedPids(st: StoreState, ns: string, ins: Insertion, pids: seq<string>, now: Time)
    requires |pids| == ins.Count() && Insert(st, ns, ins, pids, now).1.Ok?
    ensures Pids(Insert(st, ns, ins, pids, now).0.resources) == Pids(st.resources) + Pairs(ns, pids)
    ensures Pids(st.resources) !! Pairs(ns, pids)
  {
    hide Insert;
    InsertAdds(st, ns, ins, pids, now);
    var after := Insert(st, ns, ins, pids, now).0;
    forall n, pid
      ensures (n, pid) in Pids(after.resources) <==> (n, pid) in Pids(st.resources) || (n, pid) in Pairs(ns, pids)
    {
      assert n != ns ==> (n in after.resources <==> n in st.resources);
      assert n == ns ==> (pid in Inner(after.resources, ns) <==> pid in Inner(st.resources, ns) || pid in pids);
    }
  }

  lemma ReceiptsFor(thread: nat, ns: string, pids: seq<string>)
    ensures forall i :: 0 <= i < |pids| ==> Receipt(thread, ns, pids[i]) in Receipts(thread, ns, pids)
    ensures forall r :: r in Receipts(thread, ns, pids) ==> r.ns == ns && r.pid in pids
  {
    forall i | 0 <= i < |pids|
      ensures Receipt(thread, ns, pids[i]) in Receipts(thread, ns, pids)
    {
      assert Receipts(thread, ns, pids)[i] == Receipt(thread, ns, pids[i]);
    }
  }

  /** Receipts for distinct PIDs, none of them stored before, repeat nothing. */
  lemma IssueMore(stored: set<(string, string)>, issued: seq<Receipt>, thread: nat, ns: string, pids: seq<string>)
    requires Recorded(stored, issued) && NoneTwice(issued) && Distinct(pids) && stored !! Pairs(ns, pids)
    ensures var later := issued + Receipts(thread, ns, pids);
            Recorded(stored + Pairs(ns, pids), later) && NoneTwice(later)
  {
    ReceiptsFor(thread, ns, pids);
    var more := Receipts(thread, ns, pids);
    forall i | 0 <= i < |issued|
      ensures (issued[i].ns, issued[i].pid) in stored
    {
      assert issued[i] in issued;
    }
    forall i | 0 <= i < |more|
      ensures (more[i].ns, more[i].pid) in Pairs(ns, pids)
    {
      assert more[i].pid == pids[i];
    }
    forall n, pid
      ensures (n, pid) in stored + Pairs(ns, pids) <==> exists r :: r in issued + more && r.ns == n && r.pid == pid
    {
      if (n, pid) in stored {
        var r :| r in issued && r.ns == n && r.pid == pid;
        assert r in issued + more;
      }
      if (n, pid) in Pairs(ns, pids) {
        assert Receipt(thread, ns, pid) in issued + more;
      }
    }
  }

  lemma StoredGrows(before: StoreState, after: StoreState, ns: string, format: Format.Format, pids: seq<string>)
    requires StoredValid(before) && Preserves(before, after) && Insertable(format, pids)
    requires Pids(after.resources) == Pids(before.resources) + Pairs(ns, pids)
    requires ns in before.namespaces && before.namespaces[ns].format == format
    ensures StoredValid(after)
  {
    hide Format.Accepts, IsSlug, Preserves, Pids;
    forall n, pid | (n, pid) in Pids(after.resources)
      ensures PidValid(after, n, pid)
    {
      if (n, pid) in Pids(before.resources) {
        assert PidValid(before, n, pid);
      }
      FormatKept(before, after, n);
    }
  }

  lemma ThreadsKept(w: World, after: World, thread: nat, t: Thread)
    requires forall other :: other in w.threads ==> ThreadValid(w, other, w.threads[other])
    requires after.threads == w.threads[thread := t] && ThreadValid(after, thread, t)
    requires Preserves(w.store, after.store) && w.issued <= after.issued
    ensures forall other :: other in after.threads ==> ThreadValid(after, other, after.threads[other])
  {
    hide Preserves, ThreadValid;
    forall other | other in after.threads
      ensures ThreadValid(after, other, after.threads[other])
    {
      if other != thread {
        ThreadKept(w, after, other, w.threads[other]);
      }
    }
  }

  lemma WinnerValid(w: World, before: seq<Receipt>, thread: nat, ns: string, pids: seq<string>)
    requires w.issued == before + Receipts(thread, ns, pids) && Distinct(pids)
    ensures ThreadValid(w, thread, Succeeded(ns, pids)) && |w.issued| == |before| + |pids|
  {
    ReceiptsFor(thread, ns, pids);
  }

  lemma Issue(w: World, after: StoreState, thread: nat, ns: string, format: Format.Format, pids: seq<string>)
    requires Good(w) && Consistent(after) && Preserves(w.store, after)
    requires Insertable(format, pids) && ns in w.store.namespaces && w.store.namespaces[ns].format == format
    requires Pids(after.resources) == Pids(w.store.resources) + Pairs(ns, pids) && Pids(w.store.resources) !! Pairs(ns, pids)
    ensures Good(World(after, w.threads[thread := Succeeded(ns, pids)], w.issued + Receipts(thread, ns, pids)))
  {
    var w' := World(after, w.threads[thread := Succeeded(ns, pids)], w.issued + Receipts(thread, ns, pids));
    hide Consistent, Insertable, Preserves, NoneTwice, Recorded, StoredValid, ThreadValid, Pids, Pairs, Receipts, Distinct;
    InsertableDistinct(format, pids);
    WinnerValid(w', w.issued, thread, ns, pids);
    PairsCount(ns, pids);
    IssueMore(Pids(w.store.resources), w.issued, thread, ns, pids);
    StoredGrows(w.store, after, ns, format, pids);
    ThreadsKept(w, w', thread, Succeeded(ns, pids));
  }

  lemma InsertSucceeds(w: World, thread: nat, t: Thread, now: Time)
    requires Good(w) && t.Inserting? && ThreadValid(w, thread, t)
    requires Insert(w.store, t.ns, t.ins, t.pids, now).1.Ok?
    ensures Good(AfterInsert(w, thread, t, now))
  {
    assert Consistent(w.store);
    hide Good, Insert, Consistent, Preserves, Insertable, Pids, Pairs, Receipts;
    InsertConsistent(w.store, t.ns, t.ins, t.pids, now);
    InsertedPids(w.store, t.ns, t.ins, t.pids, now);
    Issue(w, Insert(w.store, t.ns, t.ins, t.pids, now).0, thread, t.ns, t.format, t.pids);
  }

  lemma InsertRefused(w: World, thread: nat, t: Thread, now: Time)
    requires Good(w) && t.Inserting? && ThreadValid(w, thread, t)
    requires Insert(w.store, t.ns, t.ins, t.pids, now).1.Err?
    ensures Good(AfterInsert(w, thread, t, now))
  {
    hide Good, Insert;
    RefusedInsert(w.store, t.ns, t.ins, t.pids, now);
    var next := AfterInsert(w, thread, t, now).threads[thread];
    ThreadMoves(w, thread, next);
  }

  // ---- every step, every run --------------------------------------------------------

  /** What never goes back: namespaces keep their identity, receipts and stored PIDs stay. */
  ghost predicate Later(w: World, w': World) {
    && Preserves(w.store, w'.store)
    && w.issued <= w'.issued
    && Pids(w.store.resources) <= Pids(w'.store.resources)
  }

  lemma BegunValid(w: World, thread: nat, ns: string, ins: Insertion)
    ensures ThreadValid(w, thread, Begun(ns, ins))
  {
  }

  lemma InsertingCount(w: World, thread: nat, t: Thread)
    requires t.Inserting? && ThreadValid(w, thread, t)
    ensures |t.pids| == t.ins.Count()
  {
  }

  lemma ReadValid(w: World, thread: nat, t: Thread)
    requires t.Begun?
    ensures ThreadValid(w, thread, AfterRead(w, t))
  {
  }

  lemma DrawValid(w: World, thread: nat, t: Thread, maxAttempts: nat, answers: seq<Pulled>)
    requires t.Reading? && ThreadValid(w, thread, t)
    ensures ThreadValid(w, thread, AfterDraw(t, maxAttempts, answers))
  {
    hide Format.Accepts, IsSlug, Fill;
    FillInsertable(t.format, maxAttempts, t.ins.Count(), [], answers);
  }

  ghost predicate Moves(w: World, w': World) {
    Good(w') && Later(w, w')
  }

  lemma StaysGood(w: World)
    requires Good(w)
    ensures Moves(w, w)
  {
  }

  lemma ThreadStep(w: World, thread: nat, t: Thread)
    requires Good(w) && ThreadValid(w, thread, t)
    ensures Moves(w, w.(threads := w.threads[thread := t]))
  {
    hide Good, ThreadValid;
    ThreadMoves(w, thread, t);
  }

  lemma OtherStep(w: World, op: Op)
    requires Good(w) && !CreatesResources(op)
    ensures Moves(w, w.(store := Apply(w.store, op)))
  {
    assert Consistent(w.store);
    hide Good, Consistent, Preserves, Apply, Pids;
    ApplyConsistent(w.store, op);
    PidsUnchanged(w.store, op);
    StoreMoves(w, Apply(w.store, op));
  }

  lemma InsertLater(w: World, thread: nat, t: Thread, now: Time)
    requires Consistent(w.store) && t.Inserting? && |t.pids| == t.ins.Count()
    ensures Later(w, AfterInsert(w, thread, t, now))
  {
    hide Insert, Consistent, Preserves, Pids, Pairs, Receipts;
    InsertConsistent(w.store, t.ns, t.ins, t.pids, now);
    if Insert(w.store, t.ns, t.ins, t.pids, now).1.Ok? {
      InsertedPids(w.store, t.ns, t.ins, t.pids, now);
    } else {
      RefusedInsert(w.store, t.ns, t.ins, t.pids, now);
    }
  }

  lemma InsertStep(w: World, thread: nat, t: Thread, now: Time)
    requires Good(w) && t.Inserting? && ThreadValid(w, thread, t)
    ensures Moves(w, AfterInsert(w, thread, t, now))
  {
    assert Consistent(w.store);
    hide Good, Later, Insert, Consistent, Insertable, AfterInsert;
    InsertLater(w, thread, t, now);
    if Insert(w.store, t.ns, t.ins, t.pids, now).1.Ok? {
      InsertSucceeds(w, thread, t, now);
    } else {
      InsertRefused(w, thread, t, now);
    }
  }

  lemma StepGood(w: World, maxAttempts: nat, step: Step)
    requires Good(w)
    ensures Moves(w, Next(w, maxAttempts, step))
  {
    assert forall thread :: thread in w.threads ==> ThreadValid(w, thread, w.threads[thread]);
    hide Good, Moves, ThreadValid, AfterInsert, Apply, AfterRead, AfterDraw, Insertable, Fill;
    StaysGood(w);
    match step
    case Arrive(thread, ns, ins) =>
      BegunValid(w, thread, ns, ins);
      ThreadStep(w, thread, Begun(ns, ins));
    case ReadNamespace(thread) =>
      if thread in w.threads && w.threads[thread].Begun? {
        ReadValid(w, thread, w.threads[thread]);
        ThreadStep(w, thread, AfterRead(w, w.threads[thread]));
      }
    case DrawCandidates(thread, answers) =>
      if thread in w.threads && w.threads[thread].Reading? {
        DrawValid(w, thread, w.threads[thread], maxAttempts, answers);
        ThreadStep(w, thread, AfterDraw(w.threads[thread], maxAttempts, answers));
      }
    case CallInsert(thread, now) =>
      if thread in w.threads && w.threads[thread].Inserting? {
        InsertingCount(w, thread, w.threads[thread]);
        InsertStep(w, thread, w.threads[thread], now);
      }
    case Otherwise(op) =>
      if !CreatesResources(op) {
        OtherStep(w, op);
      }
  }

  lemma LaterTransitive(a: World, b: World, c: World)
    requires Later(a, b) && Later(b, c)
    ensures Later(a, c)
  {
    PreservesTransitive(a.store, b.store, c.store);
  }

  lemma {:induction false} RunGood(w: World, maxAttempts: nat, steps: seq<Step>)
    requires Good(w)
    ensures Good(Run(w, maxAttempts, steps)) && Later(w, Run(w, maxAttempts, steps))
    decreases |steps|
  {
    hide Good, Next, Later;
    if steps == [] {
      StaysGood(w);
    } else {
      StepGood(w, maxAttempts, steps[0]);
      RunGood(Next(w, maxAttempts, steps[0]), maxAttempts, steps[1..]);
      LaterTransitive(w, Next(w, maxAttempts, steps[0]), Run(w, maxAttempts, steps));
    }
  }

  lemma StartGood()
    ensures Good(START)
  {
    EmptyConsistent();
  }

  /** Two successful creations. */
  predicate BothSucceeded(w: World, a: nat, b: nat) {
    a in w.threads && b in w.threads && w.threads[a].Succeeded? && w.threads[b].Succeeded?
  }

  lemma WinnersDisjoint(w: World, a: nat, b: nat)
    requires Good(w) && a != b && BothSucceeded(w, a, b) && w.threads[a].ns == w.threads[b].ns
    ensures forall pid :: pid in w.threads[a].pids ==> pid !in w.threads[b].pids
  {
    hide Consistent, StoredValid, Recorded;
    assert ThreadValid(w, a, w.threads[a]) && ThreadValid(w, b, w.threads[b]);
    var ns := w.threads[a].ns;
    forall pid | pid in w.threads[a].pids
      ensures pid !in w.threads[b].pids
    {
      var i :| 0 <= i < |w.threads[a].pids| && w.threads[a].pids[i] == pid;
      ReceiptsApart(w.issued, a, b, ns, pid);
    }
  }

  /** What is issued to one thread is not issued to another. */
  lemma ReceiptsApart(issued: seq<Receipt>, a: nat, b: nat, ns: string, pid: string)
    requires NoneTwice(issued) && a != b && Receipt(a, ns, pid) in issued
    ensures Receipt(b, ns, pid) !in issued
  {
    var i :| 0 <= i < |issued| && issued[i] == Receipt(a, ns, pid);
    assert forall j :: 0 <= j < |issued| ==> issued[j] != Receipt(b, ns, pid);
  }

  /** However the requests interleave: every stored PID is one its namespace's format accepts, successful
      creations in one namespace never share a PID, what they returned is stored, and nothing stored at
      any moment is gone later. */
  lemma EveryInterleaving(maxAttempts: nat, earlier: seq<Step>, later: seq<Step>)
    ensures var w := Run(START, maxAttempts, earlier);
            var w' := Run(w, maxAttempts, later);
            && (forall ns, pid :: (ns, pid) in Pids(w.store.resources) ==> PidValid(w.store, ns, pid))
            && (forall a, b :: a != b && BothSucceeded(w, a, b) && w.threads[a].ns == w.threads[b].ns ==>
                  forall pid :: pid in w.threads[a].pids ==> pid !in w.threads[b].pids)
            && (forall a, pid :: a in w.threads && w.threads[a].Succeeded? && pid in w.threads[a].pids ==>
                  (w.threads[a].ns, pid) in Pids(w.store.resources))
            && |Pids(w.store.resources)| == |w.issued| <= |Pids(w'.store.resources)|
            && Pids(w.store.resources) <= Pids(w'.store.resources)
            && Preserves(w.store, w'.store)
  {
    var w := Run(START, maxAttempts, earlier);
    hide Consistent, PidValid, NoneTwice, Next, Pids, Preserves, Run;
    StartGood();
    RunGood(START, maxAttempts, earlier);
    RunGood(w, maxAttempts, later);
    forall a, b | a != b && BothSucceeded(w, a, b) && w.threads[a].ns == w.threads[b].ns
      ensures forall pid :: pid in w.threads[a].pids ==> pid !in w.threads[b].pids
    {
      WinnersDisjoint(w, a, b);
    }
    forall a, pid | a in w.threads && w.threads[a].Succeeded? && pid in w.threads[a].pids
      ensures (w.threads[a].ns, pid) in Pids(w.store.resources)
    {
      assert ThreadValid(w, a, w.threads[a]);
    }
  }

  // ---- one request on its own ----------------------------------------------------------

  /** Where a request ends up. */
  predicate EndsAs(w: World, thread: nat, ns: string, r: Issued) {
    thread in w.threads && w.threads[thread] == if r.Created? then Succeeded(ns, PidsOf(r.resources)) else Stopped
  }

  /** What the retry protocol makes of the store and the candidates is what the steps of its thread make
      of them when nothing else runs in between: the two models are of the same request. */
  lemma {:induction false} AllocationIsRun(w: World, thread: nat, t: Thread, maxAttempts: nat, answers: seq<Pulled>, now: Time)
    returns (steps: seq<Step>)
    requires thread in w.threads && w.threads[thread] == t && t.Reading? && t.ins.Count() > 0 && t.attempt <= maxAttempts
    ensures var (after, r, rest) := Allocate(w.store, t.ns, t.ins, t.format, maxAttempts, maxAttempts - t.attempt, answers, now);
            var w' := Run(w, maxAttempts, steps);
            w'.store == after && EndsAs(w', thread, t.ns, r) && w'.threads - {thread} == w.threads - {thread}
    decreases maxAttempts - t.attempt
  {
    hide Fill, Insert, Insertable, Receipts, PidsOf;
    var draw, insert := DrawCandidates(thread, answers), CallInsert(thread, now);
    var drawn := Next(w, maxAttempts, draw);
    steps := [draw];
    RunOne(w, maxAttempts, draw);
    var (filled, rest) := Fill(t.format, maxAttempts, t.ins.Count(), [], answers);
    FilledCount(t.format, maxAttempts, t.ins.Count(), answers);
    if t.attempt < maxAttempts && filled.Slots? {
      var inserted := Next(drawn, maxAttempts, insert);
      steps := [draw, insert] + [];
      RunTwo(w, maxAttempts, draw, insert, []);
      var out := Insert(w.store, t.ns, t.ins, filled.pids, now).1;
      if out.Ok? {
        InsertReturns(w.store, t.ns, t.ins, filled.pids, now);
      } else {
        RefusedInsert(w.store, t.ns, t.ins, filled.pids, now);
        if out.error == PIDAllocationFailed {
          var more := AllocationIsRun(inserted, thread, inserted.threads[thread], maxAttempts, rest, now);
          steps := [draw, insert] + more;
          RunTwo(w, maxAttempts, draw, insert, more);
        }
      }
    }
  }

  lemma RunOne(w: World, maxAttempts: nat, a: Step)
    ensures Run(w, maxAttempts, [a]) == Next(w, maxAttempts, a)
  {
    hide Next;
    assert [a][1..] == [];
  }

  lemma RunTwo(w: World, maxAttempts: nat, a: Step, b: Step, more: seq<Step>)
    ensures Run(w, maxAttempts, [a, b] + more) == Run(Next(Next(w, maxAttempts, a), maxAttempts, b), maxAttempts, more)
  {
    hide Next;
    assert ([a, b] + more)[1..] == [b] + more && ([b] + more)[1..] == more;
  }

  lemma RequestArrives(w: World, thread: nat, ns: string, ins: Insertion, maxAttempts: nat, more: seq<Step>)
    requires thread !in w.threads
    ensures Run(w, maxAttempts, [Arrive(thread, ns, ins), ReadNamespace(thread)] + more)
         == Run(w.(threads := w.threads[thread := AfterRead(w, Begun(ns, ins))]), maxAttempts, more)
  {
    hide AfterRead, Run;
    RunTwo(w, maxAttempts, Arrive(thread, ns, ins), ReadNamespace(thread), more);
    assert w.threads[thread := Begun(ns, ins)][thread := AfterRead(w, Begun(ns, ins))]
        == w.threads[thread := AfterRead(w, Begun(ns, ins))];
    assert AfterRead(w.(threads := w.threads[thread := Begun(ns, ins)]), Begun(ns, ins)) == AfterRead(w, Begun(ns, ins)) by {
      ReadsStore(w, w.(threads := w.threads[thread := Begun(ns, ins)]), Begun(ns, ins));
    }
  }

  lemma ReadsStore(w: World, w': World, t: Thread)
    requires t.Begun? && w.store == w'.store
    ensures AfterRead(w, t) == AfterRead(w', t)
  {
  }

  lemma NothingToAllocate(st: StoreState, ns: string, ins: Insertion, format: Format.Format, maxAttempts: nat, answers: seq<Pulled>, now: Time)
    requires ins.Count() == 0
    ensures Allocate(st, ns, ins, format, maxAttempts, maxAttempts, answers, now) == (st, Created([]), answers)
  {
  }

  /** The same from the arrival of the request on; in a missing namespace it just stops. */
  lemma RequestIsRun(w: World, thread: nat, ns: string, ins: Insertion, maxAttempts: nat, answers: seq<Pulled>, now: Time)
    returns (steps: seq<Step>)
    requires thread !in w.threads
    ensures var w' := Run(w, maxAttempts, steps);
            if ns !in w.store.namespaces then w' == w.(threads := w.threads[thread := Stopped])
            else
              var format := w.store.namespaces[ns].format;
              var (after, r, _) := Allocate(w.store, ns, ins, format, maxAttempts, maxAttempts, answers, now);
              w'.store == after && EndsAs(w', thread, ns, r) && w'.threads - {thread} == w.threads
  {
    hide Allocate, Next;
    var t := AfterRead(w, Begun(ns, ins));
    var more: seq<Step> := [];
    if t.Reading? {
      hide Run, EndsAs;
      more := AllocationIsRun(w.(threads := w.threads[thread := t]), thread, t, maxAttempts, answers, now);
    } else if ns in w.store.namespaces {
      NothingToAllocate(w.store, ns, ins, w.store.namespaces[ns].format, maxAttempts, answers, now);
    }
    RequestArrives(w, thread, ns, ins, maxAttempts, more);
    assert w.threads[thread := t] - {thread} == w.threads;
    steps := [Arrive(thread, ns, ins), ReadNamespace(thread)] + more;
  }

  /** Operations that create no resource change the store as they do with no request in flight. */
  lemma {:induction false} OthersApplied(w: World, maxAttempts: nat, ops: seq<Op>)
    requires forall i :: 0 <= i < |ops| ==> !CreatesResources(ops[i])
    ensures Run(w, maxAttempts, seq(|ops|, i requires 0 <= i < |ops| => Otherwise(ops[i])))
         == w.(store := ApplyAll(w.store, ops))
    decreases |ops|
  {
    hide Apply;
    var steps := seq(|ops|, i requires 0 <= i < |ops| => Otherwise(ops[i]));
    if ops != [] {
      var next := w.(store := Apply(w.store, ops[0]));
      OthersApplied(next, maxAttempts, ops[1..]);
      assert steps[1..] == seq(|ops[1..]|, i requires 0 <= i < |ops[1..]| => Otherwise(ops[1..][i]));
      assert steps[0] == Otherwise(ops[0]);
    }
  }
}
