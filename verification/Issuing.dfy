/** Issuing PIDs: the retry protocol of one request (service/resources.go over backend/memory). */
module Issuing {
  import opened Common
  import opened IdGen
  import opened Store
  import opened Memory
  import Format
  import Template
  import opened Arithmetic
  import opened Charset

  /** What a request stores: one resource or a batch. */
  datatype Insertion = Single(req: ResourceCreate) | Batch(reqs: seq<ResourceCreate>) {
    function Count(): nat {
      if Single? then 1 else |reqs|
    }

    function Requests(): (requests: seq<ResourceCreate>)
      ensures |requests| == Count()
    {
      if Single? then [req] else reqs
    }
  }

  /** The insert callback of a request. */
  function Insert(st: StoreState, ns: string, ins: Insertion, pids: seq<string>, now: Time): Outcome<seq<Resource>>
    requires |pids| == ins.Count()
  {
    match ins
    case Single(req) =>
      var (after, r) := CreateResource(st, ns, pids[0], req, now);
      (after, if r.Ok? then Ok([r.value]) else Err(r.error))
    case Batch(reqs) => BatchCreate(st, ns, pids, reqs, now)
  }

  // ---- filling the slots of one attempt --------------------------------------------

  datatype Slot = Picked(pid: string) | GenerationFailed | LeftZero

  /** One slot, from the candidates still to come (none left means end of stream): the first one not
      used in this batch. With every try spent on repeats the slot keeps its zero value. */
  function FillSlot(used: seq<string>, answers: seq<Pulled>, tries: nat): (Slot, seq<Pulled>)
    decreases tries
  {
    if tries == 0 then (LeftZero, answers)
    else if answers == [] then (GenerationFailed, [])
    else if answers[0].Eof? || answers[0].item.failed then (GenerationFailed, answers[1..])
    else if answers[0].item.value in used then FillSlot(used, answers[1..], tries - 1)
    else if !IsSlug(answers[0].item.value) then (GenerationFailed, answers[1..])
    else (Picked(answers[0].item.value), answers[1..])
  }

  /** The zero value of a PID panics when it is turned into a string. */
  datatype Filled = Slots(pids: seq<string>) | BadGeneration | Panicked

  function Fill(format: Format.Format, maxAttempts: nat, n: nat, pids: seq<string>, answers: seq<Pulled>): (Filled, seq<Pulled>)
    requires |pids| <= n
    decreases n - |pids|, 1
  {
    if |pids| == n then (Slots(pids), answers)
    else
      var (slot, rest) := FillSlot(pids, answers, maxAttempts);
      Onwards(format, maxAttempts, n, pids, slot, rest)
  }

  /** What the next slot makes of the batch. */
  function Onwards(format: Format.Format, maxAttempts: nat, n: nat, pids: seq<string>, slot: Slot, rest: seq<Pulled>)
    : (Filled, seq<Pulled>)
    requires |pids| < n
    decreases n - |pids|, 0
  {
    match slot
    case GenerationFailed => (BadGeneration, rest)
    case LeftZero => (Panicked, rest)
    case Picked(pid) =>
      if !Format.Accepts(format, pid) then (BadGeneration, rest) else Fill(format, maxAttempts, n, pids + [pid], rest)
  }

  /** A batch of PIDs that may be inserted into a namespace with this format. */
  predicate Insertable(format: Format.Format, pids: seq<string>) {
    Distinct(pids) && forall i :: 0 <= i < |pids| ==> Format.Accepts(format, pids[i]) && IsSlug(pids[i])
  }

  lemma {:induction false} SlotUnused(used: seq<string>, answers: seq<Pulled>, tries: nat)
    ensures var (slot, rest) := FillSlot(used, answers, tries);
            && |rest| <= |answers| <= |rest| + tries
            && (slot.Picked? ==> slot.pid !in used && IsSlug(slot.pid))
    decreases tries
  {
    if tries > 0 && answers != [] {
      SlotUnused(used, answers[1..], tries - 1);
    }
  }

  /** Every path that reaches the insert passes exactly n distinct PIDs the format accepts. */
  lemma {:induction false} FillInsertable(format: Format.Format, maxAttempts: nat, n: nat, pids: seq<string>, answers: seq<Pulled>)
    requires |pids| <= n && Insertable(format, pids)
    ensures var (filled, rest) := Fill(format, maxAttempts, n, pids, answers);
            filled.Slots? ==> |filled.pids| == n && Insertable(format, filled.pids)
    decreases n - |pids|
  {
    if |pids| < n {
      SlotUnused(pids, answers, maxAttempts);
      var (slot, rest) := FillSlot(pids, answers, maxAttempts);
      if slot.Picked? && Format.Accepts(format, slot.pid) {
        InsertableMore(format, pids, slot.pid);
        FillInsertable(format, maxAttempts, n, pids + [slot.pid], rest);
      }
    }
  }

  /** A candidate that is already part of the batch. */
  predicate Repeats(used: seq<string>, answer: Pulled) {
    answer.Yielded? && !answer.item.failed && answer.item.value in used
  }

  /** A slot keeps its zero value exactly when every one of its tries is spent on a repeat. */
  lemma {:induction false} LeftZeroIff(used: seq<string>, answers: seq<Pulled>, tries: nat)
    ensures FillSlot(used, answers, tries).0 == LeftZero
       <==> tries <= |answers| && forall i :: 0 <= i < tries ==> Repeats(used, answers[i])
    decreases tries
  {
    if tries > 0 && answers != [] {
      LeftZeroIff(used, answers[1..], tries - 1);
      assert forall i :: 0 < i < |answers| ==> answers[i] == answers[1..][i - 1];
    }
  }

  // ---- when a batch panics -----------------------------------------------------------

  /** A candidate that is an acceptable PID. */
  predicate Acceptable(format: Format.Format, answer: Pulled) {
    answer.Yielded? && !answer.item.failed && Format.Accepts(format, answer.item.value)
  }

  function SetOf(pids: seq<string>): set<string> {
    set pid | pid in pids
  }

  /** The PIDs among some candidates. */
  function Drawn(answers: seq<Pulled>): set<string> {
    set a | a in answers && a.Yielded? :: a.item.value
  }

  predicate AllAcceptable(format: Format.Format, answers: seq<Pulled>) {
    forall i :: 0 <= i < |answers| ==> Acceptable(format, answers[i])
  }

  predicate AllRepeat(seen: set<string>, answers: seq<Pulled>) {
    forall i :: 0 <= i < |answers| ==> answers[i].Yielded? && !answers[i].item.failed && answers[i].item.value in seen
  }

  /** From candidate k on, every try is a repeat: the candidates before it are all acceptable but hold
      fewer than n different PIDs, and the next maxAttempts all repeat one of those, or of `used`. */
  ghost predicate Exhausts(format: Format.Format, maxAttempts: nat, n: nat, used: set<string>, answers: seq<Pulled>, k: nat) {
    && k + maxAttempts <= |answers|
    && AllAcceptable(format, answers[..k])
    && |used + Drawn(answers[..k])| < n
    && AllRepeat(used + Drawn(answers[..k]), answers[k..k + maxAttempts])
  }

  /** What a candidate that is no repeat makes of its slot. */
  function Decided(answer: Pulled): Slot {
    if answer.Yielded? && !answer.item.failed && IsSlug(answer.item.value) then Picked(answer.item.value) else GenerationFailed
  }

  /** What one slot makes of the candidates: r repeats, then the one that decides, if there is one. */
  lemma {:induction false} SlotShape(used: seq<string>, answers: seq<Pulled>, tries: nat) returns (r: nat)
    ensures r <= tries && r <= |answers| && forall i :: 0 <= i < r ==> Repeats(used, answers[i])
    ensures r == tries ==> FillSlot(used, answers, tries).0 == LeftZero
    ensures r < tries && r == |answers| ==> FillSlot(used, answers, tries).0 == GenerationFailed
    ensures r < tries && r < |answers| ==>
              !Repeats(used, answers[r]) && FillSlot(used, answers, tries) == (Decided(answers[r]), answers[r + 1..])
    decreases tries
  {
    hide IsSlug;
    r := 0;
    if tries > 0 && answers != [] && Repeats(used, answers[0]) {
      var more := SlotShape(used, answers[1..], tries - 1);
      r := more + 1;
      assert forall i :: 0 < i < |answers| ==> answers[i] == answers[1..][i - 1];
      assert r < |answers| ==> answers[1..][more + 1..] == answers[r + 1..];
    }
  }

  // ---- which PIDs a batch holds ----------------------------------------------------------

  /** Behind the last of some positions. */
  function Behind(at: seq<nat>): nat {
    if at == [] then 0 else at[|at| - 1] + 1
  }

  /** The candidate repeats a PID of `used`, or is or repeats one of `picked` drawn by then. */
  ghost predicate Accounted(used: seq<string>, answers: seq<Pulled>, at: seq<nat>, picked: seq<string>, p: nat)
    requires p < |answers| && |at| == |picked|
  {
    && answers[p].Yielded? && !answers[p].item.failed
    && (answers[p].item.value in used || exists i :: 0 <= i < |at| && at[i] <= p && picked[i] == answers[p].item.value)
  }

  /** The candidates at these positions are these PIDs, in this order, and what is drawn in between repeats. */
  ghost predicate FirstDrawn(used: seq<string>, answers: seq<Pulled>, at: seq<nat>, picked: seq<string>) {
    && |at| == |picked|
    && (forall i, j :: 0 <= i < j < |at| ==> at[i] < at[j])
    && (forall i :: 0 <= i < |at| ==> at[i] < |answers| && answers[at[i]] == Yielded(Item(picked[i], false)))
    && (forall p: nat :: p < Behind(at) && p < |answers| ==> Accounted(used, answers, at, picked, p))
  }

  function Moved(at: seq<nat>, shift: nat): (moved: seq<nat>)
    ensures |moved| == |at| && forall i :: 0 <= i < |at| ==> moved[i] == at[i] + shift
  {
    seq(|at|, i requires 0 <= i < |at| => at[i] + shift)
  }

  lemma OneMoreDrawn(used: seq<string>, answers: seq<Pulled>, r: nat, pid: string, at: seq<nat>, picked: seq<string>)
    requires r < |answers| && answers[r] == Yielded(Item(pid, false)) && forall i :: 0 <= i < r ==> Repeats(used, answers[i])
    requires FirstDrawn(used + [pid], answers[r + 1..], at, picked)
    ensures FirstDrawn(used, answers, [r] + Moved(at, r + 1), [pid] + picked)
    ensures Behind([r] + Moved(at, r + 1)) == r + 1 + Behind(at)
  {
    var rest, whole, pids := answers[r + 1..], [r] + Moved(at, r + 1), [pid] + picked;
    forall p: nat | p < Behind(whole) && p < |answers|
      ensures Accounted(used, answers, whole, pids, p)
    {
      if p < r {
        assert Repeats(used, answers[p]);
      } else if p == r {
        assert whole[0] <= p && pids[0] == pid;
      } else {
        assert Accounted(used + [pid], rest, at, picked, p - r - 1) && rest[p - r - 1] == answers[p];
        AccountedLater(used, answers, r, pid, at, picked, p);
      }
    }
  }

  lemma AccountedLater(used: seq<string>, answers: seq<Pulled>, r: nat, pid: string, at: seq<nat>, picked: seq<string>, p: nat)
    requires r < p < |answers| && |at| == |picked| && Accounted(used + [pid], answers[r + 1..], at, picked, p - r - 1)
    ensures Accounted(used, answers, [r] + Moved(at, r + 1), [pid] + picked, p)
  {
    var value, whole, pids := answers[p].item.value, [r] + Moved(at, r + 1), [pid] + picked;
    if value == pid {
      assert whole[0] <= p && pids[0] == value;
    } else if value !in used {
      var i :| 0 <= i < |at| && at[i] <= p - r - 1 && picked[i] == value;
      assert whole[i + 1] <= p && pids[i + 1] == value;
    }
  }

  /** A batch holds the candidates drawn for it, each different one once, in the order they first came, and
      nothing is drawn behind the last of them. */
  lemma {:induction false} BatchHoldsFirstDrawn(format: Format.Format, maxAttempts: nat, n: nat, pids: seq<string>,
                                                answers: seq<Pulled>)
    returns (at: seq<nat>)
    requires |pids| <= n && Fill(format, maxAttempts, n, pids, answers).0.Slots?
    ensures var (filled, rest) := Fill(format, maxAttempts, n, pids, answers);
            && pids <= filled.pids && |filled.pids| == n && FirstDrawn(pids, answers, at, filled.pids[|pids|..])
            && Behind(at) <= |answers| && rest == answers[Behind(at)..]
    decreases n - |pids|
  {
    hide Format.Accepts, IsSlug, FirstDrawn;
    if |pids| == n {
      at := [];
      NoneDrawn(pids, answers);
    } else {
      var r := SlotShape(pids, answers, maxAttempts);
      var pid := answers[r].item.value;
      var later := BatchHoldsFirstDrawn(format, maxAttempts, n, pids + [pid], answers[r + 1..]);
      at := [r] + Moved(later, r + 1);
      var filled := Fill(format, maxAttempts, n, pids, answers).0.pids;
      OneMoreDrawn(pids, answers, r, pid, later, filled[|pids| + 1..]);
      assert filled[|pids|..] == [pid] + filled[|pids| + 1..];
    }
  }

  lemma NoneDrawn(used: seq<string>, answers: seq<Pulled>)
    ensures FirstDrawn(used, answers, [], [])
  {
  }

  /** As long as only repeats have come, nothing new has been seen. */
  lemma RepeatsAddNothing(used: seq<string>, answers: seq<Pulled>, k: nat)
    requires k <= |answers| && forall i :: 0 <= i < k ==> Repeats(used, answers[i])
    ensures SetOf(used) + Drawn(answers[..k]) == SetOf(used)
  {
  }

  lemma DrawnSplit(answers: seq<Pulled>, r: nat, k: nat)
    requires r < k <= |answers| && answers[r].Yielded?
    ensures Drawn(answers[..k]) == Drawn(answers[..r]) + {answers[r].item.value} + Drawn(answers[r + 1..][..k - r - 1])
  {
    assert answers[..k] == answers[..r] + [answers[r]] + answers[r + 1..][..k - r - 1];
  }

  lemma RepeatsDoNotExhaust(format: Format.Format, maxAttempts: nat, n: nat, used: seq<string>, answers: seq<Pulled>, r: nat, k: nat)
    requires k <= r <= |answers| && forall i :: 0 <= i < r ==> Repeats(used, answers[i])
    requires r < maxAttempts && (r < |answers| ==> !Repeats(used, answers[r]))
    ensures !Exhausts(format, maxAttempts, n, SetOf(used), answers, k)
  {
    RepeatsAddNothing(used, answers, k);
    if k + maxAttempts <= |answers| {
      assert answers[k..k + maxAttempts][r - k] == answers[r];
    }
  }

  /** Before the slot is filled, no point exhausts it unless all its tries are repeats. */
  lemma NotBefore(format: Format.Format, maxAttempts: nat, n: nat, used: seq<string>, answers: seq<Pulled>, r: nat, k: nat)
    requires r <= |answers| && forall i :: 0 <= i < r ==> Repeats(used, answers[i])
    requires r < maxAttempts && (r < |answers| ==> !Repeats(used, answers[r]))
    requires Exhausts(format, maxAttempts, n, SetOf(used), answers, k)
    ensures r < k && Acceptable(format, answers[r])
  {
    hide Format.Accepts;
    if k <= r {
      RepeatsDoNotExhaust(format, maxAttempts, n, used, answers, r, k);
    }
    assert answers[..k][r] == answers[r];
  }

  lemma SeenLater(used: seq<string>, answers: seq<Pulled>, r: nat, k: nat, rest: seq<Pulled>)
    requires r < k <= |answers| && answers[r].Yielded? && rest == answers[r + 1..]
    requires forall i :: 0 <= i < r ==> Repeats(used, answers[i])
    ensures SetOf(used) + Drawn(answers[..k]) == SetOf(used + [answers[r].item.value]) + Drawn(rest[..k - r - 1])
  {
    RepeatsAddNothing(used, answers, r);
    DrawnSplit(answers, r, k);
    hide Drawn;
    assert SetOf(used + [answers[r].item.value]) == SetOf(used) + {answers[r].item.value};
  }

  /** The rest of the batch is exhausted at k exactly when the whole is, the slot's candidates included. */
  lemma ExhaustsLater(format: Format.Format, maxAttempts: nat, n: nat, used: seq<string>, answers: seq<Pulled>, r: nat, k: nat,
                      rest: seq<Pulled>)
    requires r < k <= |answers| && Acceptable(format, answers[r]) && rest == answers[r + 1..]
    requires forall i :: 0 <= i < r ==> Repeats(used, answers[i]) && Acceptable(format, answers[i])
    ensures Exhausts(format, maxAttempts, n, SetOf(used), answers, k)
       <==> Exhausts(format, maxAttempts, n, SetOf(used + [answers[r].item.value]), rest, k - r - 1)
  {
    hide Format.Accepts, AllRepeat, AllAcceptable, SetOf, Drawn;
    SeenLater(used, answers, r, k, rest);
    AcceptableTail(format, answers, r, k, rest);
    SameWindow(answers, r, k, maxAttempts, rest);
  }

  lemma SameWindow(answers: seq<Pulled>, r: nat, k: nat, length: nat, rest: seq<Pulled>)
    requires r < k && r < |answers| && rest == answers[r + 1..]
    ensures k + length <= |answers| ==> answers[k..k + length] == rest[k - r - 1..k - r - 1 + length]
  {
  }

  lemma AcceptableTail(format: Format.Format, answers: seq<Pulled>, r: nat, k: nat, rest: seq<Pulled>)
    requires r < k <= |answers| && rest == answers[r + 1..] && forall i :: 0 <= i <= r ==> Acceptable(format, answers[i])
    ensures AllAcceptable(format, answers[..k]) <==> AllAcceptable(format, rest[..k - r - 1])
  {
    hide Acceptable;
    var tail := rest[..k - r - 1];
    assert forall i :: r < i < k ==> answers[..k][i] == tail[i - r - 1];
    assert forall i :: 0 <= i < |tail| ==> tail[i] == answers[..k][i + r + 1];
  }

  lemma {:induction false} DistinctCount(pids: seq<string>)
    requires Distinct(pids)
    ensures |SetOf(pids)| == |pids|
  {
    if pids != [] {
      var last := |pids| - 1;
      DistinctCount(pids[..last]);
      assert pids == pids[..last] + [pids[last]];
      assert SetOf(pids) == SetOf(pids[..last]) + {pids[last]};
    }
  }

  lemma NoRoom(format: Format.Format, maxAttempts: nat, n: nat, used: set<string>, answers: seq<Pulled>, k: nat)
    requires |used| == n
    ensures !Exhausts(format, maxAttempts, n, used, answers, k)
  {
    hide Format.Accepts;
    if k <= |answers| {
      var drawn := Drawn(answers[..k]);
      assert used + drawn == used + (drawn - used);
    }
  }

  lemma AllRepeats(format: Format.Format, maxAttempts: nat, n: nat, pids: seq<string>, answers: seq<Pulled>)
    requires |pids| < n && Distinct(pids) && maxAttempts <= |answers|
    requires forall i :: 0 <= i < maxAttempts ==> Repeats(pids, answers[i])
    ensures Exhausts(format, maxAttempts, n, SetOf(pids), answers, 0)
  {
    DistinctCount(pids);
    var used := SetOf(pids);
    assert used + Drawn(answers[..0]) == used;
  }

  /** Where the deciding candidate is not acceptable, or missing, generation fails and nothing exhausts. */
  lemma SlotUndecided(format: Format.Format, maxAttempts: nat, n: nat, pids: seq<string>, answers: seq<Pulled>, r: nat)
    requires |pids| < n && r < maxAttempts && r <= |answers| && forall i :: 0 <= i < r ==> Repeats(pids, answers[i])
    requires r == |answers| ==> FillSlot(pids, answers, maxAttempts).0 == GenerationFailed
    requires r < |answers| ==> !Repeats(pids, answers[r]) && !Acceptable(format, answers[r])
    requires r < |answers| ==> FillSlot(pids, answers, maxAttempts) == (Decided(answers[r]), answers[r + 1..])
    ensures Fill(format, maxAttempts, n, pids, answers).0 == BadGeneration
    ensures forall k: nat :: !Exhausts(format, maxAttempts, n, SetOf(pids), answers, k)
  {
    hide Format.Accepts, FillSlot, IsSlug, Exhausts, Repeats;
    forall k: nat | Exhausts(format, maxAttempts, n, SetOf(pids), answers, k)
      ensures false
    {
      ExhaustsWithin(format, maxAttempts, n, SetOf(pids), answers, k);
      NotBefore(format, maxAttempts, n, pids, answers, r, k);
    }
  }

  lemma ExhaustsWithin(format: Format.Format, maxAttempts: nat, n: nat, used: set<string>, answers: seq<Pulled>, k: nat)
    requires Exhausts(format, maxAttempts, n, used, answers, k)
    ensures k + maxAttempts <= |answers|
  {
  }

  /** Otherwise it fills the slot and the batch goes on behind it. */
  lemma SlotDecided(format: Format.Format, maxAttempts: nat, n: nat, pids: seq<string>, answers: seq<Pulled>, r: nat)
    requires |pids| < n && r < |answers| && Acceptable(format, answers[r]) && !Repeats(pids, answers[r]) && Insertable(format, pids)
    requires FillSlot(pids, answers, maxAttempts) == (Decided(answers[r]), answers[r + 1..])
    ensures Fill(format, maxAttempts, n, pids, answers)
         == Fill(format, maxAttempts, n, pids + [answers[r].item.value], answers[r + 1..])
    ensures answers[r].Yielded? && !answers[r].item.failed && Insertable(format, pids + [answers[r].item.value])
  {
    hide Format.Accepts, IsSlug, FillSlot;
    Format.AcceptedIsSlug(format, answers[r].item.value);
    InsertableMore(format, pids, answers[r].item.value);
  }

  lemma ExhaustsShift(format: Format.Format, maxAttempts: nat, n: nat, pids: seq<string>, answers: seq<Pulled>, r: nat,
                      more: seq<string>, rest: seq<Pulled>)
    requires r < |answers| && r < maxAttempts && Acceptable(format, answers[r]) && !Repeats(pids, answers[r])
    requires forall i :: 0 <= i < r ==> Repeats(pids, answers[i]) && Acceptable(format, answers[i])
    requires more == pids + [answers[r].item.value] && rest == answers[r + 1..]
    ensures (exists k: nat :: Exhausts(format, maxAttempts, n, SetOf(pids), answers, k))
       <==> (exists k: nat :: Exhausts(format, maxAttempts, n, SetOf(more), rest, k))
  {
    hide Format.Accepts, Exhausts, Repeats, Acceptable;
    forall k: nat | Exhausts(format, maxAttempts, n, SetOf(pids), answers, k)
      ensures r < k && Exhausts(format, maxAttempts, n, SetOf(more), rest, k - r - 1)
    {
      NotBefore(format, maxAttempts, n, pids, answers, r, k);
      ExhaustsWithin(format, maxAttempts, n, SetOf(pids), answers, k);
      ExhaustsLater(format, maxAttempts, n, pids, answers, r, k, rest);
    }
    forall k: nat | Exhausts(format, maxAttempts, n, SetOf(more), rest, k)
      ensures Exhausts(format, maxAttempts, n, SetOf(pids), answers, k + r + 1)
    {
      ExhaustsWithin(format, maxAttempts, n, SetOf(more), rest, k);
      ExhaustsLater(format, maxAttempts, n, pids, answers, r, k + r + 1, rest);
    }
    assert forall k: nat :: Exhausts(format, maxAttempts, n, SetOf(pids), answers, k) ==>
             exists k': nat :: Exhausts(format, maxAttempts, n, SetOf(more), rest, k');
  }

  lemma RepeatsAcceptable(format: Format.Format, pids: seq<string>, answers: seq<Pulled>, r: nat)
    requires Insertable(format, pids) && r <= |answers| && forall i :: 0 <= i < r ==> Repeats(pids, answers[i])
    ensures forall i :: 0 <= i < r ==> Acceptable(format, answers[i])
  {
    hide Format.Accepts, IsSlug;
  }

  lemma {:induction false} FillPanicsIff(format: Format.Format, maxAttempts: nat, n: nat, pids: seq<string>, answers: seq<Pulled>)
    requires |pids| <= n && Insertable(format, pids)
    ensures Fill(format, maxAttempts, n, pids, answers).0 == Panicked
       <==> exists k: nat :: Exhausts(format, maxAttempts, n, SetOf(pids), answers, k)
    decreases n - |pids|
  {
    hide Format.Accepts, IsSlug, Exhausts, Acceptable, Repeats;
    var used := SetOf(pids);
    if |pids| == n {
      DistinctCount(pids);
      forall k: nat
        ensures !Exhausts(format, maxAttempts, n, used, answers, k)
      {
        NoRoom(format, maxAttempts, n, used, answers, k);
      }
    } else {
      var r := SlotShape(pids, answers, maxAttempts);
      if r == maxAttempts {
        AllRepeats(format, maxAttempts, n, pids, answers);
      } else if r < |answers| && Acceptable(format, answers[r]) {
        SlotDecided(format, maxAttempts, n, pids, answers, r);
        RepeatsAcceptable(format, pids, answers, r);
        var more, rest := pids + [answers[r].item.value], answers[r + 1..];
        ExhaustsShift(format, maxAttempts, n, pids, answers, r, more, rest);
        FillPanicsIff(format, maxAttempts, n, more, rest);
      } else {
        SlotUndecided(format, maxAttempts, n, pids, answers, r);
      }
    }
  }

  /** A batch panics exactly when, after acceptable candidates with fewer than n different PIDs among
      them, as many candidates as there are tries all repeat one of those. */
  lemma BatchPanicsIff(format: Format.Format, maxAttempts: nat, n: nat, answers: seq<Pulled>)
    ensures Fill(format, maxAttempts, n, [], answers).0 == Panicked
       <==> exists k: nat :: Exhausts(format, maxAttempts, n, {}, answers, k)
  {
    hide Exhausts, Format.Accepts;
    var none: seq<string> := [];
    assert SetOf(none) == {};
    FillPanicsIff(format, maxAttempts, n, [], answers);
  }

  // ---- when generation fails -----------------------------------------------------------------

  /** Candidate k cannot be used, or is missing: those before it are all acceptable but hold fewer than n
      different PIDs. */
  ghost predicate Spoils(format: Format.Format, n: nat, used: set<string>, answers: seq<Pulled>, k: nat) {
    && k <= |answers| && AllAcceptable(format, answers[..k])
    && |used + Drawn(answers[..k])| < n
    && (k < |answers| ==> !Acceptable(format, answers[k]))
  }

  lemma NothingSpoils(format: Format.Format, n: nat, pids: seq<string>, answers: seq<Pulled>, k: nat)
    requires Distinct(pids) && |pids| == n
    ensures !Spoils(format, n, SetOf(pids), answers, k)
  {
    hide Format.Accepts;
    DistinctCount(pids);
    if k <= |answers| {
      assert SetOf(pids) + Drawn(answers[..k]) == SetOf(pids) + (Drawn(answers[..k]) - SetOf(pids));
    }
  }

  lemma SpoiledHere(format: Format.Format, n: nat, pids: seq<string>, answers: seq<Pulled>, r: nat)
    requires Insertable(format, pids) && |pids| < n && r <= |answers| && forall i :: 0 <= i < r ==> Repeats(pids, answers[i])
    requires r < |answers| ==> !Acceptable(format, answers[r])
    ensures Spoils(format, n, SetOf(pids), answers, r)
  {
    hide Format.Accepts, IsSlug;
    DistinctCount(pids);
    RepeatsAddNothing(pids, answers, r);
    RepeatsAcceptable(format, pids, answers, r);
  }

  lemma SpoilsLater(format: Format.Format, n: nat, pids: seq<string>, answers: seq<Pulled>, r: nat, k: nat, rest: seq<Pulled>)
    requires r < k <= |answers| && Acceptable(format, answers[r]) && rest == answers[r + 1..]
    requires forall i :: 0 <= i < r ==> Repeats(pids, answers[i]) && Acceptable(format, answers[i])
    ensures Spoils(format, n, SetOf(pids), answers, k)
       <==> Spoils(format, n, SetOf(pids + [answers[r].item.value]), rest, k - r - 1)
  {
    hide Format.Accepts, AllAcceptable, SetOf, Drawn;
    SeenLater(pids, answers, r, k, rest);
    AcceptableTail(format, answers, r, k, rest);
  }

  lemma SpoilsShift(format: Format.Format, n: nat, pids: seq<string>, answers: seq<Pulled>, r: nat,
                    more: seq<string>, rest: seq<Pulled>)
    requires r < |answers| && Acceptable(format, answers[r])
    requires forall i :: 0 <= i < r ==> Repeats(pids, answers[i]) && Acceptable(format, answers[i])
    requires more == pids + [answers[r].item.value] && rest == answers[r + 1..]
    ensures (exists k: nat :: Spoils(format, n, SetOf(pids), answers, k)) <==> (exists k: nat :: Spoils(format, n, SetOf(more), rest, k))
  {
    hide Format.Accepts, Repeats, SetOf;
    forall k: nat | Spoils(format, n, SetOf(pids), answers, k)
      ensures r < k && Spoils(format, n, SetOf(more), rest, k - r - 1)
    {
      SpoilsLater(format, n, pids, answers, r, k, rest);
    }
    forall k: nat | Spoils(format, n, SetOf(more), rest, k)
      ensures Spoils(format, n, SetOf(pids), answers, k + r + 1)
    {
      SpoilsLater(format, n, pids, answers, r, k + r + 1, rest);
    }
    assert forall k: nat :: Spoils(format, n, SetOf(pids), answers, k) ==>
             exists k': nat :: Spoils(format, n, SetOf(more), rest, k');
  }

  lemma {:induction false} FillFailsIff(format: Format.Format, maxAttempts: nat, n: nat, pids: seq<string>, answers: seq<Pulled>)
    requires |pids| <= n && Insertable(format, pids)
    ensures var filled := Fill(format, maxAttempts, n, pids, answers).0;
            filled == BadGeneration <==> filled != Panicked && exists k: nat :: Spoils(format, n, SetOf(pids), answers, k)
    decreases n - |pids|
  {
    hide Format.Accepts, IsSlug, Spoils, Acceptable, Repeats, SetOf;
    if |pids| == n {
      forall k: nat
        ensures !Spoils(format, n, SetOf(pids), answers, k)
      {
        NothingSpoils(format, n, pids, answers, k);
      }
    } else {
      var r := SlotShape(pids, answers, maxAttempts);
      if r < maxAttempts {
        if r < |answers| && Acceptable(format, answers[r]) {
          SlotDecided(format, maxAttempts, n, pids, answers, r);
          RepeatsAcceptable(format, pids, answers, r);
          var more, rest := pids + [answers[r].item.value], answers[r + 1..];
          SpoilsShift(format, n, pids, answers, r, more, rest);
          FillFailsIff(format, maxAttempts, n, more, rest);
        } else {
          SlotUndecided(format, maxAttempts, n, pids, answers, r);
          SpoiledHere(format, n, pids, answers, r);
        }
      }
    }
  }

  /** Generation fails for a batch exactly when it does not panic and a candidate that cannot be used, or the
      end of the stream, comes before n different acceptable PIDs. */
  lemma BatchFailsIff(format: Format.Format, maxAttempts: nat, n: nat, answers: seq<Pulled>)
    ensures Fill(format, maxAttempts, n, [], answers).0 == BadGeneration
       <==> !Exhausted(format, maxAttempts, n, answers) && Spoiled(format, n, answers)
  {
    hide Fill, Exhausts, Spoils, Format.Accepts;
    var none: seq<string> := [];
    assert SetOf(none) == {};
    NothingYet(format);
    FillFailsIff(format, maxAttempts, n, [], answers);
    BatchPanicsIff(format, maxAttempts, n, answers);
  }

  /** These candidates make the next batch panic. */
  ghost predicate Exhausted(format: Format.Format, maxAttempts: nat, n: nat, answers: seq<Pulled>) {
    exists k: nat :: Exhausts(format, maxAttempts, n, {}, answers, k)
  }

  /** Generation of the next batch fails on one of these candidates, if it gets there. */
  ghost predicate Spoiled(format: Format.Format, n: nat, answers: seq<Pulled>) {
    exists k: nat :: Spoils(format, n, {}, answers, k)
  }

  /** Hence creating a single resource never panics. */
  lemma SingleNeverPanics(format: Format.Format, maxAttempts: nat, answers: seq<Pulled>)
    requires 1 <= maxAttempts
    ensures Fill(format, maxAttempts, 1, [], answers).0 != Panicked
  {
    LeftZeroIff([], answers, maxAttempts);
    assert maxAttempts <= |answers| ==> !Repeats([], answers[0]);
  }

  /** Where every candidate is acceptable and there are enough of them, generation never fails. */
  lemma {:induction false} GenerationSucceeds(format: Format.Format, maxAttempts: nat, n: nat, pids: seq<string>, answers: seq<Pulled>)
    requires |pids| <= n && Insertable(format, pids)
    requires AllAcceptable(format, answers) && Times(maxAttempts, n - |pids|) <= |answers|
    ensures Fill(format, maxAttempts, n, pids, answers).0 != BadGeneration
    decreases n - |pids|
  {
    hide Format.Accepts, IsSlug, Times, Repeats;
    if |pids| < n {
      TimesStep(maxAttempts, n - |pids| - 1, n);
      var r := SlotShape(pids, answers, maxAttempts);
      if r < maxAttempts {
        SlotDecided(format, maxAttempts, n, pids, answers, r);
        GenerationSucceeds(format, maxAttempts, n, pids + [answers[r].item.value], answers[r + 1..]);
      }
    }
  }

  lemma SubsetCount(small: set<string>, large: set<string>)
    requires small <= large
    ensures |small| <= |large|
  {
    assert large == small + (large - small);
  }

  /** No more different PIDs than the format accepts fit in a batch. */
  lemma BatchFitsSpace(format: Format.Format, pids: seq<string>)
    requires Format.IsFormat(format) && Insertable(format, pids)
    ensures |pids| <= Pow(|Alphabet(format.characters).value|, Template.Stars(format.pattern))
  {
    hide Format.Accepts, IsSlug, Pow, Alphabet;
    var ids := Format.AcceptedCount(format);
    DistinctCount(pids);
    DistinctCount(ids);
    SubsetCount(SetOf(pids), SetOf(ids));
  }

  /** A batch of more items than the format accepts PIDs always panics when the generator proposes
      acceptable PIDs only. */
  lemma TooLargeBatchPanics(format: Format.Format, maxAttempts: nat, n: nat, answers: seq<Pulled>)
    requires Format.IsFormat(format) && n > Pow(|Alphabet(format.characters).value|, Template.Stars(format.pattern))
    requires AllAcceptable(format, answers) && Times(maxAttempts, n) <= |answers|
    ensures Fill(format, maxAttempts, n, [], answers).0 == Panicked
  {
    hide Format.Accepts, IsSlug, Fill, Pow, Alphabet;
    NothingYet(format);
    GenerationSucceeds(format, maxAttempts, n, [], answers);
    FillInsertable(format, maxAttempts, n, [], answers);
    var filled := Fill(format, maxAttempts, n, [], answers).0;
    if filled.Slots? {
      BatchFitsSpace(format, filled.pids);
    }
  }

  /** A stream that repeats one acceptable PID panics every batch of two or more. */
  lemma RepeatedStreamPanics(format: Format.Format, maxAttempts: nat, n: nat, pid: string)
    requires 2 <= n && Format.Accepts(format, pid)
    ensures Fill(format, maxAttempts, n, [], seq(maxAttempts + 1, _ => Yielded(Item(pid, false)))).0 == Panicked
  {
    hide Format.Accepts, Fill;
    var answers := seq(maxAttempts + 1, _ => Yielded(Item(pid, false)));
    assert answers[..1] == [Yielded(Item(pid, false))];
    assert {} + Drawn(answers[..1]) == {pid};
    assert Exhausts(format, maxAttempts, n, {}, answers, 1);
    BatchPanicsIff(format, maxAttempts, n, answers);
  }

  lemma NothingYet(format: Format.Format)
    ensures Insertable(format, [])
  {
  }

  lemma InsertableMore(format: Format.Format, pids: seq<string>, pid: string)
    requires Insertable(format, pids) && pid !in pids && Format.Accepts(format, pid) && IsSlug(pid)
    ensures Insertable(format, pids + [pid])
  {
  }

  // ---- the request as the service runs it ----------------------------------------------

  datatype IssueError = NamespaceNotFound | ItemLimitExceeded | BadIDGeneration | DatabaseError | InsufficientEntropy

  datatype Issued = Created(resources: seq<Resource>) | Failed(error: IssueError) | Crashed

  /** Draws candidates for one slot. */
  method DrawSlot(used: seq<string>, seen: set<string>, maxAttempts: nat, puller: Puller)
    returns (slot: Slot, ghost drawn: seq<Pulled>)
    requires puller.Valid() && seen == set pid | pid in used
    modifies puller
    ensures puller.Valid() && puller.answers == old(puller.answers) + drawn && |drawn| <= maxAttempts
    ensures puller.stopped == old(puller.stopped)
    ensures forall more: seq<Pulled> :: FillSlot(used, drawn + more, maxAttempts) == (slot, more)
  {
    hide IsSlug, Puller.Valid;
    drawn := [];
    var tries := 0;
    assert forall more: seq<Pulled> :: [] + more == more;
    while tries < maxAttempts
      invariant tries == |drawn| <= maxAttempts
      invariant puller.Valid() && puller.answers == old(puller.answers) + drawn && puller.stopped == old(puller.stopped)
      invariant forall more: seq<Pulled> :: FillSlot(used, drawn + more, maxAttempts) == FillSlot(used, more, maxAttempts - tries)
    {
      var next := puller.Next();
      ghost var before := drawn;
      drawn := drawn + [next];
      tries := tries + 1;
      forall more: seq<Pulled>
        ensures FillSlot(used, drawn + more, maxAttempts) == FillSlot(used, [next] + more, maxAttempts - (tries - 1))
        ensures ([next] + more)[0] == next && ([next] + more)[1..] == more
      {
        assert drawn + more == before + ([next] + more);
      }
      if next.Eof? || next.item.failed {
        return GenerationFailed, drawn;
      }
      var candidate := next.item.value;
      if candidate in seen {
        continue;
      }
      if !IsSlug(candidate) {
        return GenerationFailed, drawn;
      }
      return Picked(candidate), drawn;
    }
    return LeftZero, drawn;
  }

  /** One attempt: draws candidates until every slot is filled or one of them fails. */
  method DrawBatch(format: Format.Format, total: Option<nat>, n: nat, maxAttempts: nat, puller: Puller)
    returns (filled: Filled, total': Option<nat>, ghost drawn: seq<Pulled>)
    requires puller.Valid()
    modifies puller
    ensures puller.Valid() && puller.answers == old(puller.answers) + drawn && |drawn| <= Times(maxAttempts, n)
    ensures puller.stopped == old(puller.stopped)
    ensures forall more: seq<Pulled> :: Fill(format, maxAttempts, n, [], drawn + more) == (filled, more)
    ensures filled.Slots? ==> |filled.pids| == n && Insertable(format, filled.pids)
    ensures total.None? <==> total'.None?
    ensures total.Some? ==> total.value <= total'.value <= total.value + n && (filled.Slots? ==> total'.value == total.value + n)
  {
    hide Format.Accepts, IsSlug, Fill, FillSlot, Insertable, Times, Puller.Valid;
    drawn := [];
    total' := total;
    FillDone(format, maxAttempts, n);
    NothingYet(format);
    TimesStep(maxAttempts, 0, n);
    var pids: seq<string> := [];
    var seen: set<string> := {};
    assert forall more: seq<Pulled> :: [] + more == more;
    for i := 0 to n
      invariant |pids| == i && seen == set pid | pid in pids
      invariant puller.Valid() && puller.answers == old(puller.answers) + drawn && |drawn| <= Times(maxAttempts, i)
      invariant puller.stopped == old(puller.stopped)
      invariant forall more: seq<Pulled> :: Fill(format, maxAttempts, n, [], drawn + more) == Fill(format, maxAttempts, n, pids, more)
      invariant Insertable(format, pids)
      invariant total.None? <==> total'.None?
      invariant total.Some? ==> total'.value == total.value + i
    {
      ghost var before := drawn;
      var slot, taken := DrawSlot(pids, seen, maxAttempts, puller);
      drawn := drawn + taken;
      TimesStep(maxAttempts, i, n);
      AfterSlot(format, maxAttempts, n, pids, before, taken, slot);
      if slot.GenerationFailed? {
        return BadGeneration, total', drawn;
      }
      if slot.LeftZero? {
        return Panicked, total', drawn;
      }
      var ok := Format.IsValid(format, slot.pid);
      if !ok {
        return BadGeneration, total', drawn;
      }
      SlotUnused(pids, taken + [], maxAttempts);
      InsertableMore(format, pids, slot.pid);
      pids := pids + [slot.pid];
      seen := seen + {slot.pid};
      if total'.Some? {
        total' := Some(total'.value + 1);
      }
    }
    return Slots(pids), total', drawn;
  }

  lemma FillDone(format: Format.Format, maxAttempts: nat, n: nat)
    ensures forall pids: seq<string>, more: seq<Pulled> :: |pids| == n ==>
              Fill(format, maxAttempts, n, pids, more) == (Slots(pids), more)
  {
  }

  lemma FillOnwards(format: Format.Format, maxAttempts: nat, n: nat, pids: seq<string>, answers: seq<Pulled>)
    requires |pids| < n
    ensures var slotRest := FillSlot(pids, answers, maxAttempts);
            Fill(format, maxAttempts, n, pids, answers) == Onwards(format, maxAttempts, n, pids, slotRest.0, slotRest.1)
  {
    hide FillSlot, Format.Accepts;
  }

  lemma AfterSlot(format: Format.Format, maxAttempts: nat, n: nat, pids: seq<string>, before: seq<Pulled>, taken: seq<Pulled>,
                  slot: Slot)
    requires |pids| < n
    requires forall more: seq<Pulled> :: Fill(format, maxAttempts, n, [], before + more) == Fill(format, maxAttempts, n, pids, more)
    requires forall more: seq<Pulled> :: FillSlot(pids, taken + more, maxAttempts) == (slot, more)
    ensures forall more: seq<Pulled> ::
              Fill(format, maxAttempts, n, [], before + taken + more) == Onwards(format, maxAttempts, n, pids, slot, more)
  {
    hide Fill, FillSlot, Onwards;
    forall more: seq<Pulled>
      ensures Fill(format, maxAttempts, n, [], before + taken + more) == Onwards(format, maxAttempts, n, pids, slot, more)
    {
      assert before + taken + more == before + (taken + more);
      FillOnwards(format, maxAttempts, n, pids, taken + more);
    }
  }

  method InsertInto(backend: MemoryBackend, ns: string, ins: Insertion, pids: seq<string>, now: Time)
    returns (r: Result<seq<Resource>, StoreError>)
    requires backend.Valid() && |pids| == ins.Count()
    modifies backend
    ensures (backend.State(), r) == Insert(old(backend.State()), ns, ins, pids, now)
  {
    match ins
    case Single(req) =>
      var one := backend.CreateResource(ns, pids[0], req, now);
      r := if one.Ok? then Ok([one.value]) else Err(one.error);
    case Batch(reqs) =>
      r := backend.BatchCreateResources(ns, pids, reqs, now);
  }

  /** Some PID of a batch is stored already. */
  predicate SomeTaken(st: StoreState, ns: string, pids: seq<string>) {
    exists i :: 0 <= i < |pids| && pids[i] in Inner(st.resources, ns)
  }

  /** A refused insertion leaves the store as it was; where the namespace exists only the PIDs can be at fault. */
  lemma RefusedInsert(st: StoreState, ns: string, ins: Insertion, pids: seq<string>, now: Time)
    requires |pids| == ins.Count() && Insert(st, ns, ins, pids, now).1.Err?
    ensures Insert(st, ns, ins, pids, now).0 == st
    ensures Insert(st, ns, ins, pids, now).1.error != PIDAllocationFailed <==> ns !in st.namespaces
    ensures Insert(st, ns, ins, pids, now).1.error == PIDAllocationFailed && Distinct(pids) ==> SomeTaken(st, ns, pids)
  {
  }

  /** What a request makes of the store and the candidates with `left` attempts to go: every attempt
      fills a batch and tries to insert it, and only a taken PID leads to the next. */
  function Allocate(st: StoreState, ns: string, ins: Insertion, format: Format.Format, maxAttempts: nat, left: nat,
                    answers: seq<Pulled>, now: Time): (StoreState, Issued, seq<Pulled>)
    decreases left
  {
    if ins.Count() == 0 then (st, Created([]), answers)
    else if left == 0 then (st, Failed(InsufficientEntropy), answers)
    else
      var (filled, rest) := Fill(format, maxAttempts, ins.Count(), [], answers);
      match filled
      case BadGeneration => (st, Failed(BadIDGeneration), rest)
      case Panicked => (st, Crashed, rest)
      case Slots(pids) =>
        FilledCount(format, maxAttempts, ins.Count(), answers);
        var (after, r) := Insert(st, ns, ins, pids, now);
        match r
        case Ok(resources) => (after, Created(resources), rest)
        case Err(PIDAllocationFailed) => Allocate(after, ns, ins, format, maxAttempts, left - 1, rest, now)
        case Err(_) => (after, Failed(DatabaseError), rest)
  }

  lemma FilledCount(format: Format.Format, maxAttempts: nat, n: nat, answers: seq<Pulled>)
    ensures var filled := Fill(format, maxAttempts, n, [], answers).0;
            filled.Slots? ==> |filled.pids| == n && Insertable(format, filled.pids)
  {
    NothingYet(format);
    FillInsertable(format, maxAttempts, n, [], answers);
  }

  /** Exactly these answers, whatever might come after them, decide the request this way. */
  ghost predicate Decides(st: StoreState, ns: string, ins: Insertion, format: Format.Format, maxAttempts: nat,
                          drawn: seq<Pulled>, now: Time, after: StoreState, r: Issued)
  {
    forall more: seq<Pulled> :: Allocate(st, ns, ins, format, maxAttempts, maxAttempts, drawn + more, now) == (after, r, more)
  }

  /** The answers so far leave the request with some attempts and an unchanged store. */
  ghost predicate Continues(st: StoreState, ns: string, ins: Insertion, format: Format.Format, maxAttempts: nat,
                            drawn: seq<Pulled>, now: Time, left: nat)
  {
    forall more: seq<Pulled> :: Allocate(st, ns, ins, format, maxAttempts, maxAttempts, drawn + more, now)
                             == Allocate(st, ns, ins, format, maxAttempts, left, more, now)
  }

  lemma NothingDrawn(st: StoreState, ns: string, ins: Insertion, format: Format.Format, maxAttempts: nat, now: Time)
    ensures Continues(st, ns, ins, format, maxAttempts, [], now, maxAttempts)
  {
    assert forall more: seq<Pulled> :: [] + more == more;
  }

  lemma OutOfAttempts(st: StoreState, ns: string, ins: Insertion, format: Format.Format, maxAttempts: nat,
                      drawn: seq<Pulled>, now: Time)
    requires Continues(st, ns, ins, format, maxAttempts, drawn, now, 0) || (ins.Count() == 0 && drawn == [])
    ensures Decides(st, ns, ins, format, maxAttempts, drawn, now, st,
                    if ins.Count() == 0 then Created([]) else Failed(InsufficientEntropy))
  {
    assert drawn == [] ==> forall more: seq<Pulled> :: drawn + more == more;
  }

  /** One more attempt. */
  lemma AfterAttempt(st: StoreState, ns: string, ins: Insertion, format: Format.Format, maxAttempts: nat, before: seq<Pulled>,
                     taken: seq<Pulled>, filled: Filled, now: Time, left: nat)
    requires ins.Count() > 0 && left > 0 && Continues(st, ns, ins, format, maxAttempts, before, now, left)
    requires forall more: seq<Pulled> :: Fill(format, maxAttempts, ins.Count(), [], taken + more) == (filled, more)
    requires filled.Slots? ==> |filled.pids| == ins.Count()
    ensures filled.BadGeneration? ==> Decides(st, ns, ins, format, maxAttempts, before + taken, now, st, Failed(BadIDGeneration))
    ensures filled.Panicked? ==> Decides(st, ns, ins, format, maxAttempts, before + taken, now, st, Crashed)
    ensures filled.Slots? ==>
              var (after, r) := Insert(st, ns, ins, filled.pids, now);
              match r
              case Ok(resources) => Decides(st, ns, ins, format, maxAttempts, before + taken, now, after, Created(resources))
              case Err(PIDAllocationFailed) => Continues(st, ns, ins, format, maxAttempts, before + taken, now, left - 1)
              case Err(_) => Decides(st, ns, ins, format, maxAttempts, before + taken, now, st, Failed(DatabaseError))
  {
    hide Insert, Fill;
    if filled.Slots? && Insert(st, ns, ins, filled.pids, now).1.Err? {
      RefusedInsert(st, ns, ins, filled.pids, now);
    }
    forall more: seq<Pulled>
      ensures before + taken + more == before + (taken + more)
      ensures Allocate(st, ns, ins, format, maxAttempts, maxAttempts, before + taken + more, now)
           == Allocate(st, ns, ins, format, maxAttempts, left, taken + more, now)
      ensures Fill(format, maxAttempts, ins.Count(), [], taken + more) == (filled, more)
    {
      assert before + taken + more == before + (taken + more);
    }
  }

  /** The retry protocol. `tried` holds the batches that reached the insert. */
  method AllocatePIDs(backend: MemoryBackend, ns: string, ins: Insertion, format: Format.Format, total: Option<nat>,
                      maxAttempts: nat, puller: Puller, now: Time)
    returns (r: Issued, total': Option<nat>, ghost drawn: seq<Pulled>, ghost tried: seq<seq<string>>)
    requires backend.Valid() && puller.Valid()
    modifies backend, puller
    ensures puller.Valid() && puller.answers == old(puller.answers) + drawn && puller.stopped == old(puller.stopped)
    ensures Decides(old(backend.State()), ns, ins, format, maxAttempts, drawn, now, backend.State(), r)
    ensures |drawn| <= Times(Times(maxAttempts, ins.Count()), maxAttempts)
    ensures |tried| <= maxAttempts && forall t :: 0 <= t < |tried| ==> |tried[t]| == ins.Count() && Insertable(format, tried[t])
    ensures forall t :: 0 <= t < |tried| - 1 ==> SomeTaken(old(backend.State()), ns, tried[t])
    ensures r.Created? && ins.Count() > 0 ==>
              tried != [] && (backend.State(), Ok(r.resources)) == Insert(old(backend.State()), ns, ins, tried[|tried| - 1], now)
    ensures !r.Created? || ins.Count() == 0 ==> backend.State() == old(backend.State())
    ensures ins.Count() == 0 ==> r == Created([])
    ensures r == Failed(InsufficientEntropy) ==>
              |tried| == maxAttempts && forall t :: 0 <= t < |tried| ==> SomeTaken(old(backend.State()), ns, tried[t])
    ensures r == Failed(DatabaseError) ==> ns !in old(backend.namespaces)
    ensures r.Failed? ==> r.error in {BadIDGeneration, InsufficientEntropy, DatabaseError}
    ensures ins.Single? && 1 <= maxAttempts ==> r != Crashed
    ensures total.None? <==> total'.None?
    ensures total.Some? ==> 0 <= total'.value - total.value - Times(ins.Count(), |tried|) <= ins.Count()
    ensures total.Some? && (r.Created? || (r.Failed? && r.error != BadIDGeneration)) ==>
              total'.value == total.value + Times(ins.Count(), |tried|)
  {
    hide Format.Accepts, IsSlug, Consistent, Times, Puller.Valid, Allocate, Decides, Continues, Insertable, SomeTaken, Fill, Insert;
    TimesStep(ins.Count(), 0, maxAttempts);
    TimesStep(Times(maxAttempts, ins.Count()), 0, maxAttempts);
    ghost var st := backend.State();
    var n := ins.Count();
    drawn, tried, total' := [], [], total;
    NothingDrawn(st, ns, ins, format, maxAttempts, now);
    if n == 0 {
      OutOfAttempts(st, ns, ins, format, maxAttempts, drawn, now);
      return Created([]), total', drawn, tried;
    }
    for round := 0 to maxAttempts
      invariant |tried| == round && backend.State() == st
      invariant puller.Valid() && puller.answers == old(puller.answers) + drawn && puller.stopped == old(puller.stopped)
      invariant Continues(st, ns, ins, format, maxAttempts, drawn, now, maxAttempts - round)
      invariant |drawn| <= Times(Times(maxAttempts, n), round)
      invariant forall t :: 0 <= t < |tried| ==> |tried[t]| == n && Insertable(format, tried[t]) && SomeTaken(st, ns, tried[t])
      invariant total.None? <==> total'.None?
      invariant total.Some? ==> total'.value == total.value + Times(n, round)
    {
      TimesStep(Times(maxAttempts, n), round, maxAttempts);
      TimesStep(n, round, maxAttempts);
      ghost var before, taken := drawn, [];
      var filled: Filled;
      filled, total', taken := DrawBatch(format, total', n, maxAttempts, puller);
      drawn := before + taken;
      AfterAttempt(st, ns, ins, format, maxAttempts, before, taken, filled, now, maxAttempts - round);
      if filled.BadGeneration? {
        return Failed(BadIDGeneration), total', drawn, tried;
      }
      if filled.Panicked? {
        OnlyBatchesPanic(format, maxAttempts, n, taken);
        return Crashed, total', drawn, tried;
      }
      tried := tried + [filled.pids];
      var out := InsertInto(backend, ns, ins, filled.pids, now);
      if out.Ok? {
        return Created(out.value), total', drawn, tried;
      }
      InsertableDistinct(format, filled.pids);
      RefusedInsert(st, ns, ins, filled.pids, now);
      if out.error != PIDAllocationFailed {
        return Failed(DatabaseError), total', drawn, tried;
      }
    }
    OutOfAttempts(st, ns, ins, format, maxAttempts, drawn, now);
    return Failed(InsufficientEntropy), total', drawn, tried;
  }

  lemma InsertableDistinct(format: Format.Format, pids: seq<string>)
    requires Insertable(format, pids)
    ensures Distinct(pids)
  {
  }

  lemma OnlyBatchesPanic(format: Format.Format, maxAttempts: nat, n: nat, taken: seq<Pulled>)
    requires forall more: seq<Pulled> :: Fill(format, maxAttempts, n, [], taken + more) == (Panicked, more)
    ensures 1 <= maxAttempts ==> n != 1
  {
    hide Format.Accepts, IsSlug;
    assert Fill(format, maxAttempts, n, [], taken + []) == (Panicked, []);
    if 1 <= maxAttempts {
      SingleNeverPanics(format, maxAttempts, taken + []);
    }
  }

  // ---- when a request crashes or gives up ------------------------------------------------

  /** A filled batch is refused for a PID that is stored already. */
  predicate Refused(st: StoreState, ns: string, ins: Insertion, filled: Filled, now: Time) {
    filled.Slots? && |filled.pids| == ins.Count() && Insert(st, ns, ins, filled.pids, now).1 == Err(PIDAllocationFailed)
  }

  /** The candidates left after j attempts, if all of these are refused. */
  function AfterRefusals(st: StoreState, ns: string, ins: Insertion, format: Format.Format, maxAttempts: nat, j: nat,
                         answers: seq<Pulled>, now: Time): Option<seq<Pulled>>
  {
    if j == 0 then Some(answers)
    else
      var (filled, rest) := Fill(format, maxAttempts, ins.Count(), [], answers);
      if Refused(st, ns, ins, filled, now) then AfterRefusals(st, ns, ins, format, maxAttempts, j - 1, rest, now) else None
  }

  /** A request gives up exactly when every attempt it has is refused. */
  lemma {:induction false} GivesUpIff(st: StoreState, ns: string, ins: Insertion, format: Format.Format, maxAttempts: nat, left: nat,
                                      answers: seq<Pulled>, now: Time)
    requires ins.Count() > 0
    ensures Allocate(st, ns, ins, format, maxAttempts, left, answers, now).1 == Failed(InsufficientEntropy)
       <==> AfterRefusals(st, ns, ins, format, maxAttempts, left, answers, now).Some?
    decreases left
  {
    hide Fill, Insert;
    if left > 0 {
      var (filled, rest) := Fill(format, maxAttempts, ins.Count(), [], answers);
      FilledCount(format, maxAttempts, ins.Count(), answers);
      if Refused(st, ns, ins, filled, now) {
        RefusedInsert(st, ns, ins, filled.pids, now);
        GivesUpIff(st, ns, ins, format, maxAttempts, left - 1, rest, now);
      }
    }
  }

  ghost predicate ExhaustedAfter(st: StoreState, ns: string, ins: Insertion, format: Format.Format, maxAttempts: nat, j: nat,
                                 answers: seq<Pulled>, now: Time)
  {
    var rest := AfterRefusals(st, ns, ins, format, maxAttempts, j, answers, now);
    rest.Some? && Exhausted(format, maxAttempts, ins.Count(), rest.value)
  }

  /** Some attempt with this many to go meets exhausted candidates, all before it being refused. */
  ghost predicate SomeExhausted(st: StoreState, ns: string, ins: Insertion, format: Format.Format, maxAttempts: nat, left: nat,
                                answers: seq<Pulled>, now: Time)
  {
    exists j: nat :: j < left && ExhaustedAfter(st, ns, ins, format, maxAttempts, j, answers, now)
  }

  lemma SomeExhaustedStep(st: StoreState, ns: string, ins: Insertion, format: Format.Format, maxAttempts: nat, left: nat,
                          answers: seq<Pulled>, now: Time, filled: Filled, rest: seq<Pulled>)
    requires left > 0 && (filled, rest) == Fill(format, maxAttempts, ins.Count(), [], answers)
    ensures SomeExhausted(st, ns, ins, format, maxAttempts, left, answers, now)
       <==> filled == Panicked || (Refused(st, ns, ins, filled, now) && SomeExhausted(st, ns, ins, format, maxAttempts, left - 1, rest, now))
  {
    hide Fill, Refused, ExhaustedAfter;
    FirstExhausted(st, ns, ins, format, maxAttempts, answers, now);
    forall j: nat
      ensures ExhaustedAfter(st, ns, ins, format, maxAttempts, j + 1, answers, now)
         <==> Refused(st, ns, ins, filled, now) && ExhaustedAfter(st, ns, ins, format, maxAttempts, j, rest, now)
    {
      LaterExhausted(st, ns, ins, format, maxAttempts, j, answers, now, filled, rest);
    }
    forall j: nat | 0 < j && ExhaustedAfter(st, ns, ins, format, maxAttempts, j, answers, now)
      ensures Refused(st, ns, ins, filled, now) && ExhaustedAfter(st, ns, ins, format, maxAttempts, j - 1, rest, now)
    {
      LaterExhausted(st, ns, ins, format, maxAttempts, j - 1, answers, now, filled, rest);
    }
  }

  /** A request crashes exactly when, some of its attempts refused, the candidates are exhausted in the next. */
  lemma {:induction false} CrashesIff(st: StoreState, ns: string, ins: Insertion, format: Format.Format, maxAttempts: nat, left: nat,
                                      answers: seq<Pulled>, now: Time)
    requires ins.Count() > 0
    ensures Allocate(st, ns, ins, format, maxAttempts, left, answers, now).1 == Crashed
       <==> SomeExhausted(st, ns, ins, format, maxAttempts, left, answers, now)
    decreases left
  {
    hide Fill, Insert, ExhaustedAfter;
    if left > 0 {
      hide SomeExhausted;
      var (filled, rest) := Fill(format, maxAttempts, ins.Count(), [], answers);
      FilledCount(format, maxAttempts, ins.Count(), answers);
      SomeExhaustedStep(st, ns, ins, format, maxAttempts, left, answers, now, filled, rest);
      if Refused(st, ns, ins, filled, now) {
        RefusedInsert(st, ns, ins, filled.pids, now);
        CrashesIff(st, ns, ins, format, maxAttempts, left - 1, rest, now);
      }
    }
  }

  lemma FirstExhausted(st: StoreState, ns: string, ins: Insertion, format: Format.Format, maxAttempts: nat,
                       answers: seq<Pulled>, now: Time)
    ensures ExhaustedAfter(st, ns, ins, format, maxAttempts, 0, answers, now)
       <==> Fill(format, maxAttempts, ins.Count(), [], answers).0 == Panicked
  {
    hide Fill, Exhausts;
    BatchPanicsIff(format, maxAttempts, ins.Count(), answers);
  }

  lemma LaterExhausted(st: StoreState, ns: string, ins: Insertion, format: Format.Format, maxAttempts: nat, j: nat,
                       answers: seq<Pulled>, now: Time, filled: Filled, rest: seq<Pulled>)
    requires (filled, rest) == Fill(format, maxAttempts, ins.Count(), [], answers)
    ensures ExhaustedAfter(st, ns, ins, format, maxAttempts, j + 1, answers, now)
       <==> Refused(st, ns, ins, filled, now) && ExhaustedAfter(st, ns, ins, format, maxAttempts, j, rest, now)
  {
    hide Fill, Exhausted, Refused;
  }

  /** Whatever is stored: a batch larger than the format's space crashes when only acceptable PIDs are drawn. */
  lemma TooLargeBatchCrashes(st: StoreState, ns: string, reqs: seq<ResourceCreate>, format: Format.Format, maxAttempts: nat,
                             drawn: seq<Pulled>, now: Time, after: StoreState, r: Issued)
    requires Format.IsFormat(format) && |reqs| > Pow(|Alphabet(format.characters).value|, Template.Stars(format.pattern))
    requires 1 <= maxAttempts && AllAcceptable(format, drawn)
    requires Decides(st, ns, Batch(reqs), format, maxAttempts, drawn, now, after, r)
    ensures r == Crashed
  {
    hide Format.Accepts, Fill, Pow, Alphabet, Insert, Times;
    var pid := SomeAccepted(format);
    var more := seq(Times(maxAttempts, |reqs|), _ => Yielded(Item(pid, false)));
    assert AllAcceptable(format, drawn + more);
    TooLargeBatchPanics(format, maxAttempts, |reqs|, drawn + more);
    assert Allocate(st, ns, Batch(reqs), format, maxAttempts, maxAttempts, drawn + more, now).1 == Crashed;
  }

  lemma SomeAccepted(format: Format.Format) returns (pid: string)
    requires Format.IsFormat(format)
    ensures Format.Accepts(format, pid)
  {
    KnownAlphabets(format.characters);
    PowPositive(|Alphabet(format.characters).value|, Template.Stars(format.pattern));
    pid := Format.Nth(format, 0);
    Format.NthAccepted(format, 0);
  }

  /** The PIDs are those of the first different candidates, in the order they were drawn. */
  ghost predicate HoldsFirstDrawn(answers: seq<Pulled>, pids: seq<string>) {
    exists at: seq<nat> :: FirstDrawn([], answers, at, pids)
  }

  /** What the candidates left for an attempt that is not refused make of the request. */
  ghost predicate SettledBy(st: StoreState, ns: string, ins: Insertion, format: Format.Format, maxAttempts: nat, rest: seq<Pulled>,
                            after: StoreState, r: Issued)
  {
    if Exhausted(format, maxAttempts, ins.Count(), rest) then r == Crashed && after == st
    else if Spoiled(format, ins.Count(), rest) then r == Failed(BadIDGeneration) && after == st
    else if ns !in st.namespaces then r == Failed(DatabaseError) && after == st
    else r.Created? && |r.resources| == ins.Count() && HoldsFirstDrawn(rest, PidsOf(r.resources))
  }

  /** The outcome of a request that needs PIDs: the first attempt that is not refused decides, by the
      candidates left for it alone, and only success changes the store. */
  lemma {:induction false} RequestDecided(st: StoreState, ns: string, ins: Insertion, format: Format.Format,
                                          maxAttempts: nat, left: nat,
                                          answers: seq<Pulled>, now: Time) returns (j: nat)
    requires ins.Count() > 0
    ensures j <= left && AfterRefusals(st, ns, ins, format, maxAttempts, j, answers, now).Some?
    ensures var rest := AfterRefusals(st, ns, ins, format, maxAttempts, j, answers, now).value;
            var (after, r, _) := Allocate(st, ns, ins, format, maxAttempts, left, answers, now);
            if j == left then r == Failed(InsufficientEntropy) && after == st
            else SettledBy(st, ns, ins, format, maxAttempts, rest, after, r)
    decreases left
  {
    hide Fill, Insert, SettledBy;
    j := 0;
    if left > 0 {
      var (filled, rest) := Fill(format, maxAttempts, ins.Count(), [], answers);
      FilledCount(format, maxAttempts, ins.Count(), answers);
      if Refused(st, ns, ins, filled, now) {
        RefusedInsert(st, ns, ins, filled.pids, now);
        var later := RequestDecided(st, ns, ins, format, maxAttempts, left - 1, rest, now);
        j := later + 1;
      } else {
        AttemptSettles(st, ns, ins, format, maxAttempts, left, answers, now);
      }
    }
  }

  lemma AttemptSettles(st: StoreState, ns: string, ins: Insertion, format: Format.Format, maxAttempts: nat, left: nat,
                       answers: seq<Pulled>, now: Time)
    requires ins.Count() > 0 && left > 0
    requires !Refused(st, ns, ins, Fill(format, maxAttempts, ins.Count(), [], answers).0, now)
    ensures var (after, r, _) := Allocate(st, ns, ins, format, maxAttempts, left, answers, now);
            SettledBy(st, ns, ins, format, maxAttempts, answers, after, r)
  {
    hide Fill, Insert, Exhausted, Spoiled, HoldsFirstDrawn, PidsOf;
    FilledCount(format, maxAttempts, ins.Count(), answers);
    AttemptDecided(st, ns, ins, format, maxAttempts, answers, now);
  }

  /** The same of one attempt. */
  lemma AttemptDecided(st: StoreState, ns: string, ins: Insertion, format: Format.Format, maxAttempts: nat,
                       answers: seq<Pulled>, now: Time)
    requires ins.Count() > 0
    ensures var filled := Fill(format, maxAttempts, ins.Count(), [], answers).0;
            && (filled == Panicked <==> Exhausted(format, maxAttempts, ins.Count(), answers))
            && (filled == BadGeneration <==>
                  !Exhausted(format, maxAttempts, ins.Count(), answers) && Spoiled(format, ins.Count(), answers))
            && (filled.Slots? ==>
                  && |filled.pids| == ins.Count()
                  && var (after, r) := Insert(st, ns, ins, filled.pids, now);
                     if ns !in st.namespaces then r == Err(StoreError.NamespaceNotFound) && after == st
                     else if r.Err? then r == Err(PIDAllocationFailed)
                     else |r.value| == ins.Count() && HoldsFirstDrawn(answers, PidsOf(r.value)))
  {
    hide Fill, Insert, Exhausts, Spoils, FirstDrawn;
    BatchPanicsIff(format, maxAttempts, ins.Count(), answers);
    BatchFailsIff(format, maxAttempts, ins.Count(), answers);
    FilledCount(format, maxAttempts, ins.Count(), answers);
    var filled := Fill(format, maxAttempts, ins.Count(), [], answers).0;
    if filled.Slots? {
      var at := BatchHoldsFirstDrawn(format, maxAttempts, ins.Count(), [], answers);
      assert filled.pids[0..] == filled.pids;
      InsertOutcome(st, ns, ins, filled.pids, now);
    }
  }

  lemma InsertOutcome(st: StoreState, ns: string, ins: Insertion, pids: seq<string>, now: Time)
    requires |pids| == ins.Count() > 0
    ensures var (after, r) := Insert(st, ns, ins, pids, now);
            if ns !in st.namespaces then r == Err(StoreError.NamespaceNotFound) && after == st
            else if r.Err? then r == Err(PIDAllocationFailed)
            else |r.value| == ins.Count() && PidsOf(r.value) == pids
  {
  }

  // ---- the two operations of the service ------------------------------------------------

  function PidsOf(resources: seq<Resource>): seq<string> {
    seq(|resources|, i requires 0 <= i < |resources| => resources[i].pid)
  }

  lemma InsertReturns(st: StoreState, ns: string, ins: Insertion, pids: seq<string>, now: Time)
    requires |pids| == ins.Count() && Insert(st, ns, ins, pids, now).1.Ok?
    ensures PidsOf(Insert(st, ns, ins, pids, now).1.value) == pids
  {
  }

  /** A resource has the URL, metadata and tags asked for, is not deleted, was created and last updated at
      this time, and is what the namespace stores under its PID. */
  predicate Fulfils(st: StoreState, ns: string, x: Resource, req: ResourceCreate, now: Time) {
    && x.url == req.url && x.metadata == req.metadata && x.tags == req.tags
    && !x.deleted && x.created == now && x.updated == now
    && ns in st.resources && x.pid in st.resources[ns] && st.resources[ns][x.pid] == x
  }

  /** What a successful insertion returns is what was asked for, and what is stored from then on. */
  lemma InsertedRecords(st: StoreState, ns: string, ins: Insertion, pids: seq<string>, now: Time)
    requires |pids| == ins.Count() && Insert(st, ns, ins, pids, now).1.Ok?
    ensures var (after, r) := Insert(st, ns, ins, pids, now);
            |r.value| == ins.Count() && forall i :: 0 <= i < ins.Count() ==>
              r.value[i].pid == pids[i] && Fulfils(after, ns, r.value[i], ins.Requests()[i], now)
  {
    if ins.Batch? {
      BatchAdds(st, ns, pids, ins.reqs, now);
    }
  }

  /** Reads the namespace's format, counts its resources, then allocates and inserts. The candidates it
      draws are the first its generator yields, and they alone decide the outcome. Nothing changes
      unless the request succeeds, and then what is stored is what is returned. */
  method CreateIn(backend: MemoryBackend, ns: string, ins: Insertion, maxAttempts: nat, generator: Generator, now: Time)
    returns (r: Issued, ghost drawn: seq<Pulled>)
    requires backend.Valid()
    modifies backend
    ensures Follows(generator, drawn)
    ensures if ns !in old(backend.namespaces) then r == Failed(IssueError.NamespaceNotFound) && backend.State() == old(backend.State())
            else Decides(old(backend.State()), ns, ins, old(backend.namespaces)[ns].format, maxAttempts, drawn, now, backend.State(), r)
    ensures r.Failed? && ns in old(backend.namespaces) ==> r.error in {BadIDGeneration, InsufficientEntropy}
    ensures r.Created? && ins.Count() > 0 ==>
              && |r.resources| == ins.Count()
              && Insertable(old(backend.namespaces)[ns].format, PidsOf(r.resources))
              && (backend.State(), Ok(r.resources)) == Insert(old(backend.State()), ns, ins, PidsOf(r.resources), now)
    ensures r.Created? ==>
              && |r.resources| == |ins.Requests()|
              && forall i :: 0 <= i < |r.resources| ==> Fulfils(backend.State(), ns, r.resources[i], ins.Requests()[i], now)
    ensures !r.Created? || ins.Count() == 0 ==> backend.State() == old(backend.State())
    ensures ins.Single? && 1 <= maxAttempts ==> r != Crashed
  {
    hide Insert, Insertable, Consistent, Times, Decides, SomeTaken, Follows, Puller.Valid, Fulfils;
    var puller := new Puller(generator);
    drawn := [];
    puller.AnswersFollow();
    var found := backend.GetNamespace(ns);
    if found.Err? {
      return Failed(IssueError.NamespaceNotFound), drawn;
    }
    var count := backend.ListResources(ns, None, None, 0, 0);
    var total := if count.Ok? then Some(count.value.total) else None;
    ghost var tried;
    r, total, drawn, tried := AllocatePIDs(backend, ns, ins, found.value.format, total, maxAttempts, puller, now);
    assert puller.answers == drawn;
    puller.AnswersFollow();
    puller.Stop();
    if r.Created? && ins.Count() > 0 {
      InsertReturns(old(backend.State()), ns, ins, tried[|tried| - 1], now);
      InsertedRecords(old(backend.State()), ns, ins, tried[|tried| - 1], now);
    }
  }

  method BatchCreateResources(backend: MemoryBackend, ns: string, reqs: seq<ResourceCreate>, maxBatch: int, maxAttempts: nat,
                              generator: Generator, now: Time)
    returns (r: Issued, ghost drawn: seq<Pulled>)
    requires backend.Valid()
    modifies backend
    ensures Follows(generator, drawn)
    ensures if 0 < maxBatch < |reqs| then r == Failed(ItemLimitExceeded) && backend.State() == old(backend.State())
            else if ns !in old(backend.namespaces) then r == Failed(IssueError.NamespaceNotFound) && backend.State() == old(backend.State())
            else Decides(old(backend.State()), ns, Batch(reqs), old(backend.namespaces)[ns].format, maxAttempts, drawn, now, backend.State(), r)
    ensures r.Created? && reqs != [] ==>
              && Insertable(old(backend.namespaces)[ns].format, PidsOf(r.resources))
              && (backend.State(), Ok(r.resources)) == BatchCreate(old(backend.State()), ns, PidsOf(r.resources), reqs, now)
    ensures r.Created? ==>
              && |r.resources| == |reqs|
              && forall i :: 0 <= i < |r.resources| ==> Fulfils(backend.State(), ns, r.resources[i], reqs[i], now)
    ensures !r.Created? || reqs == [] ==> backend.State() == old(backend.State())
  {
    hide Insertable, Consistent, BatchCreate, Decides, Follows, Fulfils;
    if 0 < maxBatch < |reqs| {
      NothingFollows(generator);
      return Failed(ItemLimitExceeded), [];
    }
    r, drawn := CreateIn(backend, ns, Batch(reqs), maxAttempts, generator, now);
  }

  function Times(each: nat, count: nat): nat {
    each * count
  }

  lemma TimesStep(each: nat, count: nat, bound: nat)
    requires count <= bound
    ensures Times(each, 0) == 0 && Times(each, count) <= Times(each, bound)
    ensures Times(each, count + 1) == Times(each, count) + each
    ensures count < bound ==> Times(each, count + 1) <= Times(each, bound)
  {
    assert each * count <= each * bound;
    assert count + 1 <= bound ==> each * (count + 1) <= each * bound;
  }
}
