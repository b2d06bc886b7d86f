/** Creating namespaces and listing those a caller may see (service/namespaces.go). */
module Namespaces {
  import opened Common
  import opened Scopes
  import opened Sorting
  import opened Paging
  import opened IdGen
  import opened Store
  import opened Memory
  import opened Filter
  import opened Access
  import Format
  import Observed

  // ---- the visible namespaces -----------------------------------------------------

  function NamespaceGetter(st: StoreState, tag: Option<string>): Getter<Namespace, ErrorCode> {
    (limit: nat, offset: nat) => Ok(Slice(ListedNamespaces(st, tag), limit, offset))
  }

  /** The caller may see a namespace in listings. */
  function Visible(st: StoreState, anonymous: bool, caller: Option<Caller>): Namespace -> bool {
    (ns: Namespace) => CheckNamespaceScope(st, anonymous, ns.id, caller, SeeInNamespaceList).None?
  }

  function Condition(st: StoreState, anonymous: bool, caller: Option<Caller>): Namespace -> Result<bool, ErrorCode> {
    (ns: Namespace) => if IsSlug(ns.id) then Ok(Visible(st, anonymous, caller)(ns)) else Err(DatabaseError)
  }

  function VisibleNamespaces(st: StoreState, anonymous: bool, caller: Option<Caller>, tag: Option<string>): seq<Namespace> {
    if caller.None? || caller.value.superuser then ListedNamespaces(st, tag)
    else Select(ListedNamespaces(st, tag), Visible(st, anonymous, caller))
  }

  /** Whatever the internal page size, the listing is the full sorted one, reduced to what the caller
      may see and cut to the page asked for; it fails only for a stored id that is not a valid one. */
  method ListNamespaces(backend: MemoryBackend, anonymous: bool, caller: Option<Caller>, tag: Option<string>,
                        pageLimit: nat, limit: nat, offset: nat)
    returns (r: Result<Page<Namespace>, ErrorCode>)
    requires 1 <= pageLimit
    ensures r.Ok? <==> caller.None? || caller.value.superuser
                       || forall ns :: ns in ListedNamespaces(backend.State(), tag) ==> IsSlug(ns.id)
    ensures r.Ok? ==> r.value == Cut(VisibleNamespaces(backend.State(), anonymous, caller, tag), limit, offset)
    ensures r.Err? ==> r.error == DatabaseError
  {
    hide ListedNamespaces, Select, Slice, SentFrom, Kept, IsSlug, CheckNamespaceScope;
    if caller.None? || caller.value.superuser {
      var page := backend.ListNamespaces(tag, limit, offset);
      return Ok(page);
    }
    var st := backend.State();
    var get, condition := NamespaceGetter(st, tag), Condition(st, anonymous, caller);
    ghost var all := ListedNamespaces(st, tag);
    PagesEnd(get, all, pageLimit);
    var filtered := Filter.Filter(get, condition, pageLimit, limit, offset, |all|);
    FailsIff(get, condition, pageLimit, all);
    match filtered {
      case Err(error) => return Err(DatabaseError);
      case Ok(result) =>
        FilterIsSelect(get, condition, Visible(st, anonymous, caller), pageLimit, limit, offset, all);
        return Ok(Page(result.total, result.offset, result.items));
    }
  }

  lemma FailsIff(get: Getter<Namespace, ErrorCode>, condition: Namespace -> Result<bool, ErrorCode>, pageLimit: nat,
                 all: seq<Namespace>)
    requires 1 <= pageLimit && Pages(get, all) && PagesFine(get, pageLimit, 0, |all|)
    ensures Kept(SentFrom(get, |all|, pageLimit, 0), condition).Ok? <==> forall ns :: ns in all ==> condition(ns).Ok?
  {
    hide Kept, SentFrom, Pages;
    var end := StreamShape(get, all, pageLimit, 0);
    assert all[0..] == all;
    var stream: seq<Sent<Namespace, ErrorCode>> := Values(all);
    FirstErrorWins(stream, condition);
    assert forall i :: 0 <= i < |all| ==> Fault(stream[i], condition).None? == condition(all[i]).Ok?;
  }

  /** An ordinary caller logged in without a restricting key sees exactly the namespaces they hold a
      role in. */
  lemma VisibleIffRole(st: StoreState, caller: Caller, tag: Option<string>, ns: Namespace)
    requires Consistent(st) && !caller.superuser && (caller.auth.BasicAuthentication? || caller.auth.Impersonation?)
    requires ns in ListedNamespaces(st, tag)
    ensures ns in VisibleNamespaces(st, false, Some(caller), tag) <==> caller.username in Inner(st.roles, ns.id)
  {
    hide ListedNamespaces, ResourcesConsistent, MountsConsistent, KeysConsistent;
    ListedNamespaceStored(st, tag, ns);
    SelectElements(ListedNamespaces(st, tag), Visible(st, false, Some(caller)));
  }

  /** A superuser, and a caller who is not logged in, is shown every namespace. */
  lemma EveryNamespaceShown(st: StoreState, anonymous: bool, caller: Option<Caller>, tag: Option<string>, ns: Namespace)
    requires Consistent(st) && (caller.None? || caller.value.superuser)
    ensures ns in VisibleNamespaces(st, anonymous, caller, tag) <==>
            ns.id in st.namespaces && st.namespaces[ns.id] == ns && (tag.Some? ==> tag.value in ns.tags)
  {
    hide ListedNamespaces, ResourcesConsistent;
    Observed.NamespacesListed(st, tag);
  }

  lemma ListedNamespaceStored(st: StoreState, tag: Option<string>, ns: Namespace)
    requires ResourcesConsistent(st) && ns in ListedNamespaces(st, tag)
    ensures ns.id in st.namespaces && st.namespaces[ns.id] == ns
  {
  }

  // ---- creating a namespace ----------------------------------------------------------

  datatype CreateError = BadGeneration | DatabaseFailed | InsufficientEntropy

  /** An answer that is no namespace id. */
  predicate Unusable(answer: Pulled) {
    answer.Eof? || answer.item.failed || !IsSlug(answer.item.value)
  }

  /** What the backend makes of a usable answer. */
  function Attempt(st: StoreState, answer: Pulled, caller: Option<Caller>, tags: seq<string>, format: Format.Format, now: Time)
    : Outcome<Namespace>
    requires !Unusable(answer)
  {
    Store.CreateNamespace(st, answer.item.value, tags, format, NameOf(caller), now)
  }

  predicate Taken(st: StoreState, answer: Pulled, caller: Option<Caller>, tags: seq<string>, format: Format.Format, now: Time) {
    !Unusable(answer) && Attempt(st, answer, caller, tags, format, now).1 == Err(DuplicateNamespaceID)
  }

  /** A valid id that exists already. */
  predicate InUse(st: StoreState, answer: Pulled) {
    answer.Yielded? && !answer.item.failed && IsSlug(answer.item.value) && answer.item.value in st.namespaces
  }

  /** The namespace asked for, with the id drawn: stored, and managed by the caller. */
  ghost predicate Founded(st: StoreState, x: Namespace, answer: Pulled, caller: Option<Caller>, tags: seq<string>,
                          format: Format.Format, now: Time)
  {
    && answer == Yielded(Item(x.id, false)) && IsSlug(x.id)
    && x.tags == tags && x.format == format && x.created == now && x.updated == now
    && x.id in st.namespaces && st.namespaces[x.id] == x
    && (caller.Some? ==> RoleOf(st, x.id, caller.value.username) == Manager)
  }

  lemma AttemptObserved(st: StoreState, answer: Pulled, caller: Option<Caller>, tags: seq<string>, format: Format.Format, now: Time)
    requires !Unusable(answer)
    ensures Taken(st, answer, caller, tags, format, now) ==> InUse(st, answer)
    ensures var (after, r) := Attempt(st, answer, caller, tags, format, now);
            r.Ok? ==> Founded(after, r.value, answer, caller, tags, format, now)
  {
    hide IsSlug;
    Observed.NamespaceCreated(st, answer.item.value, tags, format, NameOf(caller), now);
  }

  /** Draws ids until one is free. Every answer of the generator before the last was usable but taken,
      and the last decides. The caller becomes the owner; nothing changes unless it succeeds. */
  method CreateNamespace(backend: MemoryBackend, caller: Option<Caller>, tags: seq<string>, format: Format.Format,
                         maxAttempts: nat, generator: Generator, now: Time)
    returns (r: Result<Namespace, CreateError>, ghost answers: seq<Pulled>)
    modifies backend
    ensures Follows(generator, answers) && |answers| <= maxAttempts
    ensures forall i :: 0 <= i < |answers| - 1 ==> Taken(old(backend.State()), answers[i], caller, tags, format, now)
    ensures answers == [] ==> maxAttempts == 0 && r == Err(InsufficientEntropy)
    ensures answers != [] ==>
              var last := answers[|answers| - 1];
              if Unusable(last) then r == Err(BadGeneration) && backend.State() == old(backend.State())
              else match Attempt(old(backend.State()), last, caller, tags, format, now)
                case (after, Ok(created)) => r == Ok(created) && backend.State() == after
                case (after, Err(DuplicateNamespaceID)) => r == Err(InsufficientEntropy) && |answers| == maxAttempts
                case (after, Err(_)) => r == Err(DatabaseFailed)
    ensures forall i :: 0 <= i < |answers| - 1 ==> InUse(old(backend.State()), answers[i])
    ensures r.Ok? ==>
              && r.value.id !in old(backend.namespaces) && answers != []
              && Founded(backend.State(), r.value, answers[|answers| - 1], caller, tags, format, now)
    ensures r.Err? ==> backend.State() == old(backend.State())
    ensures r == Err(DatabaseFailed) ==> caller.Some? && caller.value.username !in old(backend.users)
  {
    hide IsSlug, Puller.Valid, Follows, InUse, Founded;
    var owner := if caller.Some? then Some(caller.value.username) else None;
    var puller := new Puller(generator);
    puller.AnswersFollow();
    answers := [];
    for attempt := 0 to maxAttempts
      invariant backend.State() == old(backend.State()) && puller.Valid() && fresh(puller) && puller.generator == generator
      invariant puller.answers == answers && |answers| == attempt && !puller.stopped && Follows(generator, answers)
      invariant forall i :: 0 <= i < |answers| ==> Taken(old(backend.State()), answers[i], caller, tags, format, now)
      invariant forall i :: 0 <= i < |answers| ==> InUse(old(backend.State()), answers[i])
    {
      var next := puller.Next();
      answers := answers + [next];
      puller.AnswersFollow();
      if next.Eof? || next.item.failed || !IsSlug(next.item.value) {
        puller.Stop();
        return Err(BadGeneration), answers;
      }
      AttemptObserved(backend.State(), next, caller, tags, format, now);
      var out := backend.CreateNamespace(next.item.value, tags, format, owner, now);
      if out.Ok? {
        puller.Stop();
        return Ok(out.value), answers;
      }
      if out.error != DuplicateNamespaceID {
        puller.Stop();
        return Err(DatabaseFailed), answers;
      }
    }
    puller.Stop();
    return Err(InsufficientEntropy), answers;
  }
}
