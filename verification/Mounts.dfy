/** Mounts a user may see and manage: two separately written paths over the same stored grants
    (service/mounts.go, service/mount_grants.go). */
module Mounts {
  import opened Common
  import opened Sorting
  import opened Paging
  import opened Store
  import opened Memory
  import opened Filter

  type Matcher = string -> bool

  /** Compiling a pattern and matching it are foreign functions; compiling may fail. */
  type Compiler = string -> Option<Matcher>

  datatype GrantError = UserMissing | InvalidPattern

  type Loaded = Result<Matcher, GrantError>

  // ---- loading the grants of a user --------------------------------------------

  /** Patterns compiled one after the other, ending with the first that does not compile. */
  function Compiled(patterns: seq<string>, compile: Compiler): seq<Loaded> {
    if patterns == [] then []
    else if compile(patterns[0]).None? then [Err(InvalidPattern)]
    else [Ok(compile(patterns[0]).value)] + Compiled(patterns[1..], compile)
  }

  /** Everything the producer sends when nobody cancels it. */
  function Grants(st: StoreState, name: string, compile: Compiler): seq<Loaded> {
    if name in st.users then Compiled(ListedGrants(st, name), compile) else [Err(UserMissing)]
  }

  /** The producer behind the unbuffered channel: runs when the consumer asks for the next element. */
  class GrantLoader {
    const backend: MemoryBackend
    const name: string
    const compile: Compiler
    const pageLimit: nat
    var page: seq<string>   // the current page, `index` of its patterns sent
    var index: nat
    var offset: nat         // patterns in the pages fetched so far
    var total: nat
    var started: bool
    var finished: bool
    ghost const st: StoreState
    ghost var sent: seq<Loaded>
    ghost var left: seq<string>   // the patterns still to be sent

    ghost predicate Valid()
      reads this, backend
    {
      && backend.State() == st && 1 <= pageLimit && index <= |page|
      && if finished then sent == Grants(st, name, compile)
         else if !started then sent == [] && page == [] && offset == 0
         else
           && name in st.users && page != [] && offset <= total == |ListedGrants(st, name)|
           && left == page[index..] + ListedGrants(st, name)[offset..]
           && Grants(st, name, compile) == sent + Compiled(left, compile)
    }

    constructor (backend: MemoryBackend, name: string, compile: Compiler, pageLimit: nat)
      requires 1 <= pageLimit
      ensures Valid() && sent == [] && this.backend == backend && this.name == name && this.compile == compile && st == backend.State()
    {
      this.backend, this.name, this.compile, this.pageLimit := backend, name, compile, pageLimit;
      page, index, offset, total, started, finished := [], 0, 0, 0, false, false;
      st, sent, left := backend.State(), [], [];
    }

    method Next() returns (r: Option<Loaded>)
      requires Valid()
      modifies this
      ensures Valid()
      ensures r.Some? ==> sent == old(sent) + [r.value] && sent <= Grants(st, name, compile)
      ensures r.None? ==> sent == old(sent) == Grants(st, name, compile)
    {
      hide Grants, Compiled, ListedGrants, MemoryBackend.State;
      if !finished && index == |page| {
        var known := Fetch();
        if !known {
          return Some(Err(UserMissing));
        }
      }
      if finished {
        return None;
      }
      var loaded := Send();
      return Some(loaded);
    }

    /** Gets the next page, unless the last one was the last. */
    method Fetch() returns (known: bool)
      requires Valid() && !finished && index == |page|
      modifies this
      ensures Valid() && (!known ==> finished && sent == old(sent) + [Err(UserMissing)])
      ensures known ==> sent == old(sent) && (finished || (started && index < |page|))
    {
      hide Compiled, ListedGrants, Slice;
      NothingLeft(compile, sent);
      if started && (offset >= total || |page| == 0) {
        finished := true;
        assert left == [];
        return true;
      }
      var listed := backend.ListUserMountGrants(name, pageLimit, offset);
      if listed.Err? {
        finished, sent := true, sent + [Err(UserMissing)];
        return false;
      }
      ghost var patterns := ListedGrants(st, name);
      assert started ==> left == patterns[offset..];
      assert patterns[0..] == patterns && [] + Compiled(patterns, compile) == Compiled(patterns, compile);
      SliceSplits(patterns, pageLimit, offset);
      page, index, started, total := listed.value.items, 0, true, listed.value.total;
      offset := offset + |page|;
      left := page + patterns[offset..];
      assert page[0..] == page;
      if |page| == 0 {
        finished := true;
      }
      return true;
    }

    /** Compiles one pattern and sends it, or the failure to. */
    method Send() returns (r: Loaded)
      requires Valid() && !finished && started && index < |page|
      modifies this
      ensures Valid() && sent == old(sent) + [r] && sent <= Grants(st, name, compile)
    {
      hide Grants, ListedGrants;
      assert left[0] == page[index] && left[1..] == page[index + 1..] + ListedGrants(st, name)[offset..];
      left := left[1..];
      var matcher := compile(page[index]);
      if matcher.None? {
        finished, sent := true, sent + [Err(InvalidPattern)];
        return Err(InvalidPattern);
      }
      sent := sent + [Ok(matcher.value)];
      index := index + 1;
      return Ok(matcher.value);
    }
  }

  lemma NothingLeft(compile: Compiler, sent: seq<Loaded>)
    ensures sent + Compiled([], compile) == sent
  {
  }

  lemma SliceSplits<T>(all: seq<T>, limit: nat, offset: nat)
    requires offset <= |all| && 1 <= limit
    ensures var page := Slice(all, limit, offset);
            && offset + |page| <= |all| && page + all[offset + |page|..] == all[offset..]
            && (page == [] <==> offset == |all|)
  {
  }

  // ---- the two consumers ---------------------------------------------------------------

  /** The answer of the consumer that stops at the first match or error. */
  function FirstMatch(stream: seq<Loaded>, uri: string): Result<bool, GrantError> {
    if stream == [] then Ok(false)
    else match stream[0]
      case Err(e) => Err(e)
      case Ok(matches) => if matches(uri) then Ok(true) else FirstMatch(stream[1..], uri)
  }

  /** The answer of the consumer that collects everything. */
  function Collected(stream: seq<Loaded>): Result<seq<Matcher>, GrantError> {
    if stream == [] then Ok([])
    else match stream[0]
      case Err(e) => Err(e)
      case Ok(matches) =>
        var rest := Collected(stream[1..]);
        if rest.Ok? then Ok([matches] + rest.value) else rest
  }

  predicate AnyMatches(grants: seq<Matcher>, uri: string) {
    exists i :: 0 <= i < |grants| && grants[i](uri)
  }

  /** No element so far ends the search. */
  predicate Inconclusive(stream: seq<Loaded>, uri: string) {
    forall i :: 0 <= i < |stream| ==> stream[i].Ok? && !stream[i].value(uri)
  }

  lemma {:induction false} SearchGoesOn(front: seq<Loaded>, rest: seq<Loaded>, uri: string)
    requires Inconclusive(front, uri)
    ensures FirstMatch(front + rest, uri) == FirstMatch(rest, uri)
    decreases |front|
  {
    if front == [] {
      assert front + rest == rest;
    } else {
      assert (front + rest)[0] == front[0] && (front + rest)[1..] == front[1..] + rest;
      SearchGoesOn(front[1..], rest, uri);
    }
  }

  lemma SearchEnds(sent: seq<Loaded>, last: Loaded, stream: seq<Loaded>, uri: string)
    requires Inconclusive(sent, uri) && sent + [last] <= stream && (last.Err? || last.value(uri))
    ensures FirstMatch(stream, uri) == if last.Err? then Err(last.error) else Ok(true)
  {
    var rest := stream[|sent|..];
    assert stream == sent + rest && rest[0] == last;
    SearchGoesOn(sent, rest, uri);
  }

  method MountGrantMatches(backend: MemoryBackend, name: string, uri: string, compile: Compiler, pageLimit: nat)
    returns (r: Result<bool, GrantError>)
    requires 1 <= pageLimit
    ensures r == FirstMatch(Grants(backend.State(), name, compile), uri)
  {
    hide Grants, FirstMatch, GrantLoader.Valid;
    var loader := new GrantLoader(backend, name, compile, pageLimit);
    ghost var stream := Grants(backend.State(), name, compile);
    while true
      invariant loader.Valid() && loader.st == backend.State() && loader.name == name && loader.compile == compile && fresh(loader)
      invariant Inconclusive(loader.sent, uri) && loader.sent <= stream
      decreases |stream| - |loader.sent|
    {
      ghost var sent := loader.sent;
      var next := loader.Next();
      if next.None? {
        NoneMatched(stream, uri);
        return Ok(false);
      }
      match next.value {
        case Err(error) =>
          SearchEnds(sent, next.value, stream, uri);
          return Err(error);
        case Ok(matches) =>
          if matches(uri) {
            SearchEnds(sent, next.value, stream, uri);
            return Ok(true);
          }
      }
    }
  }

  lemma NoneMatched(stream: seq<Loaded>, uri: string)
    requires Inconclusive(stream, uri)
    ensures FirstMatch(stream, uri) == Ok(false)
  {
    SearchGoesOn(stream, [], uri);
    assert stream + [] == stream;
  }

  lemma {:induction false} CollectedAppend(front: seq<Loaded>, grants: seq<Matcher>, rest: seq<Loaded>)
    requires |front| == |grants| && forall i :: 0 <= i < |front| ==> front[i] == Ok(grants[i])
    ensures Collected(front + rest) == if Collected(rest).Ok? then Ok(grants + Collected(rest).value) else Collected(rest)
    decreases |front|
  {
    if front == [] {
      assert front + rest == rest;
      assert Collected(rest).Ok? ==> grants + Collected(rest).value == Collected(rest).value;
    } else {
      assert (front + rest)[0] == front[0] && (front + rest)[1..] == front[1..] + rest;
      CollectedAppend(front[1..], grants[1..], rest);
      assert Collected(rest).Ok? ==> [grants[0]] + (grants[1..] + Collected(rest).value) == grants + Collected(rest).value;
    }
  }

  lemma CollectionFails(sent: seq<Loaded>, grants: seq<Matcher>, error: GrantError, stream: seq<Loaded>)
    requires |sent| == |grants| && forall i :: 0 <= i < |sent| ==> sent[i] == Ok(grants[i])
    requires sent + [Err(error)] <= stream
    ensures Collected(stream) == Err(error)
  {
    var rest := stream[|sent|..];
    assert stream == sent + rest && rest[0] == Err(error);
    CollectedAppend(sent, grants, rest);
  }

  lemma CollectionEnds(grants: seq<Matcher>, stream: seq<Loaded>)
    requires |stream| == |grants| && forall i :: 0 <= i < |stream| ==> stream[i] == Ok(grants[i])
    ensures Collected(stream) == Ok(grants)
  {
    CollectedAppend(stream, grants, []);
    assert stream + [] == stream && grants + [] == grants;
  }

  method AllCompiledGrants(backend: MemoryBackend, name: string, compile: Compiler, pageLimit: nat)
    returns (r: Result<seq<Matcher>, GrantError>)
    requires 1 <= pageLimit
    ensures r == Collected(Grants(backend.State(), name, compile))
  {
    hide Grants, Collected, GrantLoader.Valid;
    var loader := new GrantLoader(backend, name, compile, pageLimit);
    ghost var stream := Grants(backend.State(), name, compile);
    var grants: seq<Matcher> := [];
    while true
      invariant loader.Valid() && loader.st == backend.State() && loader.name == name && loader.compile == compile && fresh(loader)
      invariant |loader.sent| == |grants| && forall i :: 0 <= i < |grants| ==> loader.sent[i] == Ok(grants[i])
      invariant loader.sent <= stream
      decreases |stream| - |loader.sent|
    {
      ghost var sent := loader.sent;
      var next := loader.Next();
      if next.None? {
        CollectionEnds(grants, stream);
        return Ok(grants);
      }
      match next.value {
        case Err(error) =>
          CollectionFails(sent, grants, error, stream);
          return Err(error);
        case Ok(matches) =>
          grants := grants + [matches];
      }
    }
  }

  // ---- listing the visible mounts --------------------------------------------------------

  function MountGetter(st: StoreState): Getter<Mount, GrantError> {
    (limit: nat, offset: nat) => Ok(Slice(ListedMounts(st), limit, offset))
  }

  function Visible(grants: seq<Matcher>): Mount -> bool {
    (m: Mount) => AnyMatches(grants, m.baseURI)
  }

  /** The mounts a caller sees: all of them without a caller or for a superuser, else those some
      grant matches. */
  function VisibleMounts(st: StoreState, everything: bool, name: string, compile: Compiler): Result<seq<Mount>, GrantError> {
    if everything then Ok(ListedMounts(st))
    else match Collected(Grants(st, name, compile))
      case Err(e) => Err(e)
      case Ok(grants) => Ok(Select(ListedMounts(st), Visible(grants)))
  }

  method ListMounts(backend: MemoryBackend, everything: bool, name: string, compile: Compiler, pageLimit: nat, limit: nat, offset: nat)
    returns (r: Result<Page<Mount>, GrantError>)
    requires 1 <= pageLimit
    ensures r == match VisibleMounts(backend.State(), everything, name, compile)
                 case Err(e) => Err(e)
                 case Ok(mounts) => Ok(Cut(mounts, limit, offset))
  {
    hide ListedMounts, Collected, Grants, Select, Slice, SentFrom, Kept;
    if everything {
      var page := backend.ListMounts(limit, offset);
      return Ok(page);
    }
    var loaded := AllCompiledGrants(backend, name, compile, pageLimit);
    if loaded.Err? {
      return Err(loaded.error);
    }
    var grants := loaded.value;
    var get := MountGetter(backend.State());
    var condition := (m: Mount) => Ok(AnyMatches(grants, m.baseURI));
    ghost var all := ListedMounts(backend.State());
    PagesEnd(get, all, pageLimit);
    var filtered := Filter.Filter(get, condition, pageLimit, limit, offset, |all|);
    FilterIsSelect(get, condition, Visible(grants), pageLimit, limit, offset, all);
    match filtered {
      case Err(error) => return Err(error.cause);
      case Ok(result) => return Ok(Page(result.total, result.offset, result.items));
    }
  }

  // ---- the two paths agree -----------------------------------------------------------------

  /** Some stored grant of the user matches. */
  ghost predicate Granting(st: StoreState, name: string, compile: Compiler, uri: string) {
    exists pattern :: pattern in Granted(st.grants, name) && compile(pattern).Some? && compile(pattern).value(uri)
  }

  ghost predicate AllCompile(st: StoreState, name: string, compile: Compiler) {
    forall pattern :: pattern in Granted(st.grants, name) ==> compile(pattern).Some?
  }

  lemma {:induction false} CompiledAll(patterns: seq<string>, compile: Compiler)
    ensures Collected(Compiled(patterns, compile)).Ok? <==> forall i :: 0 <= i < |patterns| ==> compile(patterns[i]).Some?
    ensures Collected(Compiled(patterns, compile)).Ok? ==>
              var grants := Collected(Compiled(patterns, compile)).value;
              |grants| == |patterns| && forall i :: 0 <= i < |patterns| ==> grants[i] == compile(patterns[i]).value
  {
    if patterns != [] {
      CompiledAll(patterns[1..], compile);
      assert forall i :: 0 < i < |patterns| ==> patterns[i] == patterns[1..][i - 1];
      if compile(patterns[0]).Some? {
        var stream := Compiled(patterns, compile);
        assert stream[0] == Ok(compile(patterns[0]).value) && stream[1..] == Compiled(patterns[1..], compile);
      }
    }
  }

  /** What collecting and then asking finds, stopping early finds too. */
  lemma {:induction false} SearchOfCollected(stream: seq<Loaded>, uri: string)
    requires Collected(stream).Ok?
    ensures FirstMatch(stream, uri) == Ok(AnyMatches(Collected(stream).value, uri))
  {
    if stream != [] {
      SearchOfCollected(stream[1..], uri);
      var grants, rest := Collected(stream).value, Collected(stream[1..]).value;
      assert grants[0] == stream[0].value && grants[1..] == rest;
      assert AnyMatches(grants, uri) <==> grants[0](uri) || AnyMatches(rest, uri);
    }
  }

  lemma ListedGrantsAre(st: StoreState, name: string)
    ensures forall pattern :: pattern in ListedGrants(st, name) <==> pattern in Granted(st.grants, name)
  {
    StringOrder();
  }

  lemma AnyIsGranting(st: StoreState, name: string, compile: Compiler, uri: string)
    requires name in st.users
    ensures Collected(Grants(st, name, compile)).Ok? <==> AllCompile(st, name, compile)
    ensures Collected(Grants(st, name, compile)).Ok? ==>
              AnyMatches(Collected(Grants(st, name, compile)).value, uri) == Granting(st, name, compile, uri)
  {
    hide ListedGrants, Compiled, Collected;
    ListedGrantsAre(st, name);
    CompiledAll(ListedGrants(st, name), compile);
  }

  /** For a user who is no superuser: listing succeeds exactly when every stored pattern compiles. Then
      the separate check accepts a base URI exactly when some stored grant matches it, and a mount is
      listed exactly when its base URI is accepted. */
  lemma PathsAgree(st: StoreState, name: string, compile: Compiler)
    requires name in st.users
    ensures VisibleMounts(st, false, name, compile).Ok? <==> AllCompile(st, name, compile)
    ensures AllCompile(st, name, compile) ==>
              && (forall uri :: FirstMatch(Grants(st, name, compile), uri) == Ok(Granting(st, name, compile, uri)))
              && (forall m: Mount :: m in VisibleMounts(st, false, name, compile).value
                    <==> m in ListedMounts(st) && FirstMatch(Grants(st, name, compile), m.baseURI) == Ok(true))
  {
    hide Select, ListedMounts, Collected, FirstMatch, Grants, Granting, AllCompile, AnyMatches;
    AnyIsGranting(st, name, compile, "");
    if AllCompile(st, name, compile) {
      var grants := Collected(Grants(st, name, compile)).value;
      SelectElements(ListedMounts(st), Visible(grants));
      forall uri
        ensures FirstMatch(Grants(st, name, compile), uri) == Ok(Granting(st, name, compile, uri)) == Ok(AnyMatches(grants, uri))
      {
        AnyIsGranting(st, name, compile, uri);
        SearchOfCollected(Grants(st, name, compile), uri);
      }
    }
  }
}
