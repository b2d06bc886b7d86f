/** Which API keys are still valid, and the cleanup that revokes the others while paging through
    them (service/credentials.go). */
module Credentials {
  import opened Common
  import opened Sorting
  import opened Paging
  import opened Store
  import opened Memory
  import opened Filter
  import opened IdGen
  import ApiKey
  import Observed

  /** Go's zero time; a key that expires then is never valid. */
  const ZERO_TIME: Time := 0

  predicate ValidAt(info: KeyInfo, now: Time) {
    info.expires.None? || (info.expires.value != ZERO_TIME && info.expires.value > now)
  }

  /** A key is valid at a time exactly when it never expires, or expires later than that and not at the
      zero time. */
  lemma ValidUntilExpiry(info: KeyInfo, now: Time)
    ensures info.expires.None? ==> ValidAt(info, now)
    ensures forall e :: info.expires == Some(e) && e != ZERO_TIME ==> (ValidAt(info, now) <==> now < e)
    ensures info.expires == Some(ZERO_TIME) ==> !ValidAt(info, now)
  {
  }

  /** What is valid at a time was valid at every earlier one: keys only ever expire. */
  lemma ValidityEnds(info: KeyInfo, earlier: Time, later: Time)
    requires earlier <= later && ValidAt(info, later)
    ensures ValidAt(info, earlier)
  {
  }

  /** The keys of a user that are valid at a time. */
  function ValidKeys(keys: map<string, KeyRecord>, now: Time): map<string, KeyRecord> {
    map id | id in keys && ValidAt(keys[id].info, now) :: keys[id]
  }

  predicate AllValid(keys: map<string, KeyRecord>, ids: seq<string>, now: Time) {
    forall i :: 0 <= i < |ids| ==> ids[i] in keys && ValidAt(keys[ids[i]].info, now)
  }

  /** The keys left once those on a list have been checked. */
  function Pruned(keys: map<string, KeyRecord>, ids: seq<string>, now: Time): map<string, KeyRecord> {
    map id | id in keys && (id !in ids || ValidAt(keys[id].info, now)) :: keys[id]
  }

  lemma PrunedMore(keys: map<string, KeyRecord>, ids: seq<string>, id: string, now: Time)
    requires id in keys && id !in ids
    ensures id in Pruned(keys, ids, now)
    ensures Pruned(keys, ids + [id], now)
         == if ValidAt(keys[id].info, now) then Pruned(keys, ids, now) else Pruned(keys, ids, now) - {id}
  {
  }

  // ---- one page of the cleanup ---------------------------------------------------

  predicate Selects(keys: map<string, KeyRecord>, now: Time, id: string) {
    id in keys && ValidAt(keys[id].info, now)
  }

  /** The listing of the keys that are left: only the page has changed. */
  lemma RestIds(keys: map<string, KeyRecord>, before: seq<string>, page: seq<string>, behind: seq<string>, now: Time)
    requires KeyIds(keys) == before + page + behind
    ensures KeyIds(Pruned(keys, page, now)) == before + Select(page, id => Selects(keys, now, id)) + behind
  {
    hide KeyIds, Select;
    var ids := before + page + behind;
    var rest := Pruned(keys, page, now);
    var stays := id => id in rest;
    StringOrder();
    SelectElements(ids, stays);
    SelectSorted(StringLess, ids, stays);
    assert forall id :: id in rest ==> id in ids;
    SortedUnique(StringLess, KeyIds(rest), Select(ids, stays));
    SortedApart(before, page, behind);
    assert forall id :: id in page ==> id in ids;
    assert forall id :: id in before || id in behind ==> id in ids;
    SplitSelect(before, page, behind, stays, id => Selects(keys, now, id));
  }

  /** After a page has been checked, the listing of the keys that are left starts with the valid keys
      before the page and the valid keys of the page, so the next offset is just behind those. */
  lemma PageChecked(keys: map<string, KeyRecord>, before: seq<string>, page: seq<string>, behind: seq<string>, now: Time)
    requires KeyIds(keys) == before + page + behind && AllValid(keys, before, now)
    ensures var rest, valid := Pruned(keys, page, now), Select(page, id => Selects(keys, now, id));
            && KeyIds(rest) == before + valid + behind && AllValid(rest, before + valid, now)
            && |rest| == |keys| - |page| + |valid|
            && ValidKeys(rest, now) == ValidKeys(keys, now)
  {
    hide KeyIds, Select;
    var rest, valid := Pruned(keys, page, now), Select(page, id => Selects(keys, now, id));
    RestIds(keys, before, page, behind, now);
    SelectElements(page, id => Selects(keys, now, id));
    CountIds(keys);
    CountIds(rest);
    forall i | 0 <= i < |valid|
      ensures valid[i] in rest && ValidAt(rest[valid[i]].info, now)
    {
      assert valid[i] in valid;
    }
    forall i | 0 <= i < |before|
      ensures before[i] in rest
    {
      assert before[i] in keys;
    }
  }

  lemma CountIds(keys: map<string, KeyRecord>)
    ensures |KeyIds(keys)| == |keys|
  {
    StringOrder();
    IsListing(StringLess, KeyIds(keys), keys.Keys);
    assert |keys.Keys| == |keys|;
  }

  /** Elements of an ascending sequence do not recur. */
  lemma SortedApart(before: seq<string>, page: seq<string>, behind: seq<string>)
    requires SortedBy(StringLess, before + page + behind)
    ensures forall id :: id in before || id in behind ==> id !in page
  {
    StringOrder();
    var ids := before + page + behind;
    forall i, j | 0 <= i < |before| + |page| && |before| <= j < |ids| && i < j
      ensures ids[i] != ids[j]
    {
      assert StringLess(ids[i], ids[j]);
    }
    forall i, j | 0 <= i < |before| && 0 <= j < |page|
      ensures before[i] != page[j]
    {
      assert before[i] == ids[i] && page[j] == ids[|before| + j];
    }
    forall i, j | 0 <= i < |behind| && 0 <= j < |page|
      ensures behind[i] != page[j]
    {
      assert behind[i] == ids[|before| + |page| + i] && page[j] == ids[|before| + j];
    }
  }

  // ---- the cleanup of one user -------------------------------------------------------

  function IdsOf(page: seq<KeyInfo>): (ids: seq<string>)
    ensures |ids| == |page|
  {
    seq(|page|, i requires 0 <= i < |page| => page[i].id)
  }

  /** A page of a user's keys as the backend lists them. */
  ghost predicate IsPage(keys: map<string, KeyRecord>, page: seq<KeyInfo>) {
    && Distinct(IdsOf(page))
    && forall i :: 0 <= i < |page| ==> page[i].id in keys && keys[page[i].id].info == page[i]
  }

  lemma RevokedAgain(st: StoreState, name: string, keys: map<string, KeyRecord>, id: string)
    requires name in st.users && id in keys
    ensures RevokeKey(WithKeys(st, name, keys), name, id) == (WithKeys(st, name, keys - {id}), Ok(()))
  {
    assert st.users[name := st.users[name].(keys := keys)][name := st.users[name].(keys := keys - {id})]
        == st.users[name := st.users[name].(keys := keys - {id})];
  }

  lemma CheckedNext(keys: map<string, KeyRecord>, page: seq<KeyInfo>, i: nat, now: Time)
    requires IsPage(keys, page) && i < |page|
    ensures var (ids, id) := (IdsOf(page)[..i], page[i].id);
            && IdsOf(page)[..i + 1] == ids + [id] && id in keys && id !in ids && keys[id].info == page[i]
            && |Select(IdsOf(page)[..i + 1], id => Selects(keys, now, id))|
                 == |Select(ids, id => Selects(keys, now, id))| + if ValidAt(page[i], now) then 1 else 0
  {
    var ids, id := IdsOf(page)[..i], page[i].id;
    assert forall k :: 0 <= k < i ==> IdsOf(page)[k] != IdsOf(page)[i];
    assert IdsOf(page)[..i + 1] == ids + [id];
    SelectAppend(ids, [id], id => Selects(keys, now, id));
    SelectOne(id, id => Selects(keys, now, id));
  }

  /** Revokes the keys of a page that are no longer valid and counts the others. */
  method CheckPage(backend: MemoryBackend, name: string, page: seq<KeyInfo>, now: Time)
    returns (r: Result<(), StoreError>, advanced: nat)
    requires name in backend.users && IsPage(backend.users[name].keys, page)
    modifies backend
    ensures r == Ok(()) && name in old(backend.users)
    ensures var keys := old(backend.users)[name].keys;
            && backend.State() == WithKeys(old(backend.State()), name, Pruned(keys, IdsOf(page), now))
            && advanced == |Select(IdsOf(page), id => Selects(keys, now, id))|
  {
    hide Pruned, Select, Selects, IdsOf, RevokeKey;
    ghost var st, keys := backend.State(), backend.users[name].keys;
    advanced := 0;
    NothingChecked(st, name, page, now);
    for i := 0 to |page|
      invariant backend.State() == WithKeys(st, name, Pruned(keys, IdsOf(page)[..i], now))
      invariant advanced == |Select(IdsOf(page)[..i], id => Selects(keys, now, id))|
    {
      CheckedNext(keys, page, i, now);
      PrunedMore(keys, IdsOf(page)[..i], page[i].id, now);
      if ValidAt(page[i], now) {
        advanced := advanced + 1;
        continue;
      }
      RevokedAgain(st, name, Pruned(keys, IdsOf(page)[..i], now), page[i].id);
      r := backend.RevokeKey(name, page[i].id);
      if r.Err? {
        return r, advanced;
      }
    }
    return Ok(()), advanced;
  }

  lemma NothingChecked(st: StoreState, name: string, page: seq<KeyInfo>, now: Time)
    requires name in st.users
    ensures IdsOf(page)[..|page|] == IdsOf(page) && Select(IdsOf(page)[..0], id => Selects(st.users[name].keys, now, id)) == []
    ensures st == WithKeys(st, name, Pruned(st.users[name].keys, IdsOf(page)[..0], now))
  {
    assert Pruned(st.users[name].keys, IdsOf(page)[..0], now) == st.users[name].keys;
    assert st.users[name := st.users[name].(keys := st.users[name].keys)] == st.users;
  }

  /** Each key is stored under its own id. */
  ghost predicate OwnIds(keys: map<string, KeyRecord>) {
    forall id :: id in keys ==> keys[id].info.id == id
  }

  lemma ListedIds(keys: map<string, KeyRecord>)
    requires OwnIds(keys)
    ensures IdsOf(ListedKeys(keys)) == KeyIds(keys) && |KeyIds(keys)| == |keys|
    ensures SortedBy(StringLess, IdsOf(ListedKeys(keys)))
    ensures forall i :: 0 <= i < |keys| ==> ListedKeys(keys)[i].id in keys && keys[ListedKeys(keys)[i].id].info == ListedKeys(keys)[i]
  {
    CountIds(keys);
    assert forall i :: 0 <= i < |KeyIds(keys)| ==> KeyIds(keys)[i] in keys;
  }

  lemma SortedDistinct(ids: seq<string>)
    requires SortedBy(StringLess, ids)
    ensures Distinct(ids)
  {
    StringOrder();
    forall i, j | 0 <= i < j < |ids|
      ensures ids[i] != ids[j]
    {
      assert StringLess(ids[i], ids[j]);
    }
  }

  /** What the backend lists as one page really is a page of the user's keys. */
  lemma PagesOfIds(keys: map<string, KeyRecord>, listed: seq<KeyInfo>, offset: nat, end: nat)
    requires offset <= end <= |listed| && SortedBy(StringLess, IdsOf(listed))
    requires forall i :: 0 <= i < |listed| ==> listed[i].id in keys && keys[listed[i].id].info == listed[i]
    ensures IdsOf(listed) == IdsOf(listed)[..offset] + IdsOf(listed[offset..end]) + IdsOf(listed)[end..]
    ensures IsPage(keys, listed[offset..end])
  {
    assert IdsOf(listed[offset..end]) == IdsOf(listed)[offset..end];
    SortedDistinct(IdsOf(listed)[offset..end]);
  }

  /** The cleanup has got past the first `offset` keys left, all of them valid. */
  ghost predicate Past(keys: map<string, KeyRecord>, offset: nat, now: Time) {
    offset <= |KeyIds(keys)| == |keys| && AllValid(keys, KeyIds(keys)[..offset], now)
  }

  /** One round: the offset stays past valid keys only, the distance to the end shrinks by the whole page,
      and where the loop stops no invalid key is left. */
  ghost predicate Advances(keys: map<string, KeyRecord>, offset: nat, pageLimit: nat, now: Time, page: seq<KeyInfo>) {
    var rest, advanced := Pruned(keys, IdsOf(page), now), |Select(IdsOf(page), id => Selects(keys, now, id))|;
    && IsPage(keys, page) && OwnIds(rest) && Past(rest, offset + advanced, now)
    && |rest| - (offset + advanced) == |keys| - offset - |page|
    && ValidKeys(rest, now) == ValidKeys(keys, now)
    && (page == [] ==> keys == ValidKeys(keys, now))
    && (|page| < pageLimit && advanced == |page| ==> rest == ValidKeys(rest, now))
  }

  lemma FewerOwnIds(keys: map<string, KeyRecord>, ids: seq<string>, now: Time)
    requires OwnIds(keys)
    ensures OwnIds(Pruned(keys, ids, now))
  {
  }

  lemma PastNone(st: StoreState, name: string, now: Time)
    requires KeysConsistent(st) && name in st.users
    ensures OwnIds(st.users[name].keys) && Past(st.users[name].keys, 0, now)
  {
    CountIds(st.users[name].keys);
  }

  lemma PastWithin(keys: map<string, KeyRecord>, offset: nat, now: Time)
    requires Past(keys, offset, now)
    ensures offset <= |KeyIds(keys)| == |keys| && AllValid(keys, KeyIds(keys)[..offset], now)
  {
  }

  function PageEnd(length: nat, pageLimit: nat, offset: nat): nat {
    if offset + pageLimit < length then offset + pageLimit else length
  }

  lemma SliceIs<T>(all: seq<T>, pageLimit: nat, offset: nat)
    requires offset <= |all|
    ensures var end := PageEnd(|all|, pageLimit, offset);
            offset <= end <= |all| && Slice(all, pageLimit, offset) == all[offset..end] && (end - offset < pageLimit ==> end == |all|)
  {
  }

  lemma RoundAdvances(keys: map<string, KeyRecord>, offset: nat, pageLimit: nat, now: Time)
    requires 1 <= pageLimit && OwnIds(keys) && Past(keys, offset, now)
    ensures Advances(keys, offset, pageLimit, now, Slice(ListedKeys(keys), pageLimit, offset))
  {
    hide KeyIds, ListedKeys, Slice, Past, OwnIds, Advances, IdsOf, IsPage, AllValid;
    var listed, end := ListedKeys(keys), PageEnd(|keys|, pageLimit, offset);
    PastWithin(keys, offset, now);
    ListedIds(keys);
    SliceIs(listed, pageLimit, offset);
    PagesOfIds(keys, listed, offset, end);
    AdvancesOver(keys, KeyIds(keys)[..offset], listed[offset..end], KeyIds(keys)[end..], pageLimit, now);
  }

  lemma AdvancesOver(keys: map<string, KeyRecord>, before: seq<string>, page: seq<KeyInfo>, behind: seq<string>,
                     pageLimit: nat, now: Time)
    requires OwnIds(keys) && IsPage(keys, page) && KeyIds(keys) == before + IdsOf(page) + behind && AllValid(keys, before, now)
    requires |page| < pageLimit ==> behind == []
    requires 1 <= pageLimit
    ensures Advances(keys, |before|, pageLimit, now, page)
  {
    hide KeyIds, IsPage, Select, Selects, ValidKeys, Pruned, AllValid;
    var rest, valid := Pruned(keys, IdsOf(page), now), Select(IdsOf(page), id => Selects(keys, now, id));
    PageChecked(keys, before, IdsOf(page), behind, now);
    CountIds(rest);
    assert (before + valid + behind)[..|before| + |valid|] == before + valid;
    FewerOwnIds(keys, IdsOf(page), now);
    if |page| < pageLimit {
      assert before + valid + behind == before + valid;
      OnlyValid(rest, before + valid, now);
    }
    if page == [] {
      assert before + IdsOf(page) + behind == before;
      OnlyValid(keys, before, now);
    }
  }

  /** A key is left, unchanged, exactly when it never expires, or expires later than now and not at the
      zero time. */
  ghost predicate LeavesUnexpired(before: map<string, KeyRecord>, after: map<string, KeyRecord>, now: Time) {
    forall id, key :: id in after && after[id] == key <==>
      && id in before && before[id] == key
      && (key.info.expires.None? || (key.info.expires.value != ZERO_TIME && now < key.info.expires.value))
  }

  lemma ValidKeysUnexpired(keys: map<string, KeyRecord>, now: Time)
    ensures LeavesUnexpired(keys, ValidKeys(keys, now), now)
  {
  }

  /** A later cleanup makes an earlier one superfluous. */
  lemma CleanTwice(keys: map<string, KeyRecord>, now: Time, later: Time)
    requires now <= later
    ensures ValidKeys(ValidKeys(keys, now), later) == ValidKeys(keys, later)
  {
    forall id | id in keys && ValidAt(keys[id].info, later)
      ensures ValidAt(keys[id].info, now)
    {
      ValidityEnds(keys[id].info, now, later);
    }
  }

  /** Deletes while paging: the offset advances only past the keys that remain, so none is skipped, and
      every page either ends the loop or brings the end nearer. Exactly the keys valid at `now` are left. */
  method CleanupUser(backend: MemoryBackend, name: string, now: Time, pageLimit: nat) returns (r: Result<(), StoreError>)
    requires KeysConsistent(backend.State()) && 1 <= pageLimit
    modifies backend
    ensures var st := old(backend.State());
            if name !in st.users then r == Err(UserNotFound) && backend.State() == st
            else r == Ok(()) && backend.State() == WithKeys(st, name, ValidKeys(st.users[name].keys, now))
    ensures name in old(backend.users) ==>
              name in backend.users && LeavesUnexpired(old(backend.users)[name].keys, backend.users[name].keys, now)
  {
    hide KeyIds, ListedKeys, IdsOf, IsPage, Select, Selects, ValidKeys, Pruned, Past, OwnIds, Slice, WithKeys;
    hide KeysConsistent, LeavesUnexpired;
    if name !in backend.users {
      return Err(UserNotFound);
    }
    var keyOffset: nat := 0;
    ghost var st, keys := backend.State(), backend.users[name].keys;
    ValidKeysUnexpired(keys, now);
    WithSameKeys(st, name);
    PastNone(st, name, now);
    while true
      invariant name in backend.users && backend.users[name].keys == keys && backend.State() == WithKeys(st, name, keys)
      invariant OwnIds(keys) && Past(keys, keyOffset, now) && keyOffset <= |keys|
      invariant ValidKeys(keys, now) == ValidKeys(st.users[name].keys, now)
      decreases |keys| - keyOffset
    {
      RoundAdvances(keys, keyOffset, pageLimit, now);
      var listed := backend.ListKeys(name, pageLimit, keyOffset);
      var items := listed.value.items;
      if |items| == 0 {
        return Ok(());
      }
      ghost var rest := Pruned(keys, IdsOf(items), now);
      WithKeysTwice(st, name, keys, rest);
      var checked, advanced := CheckPage(backend, name, items, now);
      keys := rest;
      keyOffset := keyOffset + advanced;
      PastWithin(keys, keyOffset, now);
      if |items| < pageLimit && advanced == |items| {
        return Ok(());
      }
    }
  }

  lemma WithSameKeys(st: StoreState, name: string)
    requires name in st.users
    ensures WithKeys(st, name, st.users[name].keys) == st
  {
    assert st.users[name := st.users[name].(keys := st.users[name].keys)] == st.users;
  }

  lemma WithKeysTwice(st: StoreState, name: string, first: map<string, KeyRecord>, second: map<string, KeyRecord>)
    requires name in st.users
    ensures name in WithKeys(st, name, first).users && WithKeys(st, name, first).users[name].keys == first
    ensures name in WithKeys(st, name, second).users && WithKeys(st, name, second).users[name].keys == second
    ensures WithKeys(WithKeys(st, name, first), name, second) == WithKeys(st, name, second)
  {
    assert st.users[name := st.users[name].(keys := first)][name := st.users[name].(keys := second)]
        == st.users[name := st.users[name].(keys := second)];
  }

  lemma OnlyValid(keys: map<string, KeyRecord>, ids: seq<string>, now: Time)
    requires KeyIds(keys) == ids && AllValid(keys, ids, now)
    ensures keys == ValidKeys(keys, now)
  {
    forall id | id in keys
      ensures ValidAt(keys[id].info, now)
    {
      assert id in ids;
    }
  }

  // ---- the cleanup of all users ------------------------------------------------------

  function NamesOf(users: seq<UserInfo>): (names: seq<string>)
    ensures |names| == |users|
  {
    seq(|users|, i requires 0 <= i < |users| => users[i].username)
  }

  function UserNames(st: StoreState): seq<string> {
    NamesOf(ListedUsers(st, None, None))
  }

  lemma AllUserNames(st: StoreState)
    ensures UserNames(st) == ListedNames(st, None, None) && Distinct(UserNames(st)) && SortedBy(StringLess, UserNames(st))
    ensures forall name :: name in UserNames(st) <==> name in st.users
  {
    assert UserNames(st) == ListedNames(st, None, None);
    SortedDistinct(UserNames(st));
  }

  /** The listing of users depends on who there is, not on their keys. */
  lemma SameUserNames(a: StoreState, b: StoreState)
    requires a.users.Keys == b.users.Keys
    ensures UserNames(a) == UserNames(b)
  {
    StringOrder();
    AllUserNames(a);
    AllUserNames(b);
    SortedUnique(StringLess, UserNames(a), UserNames(b));
  }

  function CleanedUser(u: User, now: Time): User {
    u.(keys := ValidKeys(u.keys, now))
  }

  /** The users, those on a list left with the keys valid at `now`. */
  function CleanedUsers(users: map<string, User>, done: seq<string>, now: Time): map<string, User> {
    map name | name in users ::
      if name in done then CleanedUser(users[name], now) else users[name]
  }

  function Cleaned(st: StoreState, done: seq<string>, now: Time): StoreState {
    st.(users := CleanedUsers(st.users, done, now))
  }

  /** The state with the first k users of the listing cleaned up. */
  ghost function CleanedFirst(st: StoreState, k: nat, now: Time): StoreState
    requires k <= |UserNames(st)|
  {
    Cleaned(st, UserNames(st)[..k], now)
  }

  lemma CleanedOneMore(st: StoreState, done: seq<string>, name: string, now: Time)
    requires name in st.users && name !in done
    ensures var before := Cleaned(st, done, now);
            && name in before.users && before.users[name].keys == st.users[name].keys
            && WithKeys(before, name, ValidKeys(st.users[name].keys, now)) == Cleaned(st, done + [name], now)
  {
  }

  lemma CleanedKeeps(st: StoreState, done: seq<string>, now: Time)
    requires KeysConsistent(st)
    ensures KeysConsistent(Cleaned(st, done, now)) && UserNames(Cleaned(st, done, now)) == UserNames(st)
    ensures Cleaned(st, [], now) == st
  {
    FewerKeys(st, Cleaned(st, done, now));
    SameUserNames(st, Cleaned(st, done, now));
    assert CleanedUsers(st.users, [], now) == st.users;
  }

  lemma CleanedFirstKeeps(st: StoreState, k: nat, now: Time)
    requires KeysConsistent(st) && k <= |UserNames(st)|
    ensures KeysConsistent(CleanedFirst(st, k, now)) && UserNames(CleanedFirst(st, k, now)) == UserNames(st)
    ensures CleanedFirst(st, 0, now) == st
  {
    CleanedKeeps(st, UserNames(st)[..k], now);
    assert UserNames(st)[..0] == [];
  }

  lemma CleanedNext(st: StoreState, k: nat, now: Time)
    requires k < |UserNames(st)|
    ensures var (before, name) := (CleanedFirst(st, k, now), UserNames(st)[k]);
            && name in before.users
            && WithKeys(before, name, ValidKeys(before.users[name].keys, now)) == CleanedFirst(st, k + 1, now)
  {
    hide UserNames, Cleaned, WithKeys, ValidKeys;
    AllUserNames(st);
    var names := UserNames(st);
    assert names[k] in names && names[..k + 1] == names[..k] + [names[k]];
    assert forall i :: 0 <= i < k ==> names[i] != names[k];
    CleanedOneMore(st, names[..k], names[k], now);
  }

  lemma KeysApart(st: StoreState)
    requires Consistent(st)
    ensures KeysConsistent(st)
  {
  }

  lemma PageOfNames(st: StoreState, pageLimit: nat, offset: nat)
    requires offset <= |UserNames(st)| && 1 <= pageLimit
    ensures var (names, page) := (UserNames(st), Cut(ListedUsers(st, None, None), pageLimit, offset));
            && page.total == |names| && offset + |page.items| <= |names|
            && (forall i :: 0 <= i < |page.items| ==> page.items[i].username == names[offset + i])
            && (|page.items| < pageLimit ==> offset + |page.items| == |names|)
  {
    hide ListedUsers;
  }

  datatype CleanupError = InvalidUsername | BackendFailed

  /** The users before the first one, in listing order, whose name is not a valid username. */
  function ValidPrefix(names: seq<string>): (k: nat)
    ensures k <= |names| && forall i :: 0 <= i < k ==> IsSlug(names[i])
    ensures k < |names| ==> !IsSlug(names[k])
  {
    if names == [] || !IsSlug(names[0]) then 0 else 1 + ValidPrefix(names[1..])
  }

  /** The users of one page, `offset` being its place in the listing of the original state. */
  method CleanupPage(backend: MemoryBackend, items: seq<UserInfo>, ghost st: StoreState, ghost offset: nat, now: Time, pageLimit: nat)
    returns (r: Result<(), CleanupError>)
    requires KeysConsistent(st) && 1 <= pageLimit && offset + |items| <= |UserNames(st)| && offset <= ValidPrefix(UserNames(st))
    requires forall i :: 0 <= i < |items| ==> items[i].username == UserNames(st)[offset + i]
    requires backend.State() == CleanedFirst(st, offset, now)
    modifies backend
    ensures var k := ValidPrefix(UserNames(st));
            if k < offset + |items| then r == Err(InvalidUsername) && backend.State() == CleanedFirst(st, k, now)
            else r == Ok(()) && backend.State() == CleanedFirst(st, offset + |items|, now)
  {
    hide KeysConsistent, UserNames, IsSlug, CleanedFirst, ValidKeys, WithKeys, ValidPrefix, MemoryBackend.State;
    for i := 0 to |items|
      invariant offset + i <= ValidPrefix(UserNames(st)) && backend.State() == CleanedFirst(st, offset + i, now)
    {
      CleanedFirstKeeps(st, offset + i, now);
      CleanedNext(st, offset + i, now);
      var name := items[i].username;
      if !IsSlug(name) {
        return Err(InvalidUsername);
      }
      var cleaned := CleanupUser(backend, name, now, pageLimit);
      if cleaned.Err? {
        return Err(BackendFailed);
      }
    }
    return Ok(());
  }

  /** Pages through all users and cleans up each of them: every key valid at `now` stays, every other goes,
      and nothing else changes. It stops at the first stored username that is not valid. */
  method CleanupExpiredKeys(backend: MemoryBackend, anonymous: bool, now: Time, pageLimit: nat) returns (r: Result<(), CleanupError>)
    requires backend.Valid() && 1 <= pageLimit
    modifies backend
    ensures anonymous ==> r == Ok(()) && backend.State() == old(backend.State())
    ensures !anonymous ==>
              var names := UserNames(old(backend.State()));
              && backend.State() == CleanedFirst(old(backend.State()), ValidPrefix(names), now)
              && r == if ValidPrefix(names) == |names| then Ok(()) else Err(InvalidUsername)
  {
    hide Consistent, KeysConsistent, ListedUsers, UserNames, IsSlug, CleanedFirst, ValidKeys, WithKeys, ValidPrefix, Cut;
    if anonymous {
      return Ok(());
    }
    ghost var st, names := backend.State(), UserNames(backend.State());
    KeysApart(st);
    CleanedFirstKeeps(st, 0, now);
    var userOffset: nat := 0;
    while true
      invariant userOffset <= ValidPrefix(names) && backend.State() == CleanedFirst(st, userOffset, now)
      decreases |names| - userOffset
    {
      CleanedFirstKeeps(st, userOffset, now);
      var page := backend.ListUsers(None, None, pageLimit, userOffset);
      PageOfNames(backend.State(), pageLimit, userOffset);
      var items := page.items;
      if |items| == 0 {
        return Ok(());
      }
      r := CleanupPage(backend, items, st, userOffset, now, pageLimit);
      if r.Err? {
        return r;
      }
      userOffset := userOffset + |items|;
      if userOffset >= page.total || |items| < pageLimit {
        return Ok(());
      }
    }
  }

  /** The cleanup gets past every user exactly when every stored username is valid. */
  lemma AllPrefixValid(st: StoreState)
    ensures ValidPrefix(UserNames(st)) == |UserNames(st)| <==> forall name :: name in st.users ==> IsSlug(name)
  {
    hide UserNames, IsSlug, ValidPrefix;
    AllUserNames(st);
    forall name | name in st.users && ValidPrefix(UserNames(st)) == |UserNames(st)|
      ensures IsSlug(name)
    {
      assert name in UserNames(st);
    }
    assert forall i :: 0 <= i < |UserNames(st)| ==> UserNames(st)[i] in st.users;
  }

  lemma EveryoneCleaned(users: map<string, User>, names: seq<string>, now: Time)
    requires forall name :: name in users ==> name in names
    ensures CleanedUsers(users, names, now) == map name | name in users :: CleanedUser(users[name], now)
  {
    hide ValidKeys;
  }

  /** Then it leaves each user with the keys valid at `now`, and the rest of the state as it was. */
  lemma CleanupExact(st: StoreState, now: Time)
    ensures CleanedFirst(st, |UserNames(st)|, now) == st.(users := map name | name in st.users :: CleanedUser(st.users[name], now))
  {
    hide UserNames, CleanedUsers, CleanedUser;
    AllUserNames(st);
    assert UserNames(st)[..|UserNames(st)|] == UserNames(st);
    EveryoneCleaned(st.users, UserNames(st), now);
  }

  // ---- listing the valid keys ----------------------------------------------------------

  /** What ListKeys answers, page by page. */
  function KeyGetter(st: StoreState, name: string): Getter<KeyInfo, StoreError> {
    (limit: nat, offset: nat) =>
      if name in st.users then Ok(Slice(ListedKeys(st.users[name].keys), limit, offset)) else Err(UserNotFound)
  }

  function ValidOnes(now: Time): KeyInfo -> bool {
    (info: KeyInfo) => ValidAt(info, now)
  }

  function ValidKeyInfos(keys: map<string, KeyRecord>, now: Time): seq<KeyInfo> {
    Select(ListedKeys(keys), ValidOnes(now))
  }

  /** Whatever the internal page size, listing a user's valid keys is filtering the full listing and
      cutting out the page asked for. */
  method ListValidKeys(backend: MemoryBackend, name: string, now: Time, pageLimit: nat, limit: nat, offset: nat)
    returns (r: Result<Page<KeyInfo>, StoreError>)
    requires 1 <= pageLimit
    ensures r == if name !in backend.users then Err(UserNotFound)
                 else Ok(Cut(ValidKeyInfos(backend.users[name].keys, now), limit, offset))
  {
    hide ListedKeys, Select, Slice, SentFrom, Kept;
    var get := KeyGetter(backend.State(), name);
    var condition := (info: KeyInfo) => Ok(ValidAt(info, now));
    ghost var all := if name in backend.users then ListedKeys(backend.users[name].keys) else [];
    PagesEnd(get, all, pageLimit);
    var filtered := Filter.Filter(get, condition, pageLimit, limit, offset, |all|);
    if name in backend.users {
      FilterIsSelect(get, condition, ValidOnes(now), pageLimit, limit, offset, all);
    } else {
      StreamStep(get, |all|, pageLimit, 0);
      FailsAtOnce(get, all, condition, pageLimit);
    }
    if filtered.Err? {
      return Err(filtered.error.cause);
    }
    return Ok(Page(filtered.value.total, filtered.value.offset, filtered.value.items));
  }

  /** Cleaning up is invisible to a listing of the keys valid at the same time, and leaves no key that
      such a listing would not show. */
  lemma CleanupInvisible(keys: map<string, KeyRecord>, now: Time)
    requires OwnIds(keys)
    ensures ValidKeyInfos(ValidKeys(keys, now), now) == ValidKeyInfos(keys, now) == ListedKeys(ValidKeys(keys, now))
  {
    hide KeyIds, Select, Infos;
    var left := ValidKeys(keys, now);
    ValidIds(keys, now);
    SelectMapped(keys, left, KeyIds(keys), now);
    ListedIds(left);
    ListedAreValid(left, now);
    SelectEverything(ListedKeys(left), ValidOnes(now));
  }

  lemma ValidIds(keys: map<string, KeyRecord>, now: Time)
    ensures KeyIds(ValidKeys(keys, now)) == Select(KeyIds(keys), (id: string) => Selects(keys, now, id))
  {
    hide KeyIds, Select;
    var keep := (id: string) => Selects(keys, now, id);
    StringOrder();
    SelectElements(KeyIds(keys), keep);
    SelectSorted(StringLess, KeyIds(keys), keep);
    SortedUnique(StringLess, KeyIds(ValidKeys(keys, now)), Select(KeyIds(keys), keep));
  }

  lemma ListedAreValid(keys: map<string, KeyRecord>, now: Time)
    requires keys == ValidKeys(keys, now)
    ensures forall info :: info in ListedKeys(keys) ==> ValidAt(info, now)
  {
    hide KeyIds;
  }

  lemma {:induction false} SelectMapped(keys: map<string, KeyRecord>, left: map<string, KeyRecord>, ids: seq<string>, now: Time)
    requires left == ValidKeys(keys, now) && forall id :: id in ids ==> id in keys
    ensures var kept := Select(ids, (id: string) => Selects(keys, now, id));
            && (forall id :: id in kept ==> id in left)
            && Infos(Records(left, kept)) == Select(Infos(Records(keys, ids)), ValidOnes(now))
  {
    if ids != [] {
      SelectMapped(keys, left, ids[1..], now);
      SelectElements(ids, (id: string) => Selects(keys, now, id));
      var infos := Infos(Records(keys, ids));
      assert infos[1..] == Infos(Records(keys, ids[1..]));
    }
  }

  // ---- logging in ------------------------------------------------------------------------

  /** A raw key lets its owner in at a time. */
  ghost predicate LogsInAs(st: StoreState, anonymous: bool, format: ApiKey.KeyFormat, key: string, now: Time,
                           name: string, id: string) {
    !anonymous && key != "" && Owns(st, format, key, name, id) && ValidAt(st.users[name].keys[id].info, now) && IsSlug(name)
  }

  method AuthenticateAPIKey(backend: MemoryBackend, anonymous: bool, format: ApiKey.KeyFormat, key: string, now: Time)
    returns (r: Option<(string, KeyInfo)>)
    requires KeysConsistent(backend.State())
    ensures r.None? ==> forall name, id :: !LogsInAs(backend.State(), anonymous, format, key, now, name, id)
    ensures r.Some? ==> exists id :: LogsInAs(backend.State(), anonymous, format, key, now, r.value.0, id)
                                     && backend.users[r.value.0].keys[id].info == r.value.1
  {
    hide IsSlug, KeysConsistent, ApiKey.Hash;
    if anonymous || key == "" {
      return None;
    }
    var found := backend.LookupUserByKey(format, key);
    if found.Err? {
      return None;
    }
    var (name, info) := found.value;
    ghost var id :| Owns(backend.State(), format, key, name, id) && backend.users[name].keys[id].info == info;
    forall name', id' | Owns(backend.State(), format, key, name', id')
      ensures name' == name && id' == id
    {
      OwnerUnique(backend.State(), format, key, name, id, name', id');
    }
    if !ValidAt(info, now) {
      return None;
    }
    if !IsSlug(name) {
      return None;
    }
    assert LogsInAs(backend.State(), anonymous, format, key, now, name, id);
    return Some((name, info));
  }

  /** No cleanup, complete or not, takes away a login that would still work at that time or later, and
      none brings one back. */
  lemma CleanupKeepsLogins(st: StoreState, k: nat, now: Time, later: Time, anonymous: bool, format: ApiKey.KeyFormat, key: string,
                           name: string, id: string)
    requires k <= |UserNames(st)| && now <= later
    ensures LogsInAs(CleanedFirst(st, k, now), anonymous, format, key, later, name, id)
       <==> LogsInAs(st, anonymous, format, key, later, name, id)
  {
    hide UserNames, ApiKey.Hash, IsSlug;
    if name in st.users && id in st.users[name].keys && ValidAt(st.users[name].keys[id].info, later) {
      ValidityEnds(st.users[name].keys[id].info, now, later);
    }
  }

  // ---- issuing a key ---------------------------------------------------------------------

  datatype IssueKeyError = UnknownUser | BadGeneration | DatabaseFailed | InsufficientEntropy

  /** A generator answer that is an error or the end. */
  predicate Broken(answer: Pulled) {
    answer.Eof? || answer.item.failed
  }

  /** What the backend makes of an id and a key. */
  ghost function Attempt(st: StoreState, format: ApiKey.KeyFormat, name: string, id: Pulled, key: Pulled, req: KeyRequest, now: Time)
    : Outcome<KeyInfo>
    requires !Broken(id) && !Broken(key)
  {
    Store.CreateKey(st, format, name, id.item.value, key.item.value, req, now)
  }

  ghost predicate Collided(st: StoreState, format: ApiKey.KeyFormat, name: string, id: Pulled, key: Pulled,
                           req: KeyRequest, now: Time) {
    !Broken(id) && !Broken(key) && Attempt(st, format, name, id, key, req, now).1 == Err(KeyCollision)
  }

  /** An id the user has already, or a key that somebody has. */
  ghost predicate PairInUse(st: StoreState, format: ApiKey.KeyFormat, name: string, id: Pulled, key: Pulled) {
    && id.Yielded? && !id.item.failed && key.Yielded? && !key.item.failed && name in st.users
    && (id.item.value in st.users[name].keys || exists other, other' :: Owns(st, format, key.item.value, other, other'))
  }

  lemma CollidedInUse(st: StoreState, format: ApiKey.KeyFormat, name: string, id: Pulled, key: Pulled, req: KeyRequest, now: Time)
    requires Collided(st, format, name, id, key, req, now)
    ensures PairInUse(st, format, name, id, key)
  {
    hide Owns, Store.CreateKey, ApiKey.IsKey;
    Observed.KeyCollisionIff(st, format, name, id.item.value, key.item.value, req, now);
  }

  /** The key asked for, with the id and the raw key drawn. */
  ghost predicate Issued(info: KeyInfo, raw: string, id: Pulled, key: Pulled, req: KeyRequest, now: Time) {
    id == Yielded(Item(info.id, false)) && key == Yielded(Item(raw, false)) && Observed.AsRequested(info, info.id, req, now)
  }

  lemma KeyIssued(st: StoreState, format: ApiKey.KeyFormat, name: string, id: Pulled, key: Pulled, req: KeyRequest, now: Time)
    requires !Broken(id) && !Broken(key) && Attempt(st, format, name, id, key, req, now).1.Ok?
    ensures Issued(Attempt(st, format, name, id, key, req, now).1.value, key.item.value, id, key, req, now)
  {
    hide Owns, Store.CreateKey;
    Observed.KeyCreated(st, format, name, id.item.value, key.item.value, req, now);
  }

  /** Draws an id and a key per attempt until the pair is free. Every pair before the last collided, and
      the last one decides. On success the raw key identifies its user and record and nobody else's;
      otherwise nothing changes. */
  method IssueAPIKey(backend: MemoryBackend, format: ApiKey.KeyFormat, name: string, req: KeyRequest, maxAttempts: nat,
                     ids: Generator, keys: Generator, now: Time)
    returns (r: Result<(KeyInfo, string), IssueKeyError>, ghost drawnIds: seq<Pulled>, ghost drawnKeys: seq<Pulled>)
    requires backend.Valid()
    modifies backend
    ensures backend.Valid() && Follows(ids, drawnIds) && Follows(keys, drawnKeys)
    ensures |drawnIds| <= maxAttempts && |drawnIds| - 1 <= |drawnKeys| <= |drawnIds|
    ensures forall i :: 0 <= i < |drawnIds| - 1 ==>
              Collided(old(backend.State()), format, name, drawnIds[i], drawnKeys[i], req, now)
    ensures drawnIds == [] ==> maxAttempts == 0 && r == Err(InsufficientEntropy)
    ensures drawnIds != [] && Broken(drawnIds[|drawnIds| - 1]) ==> r == Err(BadGeneration)
    ensures drawnIds != [] && !Broken(drawnIds[|drawnIds| - 1]) ==> |drawnKeys| == |drawnIds|
    ensures |drawnKeys| == |drawnIds| > 0 && Broken(drawnKeys[|drawnKeys| - 1]) ==> r == Err(BadGeneration)
    ensures |drawnKeys| == |drawnIds| > 0 && !Broken(drawnIds[|drawnIds| - 1]) && !Broken(drawnKeys[|drawnKeys| - 1]) ==>
              var (id, key) := (drawnIds[|drawnIds| - 1], drawnKeys[|drawnKeys| - 1]);
              match Attempt(old(backend.State()), format, name, id, key, req, now)
              case (after, Ok(info)) => r == Ok((info, key.item.value)) && backend.State() == after
              case (after, Err(KeyCollision)) => r == Err(InsufficientEntropy) && |drawnIds| == maxAttempts
              case (after, Err(UserNotFound)) => r == Err(UnknownUser)
              case (after, Err(_)) => r == Err(DatabaseFailed)
    ensures forall i :: 0 <= i < |drawnIds| - 1 ==> PairInUse(old(backend.State()), format, name, drawnIds[i], drawnKeys[i])
    ensures r.Ok? ==>
              var (info, key) := r.value;
              && |drawnKeys| == |drawnIds| > 0
              && Issued(info, key, drawnIds[|drawnIds| - 1], drawnKeys[|drawnKeys| - 1], req, now)
              && Owns(backend.State(), format, key, name, info.id)
              && forall other, id :: Owns(backend.State(), format, key, other, id) ==> other == name && id == info.id
    ensures r.Err? ==> backend.State() == old(backend.State())
  {
    hide Consistent, Puller.Valid, Follows, Owns, Collides, ApiKey.Hash, Collided, PairInUse, Issued;
    var idPuller := new Puller(ids);
    var keyPuller := new Puller(keys);
    idPuller.AnswersFollow();
    keyPuller.AnswersFollow();
    r, drawnIds, drawnKeys := Err(InsufficientEntropy), [], [];
    for attempt := 0 to maxAttempts
      invariant backend.State() == old(backend.State()) && r == Err(InsufficientEntropy)
      invariant idPuller.Valid() && fresh(idPuller) && idPuller.generator == ids && idPuller.answers == drawnIds && !idPuller.stopped
      invariant keyPuller.Valid() && fresh(keyPuller) && keyPuller.generator == keys && keyPuller.answers == drawnKeys && !keyPuller.stopped
      invariant idPuller != keyPuller && |drawnIds| == |drawnKeys| == attempt
      invariant Follows(ids, drawnIds) && Follows(keys, drawnKeys)
      invariant forall i :: 0 <= i < attempt ==> Collided(old(backend.State()), format, name, drawnIds[i], drawnKeys[i], req, now)
      invariant forall i :: 0 <= i < attempt ==> PairInUse(old(backend.State()), format, name, drawnIds[i], drawnKeys[i])
    {
      var id := idPuller.Next();
      drawnIds := drawnIds + [id];
      idPuller.AnswersFollow();
      if id.Eof? || id.item.failed {
        return Err(BadGeneration), drawnIds, drawnKeys;
      }
      var key := keyPuller.Next();
      drawnKeys := drawnKeys + [key];
      keyPuller.AnswersFollow();
      if key.Eof? || key.item.failed {
        return Err(BadGeneration), drawnIds, drawnKeys;
      }
      var out := backend.CreateKey(format, name, id.item.value, key.item.value, req, now);
      if out.Ok? {
        IssuedOwned(old(backend.State()), format, name, id.item.value, key.item.value, req, now);
        KeyIssued(old(backend.State()), format, name, id, key, req, now);
        return Ok((out.value, key.item.value)), drawnIds, drawnKeys;
      }
      RefusedKey(old(backend.State()), format, name, id.item.value, key.item.value, req, now);
      if out.error == UserNotFound {
        return Err(UnknownUser), drawnIds, drawnKeys;
      }
      if out.error != KeyCollision {
        return Err(DatabaseFailed), drawnIds, drawnKeys;
      }
      PairCollided(old(backend.State()), format, name, id, key, req, now);
      CollidedInUse(old(backend.State()), format, name, id, key, req, now);
    }
    LastCollided(old(backend.State()), format, name, drawnIds, drawnKeys, req, now);
  }

  lemma RefusedKey(st: StoreState, format: ApiKey.KeyFormat, name: string, id: string, key: string, req: KeyRequest, now: Time)
    requires Store.CreateKey(st, format, name, id, key, req, now).1.Err?
    ensures Store.CreateKey(st, format, name, id, key, req, now).0 == st
  {
  }

  lemma PairCollided(st: StoreState, format: ApiKey.KeyFormat, name: string, id: Pulled, key: Pulled, req: KeyRequest, now: Time)
    requires !Broken(id) && !Broken(key) && Attempt(st, format, name, id, key, req, now).1 == Err(KeyCollision)
    ensures Collided(st, format, name, id, key, req, now)
  {
  }

  lemma LastCollided(st: StoreState, format: ApiKey.KeyFormat, name: string, ids: seq<Pulled>, keys: seq<Pulled>,
                     req: KeyRequest, now: Time)
    requires |ids| == |keys| && forall i :: 0 <= i < |ids| ==> Collided(st, format, name, ids[i], keys[i], req, now)
    ensures ids != [] ==>
              var last := |ids| - 1;
              !Broken(ids[last]) && !Broken(keys[last]) && Attempt(st, format, name, ids[last], keys[last], req, now).1 == Err(KeyCollision)
  {
  }

  lemma IssuedOwned(st: StoreState, format: ApiKey.KeyFormat, name: string, id: string, key: string, req: KeyRequest, now: Time)
    requires Consistent(st) && Store.CreateKey(st, format, name, id, key, req, now).1.Ok?
    ensures var (after, r) := Store.CreateKey(st, format, name, id, key, req, now);
            && r.value.id == id && Consistent(after) && Owns(after, format, key, name, id)
            && forall other, other' :: Owns(after, format, key, other, other') ==> other == name && other' == id
  {
    hide Consistent, Owns;
    CreateKeyAdds(st, format, name, id, key, req, now);
    CreatedKeyOwned(st, format, name, id, key, req, now, []);
    ApplyConsistent(st, OpCreateKey(format, name, id, key, req, now));
  }
}
