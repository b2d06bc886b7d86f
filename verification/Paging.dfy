/** One page of a listing. */
module Paging {
  import opened Sorting

  datatype Page<T> = Page(total: nat, offset: nat, items: seq<T>)

  /** At most `limit` elements after the first `offset`. */
  function Slice<T>(all: seq<T>, limit: nat, offset: nat): seq<T> {
    if offset >= |all| then [] else if offset + limit < |all| then all[offset..offset + limit] else all[offset..]
  }

  function Cut<T>(all: seq<T>, limit: nat, offset: nat): Page<T> {
    Page(|all|, offset, Slice(all, limit, offset))
  }

  /** The pages at 0, limit, 2 * limit, ..., joined together. */
  function JoinedPages<T>(all: seq<T>, limit: nat, pages: nat): seq<T> {
    if pages == 0 then [] else JoinedPages(all, limit, pages - 1) + Slice(all, limit, (pages - 1) * limit)
  }

  /** Going from page to page with any page size shows the listing from its start, each element once
      and in order, and enough pages show all of it. */
  lemma {:induction false} PagesJoin<T>(all: seq<T>, limit: nat, pages: nat)
    ensures JoinedPages(all, limit, pages) == if pages * limit < |all| then all[..pages * limit] else all
  {
    if pages > 0 {
      PagesJoin(all, limit, pages - 1);
      NextPage(all, limit, (pages - 1) * limit);
      assert pages * limit == (pages - 1) * limit + limit;
    } else {
      assert all[..0] == [];
    }
  }

  lemma NextPage<T>(all: seq<T>, limit: nat, offset: nat)
    ensures (if offset < |all| then all[..offset] else all) + Slice(all, limit, offset)
         == if offset + limit < |all| then all[..offset + limit] else all
  {
  }

  /** The records of a map in the order of a list of its keys. */
  function Records<K, V>(m: map<K, V>, keys: seq<K>): seq<V>
    requires forall k :: k in keys ==> k in m
  {
    seq(|keys|, i requires 0 <= i < |keys| => m[keys[i]])
  }

  /** A map's keys that satisfy a condition, ascending. */
  function Keys<V>(m: map<string, V>, keep: (string, V) -> bool): (keys: seq<string>)
    ensures forall k :: k in keys <==> k in m && keep(k, m[k])
    ensures SortedBy(StringLess, keys)
  {
    StringOrder();
    Listing(StringLess, set k | k in m && keep(k, m[k]))
  }

  /** What every list operation does: range over a map in some order, keep what passes, sort by key. */
  method Collect<V>(m: map<string, V>, keep: (string, V) -> bool) returns (keys: seq<string>)
    ensures keys == Keys(m, keep)
  {
    StringOrder();
    var kept := set k | k in m && keep(k, m[k]);
    keys := Sort(StringLess, kept);
  }
}
