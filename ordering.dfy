/**
 * `ORDER BY created_at DESC` over TEXT values. SQLite's default BINARY
 * collation compares the UTF-8 bytes of two texts with `memcmp`, a proper
 * prefix first; on UTF-8 that is the order of the code points, so here texts
 * are compared character by character.
 */
module Ordering {

  /** `a <= b` in the BINARY collation. */
  predicate TextLe(a: string, b: string)
  {
    if a == [] then true
    else if b == [] then false
    else if a[0] != b[0] then a[0] < b[0]
    else TextLe(a[1..], b[1..])
  }

  lemma {:induction false} TextLeTotal(a: string, b: string)
    ensures TextLe(a, b) || TextLe(b, a)
  {
    if a != [] && b != [] && a[0] == b[0] {
      TextLeTotal(a[1..], b[1..]);
    }
  }

  lemma {:induction false} TextLeTransitive(a: string, b: string, c: string)
    requires TextLe(a, b) && TextLe(b, c)
    ensures TextLe(a, c)
  {
    if a != [] && b != [] && c != [] && a[0] == b[0] && b[0] == c[0] {
      TextLeTransitive(a[1..], b[1..], c[1..]);
    }
  }

  /** Every id has a sort key. */
  predicate AllKeyed(ids: seq<int>, key: map<int, string>)
  {
    forall i :: 0 <= i < |ids| ==> ids[i] in key
  }

  /** The keys of `ids` descend (ties in any order). */
  predicate SortedDesc(ids: seq<int>, key: map<int, string>)
    requires AllKeyed(ids, key)
  {
    forall i, j :: 0 <= i < j < |ids| ==> TextLe(key[ids[j]], key[ids[i]])
  }

  /** A first entry whose key bounds all the others keeps the order. */
  lemma ConsSorted(x: int, ids: seq<int>, key: map<int, string>)
    requires x in key && AllKeyed(ids, key) && SortedDesc(ids, key)
    requires forall j :: 0 <= j < |ids| ==> TextLe(key[ids[j]], key[x])
    ensures AllKeyed([x] + ids, key) && SortedDesc([x] + ids, key)
  {
    var r := [x] + ids;
    forall i, j | 0 <= i < j < |r|
      ensures TextLe(key[r[j]], key[r[i]])
    {
      assert r[j] == ids[j - 1];
      if i > 0 {
        assert r[i] == ids[i - 1];
      }
    }
  }

  /** Every entry of an ordered sequence is bounded by its first key. */
  lemma HeadBounds(ids: seq<int>, key: map<int, string>, top: string)
    requires AllKeyed(ids, key) && SortedDesc(ids, key)
    requires ids != [] && TextLe(key[ids[0]], top)
    ensures forall j :: 0 <= j < |ids| ==> TextLe(key[ids[j]], top)
  {
    forall j | 0 < j < |ids|
      ensures TextLe(key[ids[j]], top)
    {
      TextLeTransitive(key[ids[j]], key[ids[0]], top);
    }
  }

  /** The entries of an insertion are those of the sequence and the new id. */
  lemma BoundedAfterInsert(head: int, ids: seq<int>, id: int, rest: seq<int>, key: map<int, string>)
    requires head in key && id in key && AllKeyed(ids, key) && AllKeyed(rest, key)
    requires forall j :: 0 <= j < |ids| ==> TextLe(key[ids[j]], key[head])
    requires TextLe(key[id], key[head])
    requires multiset(rest) == multiset(ids) + multiset{id}
    ensures forall j :: 0 <= j < |rest| ==> TextLe(key[rest[j]], key[head])
  {
    forall j | 0 <= j < |rest|
      ensures TextLe(key[rest[j]], key[head])
    {
      assert rest[j] in multiset(rest);
      if rest[j] != id {
        assert rest[j] in multiset(ids);
        var k :| 0 <= k < |ids| && ids[k] == rest[j];
      }
    }
  }

  /** Puts `id` in front of the first entry whose key is not greater than its own. */
  function InsertDesc(ids: seq<int>, id: int, key: map<int, string>): (r: seq<int>)
    requires id in key && AllKeyed(ids, key) && SortedDesc(ids, key)
    ensures multiset(r) == multiset(ids) + multiset{id}
    ensures AllKeyed(r, key) && SortedDesc(r, key)
    decreases |ids|
  {
    if ids == [] then [id]
    else if TextLe(key[ids[0]], key[id]) then
      HeadBounds(ids, key, key[id]);
      ConsSorted(id, ids, key);
      [id] + ids
    else
      var rest := InsertDesc(ids[1..], id, key);
      assert ids == [ids[0]] + ids[1..];
      TextLeTotal(key[ids[0]], key[id]);
      assert forall j :: 0 <= j < |ids[1..]| ==> TextLe(key[ids[1..][j]], key[ids[0]]) by {
        forall j | 0 <= j < |ids[1..]|
          ensures TextLe(key[ids[1..][j]], key[ids[0]])
        {
          assert ids[1..][j] == ids[j + 1];
        }
      }
      BoundedAfterInsert(ids[0], ids[1..], id, rest, key);
      ConsSorted(ids[0], rest, key);
      [ids[0]] + rest
  }

  lemma EmptySet(s: set<int>)
    requires forall x :: x !in s
    ensures s == {}
  {
    assert forall x :: x in s <==> x in {};
  }

  /** A set that is not empty has an element to pick. */
  lemma SetHasElement(s: set<int>)
    requires s != {}
    ensures exists x :: x in s
  {
    if forall x :: x !in s {
      EmptySet(s);
      assert false;
    }
  }

  /** The ids of `key` ordered by their keys, descending: what the query engine returns. */
  method SortDesc(key: map<int, string>) returns (ids: seq<int>)
    ensures multiset(ids) == multiset(key.Keys)
    ensures AllKeyed(ids, key) && SortedDesc(ids, key)
  {
    ids := [];
    var rest := key.Keys;
    while rest != {}
      invariant rest <= key.Keys
      invariant multiset(ids) == multiset(key.Keys - rest)
      invariant AllKeyed(ids, key) && SortedDesc(ids, key)
      decreases |rest|
    {
      SetHasElement(rest);
      var id :| id in rest;
      assert forall i :: 0 <= i < |ids| ==> ids[i] in multiset(ids);
      ids := InsertDesc(ids, id, key);
      assert key.Keys - (rest - {id}) == (key.Keys - rest) + {id};
      rest := rest - {id};
    }
  }
}
