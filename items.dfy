/** The record shapes of the in-memory item service and the list operations its
    handlers perform on the item list: the largest id, the first record with a
    given id, and the list without the records carrying an id. */
module Items {

  datatype Option<T> = None | Some(value: T)

  /** A stored record. `description` defaults to the empty string. */
  datatype Item = Item(id: int, name: string, description: string := "")

  /** The body of a create request: no id, `description` optional with default "". */
  datatype ItemCreate = ItemCreate(name: string, description: string := "")

  /** The two records the store starts with. */
  const Seed: seq<Item> := [
    Item(1, "Item 1", "First item"),
    Item(2, "Item 2", "Second item")
  ]

  /** No two records share an id. */
  predicate DistinctIds(s: seq<Item>) {
    forall i, j :: 0 <= i < j < |s| ==> s[i].id != s[j].id
  }

  /** Every id is at least 1, as every id the service hands out is. */
  predicate PositiveIds(s: seq<Item>) {
    forall i :: 0 <= i < |s| ==> s[i].id >= 1
  }

  /** `max` over the ids, folded left to right, with 0 for an empty list. */
  function MaxId(s: seq<Item>): (m: int)
    ensures forall i :: 0 <= i < |s| ==> s[i].id <= m
    ensures s == [] ==> m == 0
    ensures s != [] ==> exists i :: 0 <= i < |s| && s[i].id == m
    decreases |s|
  {
    if |s| == 0 then 0
    else if |s| == 1 then s[0].id
    else
      var m := MaxId(s[..|s| - 1]);
      if s[|s| - 1].id > m then s[|s| - 1].id else m
  }

  /** The id a create assigns: one more than the largest id, or 1 on an empty list. */
  function NextId(s: seq<Item>): (id: int)
    ensures forall i :: 0 <= i < |s| ==> s[i].id < id
    ensures s == [] ==> id == 1
    ensures s != [] ==> exists i :: 0 <= i < |s| && s[i].id + 1 == id
  {
    MaxId(s) + 1
  }

  /** The first record whose id is `id`, or None when there is none. */
  function Find(s: seq<Item>, id: int): (r: Option<Item>)
    ensures r.None? <==> forall i :: 0 <= i < |s| ==> s[i].id != id
    ensures r.Some? ==> r.value.id == id && r.value in s
    ensures forall k :: 0 <= k < |s| && s[k].id == id && NoIdBefore(s, k, id) ==> r == Some(s[k])
  {
    if s == [] then None
    else if s[0].id == id then Some(s[0])
    else
      var r := Find(s[1..], id);
      assert forall k :: 1 <= k < |s| && NoIdBefore(s, k, id) ==> NoIdBefore(s[1..], k - 1, id);
      r
  }

  /** No record before position `k` has id `id`. */
  predicate NoIdBefore(s: seq<Item>, k: int, id: int)
    requires 0 <= k <= |s|
  {
    forall j :: 0 <= j < k ==> s[j].id != id
  }

  /** The records whose id is not `id`, in their original order. */
  function RemoveId(s: seq<Item>, id: int): (r: seq<Item>)
    ensures |r| <= |s|
    ensures forall x :: x in r <==> x in s && x.id != id
    ensures (forall i :: 0 <= i < |s| ==> s[i].id != id) ==> r == s
  {
    if s == [] then []
    else if s[0].id == id then RemoveId(s[1..], id)
    else
      assert s == [s[0]] + s[1..];
      [s[0]] + RemoveId(s[1..], id)
  }

  /** Filtering distributes over concatenation: the survivors keep their relative order. */
  lemma {:induction false} RemoveIdAppend(a: seq<Item>, b: seq<Item>, id: int)
    ensures RemoveId(a + b, id) == RemoveId(a, id) + RemoveId(b, id)
  {
    if a == [] {
      assert a + b == b;
    } else {
      assert (a + b)[1..] == a[1..] + b;
      RemoveIdAppend(a[1..], b, id);
    }
  }

  /** With distinct ids, removing the id of the record at `k` drops exactly that record
      and leaves every other one in place. */
  lemma {:induction false} RemoveIdSpliced(s: seq<Item>, k: int)
    requires DistinctIds(s)
    requires 0 <= k < |s|
    ensures RemoveId(s, s[k].id) == s[..k] + s[k + 1..]
  {
    var id, t := s[k].id, s[1..];
    TailDistinct(s);
    if k == 0 {
      assert forall i :: 0 <= i < |t| ==> t[i].id != id by {
        forall i | 0 <= i < |t| ensures t[i].id != id {
          assert t[i] == s[i + 1];
        }
      }
    } else {
      assert t[k - 1] == s[k];
      RemoveIdSpliced(t, k - 1);
      ConsSlices(s, k);
    }
  }

  /** Putting the first element back in front of a tail with position k - 1 cut out
      gives the whole sequence with position k cut out. */
  lemma ConsSlices<T>(s: seq<T>, k: int)
    requires 1 <= k < |s|
    ensures [s[0]] + (s[1..][..k - 1] + s[1..][k..]) == s[..k] + s[k + 1..]
  {
    assert [s[0]] + s[1..][..k - 1] == s[..k];
  }

  /** Dropping the first record keeps ids distinct. */
  lemma TailDistinct(s: seq<Item>)
    requires DistinctIds(s)
    requires s != []
    ensures DistinctIds(s[1..])
  {
    var t := s[1..];
    forall i, j | 0 <= i < j < |t| ensures t[i].id != t[j].id {
      assert t[i] == s[i + 1] && t[j] == s[j + 1];
    }
  }

  /** Removing records keeps ids pairwise distinct. */
  lemma {:induction false} RemoveIdPreservesDistinct(s: seq<Item>, id: int)
    requires DistinctIds(s)
    ensures DistinctIds(RemoveId(s, id))
  {
    if s != [] {
      var t := s[1..];
      TailDistinct(s);
      RemoveIdPreservesDistinct(t, id);
      if s[0].id != id {
        var r := RemoveId(t, id);
        forall j | 0 <= j < |r| ensures r[j].id != s[0].id {
          assert r[j] in t;
          var i :| 0 <= i < |t| && t[i] == r[j];
          assert t[i] == s[i + 1];
        }
        assert RemoveId(s, id) == [s[0]] + r;
      }
    }
  }

  /** With distinct ids, every stored record is found by its own id. */
  lemma FindStored(s: seq<Item>, k: int)
    requires DistinctIds(s)
    requires 0 <= k < |s|
    ensures Find(s, s[k].id) == Some(s[k])
  {
    var r := Find(s, s[k].id);
    assert r.Some?;
    var i :| 0 <= i < |s| && s[i] == r.value;
    assert i == k;
  }

  /** A record whose id no other record carries is, once appended, the one found by
      its id, and it keeps distinct ids distinct. */
  lemma AppendFresh(s: seq<Item>, x: Item)
    requires forall i :: 0 <= i < |s| ==> s[i].id != x.id
    ensures Find(s + [x], x.id) == Some(x)
    ensures DistinctIds(s) ==> DistinctIds(s + [x])
  {
    var t := s + [x];
    assert forall i :: 0 <= i < |s| ==> t[i] == s[i];
    assert NoIdBefore(t, |s|, x.id);
  }

  /** Ids are reused: after the records with the largest id are removed, the next id
      assigned is at most that largest id. */
  lemma RemoveMaxLowersNextId(s: seq<Item>)
    requires s != []
    requires PositiveIds(s)
    ensures NextId(RemoveId(s, MaxId(s))) <= MaxId(s)
  {
    var m := MaxId(s);
    var r := RemoveId(s, m);
    if r != [] {
      var i :| 0 <= i < |r| && r[i].id + 1 == NextId(r);
      assert r[i] in s;
    }
  }

  /** The id that was largest is handed out again exactly when it is 1 or the id one
      below it is still present. */
  lemma RemoveMaxReusesIdIff(s: seq<Item>)
    requires s != []
    requires PositiveIds(s)
    ensures NextId(RemoveId(s, MaxId(s))) == MaxId(s) <==>
              MaxId(s) == 1 || exists i :: 0 <= i < |s| && s[i].id == MaxId(s) - 1
  {
    var m := MaxId(s);
    if NextId(RemoveId(s, m)) == m {
      ReusedIdHasPredecessor(s);
    }
    if m == 1 {
      ReusedOne(s);
    } else if exists i :: 0 <= i < |s| && s[i].id == m - 1 {
      var i :| 0 <= i < |s| && s[i].id == m - 1;
      ReusedAfterPredecessor(s, i);
    }
  }

  /** If the largest id is handed out again, it is 1 or the id below it is present. */
  lemma ReusedIdHasPredecessor(s: seq<Item>)
    requires s != []
    requires NextId(RemoveId(s, MaxId(s))) == MaxId(s)
    ensures MaxId(s) == 1 || exists i :: 0 <= i < |s| && s[i].id == MaxId(s) - 1
  {
    var r := RemoveId(s, MaxId(s));
    if r != [] {
      var j :| 0 <= j < |r| && r[j].id + 1 == MaxId(s);
      assert r[j] in s;
    }
  }

  /** When every id is 1, deleting them empties the list and the next id is 1. */
  lemma ReusedOne(s: seq<Item>)
    requires s != []
    requires PositiveIds(s)
    requires MaxId(s) == 1
    ensures NextId(RemoveId(s, MaxId(s))) == 1
  {
    forall x | x in s ensures x.id == 1 {
      var i :| 0 <= i < |s| && s[i] == x;
    }
    assert forall x :: x !in RemoveId(s, 1);
  }

  /** When the id below the largest survives the delete, the next id is the largest. */
  lemma ReusedAfterPredecessor(s: seq<Item>, i: int)
    requires 0 <= i < |s|
    requires s[i].id == MaxId(s) - 1
    ensures NextId(RemoveId(s, MaxId(s))) == MaxId(s)
  {
    var m := MaxId(s);
    var r := RemoveId(s, m);
    assert s[i] in r;
    var j :| 0 <= j < |r| && r[j].id + 1 == NextId(r);
    assert r[j] in s;
  }
}
