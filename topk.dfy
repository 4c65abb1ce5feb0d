/** What a nearest-neighbour answer must be: the k entries closest to the
    query under the (dist2, id) order, ascending. This is the contract the
    three finders share, and the lemmas that let AddTopK build it. */
module Ranking {
  import opened Models
  import opened Utils

  /** The answer a finder reports for entry (id, p) and query q. */
  function MakeResult(q: Point, id: int, p: Point): DriverResult {
    DriverResult(id, p.x, p.y, Dist2(q.x, q.y, p.x, p.y))
  }

  /** The answers for the entries of `byId` whose ids are in `ids`. */
  ghost function ItemsOf(byId: map<int, Point>, q: Point, ids: set<int>): set<DriverResult> {
    set id | id in ids && id in byId :: MakeResult(q, id, byId[id])
  }

  /** The answers for every entry of `byId`. */
  ghost function Items(byId: map<int, Point>, q: Point): set<DriverResult> {
    ItemsOf(byId, q, byId.Keys)
  }

  ghost predicate DistinctIds(items: set<DriverResult>) {
    forall a, b :: a in items && b in items && a.id == b.id ==> a == b
  }

  /** `res` lists, ascending by (dist2, id), the smallest elements of
      `items`: all of them when there are fewer than k, else exactly k,
      and every element left out comes after every element listed. */
  ghost predicate IsTopK(res: seq<DriverResult>, items: set<DriverResult>, k: nat) {
    && StrictlySorted(res)
    && |res| <= k
    && (forall i :: 0 <= i < |res| ==> res[i] in items)
    && (forall e :: e in items && e !in res ==>
          |res| == k && forall i :: 0 <= i < |res| ==> Before(res[i], e))
  }

  lemma ItemsHaveDistinctIds(byId: map<int, Point>, q: Point, ids: set<int>)
    ensures DistinctIds(ItemsOf(byId, q, ids))
    ensures forall e :: e in ItemsOf(byId, q, ids) ==>
      e.id in ids && e.id in byId && e == MakeResult(q, e.id, byId[e.id])
  {
  }

  /** Adding one id to the scanned set adds exactly its answer. */
  lemma ItemsOfAdd(byId: map<int, Point>, q: Point, ids: set<int>, id: int)
    requires id in byId && id !in ids
    ensures ItemsOf(byId, q, ids + {id}) == ItemsOf(byId, q, ids) + {MakeResult(q, id, byId[id])}
    ensures forall e :: e in ItemsOf(byId, q, ids) ==> e.id != id
  {
    ItemsHaveDistinctIds(byId, q, ids);
  }

  /** Inserting an item whose id differs from every listed id into a
      strictly sorted list keeps it strictly sorted. */
  lemma InsertKeepsStrict(res: seq<DriverResult>, item: DriverResult)
    requires StrictlySorted(res)
    requires forall i :: 0 <= i < |res| ==> res[i].id != item.id
    ensures StrictlySorted(Insert(res, item))
    ensures forall i :: 0 <= i < InsertPos(res, item) ==> Before(res[i], item)
    ensures forall i :: InsertPos(res, item) <= i < |res| ==> Before(item, res[i])
  {
    var p := InsertPos(res, item);
    var full := Insert(res, item);
    assert full == res[..p] + [item] + res[p..];
    assert forall j :: p <= j < |res| ==> Before(item, res[j]) by {
      forall j | p <= j < |res| ensures Before(item, res[j]) {
        assert Before(item, res[p]);
        assert j == p || Before(res[p], res[j]);
      }
    }
    assert forall i :: 0 <= i < p ==> full[i] == res[i];
    assert full[p] == item;
    assert forall i :: p < i < |full| ==> full[i] == res[i - 1];
    forall i, j | 0 <= i < j < |full| ensures Before(full[i], full[j]) {
      if j < p {
        assert Before(res[i], res[j]);
      } else if j == p {
        assert Before(res[i], item);
      } else if i < p {
        assert Before(res[i], res[j - 1]);
      } else if i == p {
        assert Before(item, res[j - 1]);
      } else {
        assert Before(res[i - 1], res[j - 1]);
      }
    }
  }

  lemma InsertMembers(res: seq<DriverResult>, item: DriverResult)
    ensures forall e :: e in Insert(res, item) <==> e in res || e == item
  {
    var full := Insert(res, item);
    forall e ensures e in full <==> e in res || e == item {
      assert e in full <==> e in multiset(full);
      assert e in res <==> e in multiset(res);
    }
  }

  /** AddTopK below capacity: the new item simply joins the list. */
  lemma AddTopKStepGrow(res: seq<DriverResult>, S: set<DriverResult>, item: DriverResult, k: nat)
    requires IsTopK(res, S, k) && |res| < k
    requires forall e :: e in S ==> e.id != item.id
    ensures IsTopK(Insert(res, item), S + {item}, k)
  {
    assert forall i :: 0 <= i < |res| ==> res[i] in S;
    InsertKeepsStrict(res, item);
    InsertMembers(res, item);
  }

  /** An element that comes after every listed one also comes after the
      first |res| elements of the list once `item` is inserted. */
  lemma InsertedPrefixBefore(res: seq<DriverResult>, item: DriverResult, e: DriverResult)
    requires forall i :: 0 <= i < |res| ==> Before(res[i], e)
    ensures forall j :: 0 <= j < |res| ==> Before(Insert(res, item)[j], e)
  {
    var p := InsertPos(res, item);
    var full := Insert(res, item);
    assert full == res[..p] + [item] + res[p..];
    forall j | 0 <= j < |res| ensures Before(full[j], e) {
      if j < p {
        assert full[j] == res[j];
      } else if j == p {
        assert full[j] == item;
        assert Before(item, res[p]);
      } else {
        assert full[j] == res[j - 1];
      }
    }
  }

  /** AddTopK at capacity: the k smallest of the old list plus the item. */
  lemma AddTopKStepEvict(res: seq<DriverResult>, S: set<DriverResult>, item: DriverResult, k: nat)
    requires IsTopK(res, S, k) && |res| == k
    requires forall e :: e in S ==> e.id != item.id
    ensures IsTopK(Insert(res, item)[..k], S + {item}, k)
  {
    var full := Insert(res, item);
    var r := full[..k];
    assert full == r + [full[k]];
    assert forall i :: 0 <= i < |res| ==> res[i] in S;
    InsertKeepsStrict(res, item);
    InsertMembers(res, item);
    assert forall i :: 0 <= i < k ==> r[i] == full[i];
    forall e | e in S + {item} && e !in r
      ensures forall i :: 0 <= i < |r| ==> Before(r[i], e)
    {
      if e != full[k] {
        assert e !in full;
        InsertedPrefixBefore(res, item, e);
      }
    }
  }

  /** One AddTopK step: if `res` is the top k of `S`, and `item` has an id
      not yet in `S`, then AddTopK gives the top k of `S` plus `item`. */
  lemma AddTopKStep(res: seq<DriverResult>, S: set<DriverResult>, item: DriverResult, k: nat)
    requires IsTopK(res, S, k)
    requires forall e :: e in S ==> e.id != item.id
    ensures IsTopK(InsertBounded(res, item, k), S + {item}, k)
  {
    if |res| < k {
      AddTopKStepGrow(res, S, item, k);
    } else {
      AddTopKStepEvict(res, S, item, k);
    }
  }

  /** Two top-k lists of the same distinct-id items agree at the first
      position after a common prefix, in one direction. */
  lemma NotBeforeAtFirstDifference(a: seq<DriverResult>, b: seq<DriverResult>, S: set<DriverResult>, k: nat, i: nat)
    requires IsTopK(a, S, k) && IsTopK(b, S, k)
    requires i < |a| && i < |b| && a[..i] == b[..i]
    ensures !Before(a[i], b[i])
  {
    assert a[i] in S;
    forall j | 0 <= j < |b|
      ensures b[j] != a[i] || !Before(a[i], b[i])
    {
      if j < i {
        assert b[j] == a[j];
        assert Before(a[j], a[i]);
      } else if j > i {
        assert Before(b[i], b[j]);
      }
    }
  }

  /** The element of a top-k list just past a proper prefix is not in it. */
  lemma NextNotInPrefix(a: seq<DriverResult>, b: seq<DriverResult>, S: set<DriverResult>, k: nat)
    requires IsTopK(b, S, k)
    requires |a| < |b| && a == b[..|a|]
    ensures b[|a|] in S && b[|a|] !in a
  {
    forall j | 0 <= j < |a| ensures a[j] != b[|a|] {
      assert a[j] == b[j];
      assert Before(b[j], b[|a|]);
    }
  }

  /** A top-k list that is a prefix of another top-k list of the same
      items is the whole of it. */
  lemma PrefixIsWhole(a: seq<DriverResult>, b: seq<DriverResult>, S: set<DriverResult>, k: nat)
    requires IsTopK(a, S, k) && IsTopK(b, S, k)
    requires |a| <= |b| && a == b[..|a|]
    ensures a == b
  {
    if |a| < |b| {
      NextNotInPrefix(a, b, S, k);
    }
    assert b[..|b|] == b;
  }

  /** The top k of a set of items with distinct ids is unique. */
  lemma TopKUnique(a: seq<DriverResult>, b: seq<DriverResult>, S: set<DriverResult>, k: nat)
    requires DistinctIds(S)
    requires IsTopK(a, S, k) && IsTopK(b, S, k)
    ensures a == b
  {
    var i := 0;
    while i < |a| && i < |b|
      invariant 0 <= i <= |a| && i <= |b|
      invariant a[..i] == b[..i]
    {
      NotBeforeAtFirstDifference(a, b, S, k, i);
      NotBeforeAtFirstDifference(b, a, S, k, i);
      assert a[i] in S && b[i] in S;
      assert a[..i + 1] == a[..i] + [a[i]] && b[..i + 1] == b[..i] + [b[i]];
      i := i + 1;
    }
    if i == |a| {
      PrefixIsWhole(a, b, S, k);
    } else {
      PrefixIsWhole(b, a, S, k);
    }
  }

  /** Entries that come after the k-th answer can be ignored: when `res`
      is full, adding items farther than its last one changes nothing. */
  lemma ExtendBeyondWorst(res: seq<DriverResult>, S: set<DriverResult>, F: set<DriverResult>, k: nat)
    requires IsTopK(res, S, k) && 0 < k == |res|
    requires forall e :: e in F ==> res[k - 1].dist2 < e.dist2
    ensures IsTopK(res, S + F, k)
  {
    forall e | e in F && e !in res
      ensures forall i :: 0 <= i < |res| ==> Before(res[i], e)
    {
      forall i | 0 <= i < |res| ensures Before(res[i], e) {
        assert i == k - 1 || Before(res[i], res[k - 1]);
      }
    }
  }

  /** `id` holds the entry of `byId` nearest to `q`. */
  ghost predicate IsNearest(byId: map<int, Point>, q: Point, id: int) {
    && id in byId
    && forall j :: j in byId && j != id ==>
         Before(MakeResult(q, id, byId[id]), MakeResult(q, j, byId[j]))
  }

  lemma {:induction false} NearestExists(byId: map<int, Point>, q: Point)
    requires exists id :: id in byId
    ensures exists id :: IsNearest(byId, q, id)
    decreases byId.Keys
  {
    var a :| a in byId;
    var rest := byId - {a};
    if !exists b :: b in rest {
      assert IsNearest(byId, q, a) by {
        forall j | j in byId ensures j == a {
          assert j !in rest;
        }
      }
    } else {
      NearestExists(rest, q);
      var b :| IsNearest(rest, q, b);
      var ra, rb := MakeResult(q, a, byId[a]), MakeResult(q, b, byId[b]);
      if Before(ra, rb) {
        assert IsNearest(byId, q, a) by {
          forall j | j in byId && j != a
            ensures Before(ra, MakeResult(q, j, byId[j]))
          {
            assert j in rest;
            assert j == b || Before(rb, MakeResult(q, j, byId[j]));
          }
        }
      } else {
        assert IsNearest(byId, q, b) by {
          forall j | j in byId && j != b
            ensures Before(rb, MakeResult(q, j, byId[j]))
          {
            if j != a {
              assert j in rest;
            }
          }
        }
      }
    }
  }

  /** Every entry of `byId`, sorted by (dist2, id) from `q`. */
  ghost function SortedItems(byId: map<int, Point>, q: Point): (r: seq<DriverResult>)
    ensures StrictlySorted(r)
    ensures forall e :: e in r <==> e in Items(byId, q)
    decreases byId.Keys
  {
    if !exists id :: id in byId then []
    else
      NearestExists(byId, q);
      var id :| IsNearest(byId, q, id);
      var rest := byId - {id};
      var tail := SortedItems(rest, q);
      assert forall e :: e in tail ==> e.id in rest && e == MakeResult(q, e.id, byId[e.id]) by {
        ItemsHaveDistinctIds(rest, q, rest.Keys);
      }
      assert forall e :: e in Items(byId, q) ==>
        e == MakeResult(q, id, byId[id]) || e in Items(rest, q) by {
        forall e | e in Items(byId, q)
          ensures e == MakeResult(q, id, byId[id]) || e in Items(rest, q)
        {
          var j :| j in byId && e == MakeResult(q, j, byId[j]);
          if j != id {
            assert j in rest;
          }
        }
      }
      [MakeResult(q, id, byId[id])] + tail
  }

  /** The specification of FindNearest: all entries sorted by
      (dist2, id) from the query, then the first k. */
  ghost function TopK(byId: map<int, Point>, q: Point, k: nat): (r: seq<DriverResult>)
    ensures IsTopK(r, Items(byId, q), k)
  {
    var all := SortedItems(byId, q);
    if |all| <= k then all
    else
      assert forall e :: e in all && e !in all[..k] ==> forall i :: 0 <= i < k ==> Before(all[i], e) by {
        forall e | e in all && e !in all[..k]
          ensures forall i :: 0 <= i < k ==> Before(all[i], e)
        {
          var j :| 0 <= j < |all| && all[j] == e;
          assert j >= k;
        }
      }
      all[..k]
  }

  /** Any list that is a top k of the entries IS the TopK list. */
  lemma EqualsTopK(res: seq<DriverResult>, byId: map<int, Point>, q: Point, k: nat)
    requires IsTopK(res, Items(byId, q), k)
    ensures res == TopK(byId, q, k)
  {
    ItemsHaveDistinctIds(byId, q, byId.Keys);
    TopKUnique(res, TopK(byId, q, k), Items(byId, q), k);
  }

  lemma TopKOfEmpty(q: Point, k: nat)
    ensures TopK(map[], q, k) == []
  {
    assert IsTopK([], Items(map[], q), k);
    EqualsTopK([], map[], q, k);
  }

  /** Feeding `xs` one by one through AddTopK. */
  function FoldTopK(res: seq<DriverResult>, xs: seq<DriverResult>, k: int): seq<DriverResult>
    decreases |xs|
  {
    if xs == [] then res else FoldTopK(InsertBounded(res, xs[0], k), xs[1..], k)
  }

  ghost predicate DistinctIdSeq(xs: seq<DriverResult>) {
    forall i, j :: 0 <= i < j < |xs| ==> xs[i].id != xs[j].id
  }

  /** The items of a sequence, as a set. */
  ghost function Elements(xs: seq<DriverResult>): (r: set<DriverResult>)
    ensures forall x :: x in r <==> x in xs
  {
    if xs == [] then {} else {xs[0]} + Elements(xs[1..])
  }

  /** Folding AddTopK over items with fresh, distinct ids extends a top k
      to the top k of everything seen. */
  lemma {:induction false} FoldIsTopK(res: seq<DriverResult>, S: set<DriverResult>, xs: seq<DriverResult>, k: nat)
    requires IsTopK(res, S, k)
    requires DistinctIdSeq(xs)
    requires forall e, i :: e in S && 0 <= i < |xs| ==> e.id != xs[i].id
    ensures IsTopK(FoldTopK(res, xs, k), S + Elements(xs), k)
    decreases |xs|
  {
    if xs != [] {
      AddTopKStep(res, S, xs[0], k);
      var S' := S + {xs[0]};
      var tail := xs[1..];
      assert forall i :: 0 <= i < |tail| ==> tail[i] == xs[i + 1];
      FoldIsTopK(InsertBounded(res, xs[0], k), S', tail, k);
      assert S' + Elements(tail) == S + Elements(xs);
    }
  }

  /** The result of folding AddTopK does not depend on the order in which
      the items arrive (a Dictionary's iteration order, say). */
  lemma FoldOrderIrrelevant(xs: seq<DriverResult>, ys: seq<DriverResult>, k: nat)
    requires DistinctIdSeq(xs) && DistinctIdSeq(ys)
    requires forall e :: e in xs <==> e in ys
    ensures FoldTopK([], xs, k) == FoldTopK([], ys, k)
  {
    var S := Elements(xs);
    assert Elements(ys) == S;
    assert IsTopK([], {}, k);
    FoldIsTopK([], {}, xs, k);
    FoldIsTopK([], {}, ys, k);
    assert {} + S == S;
    assert DistinctIds(S) by {
      forall a, b | a in S && b in S && a.id == b.id ensures a == b {
        var i :| 0 <= i < |xs| && xs[i] == a;
        var j :| 0 <= j < |xs| && xs[j] == b;
        assert i == j;
      }
    }
    TopKUnique(FoldTopK([], xs, k), FoldTopK([], ys, k), S, k);
  }

  /** Folding AddTopK over the answers of the entries, in any order that
      lists each once, gives TopK: the brute-force query's answer does not
      depend on the dictionary's iteration order. */
  lemma FoldIsTopKOfEntries(byId: map<int, Point>, q: Point, xs: seq<DriverResult>, k: nat)
    requires DistinctIdSeq(xs)
    requires forall e :: e in xs <==> e in Items(byId, q)
    ensures FoldTopK([], xs, k) == TopK(byId, q, k)
  {
    assert IsTopK([], {}, k);
    FoldIsTopK([], {}, xs, k);
    assert {} + Elements(xs) == Items(byId, q);
    EqualsTopK(FoldTopK([], xs, k), byId, q, k);
  }
}
