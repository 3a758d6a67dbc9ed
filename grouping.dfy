/**
 * Grouping tagged rows by a string key and summing a weight per key, with the
 * groups kept in ascending key order. This is what both
 * `SELECT name, SUM(q) ... GROUP BY name ORDER BY name` (device status) and
 * the dictionary-then-`sorted` grouping of borrow slips compute.
 */
module Grouping {
  import opened Wrappers
  import opened Text

  /** One input row: its key, the row itself and the amount it contributes. */
  datatype Tagged<T> = Tagged(key: string, item: T, weight: int)

  /** One output group: its key, its rows in input order and the sum of their weights. */
  datatype Group<T> = Group(key: string, items: seq<T>, count: int)

  /** Keys strictly ascending, hence also distinct. */
  predicate Sorted<T>(gs: seq<Group<T>>) {
    forall i, j :: 0 <= i < j < |gs| ==> Less(gs[i].key, gs[j].key)
  }

  /** Every group of `gs` has a key above `k`. */
  predicate Above<T>(k: string, gs: seq<Group<T>>) {
    forall i :: 0 <= i < |gs| ==> Less(k, gs[i].key)
  }

  function Keys<T>(gs: seq<Group<T>>): set<string> {
    set i | 0 <= i < |gs| :: gs[i].key
  }

  function TagKeys<T>(es: seq<Tagged<T>>): set<string> {
    set i | 0 <= i < |es| :: es[i].key
  }

  /** The first group with key `k`, if any. */
  function Lookup<T>(gs: seq<Group<T>>, k: string): Option<Group<T>> {
    if gs == [] then None
    else if gs[0].key == k then Some(gs[0])
    else Lookup(gs[1..], k)
  }

  /** The group for `k`, or an empty one when `k` has none yet. */
  function GroupOrEmpty<T>(gs: seq<Group<T>>, k: string): Group<T> {
    match Lookup(gs, k)
    case Some(g) => g
    case None => Group(k, [], 0)
  }

  /** A group after one more row joined it. */
  function Extend<T>(g: Group<T>, e: Tagged<T>): Group<T> {
    g.(items := g.items + [e.item], count := g.count + e.weight)
  }

  /** Sum of the weights of the rows with key `k`. */
  function WeightOf<T>(es: seq<Tagged<T>>, k: string): int {
    if es == [] then 0
    else WeightOf(es[..|es| - 1], k) + (if es[|es| - 1].key == k then es[|es| - 1].weight else 0)
  }

  /** The rows with key `k`, in input order. */
  function ItemsOf<T>(es: seq<Tagged<T>>, k: string): seq<T> {
    if es == [] then []
    else ItemsOf(es[..|es| - 1], k) + (if es[|es| - 1].key == k then [es[|es| - 1].item] else [])
  }

  function TotalWeight<T>(es: seq<Tagged<T>>): int {
    if es == [] then 0 else TotalWeight(es[..|es| - 1]) + es[|es| - 1].weight
  }

  function Total<T>(gs: seq<Group<T>>): int {
    if gs == [] then 0 else gs[0].count + Total(gs[1..])
  }

  lemma KeysCons<T>(g: Group<T>, gs: seq<Group<T>>)
    ensures Keys([g] + gs) == {g.key} + Keys(gs)
  {
    var r := [g] + gs;
    forall k | k in Keys(r) ensures k in {g.key} + Keys(gs) {
      var i :| 0 <= i < |r| && r[i].key == k;
      if i > 0 { assert gs[i - 1].key == k; }
    }
    forall k | k in Keys(gs) ensures k in Keys(r) {
      var i :| 0 <= i < |gs| && gs[i].key == k;
      assert r[i + 1].key == k;
    }
    assert r[0].key == g.key;
  }

  lemma TagKeysSnoc<T>(es: seq<Tagged<T>>, e: Tagged<T>)
    ensures TagKeys(es + [e]) == TagKeys(es) + {e.key}
  {
    var r := es + [e];
    forall k | k in TagKeys(r) ensures k in TagKeys(es) + {e.key} {
      var i :| 0 <= i < |r| && r[i].key == k;
      if i < |es| { assert es[i].key == k; }
    }
    forall k | k in TagKeys(es) ensures k in TagKeys(r) {
      var i :| 0 <= i < |es| && es[i].key == k;
      assert r[i].key == k;
    }
    assert r[|es|].key == e.key;
  }

  /** A key that no row carries has no rows and no weight. */
  lemma {:induction false} AbsentKey<T>(es: seq<Tagged<T>>, k: string)
    requires k !in TagKeys(es)
    ensures ItemsOf(es, k) == [] && WeightOf(es, k) == 0
  {
    if es != [] {
      var init := es[..|es| - 1];
      assert es == init + [es[|es| - 1]];
      TagKeysSnoc(init, es[|es| - 1]);
      AbsentKey(init, k);
    }
  }

  lemma {:induction false} LookupKeys<T>(gs: seq<Group<T>>, k: string)
    ensures Lookup(gs, k).None? <==> k !in Keys(gs)
    ensures Lookup(gs, k).Some? ==> Lookup(gs, k).value.key == k
  {
    if gs != [] {
      LookupKeys(gs[1..], k);
      assert gs == [gs[0]] + gs[1..];
      KeysCons(gs[0], gs[1..]);
    }
  }

  /** Files a row under its key, creating the group in key order when it is new. */
  function Insert<T>(gs: seq<Group<T>>, e: Tagged<T>): (r: seq<Group<T>>)
    requires Sorted(gs)
    ensures Sorted(r)
    ensures forall k :: Above(k, gs) && Less(k, e.key) ==> Above(k, r)
  {
    if gs == [] then
      [Group(e.key, [e.item], e.weight)]
    else if gs[0].key == e.key then
      [Extend(gs[0], e)] + gs[1..]
    else if Less(e.key, gs[0].key) then
      var r := [Group(e.key, [e.item], e.weight)] + gs;
      forall i, j | 0 <= i < j < |r| ensures Less(r[i].key, r[j].key) {
        if i == 0 && j > 1 {
          LessTransitive(e.key, gs[0].key, gs[j - 1].key);
        }
      }
      r
    else
      LessTotal(e.key, gs[0].key);
      assert Above(gs[0].key, gs[1..]);
      [gs[0]] + Insert(gs[1..], e)
  }

  lemma {:induction false} InsertKeys<T>(gs: seq<Group<T>>, e: Tagged<T>)
    requires Sorted(gs)
    ensures Keys(Insert(gs, e)) == Keys(gs) + {e.key}
  {
    var g := Group(e.key, [e.item], e.weight);
    if gs == [] {
      KeysCons(g, []);
    } else {
      assert gs == [gs[0]] + gs[1..];
      KeysCons(gs[0], gs[1..]);
      if gs[0].key == e.key {
        KeysCons(Extend(gs[0], e), gs[1..]);
      } else if Less(e.key, gs[0].key) {
        KeysCons(g, gs);
      } else {
        InsertKeys(gs[1..], e);
        KeysCons(gs[0], Insert(gs[1..], e));
      }
    }
  }

  lemma {:induction false} InsertTotal<T>(gs: seq<Group<T>>, e: Tagged<T>)
    requires Sorted(gs)
    ensures Total(Insert(gs, e)) == Total(gs) + e.weight
  {
    if gs != [] && gs[0].key != e.key && !Less(e.key, gs[0].key) {
      InsertTotal(gs[1..], e);
      var r := Insert(gs, e);
      assert r[1..] == Insert(gs[1..], e);
    } else if gs != [] && gs[0].key == e.key {
      assert Insert(gs, e)[1..] == gs[1..];
    } else if gs != [] {
      assert Insert(gs, e)[1..] == gs;
    }
  }

  /** The row's group gains the row; every other key keeps its group. */
  lemma {:induction false} InsertLookup<T>(gs: seq<Group<T>>, e: Tagged<T>, k: string)
    requires Sorted(gs)
    ensures Lookup(Insert(gs, e), k) ==
      if k == e.key then Some(Extend(GroupOrEmpty(gs, k), e)) else Lookup(gs, k)
  {
    var r := Insert(gs, e);
    if gs == [] {
      assert r[1..] == [];
      assert Extend(Group(e.key, [], 0), e) == Group(e.key, [e.item], e.weight);
    } else if gs[0].key == e.key {
      assert r[1..] == gs[1..];
    } else if Less(e.key, gs[0].key) {
      assert r[1..] == gs;
      if k == e.key {
        assert k !in Keys(gs) by {
          forall i | 0 <= i < |gs| ensures gs[i].key != k {
            assert Less(r[0].key, r[i + 1].key);
            LessIrreflexive(k);
          }
        }
        LookupKeys(gs, k);
        assert Extend(Group(e.key, [], 0), e) == Group(e.key, [e.item], e.weight);
      }
    } else {
      InsertLookup(gs[1..], e, k);
      assert r[1..] == Insert(gs[1..], e);
    }
  }

  /** The groups of a sequence of rows, built by filing the rows one after another. */
  function GroupAll<T>(es: seq<Tagged<T>>): (gs: seq<Group<T>>)
    ensures Sorted(gs)
  {
    if es == [] then [] else Insert(GroupAll(es[..|es| - 1]), es[|es| - 1])
  }

  /**
   * What the grouping means: a group exists exactly for the keys that occur,
   * holding the rows with that key in input order and their summed weight.
   */
  lemma {:induction false} GroupAllLookup<T>(es: seq<Tagged<T>>, k: string)
    ensures Lookup(GroupAll(es), k) ==
      if k in TagKeys(es) then Some(Group(k, ItemsOf(es, k), WeightOf(es, k))) else None
  {
    if es != [] {
      var init := es[..|es| - 1];
      var e := es[|es| - 1];
      var prev := GroupAll(init);
      assert GroupAll(es) == Insert(prev, e);
      assert es == init + [e];
      TagKeysSnoc(init, e);
      GroupAllLookup(init, k);
      InsertLookup(prev, e, k);
      assert ItemsOf(es, k) == ItemsOf(init, k) + (if e.key == k then [e.item] else []);
      assert WeightOf(es, k) == WeightOf(init, k) + (if e.key == k then e.weight else 0);
      if e.key == k {
        if k !in TagKeys(init) {
          AbsentKey(init, k);
          assert GroupOrEmpty(prev, k) == Group(k, [], 0);
        }
        assert GroupOrEmpty(prev, k) == Group(k, ItemsOf(init, k), WeightOf(init, k));
      } else {
        assert ItemsOf(init, k) + [] == ItemsOf(init, k);
      }
    }
  }

  lemma {:induction false} GroupAllKeys<T>(es: seq<Tagged<T>>)
    ensures Keys(GroupAll(es)) == TagKeys(es)
  {
    if es != [] {
      var init := es[..|es| - 1];
      GroupAllKeys(init);
      InsertKeys(GroupAll(init), es[|es| - 1]);
      assert es == init + [es[|es| - 1]];
      TagKeysSnoc(init, es[|es| - 1]);
    }
  }

  /** No weight is lost or duplicated: the groups' counts add up to the rows' weights. */
  lemma {:induction false} GroupAllTotal<T>(es: seq<Tagged<T>>)
    ensures Total(GroupAll(es)) == TotalWeight(es)
  {
    if es != [] {
      GroupAllTotal(es[..|es| - 1]);
      InsertTotal(GroupAll(es[..|es| - 1]), es[|es| - 1]);
    }
  }

  /** In a sorted group list every group is the one `Lookup` finds for its key. */
  lemma {:induction false} SortedLookup<T>(gs: seq<Group<T>>, i: nat)
    requires Sorted(gs) && i < |gs|
    ensures Lookup(gs, gs[i].key) == Some(gs[i])
  {
    if i > 0 {
      assert Less(gs[0].key, gs[i].key);
      LessIrreflexive(gs[0].key);
      assert Sorted(gs[1..]);
      SortedLookup(gs[1..], i - 1);
    }
  }
}
