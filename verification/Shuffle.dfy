/** The shuffle of the map-reduce framework: grouping the emitted pairs by key in an ordered map. */
module Shuffle {

  /** What the client supplies; keys are compared by its `less` only. */
  type Key(!new, ==)
  type Val(!new, ==)

  datatype Pair = Pair(key: Key, value: Val)
  type Less = (Key, Key) -> bool

  /** An entry of the ordered map: the key it was created with and its vector. */
  datatype Group = Group(key: Key, pairs: seq<Pair>)

  predicate Eqv(less: Less, a: Key, b: Key) {
    !less(a, b) && !less(b, a)
  }

  /** What std::map demands of its comparison. */
  ghost predicate StrictWeak(less: Less) {
    && (forall a :: !less(a, a))
    && (forall a, b, c :: less(a, b) && less(b, c) ==> less(a, c))
    && (forall a, b, c :: Eqv(less, a, b) && Eqv(less, b, c) ==> Eqv(less, a, c))
  }

  lemma EqvTrans(less: Less, a: Key, b: Key, c: Key)
    requires StrictWeak(less)
    ensures Eqv(less, a, b) && Eqv(less, b, c) ==> Eqv(less, a, c)
  {
  }

  lemma EqvLess(less: Less, a: Key, b: Key, c: Key)
    requires StrictWeak(less)
    ensures Eqv(less, a, b) && less(b, c) ==> less(a, c)
    ensures less(a, b) && Eqv(less, b, c) ==> less(a, c)
  {
    assert less(b, c) && less(c, a) ==> less(b, a);
    assert Eqv(less, b, a) && Eqv(less, a, c) ==> Eqv(less, b, c);
    assert less(c, a) && less(a, b) ==> less(c, b);
    assert Eqv(less, a, c) && Eqv(less, c, b) ==> Eqv(less, a, b);
  }

  // ---------- The ordered map ----------

  /** The position of the first entry whose key is not less than k. */
  function Place(less: Less, map_: seq<Group>, k: Key): (i: nat)
    ensures i <= |map_|
  {
    if map_ == [] || !less(map_[0].key, k) then 0 else 1 + Place(less, map_[1..], k)
  }

  /** map.find(k) != map.end() */
  predicate Has(less: Less, map_: seq<Group>, k: Key) {
    var i := Place(less, map_, k);
    i < |map_| && !less(k, map_[i].key)
  }

  /** map[k] = new vector, for a key that is not there */
  function AddKey(less: Less, map_: seq<Group>, k: Key): seq<Group> {
    var i := Place(less, map_, k);
    map_[..i] + [Group(k, [])] + map_[i..]
  }

  /** map[p.key]->push_back(p) */
  function PushBack(less: Less, map_: seq<Group>, p: Pair): seq<Group> {
    var i := Place(less, map_, p.key);
    if i < |map_| then map_[i := Group(map_[i].key, map_[i].pairs + [p])] else map_
  }

  function Insert(less: Less, map_: seq<Group>, p: Pair): seq<Group> {
    PushBack(less, if Has(less, map_, p.key) then map_ else AddKey(less, map_, p.key), p)
  }

  function ShuffleAll(less: Less, all: seq<Pair>): seq<Group> {
    if all == [] then [] else Insert(less, ShuffleAll(less, all[..|all| - 1]), all[|all| - 1])
  }

  /** The intermediate vectors one after the other, in thread-id order. */
  function Concat(vecs: seq<seq<Pair>>): seq<Pair> {
    if vecs == [] then [] else Concat(vecs[..|vecs| - 1]) + vecs[|vecs| - 1]
  }

  // ---------- What shuffling means ----------

  function Filter(less: Less, all: seq<Pair>, k: Key): seq<Pair> {
    if all == [] then []
    else
      var p := all[|all| - 1];
      Filter(less, all[..|all| - 1], k) + if Eqv(less, k, p.key) then [p] else []
  }

  ghost predicate Sorted(less: Less, map_: seq<Group>) {
    forall i, j :: 0 <= i < j < |map_| ==> less(map_[i].key, map_[j].key)
  }

  ghost predicate Covered(less: Less, map_: seq<Group>, p: Pair) {
    exists i :: 0 <= i < |map_| && Eqv(less, map_[i].key, p.key)
  }

  /** One entry per distinct key, in key order; each entry's vector is the stable filter of all
      pairs by its key and is not empty; every pair's key has an entry. */
  ghost predicate Grouping(less: Less, map_: seq<Group>, all: seq<Pair>) {
    && Sorted(less, map_)
    && (forall i :: 0 <= i < |map_| ==>
          map_[i].pairs == Filter(less, all, map_[i].key) && map_[i].pairs != [])
    && (forall p :: p in all ==> Covered(less, map_, p))
  }

  lemma {:induction false} PlaceSplits(less: Less, map_: seq<Group>, k: Key)
    requires StrictWeak(less) && Sorted(less, map_)
    ensures forall i :: 0 <= i < Place(less, map_, k) ==> less(map_[i].key, k)
    ensures forall i :: Place(less, map_, k) <= i < |map_| ==> !less(map_[i].key, k)
    decreases |map_|
  {
    if map_ != [] && less(map_[0].key, k) {
      PlaceSplits(less, map_[1..], k);
      forall i | 0 <= i < |map_|
        ensures i < Place(less, map_, k) <==> less(map_[i].key, k)
      {
        if i > 0 {
          assert map_[i] == map_[1..][i - 1];
        }
      }
    } else {
      forall i | 0 <= i < |map_|
        ensures !less(map_[i].key, k)
      {
        assert 0 < i ==> less(map_[0].key, map_[i].key);
      }
    }
  }

  lemma FilterStep(less: Less, all: seq<Pair>, p: Pair, k: Key)
    ensures Filter(less, all + [p], k) == Filter(less, all, k) + if Eqv(less, k, p.key) then [p] else []
  {
    assert (all + [p])[..|all|] == all;
  }

  lemma {:induction false} FilterEmpty(less: Less, map_: seq<Group>, all: seq<Pair>, k: Key)
    requires StrictWeak(less)
    requires forall p :: p in all ==> Covered(less, map_, p)
    requires forall i :: 0 <= i < |map_| ==> !Eqv(less, map_[i].key, k)
    ensures Filter(less, all, k) == []
    decreases |all|
  {
    if all != [] {
      var p := all[|all| - 1];
      FilterEmpty(less, map_, all[..|all| - 1], k);
      assert Covered(less, map_, p);
      var i :| 0 <= i < |map_| && Eqv(less, map_[i].key, p.key);
      EqvTrans(less, map_[i].key, p.key, k);
    }
  }

  /** Where Insert puts a pair: into the entry of its key, or into a new entry at its place. */
  lemma InsertShape(less: Less, map_: seq<Group>, p: Pair)
    requires StrictWeak(less) && Sorted(less, map_)
    ensures var i := Place(less, map_, p.key);
            Insert(less, map_, p) ==
            if Has(less, map_, p.key) then map_[i := Group(map_[i].key, map_[i].pairs + [p])]
            else map_[..i] + [Group(p.key, [p])] + map_[i..]
  {
    if !Has(less, map_, p.key) {
      NewThenPush(less, map_, p);
    }
  }

  /** An entry that has just been created is the one that gets the pair. */
  lemma NewThenPush(less: Less, map_: seq<Group>, p: Pair)
    requires StrictWeak(less) && Sorted(less, map_)
    ensures var i := Place(less, map_, p.key);
            PushBack(less, AddKey(less, map_, p.key), p) == map_[..i] + [Group(p.key, [p])] + map_[i..]
  {
    var i := Place(less, map_, p.key);
    PlaceSplits(less, map_, p.key);
    PlaceOfAdded(less, map_, p.key, i);
    FillNew(map_, i, p);
  }

  lemma FillNew(map_: seq<Group>, i: nat, p: Pair)
    requires i <= |map_|
    ensures var added := map_[..i] + [Group(p.key, [])] + map_[i..];
            && added[i] == Group(p.key, [])
            && added[i := Group(p.key, [] + [p])] == map_[..i] + [Group(p.key, [p])] + map_[i..]
  {
    assert [] + [p] == [p];
  }

  lemma {:induction false} PlaceOfAdded(less: Less, map_: seq<Group>, k: Key, i: nat)
    requires StrictWeak(less) && i <= |map_|
    requires forall j :: 0 <= j < i ==> less(map_[j].key, k)
    ensures Place(less, map_[..i] + [Group(k, [])] + map_[i..], k) == i
    decreases i
  {
    var added := map_[..i] + [Group(k, [])] + map_[i..];
    if i > 0 {
      assert added[1..] == map_[1..][..i - 1] + [Group(k, [])] + map_[1..][i - 1..];
      PlaceOfAdded(less, map_[1..], k, i - 1);
    } else {
      assert added[0].key == k;
    }
  }

  lemma InsertSorted(less: Less, map_: seq<Group>, p: Pair)
    requires StrictWeak(less) && Sorted(less, map_)
    ensures Sorted(less, Insert(less, map_, p))
  {
    InsertShape(less, map_, p);
    var i := Place(less, map_, p.key);
    if Has(less, map_, p.key) {
      SortedAppended(less, map_, i, p);
    } else {
      PlaceSplits(less, map_, p.key);
      PastPlace(less, map_, p.key);
      SortedWithNew(less, map_, i, Group(p.key, [p]));
    }
  }

  lemma SortedAppended(less: Less, map_: seq<Group>, i: nat, p: Pair)
    requires Sorted(less, map_) && i < |map_|
    ensures Sorted(less, map_[i := Group(map_[i].key, map_[i].pairs + [p])])
  {
  }

  lemma SortedWithNew(less: Less, map_: seq<Group>, i: nat, g: Group)
    requires Sorted(less, map_) && i <= |map_|
    requires forall a :: 0 <= a < i ==> less(map_[a].key, g.key)
    requires forall b :: i <= b < |map_| ==> less(g.key, map_[b].key)
    ensures Sorted(less, map_[..i] + [g] + map_[i..])
  {
    var after := map_[..i] + [g] + map_[i..];
    forall a, b | 0 <= a < b < |after|
      ensures less(after[a].key, after[b].key)
    {
      assert after[a] == if a < i then map_[a] else if a == i then g else map_[a - 1];
      assert after[b] == if b < i then map_[b] else if b == i then g else map_[b - 1];
    }
  }

  lemma PastPlace(less: Less, map_: seq<Group>, k: Key)
    requires StrictWeak(less) && Sorted(less, map_) && !Has(less, map_, k)
    ensures forall j :: Place(less, map_, k) <= j < |map_| ==> less(k, map_[j].key)
  {
    var i := Place(less, map_, k);
    forall j | i <= j < |map_|
      ensures less(k, map_[j].key)
    {
      assert i < j ==> less(map_[i].key, map_[j].key);
    }
  }

  /** A pair's key is the key of exactly the entry at its place. */
  lemma OnlyAtPlace(less: Less, map_: seq<Group>, k: Key, j: nat)
    requires StrictWeak(less) && Sorted(less, map_) && j < |map_|
    ensures Eqv(less, map_[j].key, k) <==> Has(less, map_, k) && j == Place(less, map_, k)
  {
    PlaceSplits(less, map_, k);
    var i := Place(less, map_, k);
    if i < j {
      assert less(map_[i].key, map_[j].key);
      EqvLess(less, map_[i].key, map_[j].key, k);
    }
  }

  /** Entry j after p was pushed to the entry of its key. */
  lemma PushedPairs(less: Less, map_: seq<Group>, all: seq<Pair>, p: Pair, j: nat)
    requires StrictWeak(less) && Grouping(less, map_, all) && Has(less, map_, p.key) && j < |map_|
    ensures var i := Place(less, map_, p.key);
            var g := map_[i := Group(map_[i].key, map_[i].pairs + [p])][j];
            g.pairs == Filter(less, all + [p], g.key) && g.pairs != []
  {
    FilterStep(less, all, p, map_[j].key);
    OnlyAtPlace(less, map_, p.key, j);
  }

  /** Entry x after a new entry was created for p: what it was. */
  lemma OldPairs(less: Less, map_: seq<Group>, all: seq<Pair>, p: Pair, x: nat)
    requires StrictWeak(less) && Grouping(less, map_, all) && !Has(less, map_, p.key) && x < |map_|
    ensures map_[x].pairs == Filter(less, all + [p], map_[x].key) && map_[x].pairs != []
  {
    FilterStep(less, all, p, map_[x].key);
    OnlyAtPlace(less, map_, p.key, x);
  }

  lemma NewPairs(less: Less, map_: seq<Group>, all: seq<Pair>, p: Pair)
    requires StrictWeak(less) && Grouping(less, map_, all) && !Has(less, map_, p.key)
    ensures Filter(less, all + [p], p.key) == [p]
  {
    FilterStep(less, all, p, p.key);
    NewKeyHasNone(less, map_, all, p.key);
  }

  /** Entry j after the insertion of p: what it was, or p's own entry, old or new. */
  lemma InsertedPairs(less: Less, map_: seq<Group>, all: seq<Pair>, p: Pair, j: nat)
    requires StrictWeak(less) && Grouping(less, map_, all) && j < |Insert(less, map_, p)|
    ensures var g := Insert(less, map_, p)[j]; g.pairs == Filter(less, all + [p], g.key) && g.pairs != []
  {
    InsertShape(less, map_, p);
    if Has(less, map_, p.key) {
      PushedPairs(less, map_, all, p, j);
    } else {
      var i := Place(less, map_, p.key);
      if j == i {
        NewPairs(less, map_, all, p);
      } else {
        OldPairs(less, map_, all, p, if j < i then j else j - 1);
      }
    }
  }

  lemma NewKeyHasNone(less: Less, map_: seq<Group>, all: seq<Pair>, k: Key)
    requires StrictWeak(less) && Grouping(less, map_, all) && !Has(less, map_, k)
    ensures Filter(less, all, k) == []
  {
    forall x | 0 <= x < |map_|
      ensures !Eqv(less, map_[x].key, k)
    {
      OnlyAtPlace(less, map_, k, x);
    }
    FilterEmpty(less, map_, all, k);
  }

  lemma InsertGrouping(less: Less, map_: seq<Group>, all: seq<Pair>, p: Pair)
    requires StrictWeak(less) && Grouping(less, map_, all)
    ensures Grouping(less, Insert(less, map_, p), all + [p])
  {
    InsertSorted(less, map_, p);
    var after := Insert(less, map_, p);
    forall j | 0 <= j < |after|
      ensures after[j].pairs == Filter(less, all + [p], after[j].key) && after[j].pairs != []
    {
      InsertedPairs(less, map_, all, p, j);
    }
    InsertCovers(less, map_, all, p);
  }

  /** Every entry is still there after an insertion, under its key. */
  lemma EntryStays(less: Less, map_: seq<Group>, p: Pair, x: nat) returns (y: nat)
    requires StrictWeak(less) && Sorted(less, map_) && x < |map_|
    ensures y < |Insert(less, map_, p)| && Insert(less, map_, p)[y].key == map_[x].key
  {
    InsertShape(less, map_, p);
    y := if Has(less, map_, p.key) || x < Place(less, map_, p.key) then x else x + 1;
  }

  lemma InsertedEntry(less: Less, map_: seq<Group>, p: Pair)
    requires StrictWeak(less) && Sorted(less, map_)
    ensures Covered(less, Insert(less, map_, p), p)
  {
    InsertShape(less, map_, p);
    var i := Place(less, map_, p.key);
    if Has(less, map_, p.key) {
      OnlyAtPlace(less, map_, p.key, i);
    }
    assert Eqv(less, Insert(less, map_, p)[i].key, p.key);
  }

  lemma InsertCovers(less: Less, map_: seq<Group>, all: seq<Pair>, p: Pair)
    requires StrictWeak(less) && Grouping(less, map_, all)
    ensures forall q :: q in all + [p] ==> Covered(less, Insert(less, map_, p), q)
  {
    forall q | q in all + [p]
      ensures Covered(less, Insert(less, map_, p), q)
    {
      if q in all {
        assert Covered(less, map_, q);
        var x :| 0 <= x < |map_| && Eqv(less, map_[x].key, q.key);
        var y := EntryStays(less, map_, p, x);
      } else {
        InsertedEntry(less, map_, p);
      }
    }
  }

  /** Shuffling groups stably: each key's vector is the filter of the concatenation by that key. */
  lemma {:induction false} ShuffleGroups(less: Less, all: seq<Pair>)
    requires StrictWeak(less)
    ensures Grouping(less, ShuffleAll(less, all), all)
    decreases |all|
  {
    if all != [] {
      var init := all[..|all| - 1];
      ShuffleGroups(less, init);
      var last := all[|all| - 1];
      assert all == init + [last] && ShuffleAll(less, all) == Insert(less, ShuffleAll(less, init), last);
      InsertGrouping(less, ShuffleAll(less, init), init, last);
    }
  }

  /** An entry keeps the key of the first pair that was put into it. */
  ghost predicate FirstKeys(map_: seq<Group>) {
    forall i | 0 <= i < |map_| :: map_[i].pairs != [] && map_[i].key == map_[i].pairs[0].key
  }

  lemma InsertKeepsKeys(less: Less, map_: seq<Group>, p: Pair)
    requires StrictWeak(less) && Sorted(less, map_) && FirstKeys(map_)
    ensures FirstKeys(Insert(less, map_, p))
  {
    InsertShape(less, map_, p);
  }

  lemma {:induction false} KeyOfFirstPair(less: Less, all: seq<Pair>)
    requires StrictWeak(less)
    ensures FirstKeys(ShuffleAll(less, all))
    decreases |all|
  {
    if all != [] {
      var init := all[..|all| - 1];
      KeyOfFirstPair(less, init);
      ShuffleGroups(less, init);
      InsertKeepsKeys(less, ShuffleAll(less, init), all[|all| - 1]);
    }
  }

  // ---------- The result does not depend on the order of the pairs ----------

  lemma {:induction false} FilterBag(less: Less, all: seq<Pair>, k: Key, p: Pair)
    ensures multiset(Filter(less, all, k))[p] == if Eqv(less, k, p.key) then multiset(all)[p] else 0
    decreases |all|
  {
    if all != [] {
      var init, q := all[..|all| - 1], all[|all| - 1];
      FilterBag(less, init, k, p);
      assert all == init + [q];
    }
  }

  lemma SameBagFilter(less: Less, a: seq<Pair>, b: seq<Pair>, k: Key, k': Key)
    requires StrictWeak(less) && multiset(a) == multiset(b) && Eqv(less, k, k')
    ensures multiset(Filter(less, a, k)) == multiset(Filter(less, b, k'))
  {
    forall p
      ensures multiset(Filter(less, a, k))[p] == multiset(Filter(less, b, k'))[p]
    {
      FilterBag(less, a, k, p);
      FilterBag(less, b, k', p);
      assert Eqv(less, k', k);
      assert Eqv(less, k, p.key) <==> Eqv(less, k', p.key);
    }
  }

  /** Every entry of one grouping has an entry of the same key in the other. */
  lemma Partner(less: Less, a: seq<Pair>, b: seq<Pair>, ga: seq<Group>, gb: seq<Group>, i: nat) returns (j: nat)
    requires StrictWeak(less) && multiset(a) == multiset(b)
    requires Grouping(less, ga, a) && Grouping(less, gb, b) && i < |ga|
    ensures j < |gb| && Eqv(less, ga[i].key, gb[j].key)
  {
    var p := ga[i].pairs[0];
    assert multiset(Filter(less, a, ga[i].key))[p] > 0;
    FilterBag(less, a, ga[i].key, p);
    assert p in multiset(a);
    assert p in b;
    assert Covered(less, gb, p);
    j :| 0 <= j < |gb| && Eqv(less, gb[j].key, p.key);
    assert Eqv(less, ga[i].key, p.key) && Eqv(less, p.key, gb[j].key);
  }

  lemma {:induction false} SameRank(less: Less, a: seq<Pair>, b: seq<Pair>, ga: seq<Group>, gb: seq<Group>, i: nat)
    requires StrictWeak(less) && multiset(a) == multiset(b)
    requires Grouping(less, ga, a) && Grouping(less, gb, b) && i < |ga|
    ensures i < |gb| && Eqv(less, ga[i].key, gb[i].key)
    decreases i
  {
    forall x | 0 <= x < i
      ensures x < |gb| && Eqv(less, ga[x].key, gb[x].key)
    {
      SameRank(less, a, b, ga, gb, x);
    }
    var j := Partner(less, a, b, ga, gb, i);
    if j < i {
      assert less(ga[j].key, ga[i].key);
      assert Eqv(less, ga[j].key, gb[j].key) && Eqv(less, gb[j].key, ga[i].key);
      assert false;
    }
    if j > i {
      var x := Partner(less, b, a, gb, ga, i);
      NoLaterPartner(less, ga, gb, i, j, x);
    }
  }

  /** When earlier entries correspond, entry i of one cannot belong to a later entry j of the other:
      the entry i that j skips would have no partner. */
  lemma NoLaterPartner(less: Less, ga: seq<Group>, gb: seq<Group>, i: nat, j: nat, x: nat)
    requires StrictWeak(less) && Sorted(less, ga) && Sorted(less, gb)
    requires i < |ga| && i <= j < |gb| && x < |ga|
    requires forall y :: 0 <= y < i ==> Eqv(less, ga[y].key, gb[y].key)
    requires Eqv(less, ga[i].key, gb[j].key) && Eqv(less, gb[i].key, ga[x].key)
    ensures j == i
  {
    assert i < j ==> less(gb[i].key, gb[j].key);
    if x < i {
      assert less(gb[x].key, gb[i].key);
      EqvTrans(less, gb[x].key, ga[x].key, gb[i].key);
      assert false;
    } else {
      assert i < x ==> less(ga[i].key, ga[x].key);
      EqvLess(less, ga[x].key, gb[i].key, gb[j].key);
      EqvLess(less, ga[x].key, gb[j].key, ga[i].key);
    }
  }

  /** Groupings of the same pairs in any two orders correspond entry by entry, as multisets. */
  lemma GroupsMatch(less: Less, a: seq<Pair>, b: seq<Pair>, ga: seq<Group>, gb: seq<Group>)
    requires StrictWeak(less) && multiset(a) == multiset(b)
    requires Grouping(less, ga, a) && Grouping(less, gb, b)
    ensures |ga| == |gb|
    ensures forall i :: 0 <= i < |ga| ==>
              Eqv(less, ga[i].key, gb[i].key) && multiset(ga[i].pairs) == multiset(gb[i].pairs)
  {
    if |ga| > 0 {
      SameRank(less, a, b, ga, gb, |ga| - 1);
    }
    if |gb| > 0 {
      SameRank(less, b, a, gb, ga, |gb| - 1);
    }
    forall i | 0 <= i < |ga|
      ensures Eqv(less, ga[i].key, gb[i].key) && multiset(ga[i].pairs) == multiset(gb[i].pairs)
    {
      SameRank(less, a, b, ga, gb, i);
      SameBagFilter(less, a, b, ga[i].key, gb[i].key);
    }
  }

  // ---------- shuffle ----------

  lemma ShuffleStep(less: Less, all: seq<Pair>, p: Pair)
    ensures ShuffleAll(less, all + [p]) == Insert(less, ShuffleAll(less, all), p)
  {
    assert (all + [p])[..|all|] == all;
  }

  lemma ConcatStep(inter: seq<seq<Pair>>, i: nat)
    requires i < |inter|
    ensures Concat(inter[..i + 1]) == Concat(inter[..i]) + inter[i]
  {
    assert inter[..i + 1][..i] == inter[..i];
  }

  lemma ShufflePrefix(less: Less, seen: seq<Pair>, vec: seq<Pair>, j: nat)
    requires j < |vec|
    ensures ShuffleAll(less, seen + vec[..j + 1]) == Insert(less, ShuffleAll(less, seen + vec[..j]), vec[j])
  {
    assert seen + vec[..j + 1] == seen + vec[..j] + [vec[j]];
    ShuffleStep(less, seen + vec[..j], vec[j]);
  }

  /** The body of the loops: the entry is created when it is missing, then the pair is pushed. */
  method AddPair(less: Less, before: seq<Group>, pair: Pair) returns (map_: seq<Group>)
    ensures map_ == Insert(less, before, pair)
  {
    map_ := before;
    if !Has(less, map_, pair.key) {
      map_ := AddKey(less, map_, pair.key);
    }
    map_ := PushBack(less, map_, pair);
  }

  /** The inner loop, over one thread's vector. */
  method ShuffleVec(less: Less, vec: seq<Pair>, before: seq<Group>, ghost seen: seq<Pair>) returns (map_: seq<Group>)
    requires before == ShuffleAll(less, seen)
    ensures map_ == ShuffleAll(less, seen + vec)
  {
    map_ := before;
    assert seen + vec[..0] == seen;
    for j := 0 to |vec|
      invariant map_ == ShuffleAll(less, seen + vec[..j])
    {
      ShufflePrefix(less, seen, vec, j);
      map_ := AddPair(less, map_, vec[j]);
    }
    assert vec[..|vec|] == vec;
  }

  /** Thread 0 shuffles every thread's intermediate vector, in thread-id order. */
  method Shuffle(less: Less, inter: seq<seq<Pair>>) returns (map_: seq<Group>, size: nat)
    requires StrictWeak(less)
    ensures map_ == ShuffleAll(less, Concat(inter))
    ensures Grouping(less, map_, Concat(inter))
    ensures size == |map_|
  {
    map_ := [];
    for i := 0 to |inter|
      invariant map_ == ShuffleAll(less, Concat(inter[..i]))
    {
      ConcatStep(inter, i);
      map_ := ShuffleVec(less, inter[i], map_, Concat(inter[..i]));
    }
    assert inter[..|inter|] == inter;
    ShuffleGroups(less, Concat(inter));
    size := |map_|;
  }
}
