/**
 Greedy matching of a sequence of keys against a list of keyed items: each key
 takes the first remaining item that has it.  The declarative account counts
 occurrences and does not mention the greedy choice.
 */
module Matching {
  import opened Wrappers

  datatype Keyed<K, V> = Keyed(key: K, value: V)

  // The index of the (n+1)-th occurrence of x.
  function Nth<K(==)>(keys: seq<K>, x: K, n: nat): (r: nat)
    requires n < multiset(keys)[x]
    ensures r < |keys|
  {
    assert keys == [keys[0]] + keys[1..];
    if keys[0] == x then (if n == 0 then 0 else 1 + Nth(keys[1..], x, n - 1)) else 1 + Nth(keys[1..], x, n)
  }

  lemma CountFirst<K>(keys: seq<K>, x: K)
    requires keys != []
    ensures multiset(keys)[x] == (if keys[0] == x then 1 else 0) + multiset(keys[1..])[x]
  {
    assert keys == [keys[0]] + keys[1..];
  }

  // It is where x occurs with exactly n occurrences before it, and only there.
  lemma {:induction false} NthIs<K>(keys: seq<K>, x: K, n: nat)
    requires n < multiset(keys)[x]
    ensures keys[Nth(keys, x, n)] == x && multiset(keys[..Nth(keys, x, n)])[x] == n
    decreases |keys|
  {
    CountFirst(keys, x);
    var n' := if keys[0] == x then n - 1 else n;
    if n' < 0 {
    } else {
      NthIs(keys[1..], x, n');
      var r := Nth(keys[1..], x, n');
      assert keys[..r + 1] == [keys[0]] + keys[1..][..r];
      CountFirst(keys[..r + 1], x);
      assert keys[..r + 1][1..] == keys[1..][..r];
    }
  }

  lemma {:induction false} NthUnique<K>(keys: seq<K>, i: nat)
    requires i < |keys|
    ensures multiset(keys[..i])[keys[i]] < multiset(keys)[keys[i]]
    ensures Nth(keys, keys[i], multiset(keys[..i])[keys[i]]) == i
    decreases |keys|
  {
    var x := keys[i];
    CountFirst(keys, x);
    if i == 0 {
    } else {
      NthUnique(keys[1..], i - 1);
      CountFirst(keys[..i], x);
      assert keys[..i][1..] == keys[1..][..i - 1];
    }
  }

  // ------------------------------------------------------------------
  // What is left after some keys have been taken
  // ------------------------------------------------------------------

  // The items that stay when `taken` says how many of each key were removed from the front.
  function Left<K(==), V>(items: seq<Keyed<K, V>>, taken: multiset<K>): seq<Keyed<K, V>> {
    if items == [] then []
    else if items[0].key in taken then Left(items[1..], taken - multiset{items[0].key})
    else [items[0]] + Left(items[1..], taken)
  }

  function Keys<K, V>(items: seq<Keyed<K, V>>): (r: seq<K>)
    ensures |r| == |items| && forall i :: 0 <= i < |r| ==> r[i] == items[i].key
  {
    seq(|items|, i requires 0 <= i < |items| => items[i].key)
  }

  function FirstWith<K(==), V>(items: seq<Keyed<K, V>>, x: K): (r: Option<nat>)
    ensures r.Some? ==> r.value < |items| && items[r.value].key == x
    ensures r.Some? ==> forall i :: 0 <= i < r.value ==> items[i].key != x
    ensures r.None? ==> forall i :: 0 <= i < |items| ==> items[i].key != x
  {
    if items == [] then None
    else if items[0].key == x then Some(0)
    else
      match FirstWith(items[1..], x)
      case None => None
      case Some(i) => Some(i + 1)
  }

  function Without<K, V>(items: seq<Keyed<K, V>>, i: nat): seq<Keyed<K, V>>
    requires i < |items|
  {
    items[..i] + items[i + 1..]
  }

  // What taking x means for what is left: the occurrence whose turn it is goes, and
  // nothing goes if all are taken.
  ghost predicate Takes<K, V>(items: seq<Keyed<K, V>>, taken: multiset<K>, x: K) {
    var left := Left(items, taken);
    var found := FirstWith(left, x);
    if taken[x] < multiset(Keys(items))[x]
    then
      && found.Some?
      && left[found.value] == items[Nth(Keys(items), x, taken[x])]
      && Left(items, taken + multiset{x}) == Without(left, found.value)
    else found.None? && Left(items, taken + multiset{x}) == left
  }

  // Greedy matching always takes the next one in this sense.
  lemma {:induction false} TakeNext<K, V>(items: seq<Keyed<K, V>>, taken: multiset<K>, x: K)
    ensures Takes(items, taken, x)
    decreases |items|
  {
    if items == [] {
    } else {
      var key := items[0].key;
      if key in taken {
        TakeNext(items[1..], taken - multiset{key}, x);
        TakeBehindTaken(items, taken, x);
      } else if key == x {
        TakeFront(items, taken);
      } else {
        TakeNext(items[1..], taken, x);
        TakeBehindKept(items, taken, x);
      }
    }
  }

  lemma KeysSplit<K, V>(items: seq<Keyed<K, V>>, x: K)
    requires items != []
    ensures Keys(items)[1..] == Keys(items[1..])
    ensures multiset(Keys(items))[x] == (if items[0].key == x then 1 else 0) + multiset(Keys(items[1..]))[x]
  {
    assert Keys(items)[1..] == Keys(items[1..]);
    CountFirst(Keys(items), x);
  }

  lemma Swap<K>(taken: multiset<K>, k: K, x: K)
    requires k in taken
    ensures taken - multiset{k} + multiset{x} == taken + multiset{x} - multiset{k}
    ensures (taken - multiset{k})[x] == taken[x] - if k == x then 1 else 0
  {
  }

  lemma TakeBehindTaken<K, V>(items: seq<Keyed<K, V>>, taken: multiset<K>, x: K)
    requires items != [] && items[0].key in taken
    requires Takes(items[1..], taken - multiset{items[0].key}, x)
    ensures Takes(items, taken, x)
  {
    KeysSplit(items, x);
    var rest, less := items[1..], taken - multiset{items[0].key};
    Swap(taken, items[0].key, x);
    assert Left(items, taken) == Left(rest, less);
    assert Left(items, taken + multiset{x}) == Left(rest, less + multiset{x});
    if taken[x] < multiset(Keys(items))[x] {
      assert items[Nth(Keys(items), x, taken[x])] == rest[Nth(Keys(rest), x, less[x])];
    }
  }

  lemma TakeFront<K, V>(items: seq<Keyed<K, V>>, taken: multiset<K>)
    requires items != [] && items[0].key !in taken
    ensures Takes(items, taken, items[0].key)
  {
    var x, rest := items[0].key, items[1..];
    KeysSplit(items, x);
    assert taken + multiset{x} - multiset{x} == taken;
    assert Left(items, taken) == [items[0]] + Left(rest, taken);
    assert Without(Left(items, taken), 0) == Left(rest, taken);
  }

  lemma TakeBehindKept<K, V>(items: seq<Keyed<K, V>>, taken: multiset<K>, x: K)
    requires items != [] && items[0].key !in taken && items[0].key != x
    requires Takes(items[1..], taken, x)
    ensures Takes(items, taken, x)
  {
    var first, rest := items[0], items[1..];
    KeysSplit(items, x);
    var left := Left(rest, taken);
    assert Left(items, taken) == [first] + left;
    assert Left(items, taken + multiset{x}) == [first] + Left(rest, taken + multiset{x});
    assert ([first] + left)[1..] == left;
    var found := FirstWith(left, x);
    if found.Some? {
      assert FirstWith([first] + left, x) == Some(found.value + 1);
      assert Without([first] + left, found.value + 1) == [first] + Without(left, found.value);
    }
  }

  lemma {:induction false} NothingLeft<K, V>(items: seq<Keyed<K, V>>, taken: multiset<K>)
    ensures Left(items, taken) == [] <==> multiset(Keys(items)) <= taken
    decreases |items|
  {
    if items == [] {
    } else {
      var x, rest := items[0].key, items[1..];
      assert Keys(items)[1..] == Keys(rest);
      assert Keys(items) == [x] + Keys(rest);
      assert multiset(Keys(items)) == multiset{x} + multiset(Keys(rest));
      if x in taken {
        NothingLeft(rest, taken - multiset{x});
      } else {
        assert multiset(Keys(items))[x] > taken[x];
      }
    }
  }

  lemma {:induction false} NothingTaken<K, V>(items: seq<Keyed<K, V>>)
    ensures Left(items, multiset{}) == items
  {
    if items == [] {
    } else {
      NothingTaken(items[1..]);
    }
  }

  // ------------------------------------------------------------------
  // The matching as a whole
  // ------------------------------------------------------------------

  // Position p of the targets still finds an item: fewer of its key came before than there are.
  predicate Matched<K(==)>(keys: seq<K>, targets: seq<K>, p: nat)
    requires p < |targets|
  {
    multiset(targets[..p])[targets[p]] < multiset(keys)[targets[p]]
  }

  // The item it gets.
  function Source<K(==)>(keys: seq<K>, targets: seq<K>, p: nat): (i: nat)
    requires p < |targets| && Matched(keys, targets, p)
    ensures i < |keys|
  {
    Nth(keys, targets[p], multiset(targets[..p])[targets[p]])
  }

  // The target that item i goes to.
  function Target<K(==)>(keys: seq<K>, targets: seq<K>, i: nat): (p: nat)
    requires i < |keys| && multiset(keys) <= multiset(targets)
    ensures p < |targets|
  {
    NthUnique(keys, i);
    Nth(targets, keys[i], multiset(keys[..i])[keys[i]])
  }

  // When the targets contain the keys, Source and Target are inverse: every item
  // is used exactly once, under its own key.
  lemma SourceAndTarget<K>(keys: seq<K>, targets: seq<K>, i: nat)
    requires i < |keys| && multiset(keys) <= multiset(targets)
    ensures var p := Target(keys, targets, i);
            targets[p] == keys[i] && Matched(keys, targets, p) && Source(keys, targets, p) == i
  {
    NthUnique(keys, i);
    NthIs(targets, keys[i], multiset(keys[..i])[keys[i]]);
  }

  lemma TargetAndSource<K>(keys: seq<K>, targets: seq<K>, p: nat)
    requires p < |targets| && Matched(keys, targets, p) && multiset(keys) <= multiset(targets)
    ensures var i := Source(keys, targets, p);
            keys[i] == targets[p] && Target(keys, targets, i) == p
  {
    NthIs(keys, targets[p], multiset(targets[..p])[targets[p]]);
    NthUnique(targets, p);
  }

  // Items with equal keys keep their order.
  lemma OrderKept<K>(keys: seq<K>, targets: seq<K>, i: nat, j: nat)
    requires i < j < |keys| && keys[i] == keys[j] && multiset(keys) <= multiset(targets)
    ensures Target(keys, targets, i) < Target(keys, targets, j)
  {
    var x := keys[i];
    SourceAndTarget(keys, targets, i);
    SourceAndTarget(keys, targets, j);
    NthUnique(keys, i);
    NthUnique(keys, j);
    NthIs(targets, x, multiset(keys[..i])[x]);
    NthIs(targets, x, multiset(keys[..j])[x]);
    CountGrows(keys, x, i, j);
    var p, q := Target(keys, targets, i), Target(keys, targets, j);
    CountMonotone(targets, x, if q <= p then q else p, p);
  }

  lemma CountMonotone<K>(keys: seq<K>, x: K, i: nat, j: nat)
    requires i <= j <= |keys|
    ensures multiset(keys[..i])[x] <= multiset(keys[..j])[x]
  {
    assert keys[..j] == keys[..i] + keys[i..j];
    assert multiset(keys[..j]) == multiset(keys[..i]) + multiset(keys[i..j]);
  }

  lemma CountGrows<K>(keys: seq<K>, x: K, i: nat, j: nat)
    requires i < j <= |keys| && keys[i] == x
    ensures multiset(keys[..i])[x] < multiset(keys[..j])[x]
  {
    assert keys[..j] == keys[..i] + [x] + keys[i + 1..j];
    assert multiset(keys[..j]) == multiset(keys[..i]) + multiset{x} + multiset(keys[i + 1..j]);
  }
}
