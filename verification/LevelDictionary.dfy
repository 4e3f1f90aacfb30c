/** A map from levels to numbers that is iterated in the lexicographic order of its keys. */
module LevelDictionary {
  import opened LevelSets
  import opened LevelGeneration

  datatype Entry = Entry(key: Level, value: real)

  /** The entries of an ordered map in iteration order. */
  type Dict = seq<Entry>

  function Keys(d: Dict): (keys: seq<Level>)
    ensures |keys| == |d| && forall i :: 0 <= i < |d| ==> keys[i] == d[i].key
  {
    seq(|d|, i requires 0 <= i < |d| => d[i].key)
  }

  /** Keys of one dimension, in strictly ascending order. */
  ghost predicate IsDict(d: Dict, dim: nat) {
    && Sorted(Keys(d))
    && forall i {:trigger d[i]} :: 0 <= i < |d| ==> |d[i].key| == dim
  }

  /** Position of a key, or the number of entries if there is none. */
  function Find(d: Dict, key: Level): (i: nat)
    ensures i <= |d|
    ensures i < |d| ==> d[i].key == key
    ensures forall j :: 0 <= j < i ==> d[j].key != key
  {
    if d == [] then 0 else if d[0].key == key then 0 else 1 + Find(d[1..], key)
  }

  /** Inserts at the place of the key in the order; an existing entry is kept. */
  function Insert(d: Dict, key: Level, value: real): Dict {
    if d == [] then [Entry(key, value)]
    else if d[0].key == key then d
    else if LexLess(key, d[0].key) then [Entry(key, value)] + d
    else [d[0]] + Insert(d[1..], key, value)
  }

  lemma LexIsTransitive(a: Level, b: Level, c: Level)
    requires LexLess(a, b) && LexLess(b, c)
    ensures LexLess(a, c)
  {
    var i :| 0 <= i < |a| && FirstDifference(a, b, i);
    var j :| 0 <= j < |b| && FirstDifference(b, c, j);
    assert FirstDifference(a, c, if i < j then i else j);
  }

  lemma LexIsAsymmetric(a: Level, b: Level)
    requires LexLess(a, b)
    ensures !LexLess(b, a) && a != b
  {
    var i :| 0 <= i < |a| && FirstDifference(a, b, i);
    forall j: nat | j < |b|
      ensures !FirstDifference(b, a, j)
    {
      assert j < i ==> a[j] == b[j];
    }
  }

  lemma {:induction false} LexIsTotal(a: Level, b: Level)
    requires |a| == |b| && a != b
    ensures LexLess(a, b) || LexLess(b, a)
  {
    var i := 0;
    while i < |a| - 1 && a[i] == b[i]
      invariant 0 <= i < |a| || |a| == 0
      invariant forall j :: 0 <= j < i ==> a[j] == b[j]
    {
      i := i + 1;
    }
    assert |a| > 0;
    assert a[i] == b[i] ==> a == b;
    assert FirstDifference(a, b, i) || FirstDifference(b, a, i);
  }

  /** Every entry of the dictionary has a key above low. */
  ghost predicate Above(low: Level, d: Dict) {
    forall i {:trigger d[i]} :: 0 <= i < |d| ==> LexLess(low, d[i].key)
  }

  lemma ConsIsDict(e: Entry, d: Dict, dim: nat)
    requires IsDict(d, dim) && |e.key| == dim && Above(e.key, d)
    ensures IsDict([e] + d, dim)
  {
    var keys := Keys([e] + d);
    forall i, j | 0 <= i < j < |keys|
      ensures LexLess(keys[i], keys[j])
    {
      assert keys[j] == d[j - 1].key;
      if i > 0 {
        assert keys[i] == Keys(d)[i - 1] && keys[j] == Keys(d)[j - 1];
      }
    }
  }

  lemma TailIsDict(d: Dict, dim: nat)
    requires IsDict(d, dim) && d != []
    ensures IsDict(d[1..], dim) && Above(d[0].key, d[1..])
  {
    forall i, j | 0 <= i < j < |d| - 1
      ensures LexLess(Keys(d[1..])[i], Keys(d[1..])[j])
    {
      assert LexLess(Keys(d)[i + 1], Keys(d)[j + 1]);
    }
    forall i | 0 <= i < |d| - 1
      ensures LexLess(d[0].key, d[1..][i].key)
    {
      assert LexLess(Keys(d)[0], Keys(d)[i + 1]);
    }
  }

  lemma AboveTransitively(low: Level, high: Level, d: Dict)
    requires LexLess(low, high) && Above(high, d)
    ensures Above(low, d)
  {
    forall i | 0 <= i < |d|
      ensures LexLess(low, d[i].key)
    {
      LexIsTransitive(low, high, d[i].key);
    }
  }

  lemma AbsentBelow(d: Dict, key: Level)
    requires Above(key, d)
    ensures key !in Keys(d)
  {
    forall i | 0 <= i < |d|
      ensures Keys(d)[i] != key
    {
      LexIsAsymmetric(key, d[i].key);
    }
  }

  /** Insertion adds exactly the new key and never changes an existing entry. */
  lemma {:induction false} InsertMembers(d: Dict, dim: nat, key: Level, value: real, e: Entry)
    requires IsDict(d, dim) && |key| == dim
    ensures e in Insert(d, key, value) <==> e in d || (e == Entry(key, value) && key !in Keys(d))
  {
    hide IsDict, Keys, LexLess;
    if d != [] {
      TailIsDict(d, dim);
      assert Keys(d) == [d[0].key] + Keys(d[1..]);
      assert d == [d[0]] + d[1..];
      if d[0].key != key {
        if LexLess(key, d[0].key) {
          AboveTransitively(key, d[0].key, d[1..]);
          AbsentBelow(d, key);
        } else {
          InsertMembers(d[1..], dim, key, value, e);
        }
      }
    }
  }

  /** Insertion keeps the order. */
  lemma {:induction false} InsertInOrder(d: Dict, dim: nat, key: Level, value: real)
    requires IsDict(d, dim) && |key| == dim
    ensures IsDict(Insert(d, key, value), dim)
    ensures forall low :: Above(low, d) && LexLess(low, key) ==> Above(low, Insert(d, key, value))
  {
    if d != [] && d[0].key != key {
      TailIsDict(d, dim);
      if LexLess(key, d[0].key) {
        AboveTransitively(key, d[0].key, d[1..]);
        ConsIsDict(Entry(key, value), d, dim);
      } else {
        LexIsTotal(key, d[0].key);
        InsertInOrder(d[1..], dim, key, value);
        ConsIsDict(d[0], Insert(d[1..], key, value), dim);
      }
    }
  }

  /** A key above all others is appended. */
  lemma {:induction false} InsertLast(d: Dict, dim: nat, key: Level, value: real)
    requires IsDict(d, dim) && |key| == dim && forall i :: 0 <= i < |d| ==> LexLess(d[i].key, key)
    ensures Insert(d, key, value) == d + [Entry(key, value)]
  {
    if d != [] {
      LexIsAsymmetric(d[0].key, key);
      TailIsDict(d, dim);
      InsertLast(d[1..], dim, key, value);
    }
  }

  /** In an ordered map a key belongs to one entry only. */
  lemma FindUnique(d: Dict, dim: nat, i: nat)
    requires IsDict(d, dim) && i < |d|
    ensures Find(d, d[i].key) == i
  {
    var f := Find(d, d[i].key);
    if f < i {
      assert LexLess(Keys(d)[f], Keys(d)[i]);
      LexIsAsymmetric(d[f].key, d[i].key);
    }
  }

  lemma FirstIsMember(list: seq<Level>)
    requires list != []
    ensures list[0] in list
  {
  }

  lemma SameLast(a: seq<Level>, b: seq<Level>)
    requires Sorted(a) && Sorted(b) && a != [] && b != [] && forall k :: k in a <==> k in b
    ensures a[|a| - 1] == b[|b| - 1]
  {
    LastIsMaximum(a);
    LastIsMaximum(b);
    var la, lb := a[|a| - 1], b[|b| - 1];
    assert la in a && lb in b;
    if la != lb {
      LexIsAsymmetric(la, lb);
    }
  }

  lemma FrontMembers(a: seq<Level>, k: Level)
    requires Sorted(a) && a != []
    ensures k in a[..|a| - 1] <==> k in a && k != a[|a| - 1]
  {
    LastIsMaximum(a);
    assert a == a[..|a| - 1] + [a[|a| - 1]];
  }

  /** Two ordered lists of the same levels are the same list. */
  lemma {:induction false} SortedAreEqual(a: seq<Level>, b: seq<Level>)
    requires Sorted(a) && Sorted(b) && forall k :: k in a <==> k in b
    ensures a == b
  {
    hide Sorted, LexLess;
    if a == [] {
      if b != [] {
        FirstIsMember(b);
      }
    } else {
      FirstIsMember(a);
      var fa, fb := a[..|a| - 1], b[..|b| - 1];
      SameLast(a, b);
      LastIsMaximum(a);
      LastIsMaximum(b);
      forall k
        ensures k in fa <==> k in fb
      {
        FrontMembers(a, k);
        FrontMembers(b, k);
      }
      SortedAreEqual(fa, fb);
      assert a == fa + [a[|a| - 1]] && b == fb + [b[|b| - 1]];
    }
  }

  lemma LastIsMaximum(a: seq<Level>)
    requires Sorted(a) && a != []
    ensures Sorted(a[..|a| - 1]) && a[|a| - 1] !in a[..|a| - 1]
    ensures forall k :: k in a ==> k == a[|a| - 1] || LexLess(k, a[|a| - 1])
  {
    forall i | 0 <= i < |a| - 1
      ensures LexLess(a[i], a[|a| - 1]) && a[i] != a[|a| - 1]
    {
      LexIsAsymmetric(a[i], a[|a| - 1]);
    }
  }
}
