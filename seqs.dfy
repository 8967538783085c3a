/** Sequence operations behind the module-list edits of a role: the two
    JavaScript `filter`/`includes` selections, and the array updates
    `$addToSet` with `$each` and `$pull` with `$in` that the store applies. */
module Seqs {

  /** The elements of `s` that occur in `t`, in the order and with the
      repetitions of `s`: `s.filter(x => t.includes(x))`. */
  function Within<T(==, !new)>(s: seq<T>, t: seq<T>): (r: seq<T>)
    ensures |r| <= |s|
    ensures forall x :: x in r <==> x in s && x in t
  {
    if s == [] then [] else (if s[0] in t then [s[0]] else []) + Within(s[1..], t)
  }

  /** The elements of `s` that do not occur in `t`, in the order and with the
      repetitions of `s`: `s.filter(x => !t.includes(x))`. */
  function Without<T(==, !new)>(s: seq<T>, t: seq<T>): (r: seq<T>)
    ensures |r| <= |s|
    ensures forall x :: x in r <==> x in s && x !in t
    ensures NoDup(s) ==> NoDup(r)
  {
    if s == [] then [] else (if s[0] in t then [] else [s[0]]) + Without(s[1..], t)
  }

  /** No element occurs twice. */
  predicate NoDup<T(==, !new)>(s: seq<T>)
  {
    forall i, j :: 0 <= i < j < |s| ==> s[i] != s[j]
  }

  /** `s` with every repeat removed, the first occurrence of each element kept. */
  function Dedup<T(==, !new)>(s: seq<T>): (r: seq<T>)
    ensures NoDup(r)
    ensures forall x :: x in r <==> x in s
  {
    if s == [] then []
    else
      var rest := Without(Dedup(s[1..]), [s[0]]);
      NoDupCons(s[0], rest);
      [s[0]] + rest
  }

  /** Putting a new element in front keeps a list free of repeats. */
  lemma NoDupCons<T(!new)>(x: T, s: seq<T>)
    requires NoDup(s) && x !in s
    ensures NoDup([x] + s)
  {
    forall i, j | 0 <= i < j < |[x] + s|
      ensures ([x] + s)[i] != ([x] + s)[j]
    {
      if i == 0 {
        assert ([x] + s)[j] == s[j - 1];
      }
    }
  }

  /** The array update `$addToSet: { $each: items }`: each item in turn is
      appended unless the array already holds it. */
  function AddToSet<T(==, !new)>(s: seq<T>, items: seq<T>): (r: seq<T>)
    ensures forall x :: x in r <==> x in s || x in items
    ensures |s| <= |r| && r[..|s|] == s
    decreases |items|
  {
    if items == [] then s
    else AddToSet(if items[0] in s then s else s + [items[0]], items[1..])
  }

  /** `Within` keeps the order of its first argument: it distributes over
      concatenation. */
  lemma {:induction false} WithinConcat<T(!new)>(a: seq<T>, b: seq<T>, t: seq<T>)
    ensures Within(a + b, t) == Within(a, t) + Within(b, t)
  {
    if a == [] {
      assert a + b == b;
    } else {
      assert (a + b)[0] == a[0] && (a + b)[1..] == a[1..] + b;
      WithinConcat(a[1..], b, t);
    }
  }

  /** `Without` keeps the order of its first argument: it distributes over
      concatenation. */
  lemma {:induction false} WithoutConcat<T(!new)>(a: seq<T>, b: seq<T>, t: seq<T>)
    ensures Without(a + b, t) == Without(a, t) + Without(b, t)
  {
    if a == [] {
      assert a + b == b;
    } else {
      assert (a + b)[0] == a[0] && (a + b)[1..] == a[1..] + b;
      WithoutConcat(a[1..], b, t);
    }
  }

  /** Nothing is filtered out exactly when no element of `s` occurs in `t`. */
  lemma {:induction false} WithoutKeepsAll<T(!new)>(s: seq<T>, t: seq<T>)
    ensures |Without(s, t)| == |s| <==> forall x :: x in s ==> x !in t
  {
    if s != [] {
      WithoutKeepsAll(s[1..], t);
      if s[0] !in t {
        assert forall x :: x in s ==> x == s[0] || x in s[1..];
      }
    }
  }

  /** Filtering out what `s` does not contain gives `s` back. */
  lemma {:induction false} WithoutNothing<T(!new)>(s: seq<T>, t: seq<T>)
    requires forall x :: x in s ==> x !in t
    ensures Without(s, t) == s
  {
    if s != [] {
      assert forall x :: x in s[1..] ==> x in s;
      WithoutNothing(s[1..], t);
    }
  }

  /** Filtering depends on `t` only through its members. */
  lemma {:induction false} WithoutSameMembers<T(!new)>(s: seq<T>, t: seq<T>, u: seq<T>)
    requires forall x :: x in t <==> x in u
    ensures Without(s, t) == Without(s, u)
  {
    if s != [] {
      WithoutSameMembers(s[1..], t, u);
    }
  }

  /** Two filters in a row are one filter by the union. */
  lemma {:induction false} WithoutTwice<T(!new)>(s: seq<T>, t: seq<T>, u: seq<T>)
    ensures Without(Without(s, t), u) == Without(s, t + u)
  {
    if s != [] {
      var head := if s[0] in t then [] else [s[0]];
      WithoutConcat(head, Without(s[1..], t), u);
      WithoutTwice(s[1..], t, u);
    }
  }

  /** What `$addToSet` appends for a list of items starting with `x`. */
  lemma NewItemsCons<T(!new)>(x: T, rest: seq<T>, s: seq<T>)
    ensures Without(Dedup([x] + rest), s)
         == Without([x], s) + Without(Dedup(rest), if x in s then s else s + [x])
  {
    var d := Dedup(rest);
    assert ([x] + rest)[1..] == rest;
    assert Dedup([x] + rest) == [x] + Without(d, [x]);
    WithoutConcat([x], Without(d, [x]), s);
    WithoutTwice(d, [x], s);
    WithoutSameMembers(d, [x] + s, if x in s then s else s + [x]);
  }

  /** `$addToSet` with `$each` appends, after the old array, the items it does
      not already hold, repeats removed and first occurrences kept. */
  lemma {:induction false} AddToSetAppends<T(!new)>(s: seq<T>, items: seq<T>)
    ensures AddToSet(s, items) == s + Without(Dedup(items), s)
    decreases |items|
  {
    if items != [] {
      var x, rest := items[0], items[1..];
      assert items == [x] + rest;
      NewItemsCons(x, rest, s);
      if x in s {
        assert Without([x], s) == [];
        AddToSetAppends(s, rest);
      } else {
        assert Without([x], s) == [x];
        AddToSetAppends(s + [x], rest);
      }
    }
  }

  /** When none of the items is in the array yet, `$addToSet` appends exactly
      the items with their repeats removed. */
  lemma AddToSetOfNew<T(!new)>(s: seq<T>, items: seq<T>)
    requires Within(items, s) == []
    ensures AddToSet(s, items) == s + Dedup(items)
  {
    AddToSetAppends(s, items);
    WithoutNothing(Dedup(items), s);
  }

  /** Appending new elements without repeats to a list without repeats gives a
      list without repeats. */
  lemma NoDupAppend<T(!new)>(s: seq<T>, items: seq<T>)
    requires NoDup(s) && Within(items, s) == []
    ensures NoDup(s + Dedup(items))
  {
    var d := Dedup(items);
    forall i, j | 0 <= i < j < |s + d|
      ensures (s + d)[i] != (s + d)[j]
    {
      if j >= |s| && i < |s| {
        assert (s + d)[j] in d;
        assert (s + d)[i] in s;
      }
    }
  }
}
