/** The JavaScript `Set` as the source uses it: an insertion-ordered
    collection without duplicates, read back with `Array.from` or spread. */
module Collections {

  predicate NoDuplicates<T(==)>(s: seq<T>) {
    forall i, j :: 0 <= i < j < |s| ==> s[i] != s[j]
  }

  /** The position of the first occurrence of `x` in `s`, or `|s|` when absent. */
  function FirstIndex<T(==)>(s: seq<T>, x: T): (k: nat)
    ensures k <= |s|
    ensures k < |s| <==> x in s
    ensures k < |s| ==> s[k] == x
    ensures forall i :: 0 <= i < k ==> s[i] != x
  {
    if |s| == 0 then 0
    else if s[0] == x then 0
    else 1 + FirstIndex(s[1..], x)
  }

  /** `set.add(x)`: appends `x` unless it is already present. */
  function SetAdd<T(==)>(xs: seq<T>, x: T): seq<T> {
    if x in xs then xs else xs + [x]
  }

  /** The elements of a `Set` filled by inserting `s` front to back, in the
      order `Array.from` yields them. */
  function Dedup<T(==)>(s: seq<T>): seq<T> {
    if |s| == 0 then [] else SetAdd(Dedup(s[..|s| - 1]), s[|s| - 1])
  }

  /** One more insertion into the set. */
  lemma DedupSnoc<T>(s: seq<T>, x: T)
    ensures Dedup(s + [x]) == SetAdd(Dedup(s), x)
  {
    assert (s + [x])[..|s|] == s;
  }

  lemma FirstIndexSnoc<T>(s: seq<T>, y: T, x: T)
    requires x in s
    ensures FirstIndex(s + [y], x) == FirstIndex(s, x)
  {
    var k, k' := FirstIndex(s, x), FirstIndex(s + [y], x);
    assert (s + [y])[k] == x;
    if k' < k {
      assert s[k'] == (s + [y])[k'] == x;
    }
  }

  /** What the source relies on when it reads a `Set` back: no element twice,
      exactly the inserted elements, and the order of first insertion. */
  lemma {:induction false} DedupSpec<T>(s: seq<T>)
    ensures NoDuplicates(Dedup(s))
    ensures forall x :: x in Dedup(s) ==> x in s
    ensures forall x :: x in s ==> x in Dedup(s)
    ensures forall i, j :: 0 <= i < j < |Dedup(s)| ==>
              FirstIndex(s, Dedup(s)[i]) < FirstIndex(s, Dedup(s)[j])
  {
    if |s| > 0 {
      var init, x := s[..|s| - 1], s[|s| - 1];
      assert s == init + [x];
      DedupSpec(init);
      DedupSnoc(init, x);
      var d := Dedup(init);
      forall y | y in init ensures FirstIndex(s, y) == FirstIndex(init, y) {
        FirstIndexSnoc(init, x, y);
      }
      if x !in d {
        assert FirstIndex(s, x) == |init| by {
          assert s[|init|] == x;
        }
        forall i, j | 0 <= i < j < |d + [x]|
          ensures FirstIndex(s, (d + [x])[i]) < FirstIndex(s, (d + [x])[j])
        {
          if j == |d| {
            assert (d + [x])[i] == d[i];
          } else {
            assert (d + [x])[i] == d[i] && (d + [x])[j] == d[j];
          }
        }
      }
    }
  }

  /** The first inserted element is the first element read back. */
  lemma DedupHead<T>(s: seq<T>)
    requires |s| > 0
    ensures |Dedup(s)| > 0 && Dedup(s)[0] == s[0]
  {
    DedupSpec(s);
    var d := Dedup(s);
    assert s[0] in d;
    var k :| 0 <= k < |d| && d[k] == s[0];
    assert k == 0 || FirstIndex(s, d[0]) < FirstIndex(s, d[k]);
  }

  /** The three properties of `DedupSpec` determine the result: any sequence
      that has them is the one the set yields. */
  lemma {:induction false} DedupUnique<T>(s: seq<T>, r: seq<T>)
    requires NoDuplicates(r)
    requires forall x :: x in r ==> x in s
    requires forall x :: x in s ==> x in r
    requires forall i, j :: 0 <= i < j < |r| ==> FirstIndex(s, r[i]) < FirstIndex(s, r[j])
    ensures r == Dedup(s)
  {
    DedupSpec(s);
    var d := Dedup(s);
    OrderedByFirstIndexUnique(s, r, d);
  }

  lemma {:induction false} OrderedByFirstIndexUnique<T>(s: seq<T>, r: seq<T>, d: seq<T>)
    requires NoDuplicates(r) && NoDuplicates(d)
    requires forall x :: x in r ==> x in d
    requires forall x :: x in d ==> x in r
    requires forall x :: x in r ==> x in s
    requires forall i, j :: 0 <= i < j < |r| ==> FirstIndex(s, r[i]) < FirstIndex(s, r[j])
    requires forall i, j :: 0 <= i < j < |d| ==> FirstIndex(s, d[i]) < FirstIndex(s, d[j])
    ensures r == d
    decreases |r|
  {
    if |r| > 0 {
      assert r[0] in d;
      assert |d| > 0 && d[0] in r;
      var i :| 0 <= i < |r| && r[i] == d[0];
      var j :| 0 <= j < |d| && d[j] == r[0];
      assert r[0] == d[0];
      forall x | x in r[1..] ensures x in d[1..] {
        assert x in r && x != r[0];
      }
      forall x | x in d[1..] ensures x in r[1..] {
        assert x in d && x != d[0];
      }
      OrderedByFirstIndexUnique(s, r[1..], d[1..]);
    } else {
      assert forall x :: x !in d;
      assert multiset(d) == multiset{};
    }
  }

  /** The row selection of a query's filter clause: the elements satisfying
      `p`, each as often as it occurs. The body keeps them in their order in `s`; the contract does
      not state that order. */
  function Filter<T(!new)>(s: seq<T>, p: T -> bool): (r: seq<T>)
    ensures forall x :: x in r ==> x in s && p(x)
    ensures forall x :: x in s && p(x) ==> x in r
    ensures forall x :: multiset(r)[x] == if p(x) then multiset(s)[x] else 0
  {
    if |s| == 0 then []
    else
      assert s == [s[0]] + s[1..];
      (if p(s[0]) then [s[0]] else []) + Filter(s[1..], p)
  }

  /** A sequence holding one element once is that element alone. */
  lemma SingletonOfMultiset<T>(s: seq<T>, x: T)
    requires multiset(s) == multiset{x}
    ensures s == [x]
  {
    assert |s| == 1;
    assert s[0] in multiset(s);
  }
}
