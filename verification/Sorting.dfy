/** `Array.prototype.sort`: a stable sort by a total preorder. */
module Sorting {

  ghost predicate TotalPreorder<T(!new)>(le: (T, T) -> bool) {
    && (forall x, y :: le(x, y) || le(y, x))
    && (forall x, y, z :: le(x, y) && le(y, z) ==> le(x, z))
  }

  ghost predicate Sorted<T(!new)>(xs: seq<T>, le: (T, T) -> bool) {
    forall i, j :: 0 <= i < j < |xs| ==> le(xs[i], xs[j])
  }

  /** In front of the first element that does not have to come before it. */
  function Insert<T>(x: T, xs: seq<T>, le: (T, T) -> bool): seq<T> {
    if xs == [] || le(x, xs[0]) then [x] + xs else [xs[0]] + Insert(x, xs[1..], le)
  }

  function Sort<T>(xs: seq<T>, le: (T, T) -> bool): seq<T> {
    if xs == [] then [] else Insert(xs[0], Sort(xs[1..], le), le)
  }

  function Select<T>(xs: seq<T>, keep: T -> bool): seq<T> {
    if xs == [] then [] else (if keep(xs[0]) then [xs[0]] else []) + Select(xs[1..], keep)
  }

  lemma {:induction false} InsertPermutes<T(!new)>(x: T, xs: seq<T>, le: (T, T) -> bool)
    ensures multiset(Insert(x, xs, le)) == multiset{x} + multiset(xs)
  {
    if !(xs == [] || le(x, xs[0])) {
      InsertPermutes(x, xs[1..], le);
      assert xs == [xs[0]] + xs[1..];
    }
  }

  lemma {:induction false} SortPermutes<T(!new)>(xs: seq<T>, le: (T, T) -> bool)
    ensures multiset(Sort(xs, le)) == multiset(xs)
    ensures |Sort(xs, le)| == |xs|
    ensures forall x :: x in Sort(xs, le) <==> x in xs
  {
    if xs != [] {
      SortPermutes(xs[1..], le);
      InsertPermutes(xs[0], Sort(xs[1..], le), le);
      assert xs == [xs[0]] + xs[1..];
    }
    SameMultiset(Sort(xs, le), xs);
  }

  lemma SameMultiset<T(!new)>(xs: seq<T>, ys: seq<T>)
    requires multiset(xs) == multiset(ys)
    ensures |xs| == |ys| && forall x :: x in xs <==> x in ys
  {
    assert |multiset(xs)| == |xs| && |multiset(ys)| == |ys|;
    forall x ensures x in xs <==> x in ys {
      assert x in xs <==> x in multiset(xs);
      assert x in ys <==> x in multiset(ys);
    }
  }

  lemma {:induction false} InsertSorts<T(!new)>(x: T, xs: seq<T>, le: (T, T) -> bool)
    requires TotalPreorder(le) && Sorted(xs, le)
    ensures Sorted(Insert(x, xs, le), le)
  {
    if !(xs == [] || le(x, xs[0])) {
      InsertSorts(x, xs[1..], le);
      InsertPermutes(x, xs[1..], le);
      var tail := Insert(x, xs[1..], le);
      forall j | 0 <= j < |tail| ensures le(xs[0], tail[j]) {
        assert tail[j] in multiset(tail);
        assert tail[j] == x || tail[j] in xs[1..];
      }
    }
  }

  lemma {:induction false} SortSorts<T(!new)>(xs: seq<T>, le: (T, T) -> bool)
    requires TotalPreorder(le)
    ensures Sorted(Sort(xs, le), le)
  {
    if xs != [] {
      SortSorts(xs[1..], le);
      InsertSorts(xs[0], Sort(xs[1..], le), le);
    }
  }

  lemma SelectCons<T(!new)>(x: T, xs: seq<T>, keep: T -> bool)
    ensures Select([x] + xs, keep) == (if keep(x) then [x] else []) + Select(xs, keep)
  {
    assert ([x] + xs)[1..] == xs;
  }

  lemma {:induction false} InsertStable<T(!new)>(x: T, xs: seq<T>, le: (T, T) -> bool, keep: T -> bool)
    requires forall y, z :: keep(y) && keep(z) ==> le(y, z)
    ensures Select(Insert(x, xs, le), keep) == (if keep(x) then [x] else []) + Select(xs, keep)
  {
    hide Select;
    SelectCons(x, xs, keep);
    if xs != [] && !le(x, xs[0]) {
      var head, tail := xs[0], xs[1..];
      assert xs == [head] + tail;
      InsertStable(x, tail, le, keep);
      SelectCons(head, Insert(x, tail, le), keep);
      SelectCons(head, tail, keep);
    }
  }

  /** Elements that tie keep their order. */
  lemma {:induction false} SortStable<T(!new)>(xs: seq<T>, le: (T, T) -> bool, keep: T -> bool)
    requires forall y, z :: keep(y) && keep(z) ==> le(y, z)
    ensures Select(Sort(xs, le), keep) == Select(xs, keep)
  {
    if xs != [] {
      SortStable(xs[1..], le, keep);
      InsertStable(xs[0], Sort(xs[1..], le), le, keep);
    }
  }

  lemma {:induction false} SelectElements<T(!new)>(xs: seq<T>, keep: T -> bool)
    ensures |Select(xs, keep)| <= |xs|
    ensures forall x :: x in Select(xs, keep) <==> x in xs && keep(x)
  {
    if xs != [] {
      SelectElements(xs[1..], keep);
      assert xs == [xs[0]] + xs[1..];
    }
  }

  lemma {:induction false} SelectAppend<T(!new)>(xs: seq<T>, ys: seq<T>, keep: T -> bool)
    ensures Select(xs + ys, keep) == Select(xs, keep) + Select(ys, keep)
  {
    if xs == [] {
      assert xs + ys == ys;
    } else {
      hide Select;
      var head, tail := xs[0], xs[1..];
      SelectAppend(tail, ys, keep);
      SelectCons(head, tail, keep);
      SelectCons(head, tail + ys, keep);
      assert xs == [head] + tail && xs + ys == [head] + (tail + ys);
    }
  }
}
