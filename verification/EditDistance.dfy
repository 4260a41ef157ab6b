/** Levenshtein distance as `packages/contracts/src/matching.ts` computes it, and what it means.

    The reference is an edit script: a sequence of keeps, substitutions, insertions and deletions.
    The two-row loop is proved to return the cost of a cheapest script, and the distance is proved
    to be a metric. The element type is left
    open, so nothing depends on how a character is encoded. */
module EditDistance {

  datatype Edit<T> = Keep | Substitute(to: T) | Insert(to: T) | Delete

  /** Does applying `script` to `a` produce `b`? The last edit deals with the last characters. */
  ghost predicate Transforms<T(!new)>(script: seq<Edit<T>>, a: seq<T>, b: seq<T>) {
    if script == [] then
      a == [] && b == []
    else
      var before := script[..|script| - 1];
      match script[|script| - 1]
      case Keep => a != [] && b != [] && a[|a| - 1] == b[|b| - 1] && Transforms(before, a[..|a| - 1], b[..|b| - 1])
      case Substitute(to) => a != [] && b != [] && to == b[|b| - 1] && Transforms(before, a[..|a| - 1], b[..|b| - 1])
      case Insert(to) => b != [] && to == b[|b| - 1] && Transforms(before, a, b[..|b| - 1])
      case Delete => a != [] && Transforms(before, a[..|a| - 1], b)
  }

  /** Keeping a character is free; every other edit costs one. */
  ghost function Cost<T(!new)>(script: seq<Edit<T>>): nat {
    if script == [] then 0
    else Cost(script[..|script| - 1]) + if script[|script| - 1].Keep? then 0 else 1
  }

  /** `d` is the length of a shortest edit script from `a` to `b`. */
  ghost predicate IsEditDistance<T(!new)>(d: nat, a: seq<T>, b: seq<T>) {
    && (exists script: seq<Edit<T>> :: Transforms(script, a, b) && Cost(script) == d)
    && (forall script: seq<Edit<T>> :: Transforms(script, a, b) ==> d <= Cost(script))
  }

  function Min(x: nat, y: nat): nat {
    if x <= y then x else y
  }

  /** The recurrence the table rows follow. */
  function Distance<T(==)>(a: seq<T>, b: seq<T>): nat
    decreases |a| + |b|
  {
    if a == [] then |b|
    else if b == [] then |a|
    else
      var a', b' := a[..|a| - 1], b[..|b| - 1];
      var cost := if a[|a| - 1] == b[|b| - 1] then 0 else 1;
      Min(Min(Distance(a, b') + 1, Distance(a', b) + 1), Distance(a', b') + cost)
  }

  // ---------------------------------------------------------------------------
  // The recurrence is the cost of a cheapest script
  // ---------------------------------------------------------------------------

  lemma {:induction false} DistanceIsLowerBound<T(!new)>(script: seq<Edit<T>>, a: seq<T>, b: seq<T>)
    requires Transforms(script, a, b)
    ensures Distance(a, b) <= Cost(script)
    decreases |script|
  {
    if script != [] {
      var before := script[..|script| - 1];
      match script[|script| - 1] {
        case Keep =>
          DistanceIsLowerBound(before, a[..|a| - 1], b[..|b| - 1]);
        case Substitute(_) =>
          DistanceIsLowerBound(before, a[..|a| - 1], b[..|b| - 1]);
        case Insert(_) =>
          DistanceIsLowerBound(before, a, b[..|b| - 1]);
          DistanceGrowsByOne(a, b);
        case Delete =>
          DistanceIsLowerBound(before, a[..|a| - 1], b);
          DistanceGrowsByOne(a, b);
      }
    }
  }

  /** Dropping the last character of either side changes the distance by at most one upwards. */
  lemma DistanceGrowsByOne<T(!new)>(a: seq<T>, b: seq<T>)
    ensures b != [] ==> Distance(a, b) <= Distance(a, b[..|b| - 1]) + 1
    ensures a != [] ==> Distance(a, b) <= Distance(a[..|a| - 1], b) + 1
  {
  }

  lemma {:induction false} CheapestScript<T(!new)>(a: seq<T>, b: seq<T>) returns (script: seq<Edit<T>>)
    ensures Transforms(script, a, b) && Cost(script) == Distance(a, b)
    decreases |a| + |b|
  {
    var last: Edit<T>;
    if a == [] && b == [] {
      script := [];
      return;
    } else if a == [] {
      script := CheapestScript(a, b[..|b| - 1]);
      last := Insert(b[|b| - 1]);
    } else if b == [] {
      script := CheapestScript(a[..|a| - 1], b);
      last := Delete;
    } else if Distance(a, b) == Distance(a, b[..|b| - 1]) + 1 {
      script := CheapestScript(a, b[..|b| - 1]);
      last := Insert(b[|b| - 1]);
    } else if Distance(a, b) == Distance(a[..|a| - 1], b) + 1 {
      script := CheapestScript(a[..|a| - 1], b);
      last := Delete;
    } else {
      script := CheapestScript(a[..|a| - 1], b[..|b| - 1]);
      last := if a[|a| - 1] == b[|b| - 1] then Keep else Substitute(b[|b| - 1]);
    }
    assert (script + [last])[..|script|] == script;
    script := script + [last];
  }

  lemma DistanceIsShortestScript<T(!new)>(a: seq<T>, b: seq<T>)
    ensures IsEditDistance(Distance(a, b), a, b)
  {
    var script := CheapestScript(a, b);
    forall other: seq<Edit<T>> | Transforms(other, a, b)
      ensures Distance(a, b) <= Cost(other)
    {
      DistanceIsLowerBound(other, a, b);
    }
  }

  // ---------------------------------------------------------------------------
  // The two-row loop
  // ---------------------------------------------------------------------------

  /** Row `i` of the table: the distances from `a` to every prefix of `b`. */
  ghost predicate IsRow<T(!new)>(row: seq<nat>, a: seq<T>, b: seq<T>) {
    |row| <= |b| + 1 && forall j :: 0 <= j < |row| ==> row[j] == Distance(a, b[..j])
  }

  lemma FirstRow<T(!new)>(a: seq<T>, b: seq<T>)
    ensures IsRow(seq(|b| + 1, index => index), a[..0], b)
  {
  }

  lemma FirstCell<T(!new)>(a: seq<T>, b: seq<T>, i: nat)
    requires i < |a|
    ensures IsRow([i + 1], a[..i + 1], b)
  {
    assert b[..0] == [];
  }

  lemma CellOfTable<T(!new)>(a: seq<T>, b: seq<T>, i: nat, j: nat)
    requires i < |a| && j < |b|
    ensures Distance(a[..i + 1], b[..j + 1])
         == Min(Min(Distance(a[..i + 1], b[..j]) + 1, Distance(a[..i], b[..j + 1]) + 1),
                Distance(a[..i], b[..j]) + if a[i] == b[j] then 0 else 1)
  {
    assert a[..i + 1][..i] == a[..i] && b[..j + 1][..j] == b[..j];
  }

  lemma NextCell<T(!new)>(a: seq<T>, b: seq<T>, i: nat, j: nat, previous: seq<nat>, current: seq<nat>)
    requires i < |a| && j < |b| && |previous| == |b| + 1 && |current| == j + 1
    requires IsRow(previous, a[..i], b) && IsRow(current, a[..i + 1], b)
    ensures IsRow(current + [Min(Min(current[j] + 1, previous[j + 1] + 1), previous[j] + if a[i] == b[j] then 0 else 1)], a[..i + 1], b)
  {
    CellOfTable(a, b, i, j);
    hide Distance;
  }

  lemma LastCell<T(!new)>(a: seq<T>, b: seq<T>, row: seq<nat>)
    requires |row| == |b| + 1 && IsRow(row, a[..|a|], b)
    ensures row[|b|] == Distance(a, b)
  {
    assert a[..|a|] == a && b[..|b|] == b;
  }

  method EditDistance<T(==,!new)>(a: seq<T>, b: seq<T>) returns (d: nat)
    ensures IsEditDistance(d, a, b)
    ensures d == Distance(a, b)
  {
    DistanceIsShortestScript(a, b);
    DistanceZeroIffEqual(a, b);
    if a == b { return 0; }
    if |a| == 0 { return |b|; }
    if |b| == 0 { return |a|; }

    hide Distance, IsEditDistance, IsRow;
    var previous: seq<nat> := seq(|b| + 1, index => index);
    FirstRow(a, b);
    for i := 0 to |a|
      invariant |previous| == |b| + 1 && IsRow(previous, a[..i], b)
    {
      var current: seq<nat> := [i + 1];
      FirstCell(a, b, i);
      for j := 0 to |b|
        invariant |current| == j + 1 && IsRow(current, a[..i + 1], b)
      {
        var cost := if a[i] == b[j] then 0 else 1;
        var cell := Min(Min(current[j] + 1, previous[j + 1] + 1), previous[j] + cost);
        NextCell(a, b, i, j, previous, current);
        current := current + [cell];
      }
      previous := current;
    }
    LastCell(a, b, previous);
    d := previous[|b|];
  }

  // ---------------------------------------------------------------------------
  // A metric
  // ---------------------------------------------------------------------------

  lemma {:induction false} DistanceZeroIffEqual<T(!new)>(a: seq<T>, b: seq<T>)
    ensures Distance(a, b) == 0 <==> a == b
    decreases |a|
  {
    if a != [] && b != [] {
      var a', b' := a[..|a| - 1], b[..|b| - 1];
      DistanceZeroIffEqual(a', b');
      assert a == a' + [a[|a| - 1]] && b == b' + [b[|b| - 1]];
      if a == b {
        assert a' == b';
      }
    }
  }

  lemma {:induction false} DistanceAtMostLonger<T(!new)>(a: seq<T>, b: seq<T>)
    ensures Distance(a, b) <= if |a| <= |b| then |b| else |a|
    decreases |a|
  {
    if a != [] && b != [] {
      DistanceAtMostLonger(a[..|a| - 1], b[..|b| - 1]);
    }
  }

  lemma {:induction false} DistanceSymmetric<T(!new)>(a: seq<T>, b: seq<T>)
    ensures Distance(a, b) == Distance(b, a)
    decreases |a| + |b|
  {
    if a != [] && b != [] {
      var a', b' := a[..|a| - 1], b[..|b| - 1];
      DistanceSymmetric(a', b');
      DistanceSymmetric(a, b');
      DistanceSymmetric(a', b);
    }
  }

  lemma {:induction false} DistanceAtLeastDifference<T(!new)>(a: seq<T>, b: seq<T>)
    ensures |a| <= |b| + Distance(a, b) && |b| <= |a| + Distance(a, b)
    decreases |a| + |b|
  {
    if a != [] && b != [] {
      DistanceAtLeastDifference(a[..|a| - 1], b);
      DistanceAtLeastDifference(a, b[..|b| - 1]);
      DistanceAtLeastDifference(a[..|a| - 1], b[..|b| - 1]);
    }
  }

  /** A detour through `b` never costs less: follow the edit that each of the two distances ends in. */
  lemma {:induction false} DistanceTriangle<T(!new)>(a: seq<T>, b: seq<T>, c: seq<T>)
    ensures Distance(a, c) <= Distance(a, b) + Distance(b, c)
    decreases |a| + |b| + |c|
  {
    DistanceAtLeastDifference(a, b);
    DistanceAtLeastDifference(b, c);
    DistanceAtMostLonger(a, c);
    if a != [] && b != [] && c != [] {
      var a', b', c' := a[..|a| - 1], b[..|b| - 1], c[..|c| - 1];
      if Distance(a, b) == Distance(a', b) + 1 {
        DistanceTriangle(a', b, c);
      } else if Distance(b, c) == Distance(b, c') + 1 {
        DistanceTriangle(a, b, c');
      } else if Distance(a, b) == Distance(a, b') + 1 {
        DistanceTriangle(a, b', c);
        DistanceTriangle(a, b', c');
      } else if Distance(b, c) == Distance(b', c) + 1 {
        DistanceTriangle(a', b', c);
      } else {
        DistanceTriangle(a', b', c');
      }
    }
  }
}
