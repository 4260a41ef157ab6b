/** `toTreeOrder` of `packages/contracts/src/org-unit.ts`: a flat list put into tree order.

    The list is only required to have distinct ids. Parents may be missing and parent links may run
    in circles; the walk still ends, because it only ever follows paths that start at a root, and such
    a path cannot meet a node twice. */
module TreeOrder {
  import opened Text
  import opened Sorting
  import OrgPaths

  type Id = string

  datatype Node = Node(id: Id, name: string, type_: OrgPaths.UnitType, parentId: Option<Id>)

  ghost predicate DistinctIds(nodes: seq<Node>) {
    forall i, j :: 0 <= i < j < |nodes| ==> nodes[i].id != nodes[j].id
  }

  /** By type, then by name; `leName` stands for the collation order. */
  function Before(leName: (string, string) -> bool): (Node, Node) -> bool {
    (a: Node, b: Node) =>
      OrgPaths.Rank(a.type_) < OrgPaths.Rank(b.type_) || (OrgPaths.Rank(a.type_) == OrgPaths.Rank(b.type_) && leName(a.name, b.name))
  }

  function ChildOf(parentId: Option<Id>): Node -> bool {
    (n: Node) => n.parentId == parentId
  }

  function Siblings(nodes: seq<Node>, leName: (string, string) -> bool, parentId: Option<Id>): seq<Node> {
    Sort(Select(nodes, ChildOf(parentId)), Before(leName))
  }

  lemma SiblingsElements(nodes: seq<Node>, leName: (string, string) -> bool, parentId: Option<Id>)
    ensures forall n :: n in Siblings(nodes, leName, parentId) <==> n in nodes && n.parentId == parentId
  {
    SelectElements(nodes, ChildOf(parentId));
    SortPermutes(Select(nodes, ChildOf(parentId)), Before(leName));
  }

  // ---------------------------------------------------------------------------
  // Paths from a root
  // ---------------------------------------------------------------------------

  /** What the children of the path's end have as parent: `null` above the roots. */
  function EndId(path: seq<Node>): Option<Id> {
    if path == [] then None else Some(path[|path| - 1].id)
  }

  ghost predicate IsPath(nodes: seq<Node>, path: seq<Node>) {
    path != [] ==>
      && IsPath(nodes, path[..|path| - 1])
      && path[|path| - 1] in nodes && path[|path| - 1].parentId == EndId(path[..|path| - 1])
  }

  lemma SameNode(nodes: seq<Node>, a: Node, b: Node)
    requires DistinctIds(nodes) && a in nodes && b in nodes && a.id == b.id
    ensures a == b
  {
    var i, j :| 0 <= i < |nodes| && nodes[i] == a && 0 <= j < |nodes| && nodes[j] == b;
  }

  /** A node has at most one path from a root. */
  lemma {:induction false} PathUnique(nodes: seq<Node>, p: seq<Node>, q: seq<Node>)
    requires DistinctIds(nodes) && IsPath(nodes, p) && IsPath(nodes, q) && EndId(p) == EndId(q)
    ensures p == q
    decreases |p|
  {
    if p != [] && q != [] {
      SameNode(nodes, p[|p| - 1], q[|q| - 1]);
      PathUnique(nodes, p[..|p| - 1], q[..|q| - 1]);
      assert p == p[..|p| - 1] + [p[|p| - 1]] && q == q[..|q| - 1] + [q[|q| - 1]];
    }
  }

  lemma {:induction false} PathPrefix(nodes: seq<Node>, p: seq<Node>, n: nat)
    requires IsPath(nodes, p) && n <= |p|
    ensures IsPath(nodes, p[..n])
    decreases |p|
  {
    if n < |p| {
      PathPrefix(nodes, p[..|p| - 1], n);
      assert p[..|p| - 1][..n] == p[..n];
    } else {
      assert p[..n] == p;
    }
  }

  lemma {:induction false} PathInNodes(nodes: seq<Node>, p: seq<Node>)
    requires IsPath(nodes, p)
    ensures forall n <- p :: n in nodes
    decreases |p|
  {
    if p != [] {
      PathInNodes(nodes, p[..|p| - 1]);
      assert p == p[..|p| - 1] + [p[|p| - 1]];
    }
  }

  // ---------------------------------------------------------------------------
  // Lists without repetition
  // ---------------------------------------------------------------------------

  ghost predicate Unique(xs: seq<Node>) {
    forall x :: multiset(xs)[x] <= 1
  }

  lemma UniqueSnoc(xs: seq<Node>, x: Node)
    ensures Unique(xs + [x]) <==> Unique(xs) && x !in xs
  {
    assert forall y :: multiset(xs + [x])[y] == multiset(xs)[y] + if y == x then 1 else 0;
    assert x in xs <==> x in multiset(xs);
  }

  lemma TwoPlaces(xs: seq<Node>, i: nat, j: nat)
    requires i < j < |xs| && xs[i] == xs[j]
    ensures multiset(xs)[xs[i]] >= 2
  {
    assert xs == xs[..j] + xs[j..] && xs[i] == xs[..j][i] && xs[j] == xs[j..][0];
    assert xs[i] in multiset(xs[..j]) && xs[i] in multiset(xs[j..]);
  }

  lemma UniqueIndex(xs: seq<Node>, i: nat, j: nat)
    requires Unique(xs) && i < |xs| && j < |xs| && xs[i] == xs[j]
    ensures i == j
  {
    if i < j {
      TwoPlaces(xs, i, j);
    } else if j < i {
      TwoPlaces(xs, j, i);
    }
  }

  /** A repetition-free list of nodes is no longer than the whole list, and if it is as long it has
      them all. */
  lemma UniqueFits(xs: seq<Node>, nodes: seq<Node>)
    requires Unique(xs) && forall x <- xs :: x in nodes
    ensures |xs| <= |nodes|
    ensures |xs| == |nodes| ==> multiset(xs) == multiset(nodes) && forall x <- nodes :: x in xs
  {
    var a, b := multiset(xs), multiset(nodes);
    forall x ensures a[x] <= b[x] {
      assert x in a ==> x in xs;
    }
    assert b == a + (b - a);
    assert |b| == |a| + |b - a| && |a| == |xs| && |b| == |nodes|;
    if |xs| == |nodes| {
      assert b - a == multiset{};
      forall x | x in nodes ensures x in xs { assert x in b; }
    }
  }

  lemma {:induction false} NodesUnique(nodes: seq<Node>)
    requires DistinctIds(nodes)
    ensures Unique(nodes)
  {
    if nodes != [] {
      var before, last := nodes[..|nodes| - 1], nodes[|nodes| - 1];
      NodesUnique(before);
      UniqueSnoc(before, last);
      assert before + [last] == nodes;
    }
  }

  lemma {:induction false} SelectUnique(nodes: seq<Node>, keep: Node -> bool)
    ensures multiset(Select(nodes, keep)) <= multiset(nodes)
  {
    if nodes != [] {
      SelectUnique(nodes[1..], keep);
      assert nodes == [nodes[0]] + nodes[1..];
    }
  }

  /** So a path never meets a node twice, and is no longer than the list. */
  lemma {:induction false} PathDistinct(nodes: seq<Node>, p: seq<Node>)
    requires DistinctIds(nodes) && IsPath(nodes, p)
    ensures Unique(p)
    decreases |p|
  {
    if p != [] {
      var before, last := p[..|p| - 1], p[|p| - 1];
      PathDistinct(nodes, before);
      UniqueSnoc(before, last);
      assert before + [last] == p;
      if last in before {
        var i :| 0 <= i < |before| && before[i] == last;
        PathPrefix(nodes, p, i + 1);
        PathUnique(nodes, p[..i + 1], p);
      }
    }
  }

  lemma PathBounded(nodes: seq<Node>, p: seq<Node>)
    requires DistinctIds(nodes) && IsPath(nodes, p)
    ensures |p| <= |nodes|
  {
    PathDistinct(nodes, p);
    PathInNodes(nodes, p);
    UniqueFits(p, nodes);
  }

  lemma PathSnoc(nodes: seq<Node>, path: seq<Node>, kid: Node)
    requires DistinctIds(nodes) && IsPath(nodes, path) && kid in nodes && kid.parentId == EndId(path)
    ensures IsPath(nodes, path + [kid]) && EndId(path + [kid]) == Some(kid.id) && |path| < |nodes|
  {
    assert (path + [kid])[..|path|] == path;
    PathBounded(nodes, path + [kid]);
  }

  // ---------------------------------------------------------------------------
  // The walk
  // ---------------------------------------------------------------------------

  ghost predicate Kids(nodes: seq<Node>, path: seq<Node>, kids: seq<Node>) {
    forall k <- kids :: k in nodes && k.parentId == EndId(path)
  }

  /** Everything below the end of `path`, depth first. */
  ghost function Walk(nodes: seq<Node>, leName: (string, string) -> bool, path: seq<Node>): seq<Node>
    requires DistinctIds(nodes) && IsPath(nodes, path)
    decreases |nodes| - |path|, 1, 0
  {
    SiblingsElements(nodes, leName, EndId(path));
    PathBounded(nodes, path);
    WalkAll(nodes, leName, path, Siblings(nodes, leName, EndId(path)))
  }

  ghost function WalkAll(nodes: seq<Node>, leName: (string, string) -> bool, path: seq<Node>, kids: seq<Node>): seq<Node>
    requires DistinctIds(nodes) && IsPath(nodes, path) && Kids(nodes, path, kids)
    decreases |nodes| - |path|, 0, |kids|
  {
    if kids == [] then []
    else
      PathSnoc(nodes, path, kids[0]);
      [kids[0]] + Walk(nodes, leName, path + [kids[0]]) + WalkAll(nodes, leName, path, kids[1..])
  }

  function NotIn(reached: seq<Node>): Node -> bool {
    (n: Node) => n !in reached
  }

  function NotSeen(seen: set<Id>): Node -> bool {
    (n: Node) => n.id !in seen
  }

  /** The whole result: the walk from the roots, then whatever it did not reach. */
  ghost function Ordered(nodes: seq<Node>, leName: (string, string) -> bool): seq<Node>
    requires DistinctIds(nodes)
  {
    var reached := Walk(nodes, leName, []);
    reached + Select(nodes, NotIn(reached))
  }

  // ---------------------------------------------------------------------------
  // The source's loops
  // ---------------------------------------------------------------------------

  function Group(byParent: map<Option<Id>, seq<Node>>, key: Option<Id>): seq<Node> {
    if key in byParent then byParent[key] else []
  }

  ghost predicate Groups(byParent: map<Option<Id>, seq<Node>>, nodes: seq<Node>) {
    forall key :: Group(byParent, key) == Select(nodes, ChildOf(key))
  }

  lemma GroupsSnoc(byParent: map<Option<Id>, seq<Node>>, nodes: seq<Node>, n: Node)
    requires Groups(byParent, nodes)
    ensures Groups(byParent[n.parentId := Group(byParent, n.parentId) + [n]], nodes + [n])
  {
    forall key
      ensures Group(byParent[n.parentId := Group(byParent, n.parentId) + [n]], key) == Select(nodes + [n], ChildOf(key))
    {
      SelectAppend(nodes, [n], ChildOf(key));
      assert Group(byParent, key) == Select(nodes, ChildOf(key));
    }
  }

  method ToTreeOrder(nodes: seq<Node>, leName: (string, string) -> bool) returns (ordered: seq<Node>)
    requires DistinctIds(nodes) && TotalPreorder(leName)
    ensures ordered == Ordered(nodes, leName)
  {
    hide Walk, TotalPreorder;
    var byParent: map<Option<Id>, seq<Node>> := map[];
    for i := 0 to |nodes|
      invariant Groups(byParent, nodes[..i])
    {
      GroupsSnoc(byParent, nodes[..i], nodes[i]);
      assert nodes[..i + 1] == nodes[..i] + [nodes[i]];
      byParent := byParent[nodes[i].parentId := Group(byParent, nodes[i].parentId) + [nodes[i]]];
    }
    assert nodes[..|nodes|] == nodes;
    ordered := WalkFrom(nodes, byParent, leName, [], None, []);
    ghost var reached := ordered;
    ReachedAreNodes(nodes, leName);
    assert reached == Walk(nodes, leName, []);
    if |ordered| < |nodes| {
      var seen := set n | n in ordered :: n.id;
      SelectSame(nodes, NotSeen(seen), NotIn(reached)) by {
        forall n | n in nodes ensures n.id !in seen <==> n !in reached {
          SeenById(nodes, reached, n);
        }
      }
      ordered := ordered + Select(nodes, NotSeen(seen));
    } else {
      UniqueFits(reached, nodes);
      SelectNone(nodes, NotIn(reached));
      assert reached + [] == reached;
    }
  }

  lemma SeenById(nodes: seq<Node>, reached: seq<Node>, n: Node)
    requires DistinctIds(nodes) && n in nodes && forall r <- reached :: r in nodes
    ensures n.id in (set r | r in reached :: r.id) <==> n in reached
  {
    if r :| r in reached && r.id == n.id {
      SameNode(nodes, n, r);
    }
  }

  lemma ReachedAreNodes(nodes: seq<Node>, leName: (string, string) -> bool)
    requires DistinctIds(nodes)
    ensures Unique(Walk(nodes, leName, [])) && forall n <- Walk(nodes, leName, []) :: n in nodes
  {
    WalkSound(nodes, leName, []);
    WalkDistinct(nodes, leName, []);
    forall n | n in Walk(nodes, leName, []) ensures n in nodes {
      var q :| Continues(nodes, [], q, n);
    }
  }

  /** The recursive closure of the source; `path` records how it got here. */
  method WalkFrom(nodes: seq<Node>, byParent: map<Option<Id>, seq<Node>>, leName: (string, string) -> bool,
                  ghost path: seq<Node>, parentId: Option<Id>, soFar: seq<Node>) returns (ordered: seq<Node>)
    requires DistinctIds(nodes) && IsPath(nodes, path) && parentId == EndId(path) && Groups(byParent, nodes)
    ensures ordered == soFar + Walk(nodes, leName, path)
    decreases |nodes| - |path|
  {
    hide DistinctIds, IsPath, EndId, Walk, WalkAll;
    var siblings := Sort(Group(byParent, parentId), Before(leName));
    assert siblings == Siblings(nodes, leName, parentId) by {
      assert Group(byParent, parentId) == Select(nodes, ChildOf(parentId));
    }
    hide Siblings, Sort, Select, Groups, Group, Kids;
    WalkUnfolds(nodes, leName, path);
    ordered := soFar;
    assert siblings[0..] == siblings;
    for i := 0 to |siblings|
      invariant Kids(nodes, path, siblings[i..])
      invariant ordered + WalkAll(nodes, leName, path, siblings[i..]) == soFar + Walk(nodes, leName, path)
    {
      WalkAllCons(nodes, leName, path, siblings[i..]);
      assert siblings[i..][1..] == siblings[i + 1..];
      ordered := ordered + [siblings[i]];
      ordered := WalkFrom(nodes, byParent, leName, path + [siblings[i]], Some(siblings[i].id), ordered);
    }
    assert siblings[|siblings|..] == [] && ordered + [] == ordered;
    WalkAllNil(nodes, leName, path);
  }

  lemma WalkUnfolds(nodes: seq<Node>, leName: (string, string) -> bool, path: seq<Node>)
    requires DistinctIds(nodes) && IsPath(nodes, path)
    ensures Kids(nodes, path, Siblings(nodes, leName, EndId(path))) && |path| <= |nodes|
    ensures Walk(nodes, leName, path) == WalkAll(nodes, leName, path, Siblings(nodes, leName, EndId(path)))
  {
    SiblingsElements(nodes, leName, EndId(path));
    PathBounded(nodes, path);
  }

  lemma WalkAllNil(nodes: seq<Node>, leName: (string, string) -> bool, path: seq<Node>)
    requires DistinctIds(nodes) && IsPath(nodes, path)
    ensures WalkAll(nodes, leName, path, []) == []
  {
  }

  lemma WalkAllCons(nodes: seq<Node>, leName: (string, string) -> bool, path: seq<Node>, kids: seq<Node>)
    requires DistinctIds(nodes) && IsPath(nodes, path) && Kids(nodes, path, kids) && kids != []
    ensures IsPath(nodes, path + [kids[0]]) && EndId(path + [kids[0]]) == Some(kids[0].id) && |path| < |nodes|
    ensures Kids(nodes, path, kids[1..])
    ensures WalkAll(nodes, leName, path, kids)
         == [kids[0]] + Walk(nodes, leName, path + [kids[0]]) + WalkAll(nodes, leName, path, kids[1..])
  {
    PathSnoc(nodes, path, kids[0]);
  }

  lemma {:induction false} SelectSame(nodes: seq<Node>, p: Node -> bool, q: Node -> bool)
    requires forall n <- nodes :: p(n) == q(n)
    ensures Select(nodes, p) == Select(nodes, q)
  {
    if nodes != [] {
      SelectSame(nodes[1..], p, q);
    }
  }

  lemma {:induction false} SelectNone(nodes: seq<Node>, p: Node -> bool)
    requires forall n <- nodes :: !p(n)
    ensures Select(nodes, p) == []
  {
    if nodes != [] {
      SelectNone(nodes[1..], p);
    }
  }

  // ---------------------------------------------------------------------------
  // What the walk reaches
  // ---------------------------------------------------------------------------

  /** `q` continues `path` and ends in `x`. */
  ghost predicate Continues(nodes: seq<Node>, path: seq<Node>, q: seq<Node>, x: Node) {
    IsPath(nodes, q) && path < q && q[|q| - 1] == x
  }

  /** `x` is below the end of `path`. */
  ghost predicate Below(nodes: seq<Node>, path: seq<Node>, x: Node) {
    exists q :: Continues(nodes, path, q, x)
  }

  /** `x` is one of `kids` or below one of them. */
  ghost predicate BelowKids(nodes: seq<Node>, path: seq<Node>, kids: seq<Node>, x: Node) {
    exists q :: Continues(nodes, path, q, x) && q[|path|] in kids
  }

  lemma {:induction false} WalkAllSound(nodes: seq<Node>, leName: (string, string) -> bool, path: seq<Node>, kids: seq<Node>)
    requires DistinctIds(nodes) && IsPath(nodes, path) && Kids(nodes, path, kids)
    ensures forall x :: x in WalkAll(nodes, leName, path, kids) <==> BelowKids(nodes, path, kids, x)
    decreases |nodes| - |path|, 0, |kids|
  {
    if kids != [] {
      var kid := kids[0];
      PathSnoc(nodes, path, kid);
      WalkSound(nodes, leName, path + [kid]);
      WalkAllSound(nodes, leName, path, kids[1..]);
      forall x ensures x in WalkAll(nodes, leName, path, kids) <==> BelowKids(nodes, path, kids, x) {
        BelowKidsCons(nodes, path, kids, x);
      }
    }
  }

  lemma BelowKidsCons(nodes: seq<Node>, path: seq<Node>, kids: seq<Node>, x: Node)
    requires DistinctIds(nodes) && IsPath(nodes, path) && Kids(nodes, path, kids) && kids != []
    requires IsPath(nodes, path + [kids[0]])
    ensures BelowKids(nodes, path, kids, x) <==>
            x == kids[0] || Below(nodes, path + [kids[0]], x) || BelowKids(nodes, path, kids[1..], x)
  {
    var kid := kids[0];
    if x == kid {
      assert Continues(nodes, path, path + [kid], x);
    }
    if q :| Continues(nodes, path + [kid], q, x) {
      assert q[|path|] == (path + [kid])[|path|];
      assert Continues(nodes, path, q, x);
    }
    if BelowKids(nodes, path, kids, x) {
      var q :| Continues(nodes, path, q, x) && q[|path|] in kids;
      if q[|path|] == kid && x != kid {
        assert q[..|path| + 1] == path + [kid];
        assert |q| != |path| + 1;
        assert Continues(nodes, path + [kid], q, x);
      }
    }
  }

  /** The walk below `path` reaches exactly the nodes whose path from a root continues `path`. */
  lemma {:induction false} WalkSound(nodes: seq<Node>, leName: (string, string) -> bool, path: seq<Node>)
    requires DistinctIds(nodes) && IsPath(nodes, path)
    ensures forall x :: x in Walk(nodes, leName, path) <==> Below(nodes, path, x)
    decreases |nodes| - |path|, 1, 0
  {
    var kids := Siblings(nodes, leName, EndId(path));
    SiblingsElements(nodes, leName, EndId(path));
    PathBounded(nodes, path);
    WalkAllSound(nodes, leName, path, kids);
    forall q, x | Continues(nodes, path, q, x) ensures q[|path|] in kids {
      PathPrefix(nodes, q, |path| + 1);
      assert q[..|path| + 1][..|path|] == path;
    }
  }

  /** What is below one kid is neither that kid nor below another one. */
  lemma KidsApart(nodes: seq<Node>, path: seq<Node>, kids: seq<Node>, x: Node)
    requires DistinctIds(nodes) && IsPath(nodes, path) && Kids(nodes, path, kids) && kids != [] && kids[0] !in kids[1..]
    requires IsPath(nodes, path + [kids[0]])
    ensures !BelowKids(nodes, path, kids[1..], kids[0])
    ensures Below(nodes, path + [kids[0]], x) ==> x != kids[0] && !BelowKids(nodes, path, kids[1..], x)
  {
    var kid := kids[0];
    if r :| Continues(nodes, path, r, kid) && r[|path|] in kids[1..] {
      PathUnique(nodes, path + [kid], r);
    }
    if q :| Continues(nodes, path + [kid], q, x) {
      assert q[|path|] == (path + [kid])[|path|] == kid;
      if x == kid { PathUnique(nodes, q, path + [kid]); }
      if r :| Continues(nodes, path, r, x) && r[|path|] in kids[1..] {
        PathUnique(nodes, q, r);
      }
    }
  }

  lemma {:induction false} WalkAllDistinct(nodes: seq<Node>, leName: (string, string) -> bool, path: seq<Node>, kids: seq<Node>)
    requires DistinctIds(nodes) && IsPath(nodes, path) && Kids(nodes, path, kids) && Unique(kids)
    ensures Unique(WalkAll(nodes, leName, path, kids))
    decreases |nodes| - |path|, 0, |kids|
  {
    if kids != [] {
      var kid := kids[0];
      PathSnoc(nodes, path, kid);
      UniqueTail(kids);
      WalkDistinct(nodes, leName, path + [kid]);
      WalkAllDistinct(nodes, leName, path, kids[1..]);
      WalkSound(nodes, leName, path + [kid]);
      WalkAllSound(nodes, leName, path, kids[1..]);
      var inner, rest := Walk(nodes, leName, path + [kid]), WalkAll(nodes, leName, path, kids[1..]);
      forall x ensures multiset([kid] + inner + rest)[x] <= 1 {
        KidsApart(nodes, path, kids, x);
        assert x in multiset(inner) <==> x in inner;
        assert x in multiset(rest) <==> x in rest;
        assert multiset([kid] + inner + rest)[x] == multiset{kid}[x] + multiset(inner)[x] + multiset(rest)[x];
      }
    }
  }

  lemma UniqueTail(kids: seq<Node>)
    requires kids != [] && Unique(kids)
    ensures Unique(kids[1..]) && kids[0] !in kids[1..]
  {
    assert kids == [kids[0]] + kids[1..];
    assert forall x :: multiset(kids)[x] == multiset{kids[0]}[x] + multiset(kids[1..])[x];
    assert kids[0] in kids[1..] <==> kids[0] in multiset(kids[1..]);
  }

  lemma SiblingsUnique(nodes: seq<Node>, leName: (string, string) -> bool, parentId: Option<Id>)
    requires DistinctIds(nodes)
    ensures Unique(Siblings(nodes, leName, parentId))
  {
    NodesUnique(nodes);
    SelectUnique(nodes, ChildOf(parentId));
    SortPermutes(Select(nodes, ChildOf(parentId)), Before(leName));
  }

  lemma {:induction false} WalkDistinct(nodes: seq<Node>, leName: (string, string) -> bool, path: seq<Node>)
    requires DistinctIds(nodes) && IsPath(nodes, path)
    ensures Unique(Walk(nodes, leName, path))
    decreases |nodes| - |path|, 1, 0
  {
    SiblingsElements(nodes, leName, EndId(path));
    SiblingsUnique(nodes, leName, EndId(path));
    PathBounded(nodes, path);
    WalkAllDistinct(nodes, leName, path, Siblings(nodes, leName, EndId(path)));
  }

  // ---------------------------------------------------------------------------
  // The result
  // ---------------------------------------------------------------------------

  /** Nothing is lost and nothing is repeated, whatever the parent links look like. */
  lemma OrderedIsPermutation(nodes: seq<Node>, leName: (string, string) -> bool)
    requires DistinctIds(nodes)
    ensures multiset(Ordered(nodes, leName)) == multiset(nodes)
  {
    var reached := Walk(nodes, leName, []);
    var keep := NotIn(reached);
    var rest := Select(nodes, keep);
    WalkSound(nodes, leName, []);
    WalkDistinct(nodes, leName, []);
    NodesUnique(nodes);
    SelectUnique(nodes, keep);
    SelectElements(nodes, keep);
    forall x | x in reached ensures x in nodes {
      var q :| Continues(nodes, [], q, x);
    }
    forall x ensures multiset(reached + rest)[x] == multiset(nodes)[x] {
      assert multiset(reached + rest)[x] == multiset(reached)[x] + multiset(rest)[x];
      assert (x in reached <==> x in multiset(reached)) && (x in rest <==> x in multiset(rest));
      assert x in nodes <==> x in multiset(nodes);
    }
  }

  /** `block` occurs in `xs` without gaps, starting at `at`. */
  ghost predicate OccursAt(block: seq<Node>, xs: seq<Node>, at: nat) {
    at + |block| <= |xs| && xs[at..at + |block|] == block
  }

  lemma OccursInside(block: seq<Node>, pre: seq<Node>, xs: seq<Node>, post: seq<Node>, at: nat)
    requires OccursAt(block, xs, at)
    ensures OccursAt(block, pre + xs + post, |pre| + at)
  {
    var all := pre + xs + post;
    assert all[|pre|..|pre| + |xs|] == xs;
    assert all[|pre| + at..|pre| + at + |block|] == all[|pre|..|pre| + |xs|][at..at + |block|];
  }

  lemma {:induction false} WalkAllBlock(nodes: seq<Node>, leName: (string, string) -> bool, path: seq<Node>, kids: seq<Node>, q: seq<Node>)
    returns (at: nat)
    requires DistinctIds(nodes) && IsPath(nodes, path) && Kids(nodes, path, kids)
    requires IsPath(nodes, q) && path < q && q[|path|] in kids
    ensures OccursAt([q[|q| - 1]] + Walk(nodes, leName, q), WalkAll(nodes, leName, path, kids), at)
    decreases |nodes| - |path|, 0, |kids|
  {
    hide Walk, WalkAll, OccursAt, DistinctIds, IsPath;
    var kid := kids[0];
    WalkAllCons(nodes, leName, path, kids);
    var inner, rest := Walk(nodes, leName, path + [kid]), WalkAll(nodes, leName, path, kids[1..]);
    var block := [q[|q| - 1]] + Walk(nodes, leName, q);
    if q[|path|] != kid {
      at := WalkAllBlock(nodes, leName, path, kids[1..], q);
      OccursInside(block, [kid] + inner, rest, [], at);
      assert [kid] + inner + rest + [] == [kid] + inner + rest;
      at := 1 + |inner| + at;
    } else if |q| == |path| + 1 {
      assert q == path + [kid] && block == [kid] + inner;
      at := 0;
      OccursFirst(block, rest);
    } else {
      assert q[..|path| + 1] == path + [kid];
      at := WalkBlock(nodes, leName, path + [kid], q);
      OccursInside(block, [kid], inner, rest, at);
      at := 1 + at;
    }
  }

  lemma OccursFirst(block: seq<Node>, post: seq<Node>)
    ensures OccursAt(block, block + post, 0)
  {
  }

  /** Every subtree is contiguous: right behind its root. */
  lemma {:induction false} WalkBlock(nodes: seq<Node>, leName: (string, string) -> bool, path: seq<Node>, q: seq<Node>)
    returns (at: nat)
    requires DistinctIds(nodes) && IsPath(nodes, path) && IsPath(nodes, q) && path < q
    ensures OccursAt([q[|q| - 1]] + Walk(nodes, leName, q), Walk(nodes, leName, path), at)
    decreases |nodes| - |path|, 1, 0
  {
    SiblingsElements(nodes, leName, EndId(path));
    PathBounded(nodes, path);
    PathPrefix(nodes, q, |path| + 1);
    assert q[..|path| + 1][..|path|] == path;
    at := WalkAllBlock(nodes, leName, path, Siblings(nodes, leName, EndId(path)), q);
  }

  /** In the result, a node with a path from a root stands right before everything below it, and
      nothing else is in between. */
  lemma SubtreeContiguous(nodes: seq<Node>, leName: (string, string) -> bool, q: seq<Node>) returns (at: nat, size: nat)
    requires DistinctIds(nodes) && IsPath(nodes, q) && q != []
    ensures var all := Ordered(nodes, leName);
            && at + 1 + size <= |all| && all[at] == q[|q| - 1]
            && forall x :: x in all[at + 1..at + 1 + size] <==> Below(nodes, q, x)
  {
    var reached := Walk(nodes, leName, []);
    at := WalkBlock(nodes, leName, [], q);
    var below := Walk(nodes, leName, q);
    size := |below|;
    WalkSound(nodes, leName, q);
    var all := Ordered(nodes, leName);
    hide Walk, Below;
    assert all[at..at + 1 + size] == reached[at..at + 1 + size] == [q[|q| - 1]] + below;
    assert all[at + 1..at + 1 + size] == all[at..at + 1 + size][1..] == below;
  }

  /** A node with a path from a root comes after its parent. */
  lemma ParentFirst(nodes: seq<Node>, leName: (string, string) -> bool, q: seq<Node>, i: nat, j: nat)
    requires DistinctIds(nodes) && IsPath(nodes, q) && |q| > 1
    requires i < |Ordered(nodes, leName)| && j < |Ordered(nodes, leName)|
    requires Ordered(nodes, leName)[i] == q[|q| - 2] && Ordered(nodes, leName)[j] == q[|q| - 1]
    ensures i < j
  {
    hide Walk, Ordered;
    var all := Ordered(nodes, leName);
    OrderedIsPermutation(nodes, leName);
    NodesUnique(nodes);
    var parentPath := q[..|q| - 1];
    var at, size := SubtreeContiguous(nodes, leName, parentPath);
    assert Below(nodes, parentPath, q[|q| - 1]) by {
      assert Continues(nodes, parentPath, q, q[|q| - 1]);
    }
    var k :| at + 1 <= k < at + 1 + size && all[k] == q[|q| - 1];
    UniqueIndex(all, i, at);
    UniqueIndex(all, j, k);
  }

  /** Nodes under one parent come in type-then-name order. */
  ghost predicate SiblingsInOrder(xs: seq<Node>, leName: (string, string) -> bool) {
    forall i, j :: 0 <= i < j < |xs| && xs[i].parentId == xs[j].parentId ==> Before(leName)(xs[i], xs[j])
  }

  /** Children of `path`'s end have nothing below another child as a sibling. */
  lemma ParentsApart(nodes: seq<Node>, path: seq<Node>, kids: seq<Node>, x: Node, y: Node)
    requires DistinctIds(nodes) && IsPath(nodes, path) && Kids(nodes, path, kids) && kids != [] && kids[0] !in kids[1..]
    requires Below(nodes, path + [kids[0]], x)
    ensures x.parentId != EndId(path)
    ensures BelowKids(nodes, path, kids[1..], y) ==> x.parentId != y.parentId
  {
    var kid := kids[0];
    var q :| Continues(nodes, path + [kid], q, x);
    var above := q[..|q| - 1];
    assert above[|path|] == kid by { assert q[|path|] == (path + [kid])[|path|]; }
    if x.parentId == EndId(path) { PathUnique(nodes, above, path); }
    if r :| Continues(nodes, path, r, y) && r[|path|] in kids[1..] {
      if x.parentId == y.parentId {
        PathUnique(nodes, above, r[..|r| - 1]);
      }
    }
  }

  /** A node below some kid whose parent is `path`'s end is one of the kids. */
  lemma DirectKid(nodes: seq<Node>, path: seq<Node>, kids: seq<Node>, y: Node)
    requires DistinctIds(nodes) && IsPath(nodes, path) && BelowKids(nodes, path, kids, y) && y.parentId == EndId(path)
    ensures y in kids
  {
    var r :| Continues(nodes, path, r, y) && r[|path|] in kids;
    PathUnique(nodes, path, r[..|r| - 1]);
  }

  lemma SiblingsAcross(nodes: seq<Node>, leName: (string, string) -> bool, path: seq<Node>, kids: seq<Node>,
                       inner: seq<Node>, rest: seq<Node>)
    requires DistinctIds(nodes) && IsPath(nodes, path) && Kids(nodes, path, kids) && kids != [] && kids[0] !in kids[1..]
    requires Sorted(kids, Before(leName))
    requires forall x <- inner :: Below(nodes, path + [kids[0]], x)
    requires forall y <- rest :: BelowKids(nodes, path, kids[1..], y)
    requires SiblingsInOrder(inner, leName) && SiblingsInOrder(rest, leName)
    ensures SiblingsInOrder([kids[0]] + inner + rest, leName)
  {
    var kid := kids[0];
    forall x, y | x in inner && y in rest ensures x.parentId != y.parentId {
      ParentsApart(nodes, path, kids, x, y);
    }
    forall x | x in inner ensures x.parentId != kid.parentId {
      ParentsApart(nodes, path, kids, x, x);
    }
    forall y | y in rest && y.parentId == kid.parentId ensures Before(leName)(kid, y) {
      DirectKid(nodes, path, kids[1..], y);
    }
    hide Below, BelowKids, Sorted, DistinctIds, IsPath, Kids;
    InOrderAppend(inner, rest, leName);
    InOrderAppend([kid], inner + rest, leName);
    assert [kid] + (inner + rest) == [kid] + inner + rest;
  }

  lemma {:induction false} WalkAllSiblings(nodes: seq<Node>, leName: (string, string) -> bool, path: seq<Node>, kids: seq<Node>)
    requires DistinctIds(nodes) && IsPath(nodes, path) && Kids(nodes, path, kids)
    requires TotalPreorder(leName) && Sorted(kids, Before(leName)) && Unique(kids)
    ensures SiblingsInOrder(WalkAll(nodes, leName, path, kids), leName)
    decreases |nodes| - |path|, 0, |kids|
  {
    if kids != [] {
      var below := path + [kids[0]];
      WalkAllCons(nodes, leName, path, kids);
      UniqueTail(kids);
      hide Walk, WalkAll, IsPath, DistinctIds, Below, BelowKids, Unique, SiblingsInOrder;
      WalkSiblings(nodes, leName, below);
      WalkAllSiblings(nodes, leName, path, kids[1..]);
      WalkSound(nodes, leName, below);
      WalkAllSound(nodes, leName, path, kids[1..]);
      SiblingsAcross(nodes, leName, path, kids, Walk(nodes, leName, below), WalkAll(nodes, leName, path, kids[1..]));
    }
  }

  lemma InOrderAppend(xs: seq<Node>, ys: seq<Node>, leName: (string, string) -> bool)
    requires SiblingsInOrder(xs, leName) && SiblingsInOrder(ys, leName)
    requires forall x <- xs, y <- ys :: x.parentId == y.parentId ==> Before(leName)(x, y)
    ensures SiblingsInOrder(xs + ys, leName)
  {
    forall i, j | 0 <= i < j < |xs + ys| && (xs + ys)[i].parentId == (xs + ys)[j].parentId
      ensures Before(leName)((xs + ys)[i], (xs + ys)[j])
    {
      if i < |xs| && j >= |xs| {
        assert (xs + ys)[i] in xs && (xs + ys)[j] in ys;
      }
    }
  }

  lemma BeforeIsPreorder(leName: (string, string) -> bool)
    requires TotalPreorder(leName)
    ensures TotalPreorder(Before(leName))
  {
    var le := Before(leName);
    forall x, y ensures le(x, y) || le(y, x) {
      assert leName(x.name, y.name) || leName(y.name, x.name);
    }
    forall x, y, z | le(x, y) && le(y, z) ensures le(x, z) {
      assert leName(x.name, y.name) && leName(y.name, z.name) ==> leName(x.name, z.name);
    }
  }

  lemma {:induction false} WalkSiblings(nodes: seq<Node>, leName: (string, string) -> bool, path: seq<Node>)
    requires DistinctIds(nodes) && IsPath(nodes, path) && TotalPreorder(leName)
    ensures SiblingsInOrder(Walk(nodes, leName, path), leName)
    decreases |nodes| - |path|, 1, 0
  {
    SiblingsElements(nodes, leName, EndId(path));
    SiblingsUnique(nodes, leName, EndId(path));
    PathBounded(nodes, path);
    BeforeIsPreorder(leName);
    SortSorts(Select(nodes, ChildOf(EndId(path))), Before(leName));
    WalkAllSiblings(nodes, leName, path, Siblings(nodes, leName, EndId(path)));
  }

  /** The higher type: company, zone, region, branch, team. */
  predicate Higher(a: OrgPaths.UnitType, b: OrgPaths.UnitType) {
    match a
    case Company => !b.Company?
    case Zone => b.Region? || b.Branch? || b.Team?
    case Region => b.Branch? || b.Team?
    case Branch => b.Team?
    case Team => false
  }

  lemma {:induction false} SelectInOrder(xs: seq<Node>, keep: Node -> bool, i: nat, j: nat) returns (k: nat, l: nat)
    requires i < j < |Select(xs, keep)|
    ensures k < l < |xs| && xs[k] == Select(xs, keep)[i] && xs[l] == Select(xs, keep)[j]
  {
    var first: nat := if keep(xs[0]) then 1 else 0;
    assert xs == [xs[0]] + xs[1..];
    SelectCons(xs[0], xs[1..], keep);
    var rest := Select(xs[1..], keep);
    assert j - first < |rest| && rest[j - first] == Select(xs, keep)[j];
    if i < first {
      SelectElements(xs[1..], keep);
      assert rest[j - 1] in rest;
      var m: nat :| m < |xs[1..]| && xs[1..][m] == rest[j - 1];
      k, l := 0, m + 1;
    } else {
      assert rest[i - first] == Select(xs, keep)[i];
      k, l := SelectInOrder(xs[1..], keep, i - first, j - first);
      k, l := k + 1, l + 1;
    }
  }

  /** Of two nodes in the result: one that hangs on a root is never behind one that does not; two such siblings come by
      type, the higher first, then by name; and two nodes that hang on no root keep the order of the list. */
  lemma ResultOrder(nodes: seq<Node>, leName: (string, string) -> bool, i: nat, j: nat)
    requires DistinctIds(nodes) && TotalPreorder(leName) && i < j < |Ordered(nodes, leName)|
    ensures var a, b := Ordered(nodes, leName)[i], Ordered(nodes, leName)[j];
            && (Below(nodes, [], b) ==> Below(nodes, [], a))
            && (Below(nodes, [], b) && a.parentId == b.parentId ==> Higher(a.type_, b.type_) || (a.type_ == b.type_ && leName(a.name, b.name)))
            && (!Below(nodes, [], a) ==> exists k, l :: 0 <= k < l < |nodes| && nodes[k] == a && nodes[l] == b)
  {
    hide Walk, DistinctIds, Below;
    var reached := Walk(nodes, leName, []);
    var rest := Select(nodes, NotIn(reached));
    var a, b := Ordered(nodes, leName)[i], Ordered(nodes, leName)[j];
    WalkSound(nodes, leName, []);
    WalkSiblings(nodes, leName, []);
    SelectElements(nodes, NotIn(reached));
    if j < |reached| {
      assert a in reached && b in reached;
      if a.parentId == b.parentId {
        assert Before(leName)(reached[i], reached[j]);
      }
    } else {
      assert b in rest;
      if i >= |reached| {
        var k, l := SelectInOrder(nodes, NotIn(reached), i - |reached|, j - |reached|);
      } else {
        assert a in reached;
      }
    }
  }
}
