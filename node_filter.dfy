/** The greedy spatial suppression pass over the `<node>` children of one
    category's document, and the label written into every surviving node.

    Nodes are visited in document order.  A node is compared, in insertion
    order, with the nodes kept so far; the scan stops at the first kept node
    closer than the threshold, and the node is then removed from the
    document.  A node that is closer to no kept node is kept.  Removed nodes
    never take part in later comparisons. */
module NodeFilter {
  import opened Geo
  import opened Options
  import opened Labels

  /** A `<node>` element: its coordinates, its `<tag>` children and its `id`
      attribute, which the pass overwrites with the composed label. */
  datatype Node = Node(lat: real, lon: real, tags: seq<Tag>, id: string)

  function Position(n: Node): Point
  {
    (n.lat, n.lon)
  }

  function Positions(ns: seq<Node>): (ps: seq<Point>)
    ensures |ps| == |ns|
    ensures forall i :: 0 <= i < |ns| ==> ps[i] == Position(ns[i])
  {
    seq(|ns|, i requires 0 <= i < |ns| => Position(ns[i]))
  }

  predicate IndicesBelow(idx: seq<nat>, n: nat)
  {
    forall k :: 0 <= k < |idx| ==> idx[k] < n
  }

  predicate Increasing(idx: seq<nat>)
  {
    forall k, l :: 0 <= k < l < |idx| ==> idx[k] < idx[l]
  }

  /** `p` is at least `dist` away from every kept point (distance measured
      from the new point to the kept one, as the source calls `haversine`). */
  predicate FarFromKept(ps: seq<Point>, kept: seq<nat>, p: Point, dist: real, d: Distance)
    requires IndicesBelow(kept, |ps|)
  {
    forall k :: 0 <= k < |kept| ==> d(p, ps[kept[k]]) >= dist
  }

  /** The positions (into `ps`) of the points kept after the first `n` have
      been visited: the list `nodes` of the source, as indices. */
  function KeptUpTo(ps: seq<Point>, n: nat, dist: real, d: Distance): (r: seq<nat>)
    requires n <= |ps|
    ensures IndicesBelow(r, n) && Increasing(r) && |r| <= n
  {
    if n == 0 then []
    else
      var prev := KeptUpTo(ps, n - 1, dist, d);
      if FarFromKept(ps, prev, ps[n - 1], dist, d) then prev + [n - 1] else prev
  }

  /** The positions kept by the whole pass. */
  function Kept(ps: seq<Point>, dist: real, d: Distance): (r: seq<nat>)
    ensures IndicesBelow(r, |ps|) && Increasing(r) && |r| <= |ps|
  {
    KeptUpTo(ps, |ps|, dist, d)
  }

  /** The coordinates of the points at positions `kept`: the source's list
      `nodes` of `(lat, lon, node)` triples, without the node. */
  function KeptPoints(ps: seq<Point>, kept: seq<nat>): (r: seq<Point>)
    requires IndicesBelow(kept, |ps|)
    ensures |r| == |kept|
  {
    seq(|kept|, k requires 0 <= k < |kept| => ps[kept[k]])
  }

  /** `node.set("id", …)` with the composed label. */
  function Relabel(n: Node): Node
  {
    n.(id := Label(n.tags))
  }

  /** Setting the label touches neither the coordinates nor the tags, and
      setting it a second time changes nothing. */
  lemma RelabelKeepsNode(n: Node)
    ensures Position(Relabel(n)) == Position(n) && Relabel(n).tags == n.tags
    ensures Relabel(n).id == Label(n.tags)
    ensures Relabel(Relabel(n)) == Relabel(n)
  {
  }

  /** The relabelled nodes at positions `idx`, in that order. */
  function Gather(ns: seq<Node>, idx: seq<nat>): (r: seq<Node>)
    requires IndicesBelow(idx, |ns|)
    ensures |r| == |idx|
    ensures forall k :: 0 <= k < |idx| ==> r[k] == Relabel(ns[idx[k]])
  {
    seq(|idx|, k requires 0 <= k < |idx| => Relabel(ns[idx[k]]))
  }

  /** The children the pass leaves in the document. */
  function Filtered(ns: seq<Node>, dist: real, d: Distance): seq<Node>
  {
    Gather(ns, Kept(Positions(ns), dist, d))
  }

  /** The document root: its `<node>` children, in document order. */
  class Document {
    var children: seq<Node>

    constructor (nodes: seq<Node>)
      ensures children == nodes
    {
      children := nodes;
    }

    /** `root.remove(node)`, for the node that is the child at position `i`. */
    method Remove(i: nat)
      requires i < |children|
      modifies this
      ensures children == old(children[..i] + children[i + 1..])
    {
      children := children[..i] + children[i + 1..];
    }

    /** `node.set("id", id)` on the child at position `i`. */
    method SetId(i: nat, id: string)
      requires i < |children|
      modifies this
      ensures children == old(children[i := children[i].(id := id)])
    {
      children := children[i := children[i].(id := id)];
    }
  }

  /** The inner `for n in nodes` loop: the first kept point closer than
      `dist` to `p`, if there is one. */
  method ScanKept(nodes: seq<Point>, p: Point, dist: real, d: Distance) returns (hit: Option<nat>)
    ensures hit.None? <==> forall k :: 0 <= k < |nodes| ==> d(p, nodes[k]) >= dist
    ensures hit.Some? ==>
      && hit.value < |nodes|
      && d(p, nodes[hit.value]) < dist
      && forall k :: 0 <= k < hit.value ==> d(p, nodes[k]) >= dist
  {
    var k := 0;
    while k < |nodes|
      invariant 0 <= k <= |nodes|
      invariant forall j :: 0 <= j < k ==> d(p, nodes[j]) >= dist
    {
      if d(p, nodes[k]) < dist {
        return Some(k);
      }
      k := k + 1;
    }
    return None;
  }

  /** The pass over `root.findall("node")`: removes every node that is closer
      than `dist` to an earlier kept node and writes the composed label into
      the `id` of every node it keeps. */
  method FilterNodes(root: Document, dist: real, d: Distance)
    modifies root
    ensures root.children == Filtered(old(root.children), dist, d)
  {
    var all := root.children;
    ghost var ps := Positions(all);
    var nodes: seq<Point> := [];
    ghost var kept: seq<nat> := [];
    var i := 0;
    while i < |all|
      invariant 0 <= i <= |all|
      invariant kept == KeptUpTo(ps, i, dist, d)
      invariant nodes == KeptPoints(ps, kept)
      invariant root.children == Gather(all, kept) + all[i..]
    {
      nodes, kept := Visit(root, all, ps, nodes, kept, i, dist, d);
      i := i + 1;
    }
  }

  /** One iteration of the pass, for the node at position `i`. */
  method Visit(root: Document, all: seq<Node>, ghost ps: seq<Point>, nodes: seq<Point>,
               ghost kept: seq<nat>, i: nat, dist: real, d: Distance)
    returns (nodes': seq<Point>, ghost kept': seq<nat>)
    requires i < |all| && ps == Positions(all)
    requires kept == KeptUpTo(ps, i, dist, d) && nodes == KeptPoints(ps, kept)
    requires root.children == Gather(all, kept) + all[i..]
    modifies root
    ensures kept' == KeptUpTo(ps, i + 1, dist, d) && nodes' == KeptPoints(ps, kept')
    ensures root.children == Gather(all, kept') + all[i + 1..]
  {
    var node := all[i];
    var p := (node.lat, node.lon);
    var close := CloseToKept(nodes, p, dist, d);
    ScanDecides(ps, kept, nodes, i, p, dist, d, close);
    KeptStep(ps, i, dist, d);
    // The label is composed for every node; a removed node is detached
    // from the document, so the id the source writes into it is not
    // observable and only a kept node is updated.
    var composed := ComposeLabel(node.tags);
    Settle(root, all, kept, i, |nodes|, close, composed);
    if close {
      nodes', kept' := nodes, kept;
    } else {
      KeptPointsAppend(ps, kept, i);
      nodes', kept' := nodes + [p], kept + [i];
    }
  }

  /** What one iteration does to the document: the visited node, which
      follows the kept ones, is removed when it is close to a kept node and
      otherwise gets its label as id. */
  method Settle(root: Document, all: seq<Node>, ghost kept: seq<nat>, i: nat, at: nat,
                close: bool, composed: string)
    requires IndicesBelow(kept, |all|) && i < |all| && at == |kept|
    requires root.children == Gather(all, kept) + all[i..]
    requires composed == Label(all[i].tags)
    modifies root
    ensures root.children == Gather(all, if close then kept else kept + [i]) + all[i + 1..]
  {
    if close {
      DropStep(all, kept, i);
      root.Remove(at);
    } else {
      KeepStep(all, kept, i);
      root.SetId(at, composed);
    }
  }

  /** `if nodes: for n in nodes: ... else: ...`: whether some kept point is
      closer than `dist`; with no kept point the node is kept outright. */
  method CloseToKept(nodes: seq<Point>, p: Point, dist: real, d: Distance) returns (close: bool)
    ensures close <==> exists k :: 0 <= k < |nodes| && d(p, nodes[k]) < dist
  {
    if |nodes| > 0 {
      var hit := ScanKept(nodes, p, dist, d);
      close := hit.Some?;
    } else {
      close := false;
    }
  }

  /** The scan over the kept coordinates decides the same as the selection:
      `nodes` holds exactly the coordinates of the kept points. */
  lemma ScanDecides(ps: seq<Point>, kept: seq<nat>, nodes: seq<Point>, i: nat, p: Point,
                    dist: real, d: Distance, close: bool)
    requires IndicesBelow(kept, |ps|) && i < |ps| && nodes == KeptPoints(ps, kept) && p == ps[i]
    requires close <==> exists k :: 0 <= k < |nodes| && d(p, nodes[k]) < dist
    ensures close == !FarFromKept(ps, kept, ps[i], dist, d)
  {
    forall k | 0 <= k < |kept|
      ensures nodes[k] == ps[kept[k]]
    {
    }
  }

  /** One step of the selection. */
  lemma KeptStep(ps: seq<Point>, i: nat, dist: real, d: Distance)
    requires i < |ps|
    ensures KeptUpTo(ps, i + 1, dist, d) ==
      if FarFromKept(ps, KeptUpTo(ps, i, dist, d), ps[i], dist, d)
      then KeptUpTo(ps, i, dist, d) + [i] else KeptUpTo(ps, i, dist, d)
  {
  }

  lemma KeptPointsAppend(ps: seq<Point>, kept: seq<nat>, i: nat)
    requires IndicesBelow(kept, |ps|) && i < |ps|
    ensures KeptPoints(ps, kept + [i]) == KeptPoints(ps, kept) + [ps[i]]
  {
  }

  /** Removing the child right after the relabelled kept ones leaves the
      kept ones followed by the not yet visited nodes. */
  lemma DropStep(all: seq<Node>, kept: seq<nat>, i: nat)
    requires IndicesBelow(kept, |all|) && i < |all|
    ensures (Gather(all, kept) + all[i..])[..|kept|] + (Gather(all, kept) + all[i..])[|kept| + 1..]
            == Gather(all, kept) + all[i + 1..]
  {
    assert all[i..] == [all[i]] + all[i + 1..];
  }

  /** Writing the label into the child right after the relabelled kept ones
      appends it to them. */
  lemma KeepStep(all: seq<Node>, kept: seq<nat>, i: nat)
    requires IndicesBelow(kept, |all|) && i < |all|
    ensures (Gather(all, kept) + all[i..])[|kept| := all[i].(id := Label(all[i].tags))]
            == Gather(all, kept + [i]) + all[i + 1..]
  {
    var front := Gather(all, kept);
    assert all[i..] == [all[i]] + all[i + 1..];
    assert Gather(all, kept + [i]) == front + [Relabel(all[i])];
  }

  // ---------------------------------------------------------------------
  // Properties of the greedy selection

  /** Later steps never change whether an earlier point was kept. */
  lemma {:induction false} KeptStable(ps: seq<Point>, j: nat, m: nat, n: nat, dist: real, d: Distance)
    requires j < m <= n <= |ps|
    ensures j in KeptUpTo(ps, n, dist, d) <==> j in KeptUpTo(ps, m, dist, d)
    decreases n
  {
    if n > m {
      KeptStable(ps, j, m, n - 1, dist, d);
    }
  }

  /** The points kept after `m` steps are a prefix of those kept after `n`. */
  lemma {:induction false} KeptPrefix(ps: seq<Point>, m: nat, n: nat, dist: real, d: Distance)
    requires m <= n <= |ps|
    ensures KeptUpTo(ps, m, dist, d) <= KeptUpTo(ps, n, dist, d)
    decreases n
  {
    if n > m {
      KeptPrefix(ps, m, n - 1, dist, d);
    }
  }

  /** A point is kept exactly when it is at least `dist` away from every
      earlier kept point; otherwise some earlier kept point is strictly
      closer than `dist`. */
  lemma KeptIff(ps: seq<Point>, dist: real, d: Distance, i: nat)
    requires i < |ps|
    ensures var K := Kept(ps, dist, d);
      i in K <==> forall j :: j in K && j < i ==> d(ps[i], ps[j]) >= dist
  {
    var K := Kept(ps, dist, d);
    var P := KeptUpTo(ps, i, dist, d);
    KeptStable(ps, i, i + 1, |ps|, dist, d);
    assert i !in P;
    forall j | 0 <= j < i
      ensures j in K <==> j in P
    {
      KeptStable(ps, j, i, |ps|, dist, d);
    }
    if i in K {
      forall j | j in K && j < i
        ensures d(ps[i], ps[j]) >= dist
      {
        var k :| 0 <= k < |P| && P[k] == j;
      }
    } else {
      assert !FarFromKept(ps, P, ps[i], dist, d);
      var k :| 0 <= k < |P| && d(ps[i], ps[P[k]]) < dist;
      assert P[k] in K && P[k] < i;
    }
  }

  /** A removed point has an earlier kept point strictly closer than `dist`. */
  lemma RemovedHasCloseKept(ps: seq<Point>, dist: real, d: Distance, i: nat)
    requires i < |ps| && i !in Kept(ps, dist, d)
    ensures exists j :: j in Kept(ps, dist, d) && j < i && d(ps[i], ps[j]) < dist
  {
    KeptIff(ps, dist, d, i);
  }

  /** The first point is always kept. */
  lemma FirstKept(ps: seq<Point>, dist: real, d: Distance)
    requires |ps| > 0
    ensures var K := Kept(ps, dist, d); |K| > 0 && K[0] == 0
  {
    assert KeptUpTo(ps, 1, dist, d) == [0];
    KeptPrefix(ps, 1, |ps|, dist, d);
  }

  function Range(n: nat): (r: seq<nat>)
  {
    seq(n, i requires 0 <= i < n => i)
  }

  /** With a threshold of zero or less every point is kept, since no
      distance is negative. */
  lemma {:induction false} KeepAllUpTo(ps: seq<Point>, n: nat, dist: real, d: Distance)
    requires NonNegative(d) && dist <= 0.0 && n <= |ps|
    ensures KeptUpTo(ps, n, dist, d) == Range(n)
  {
    if n > 0 {
      KeepAllUpTo(ps, n - 1, dist, d);
      assert FarFromKept(ps, Range(n - 1), ps[n - 1], dist, d);
      assert Range(n - 1) + [n - 1] == Range(n);
    }
  }

  /** Every kept point is at least `dist` away from each point kept before it. */
  lemma {:induction false} KeptFarFromEarlier(ps: seq<Point>, n: nat, k: nat, dist: real, d: Distance)
    requires n <= |ps| && k < |KeptUpTo(ps, n, dist, d)|
    ensures var K := KeptUpTo(ps, n, dist, d);
      forall l :: 0 <= l < k ==> d(ps[K[k]], ps[K[l]]) >= dist
  {
    var prev := KeptUpTo(ps, n - 1, dist, d);
    if k < |prev| {
      KeptFarFromEarlier(ps, n - 1, k, dist, d);
    }
  }

  /** With a symmetric distance the kept points are pairwise at least
      `dist` apart. */
  lemma KeptPairwiseFar(ps: seq<Point>, dist: real, d: Distance)
    requires Symmetric(d)
    ensures var K := Kept(ps, dist, d);
      forall k, l :: 0 <= k < |K| && 0 <= l < |K| && k != l ==> d(ps[K[k]], ps[K[l]]) >= dist
  {
    var K := Kept(ps, dist, d);
    forall k, l | 0 <= k < |K| && 0 <= l < |K| && k != l
      ensures d(ps[K[k]], ps[K[l]]) >= dist
    {
      if l < k {
        KeptFarFromEarlier(ps, |ps|, k, dist, d);
      } else {
        KeptFarFromEarlier(ps, |ps|, l, dist, d);
        assert d(ps[K[l]], ps[K[k]]) >= dist;
      }
    }
  }

  /** Re-running the selection on the kept points keeps all of them.  (This
      needs no symmetry: each kept point was compared with exactly the
      earlier kept points, in the same argument order.) */
  lemma {:induction false} ReselectKeepsAll(ps: seq<Point>, n: nat, dist: real, d: Distance)
    requires n <= |Kept(ps, dist, d)|
    ensures var K := Kept(ps, dist, d);
      var qs := seq(|K|, k requires 0 <= k < |K| => ps[K[k]]);
      KeptUpTo(qs, n, dist, d) == Range(n)
  {
    var K := Kept(ps, dist, d);
    var qs := seq(|K|, k requires 0 <= k < |K| => ps[K[k]]);
    if n > 0 {
      ReselectKeepsAll(ps, n - 1, dist, d);
      KeptFarFromEarlier(ps, |ps|, n - 1, dist, d);
      assert FarFromKept(qs, Range(n - 1), qs[n - 1], dist, d);
      assert Range(n - 1) + [n - 1] == Range(n);
    }
  }

  /** The selection is characterised on its own terms: a set of positions
      that holds a point exactly when that point is at least `dist` away
      from every earlier member. */
  ghost predicate IsGreedySelection(ps: seq<Point>, dist: real, d: Distance, s: set<nat>)
  {
    && (forall i :: i in s ==> i < |ps|)
    && (forall i :: 0 <= i < |ps| ==>
          (i in s <==> forall j :: j in s && j < i ==> d(ps[i], ps[j]) >= dist))
  }

  lemma {:induction false} GreedyAgreesBelow(ps: seq<Point>, dist: real, d: Distance, s: set<nat>, n: nat)
    requires IsGreedySelection(ps, dist, d, s) && n <= |ps|
    ensures forall i :: 0 <= i < n ==> (i in s <==> i in Kept(ps, dist, d))
  {
    if n > 0 {
      GreedyAgreesBelow(ps, dist, d, s, n - 1);
      KeptIff(ps, dist, d, n - 1);
    }
  }

  /** The pass computes the one and only greedy selection. */
  lemma KeptIsUniqueGreedySelection(ps: seq<Point>, dist: real, d: Distance, s: set<nat>)
    ensures IsGreedySelection(ps, dist, d, set j | j in Kept(ps, dist, d))
    ensures IsGreedySelection(ps, dist, d, s) ==> s == set j | j in Kept(ps, dist, d)
  {
    var K := Kept(ps, dist, d);
    forall i | 0 <= i < |ps| { KeptIff(ps, dist, d, i); }
    if IsGreedySelection(ps, dist, d, s) {
      GreedyAgreesBelow(ps, dist, d, s, |ps|);
    }
  }

  /** With a positive threshold, a point at the same position as any earlier
      point is removed, whether that earlier point was kept or not. */
  lemma DuplicateRemoved(ps: seq<Point>, dist: real, d: Distance, i: nat, j: nat)
    requires ZeroOnSelf(d) && dist > 0.0
    requires j < i < |ps| && ps[i] == ps[j]
    ensures i !in Kept(ps, dist, d)
  {
    var K := Kept(ps, dist, d);
    KeptIff(ps, dist, d, i);
    if j in K {
      assert d(ps[i], ps[j]) == 0.0;
    } else {
      RemovedHasCloseKept(ps, dist, d, j);
      var l :| l in K && l < j && d(ps[j], ps[l]) < dist;
      assert d(ps[i], ps[l]) < dist;
    }
  }

  /** The result depends on the visiting order: of A, B, C where B is close to
      A but C is not, B is removed and C kept, even if C is close to B. */
  lemma ChainKeepsEnds(a: Point, b: Point, c: Point, dist: real, d: Distance)
    requires d(b, a) < dist && d(c, a) >= dist
    ensures Kept([a, b, c], dist, d) == [0, 2]
  {
    var ps := [a, b, c];
    assert ps[0] == a && ps[1] == b && ps[2] == c;
    assert KeptUpTo(ps, 1, dist, d) == [0];
    assert !FarFromKept(ps, [0], ps[1], dist, d) by {
      assert [0][0] == 0;
    }
    assert KeptUpTo(ps, 2, dist, d) == [0];
    assert FarFromKept(ps, [0], ps[2], dist, d);
    assert KeptUpTo(ps, 3, dist, d) == [0, 2];
  }

  // ---------------------------------------------------------------------
  // Properties of the filtered document

  /** The surviving children are input nodes in their original relative
      order, each carrying its composed label, and there are no more of
      them than inputs. */
  lemma FilteredIsSubsequence(ns: seq<Node>, dist: real, d: Distance)
    ensures var r, K := Filtered(ns, dist, d), Kept(Positions(ns), dist, d);
      && |r| == |K| <= |ns|
      && Increasing(K) && IndicesBelow(K, |ns|)
      && forall k :: 0 <= k < |r| ==> r[k] == ns[K[k]].(id := Label(ns[K[k]].tags))
  {
  }

  /** Empty input gives no children, and a single node is always kept. */
  lemma FilteredSmallInputs(ns: seq<Node>, dist: real, d: Distance)
    ensures |ns| == 0 ==> Filtered(ns, dist, d) == []
    ensures |ns| == 1 ==> Filtered(ns, dist, d) == [Relabel(ns[0])]
    ensures |ns| > 0 ==> |Filtered(ns, dist, d)| > 0 && Filtered(ns, dist, d)[0] == Relabel(ns[0])
  {
    if |ns| > 0 {
      FirstKept(Positions(ns), dist, d);
    }
  }

  /** With a threshold of zero or less every node survives. */
  lemma FilteredKeepsAllWhenNonPositive(ns: seq<Node>, dist: real, d: Distance)
    requires NonNegative(d) && dist <= 0.0
    ensures Filtered(ns, dist, d) == seq(|ns|, i requires 0 <= i < |ns| => Relabel(ns[i]))
  {
    KeepAllUpTo(Positions(ns), |ns|, dist, d);
  }

  /** With a symmetric distance the surviving nodes are pairwise at least
      `dist` apart. */
  lemma FilteredPairwiseFar(ns: seq<Node>, dist: real, d: Distance)
    requires Symmetric(d)
    ensures var r := Filtered(ns, dist, d);
      forall k, l :: 0 <= k < |r| && 0 <= l < |r| && k != l ==>
        d(Position(r[k]), Position(r[l])) >= dist
  {
    KeptPairwiseFar(Positions(ns), dist, d);
  }

  /** Filtering the output again with the same threshold removes nothing and
      writes the same labels: the pass is idempotent. */
  lemma FilteredIdempotent(ns: seq<Node>, dist: real, d: Distance)
    ensures Filtered(Filtered(ns, dist, d), dist, d) == Filtered(ns, dist, d)
  {
    var ps := Positions(ns);
    var K := Kept(ps, dist, d);
    var r := Filtered(ns, dist, d);
    var qs := seq(|K|, k requires 0 <= k < |K| => ps[K[k]]);
    assert Positions(r) == qs;
    ReselectKeepsAll(ps, |K|, dist, d);
    assert Kept(Positions(r), dist, d) == Range(|K|);
  }
}
