/**
  What a built call graph (src/idamesh/domain/services/call_graph.py) is, in terms of call distances and
  the two bounds alone.
*/
module CallGraphLaws {
  import opened Common
  import opened CallGraph

  ghost predicate IsNode(g: Graph, v: Address) {
    exists i :: 0 <= i < |g.nodes| && g.nodes[i].address == v
  }

  /** `v` can be reached from `root` in at most `bound` calls. */
  ghost predicate IsWithin(callees: Callees, root: Address, v: Address, bound: int) {
    exists n: nat :: n <= bound && IsDistance(callees, root, v, n)
  }

  lemma RootIsClosest(callees: Callees, root: Address, v: Address)
    ensures IsDistance(callees, root, v, 0) <==> v == root
  {
    if v == root { assert IsPath(callees, root, v, [root]); }
  }

  lemma NodesAreKept(callees: Callees, root: Address, depth: int, maxNodes: int, g: Graph, v: Address)
    requires IsBuild(callees, root, depth, maxNodes, g)
    ensures IsNode(g, v) <==> v in Kept(callees, root, depth, maxNodes)
  {
    var kept := Kept(callees, root, depth, maxNodes);
    if v in kept {
      var i :| 0 <= i < |kept| && kept[i] == v;
      assert g.nodes[i].address == v;
    }
    hide Kept;
  }

  /** Every node is the root or within `depth` calls of it, listed once, and the root comes first. */
  lemma NodesAreWithinDepth(callees: Callees, root: Address, depth: int, maxNodes: int, g: Graph)
    requires IsBuild(callees, root, depth, maxNodes, g)
    ensures |g.nodes| > 0 && g.nodes[0].address == root
    ensures forall v :: IsNode(g, v) ==> v == root || IsWithin(callees, root, v, depth)
    ensures forall i, j :: 0 <= i < j < |g.nodes| ==> g.nodes[i].address != g.nodes[j].address
  {
    OrderPrefix(callees, root, 0, Layers(depth));
    hide IsBuild, Order;
    forall v | IsNode(g, v) ensures v == root || IsWithin(callees, root, v, depth) {
      NodesAreKept(callees, root, depth, maxNodes, g, v);
      var kept := Kept(callees, root, depth, maxNodes);
      var i :| 0 <= i < |kept| && kept[i] == v;
      var n := KeptWithinDepth(callees, root, depth, maxNodes, i);
      if n == 0 { RootIsClosest(callees, root, v); }
    }
    NodesAreDistinct(callees, root, depth, maxNodes, g);
  }

  lemma NodesAreDistinct(callees: Callees, root: Address, depth: int, maxNodes: int, g: Graph)
    requires IsBuild(callees, root, depth, maxNodes, g)
    ensures |g.nodes| > 0 && g.nodes[0].address == root
    ensures forall i, j :: 0 <= i < j < |g.nodes| ==> g.nodes[i].address != g.nodes[j].address
  {
    var kept := Kept(callees, root, depth, maxNodes);
    OrderPrefix(callees, root, 0, Layers(depth));
    assert kept[0] == root;
    assert forall i :: 0 <= i < |kept| ==> g.nodes[i].address == kept[i];
    hide IsBuild, Order;
  }

  /** The ceiling: there are never more than `maxNodes` nodes, save that the root is always one. */
  lemma NodeCeiling(callees: Callees, root: Address, depth: int, maxNodes: int, g: Graph)
    requires IsBuild(callees, root, depth, maxNodes, g)
    ensures |g.nodes| <= maxNodes || |g.nodes| == 1
  {
    NodesAreDistinct(callees, root, depth, maxNodes, g);
    hide Order, Edges, Sites;
  }

  /** Below the ceiling nothing within `depth` calls is missing. */
  lemma BelowCeilingIsComplete(callees: Callees, root: Address, depth: int, maxNodes: int, g: Graph, v: Address)
    requires IsBuild(callees, root, depth, maxNodes, g) && |g.nodes| < maxNodes
    ensures IsWithin(callees, root, v, depth) ==> IsNode(g, v)
  {
    if IsWithin(callees, root, v, depth) {
      var n: nat :| n <= depth && IsDistance(callees, root, v, n);
      DistanceIsRound(callees, root, v, n);
      OrderPrefix(callees, root, n, depth);
      NodesAreKept(callees, root, depth, maxNodes, g, v);
      hide Order, Edges, Sites, IsDistance;
    }
  }

  /** A node whose callees were followed: one at a distance below the depth bound. */
  ghost predicate IsFollowed(callees: Callees, root: Address, depth: int, v: Address) {
    IsWithin(callees, root, v, depth - 1)
  }

  /** The followed nodes come first, and the build followed exactly those. */
  lemma FollowedAreExpanded(callees: Callees, root: Address, depth: int, maxNodes: int, i: nat)
    requires i < |Kept(callees, root, depth, maxNodes)|
    ensures var kept, expanded := Kept(callees, root, depth, maxNodes), Expanded(callees, root, depth, maxNodes);
      && expanded <= kept
      && (i < |expanded| <==> IsFollowed(callees, root, depth, kept[i]))
  {
    var kept, expanded := Kept(callees, root, depth, maxNodes), Expanded(callees, root, depth, maxNodes);
    var v := kept[i];
    if depth > 0 {
      var near, all := Order(callees, root, depth - 1), Order(callees, root, depth);
      OrderPrefix(callees, root, depth - 1, depth);
      NearPrefix(near, all, Cap(maxNodes), i);
      WithinIsRound(callees, root, v, depth - 1);
    }
  }

  lemma NearPrefix(near: seq<Address>, all: seq<Address>, cap: nat, i: nat)
    requires near <= all && Distinct(all) && i < |Take(all, cap)|
    ensures Take(near, cap) <= Take(all, cap)
    ensures i < |Take(near, cap)| <==> Take(all, cap)[i] in near
  {
    var v := Take(all, cap)[i];
    assert v == all[i];
    if v in near {
      var j :| 0 <= j < |near| && near[j] == v;
      assert all[j] == v && i == j;
    }
  }

  lemma WithinIsRound(callees: Callees, root: Address, v: Address, k: nat)
    ensures IsWithin(callees, root, v, k) <==> v in Order(callees, root, k)
  {
    if IsWithin(callees, root, v, k) {
      var n: nat :| n <= k && IsDistance(callees, root, v, n);
      DistanceIsRound(callees, root, v, n);
      OrderPrefix(callees, root, n, k);
    }
    if v in Order(callees, root, k) {
      var n := k;
      while n > 0 && v in Order(callees, root, n - 1)
        invariant 0 <= n <= k && v in Order(callees, root, n)
      {
        n := n - 1;
      }
      DistanceIsRound(callees, root, v, n);
    }
  }

  /** The edges are the calls from nodes at a distance below `depth` to nodes, each once; nothing else. */
  lemma EdgesAreFollowedCalls(callees: Callees, root: Address, depth: int, maxNodes: int, g: Graph)
    requires IsBuild(callees, root, depth, maxNodes, g)
    ensures forall u, v :: Edge(u, v) in g.edges <==>
      IsNode(g, u) && IsFollowed(callees, root, depth, u) && IsNode(g, v) && Calls(callees, u, v)
    ensures forall i, j :: 0 <= i < j < |g.edges| ==> g.edges[i] != g.edges[j]
    ensures g.truncated <==> exists u, v :: IsNode(g, u) && Calls(callees, u, v) && Edge(u, v) !in g.edges
  {
    var kept, expanded := Kept(callees, root, depth, maxNodes), Expanded(callees, root, depth, maxNodes);
    EdgesFacts(callees, expanded, kept);
    assert Distinct(expanded) && expanded <= kept && Distinct(kept) by {
      NodesAreDistinct(callees, root, depth, maxNodes, g);
      assert forall i :: 0 <= i < |kept| ==> g.nodes[i].address == kept[i];
      FollowedAreExpanded(callees, root, depth, maxNodes, 0);
      hide Kept, Expanded, Edges;
    }
    forall v ensures IsNode(g, v) <==> v in kept { NodesAreKept(callees, root, depth, maxNodes, g, v); }
    hide Kept, Expanded, Edges, Calls, IsFollowed, IsNode, Sites, FirstName;
    forall u ensures u in expanded <==> u in kept && IsFollowed(callees, root, depth, u) {
      if u in kept {
        var i :| 0 <= i < |kept| && kept[i] == u;
        FollowedAreExpanded(callees, root, depth, maxNodes, i);
      }
    }
    TruncatedMeans(callees, root, depth, maxNodes, g);
  }

  lemma TruncatedMeans(callees: Callees, root: Address, depth: int, maxNodes: int, g: Graph)
    requires IsBuild(callees, root, depth, maxNodes, g)
    ensures g.truncated <==> exists u, v :: IsNode(g, u) && Calls(callees, u, v) && Edge(u, v) !in g.edges
  {
    forall v ensures IsNode(g, v) <==> v in Kept(callees, root, depth, maxNodes) {
      NodesAreKept(callees, root, depth, maxNodes, g, v);
    }
    hide Kept, Expanded, Edges, Calls, IsNode, Sites, FirstName;
  }

  // ---------------------------------------------------------------- order of discovery

  /** Call site `k` of node `i`, which was followed, is a call of `v`. */
  ghost predicate IsSiteOf(callees: Callees, root: Address, depth: int, g: Graph, i: int, k: int, v: Address) {
    && 0 <= i < |g.nodes| && IsFollowed(callees, root, depth, g.nodes[i].address)
    && 0 <= k < |Children(callees, g.nodes[i].address)|
    && Children(callees, g.nodes[i].address)[k].target == v
  }

  predicate IsBefore(i: int, k: int, i': int, k': int) { i < i' || (i == i' && k < k') }

  /** Nodes are listed in the order in which the followed call sites, node by node, first name them. */
  lemma DiscoveryOrder(callees: Callees, root: Address, depth: int, maxNodes: int, g: Graph, a: nat, b: nat, i: nat,
                       k: nat)
    returns (i': nat, k': nat)
    requires IsBuild(callees, root, depth, maxNodes, g) && 0 < a < b < |g.nodes|
    requires IsSiteOf(callees, root, depth, g, i, k, g.nodes[b].address)
    ensures IsSiteOf(callees, root, depth, g, i', k', g.nodes[a].address) && IsBefore(i', k', i, k)
  {
    hide *;
    var kept, expanded := Kept(callees, root, depth, maxNodes), Expanded(callees, root, depth, maxNodes);
    var v, w := g.nodes[a].address, g.nodes[b].address;
    SiteInExpanded(callees, root, depth, maxNodes, g, i, k, w);
    KnownIsPrefix(callees, root, depth, maxNodes, i, k);
    var cs := Children(callees, expanded[i])[..k + 1];
    var known := AddNew(Expand(callees, [root], expanded[..i]), cs);
    NodesAreDistinct(callees, root, depth, maxNodes, g);
    AddressesAreKept(callees, root, depth, maxNodes, g);
    AddNewFacts(Expand(callees, [root], expanded[..i]), cs);
    assert cs[k].target == w;
    EarlierInPrefix(known, Order(callees, root, depth), kept, a, b);
    i', k' := KnownHasSite(callees, root, expanded[..i], cs, v);
    ExpandedIsSite(callees, root, depth, maxNodes, g, i', k', v);
    Before(i', k', i, k);
  }

  lemma Before(i: int, k: int, i': int, k': int)
    ensures IsBefore(i, k, i', k') <==> i < i' || (i == i' && k < k')
  {
  }

  lemma AddressesAreKept(callees: Callees, root: Address, depth: int, maxNodes: int, g: Graph)
    requires IsBuild(callees, root, depth, maxNodes, g)
    ensures |g.nodes| == |Kept(callees, root, depth, maxNodes)|
    ensures forall j :: 0 <= j < |g.nodes| ==> g.nodes[j].address == Kept(callees, root, depth, maxNodes)[j]
  {
    hide Kept, Expanded, Edges, Sites, FirstName;
  }

  lemma SiteInExpanded(callees: Callees, root: Address, depth: int, maxNodes: int, g: Graph, i: int, k: int, v: Address)
    requires IsBuild(callees, root, depth, maxNodes, g) && IsSiteOf(callees, root, depth, g, i, k, v)
    ensures var us := Expanded(callees, root, depth, maxNodes);
      0 <= i < |us| && 0 <= k < |Children(callees, us[i])| && Children(callees, us[i])[k].target == v
  {
    AddressesAreKept(callees, root, depth, maxNodes, g);
    FollowedAreExpanded(callees, root, depth, maxNodes, i);
    hide Kept, Expanded, IsBuild, Children, IsFollowed;
  }

  lemma ExpandedIsSite(callees: Callees, root: Address, depth: int, maxNodes: int, g: Graph, i: int, k: int, v: Address)
    requires IsBuild(callees, root, depth, maxNodes, g)
    requires var us := Expanded(callees, root, depth, maxNodes);
      0 <= i < |us| && 0 <= k < |Children(callees, us[i])| && Children(callees, us[i])[k].target == v
    ensures IsSiteOf(callees, root, depth, g, i, k, v)
  {
    AddressesAreKept(callees, root, depth, maxNodes, g);
    NodesAreDistinct(callees, root, depth, maxNodes, g);
    FollowedAreExpanded(callees, root, depth, maxNodes, 0);
    FollowedAreExpanded(callees, root, depth, maxNodes, i);
    hide Kept, Expanded, IsBuild, Children, IsFollowed;
  }

  lemma EarlierInPrefix(known: seq<Address>, all: seq<Address>, kept: seq<Address>, a: nat, b: nat)
    requires known <= all && kept <= all && Distinct(all) && a < b < |kept| && kept[b] in known
    ensures kept[a] in known
  {
    var j :| 0 <= j < |known| && known[j] == kept[b];
    assert all[j] == all[b] && j == b;
    assert known[a] == all[a] == kept[a];
  }

  /** What is known after some of the followed call sites is the beginning of the reference order. */
  lemma KnownIsPrefix(callees: Callees, root: Address, depth: int, maxNodes: int, i: nat, k: nat)
    requires var us := Expanded(callees, root, depth, maxNodes);
      i < |us| && k < |Children(callees, us[i])|
    ensures depth > 0 && Distinct(Order(callees, root, depth))
    ensures Kept(callees, root, depth, maxNodes) <= Order(callees, root, depth)
    ensures var us := Expanded(callees, root, depth, maxNodes);
      AddNew(Expand(callees, [root], us[..i]), Children(callees, us[i])[..k + 1]) <= Order(callees, root, depth)
  {
    hide *;
    ExpandedIsNear(callees, root, depth, maxNodes);
    var us, near := Expanded(callees, root, depth, maxNodes), Order(callees, root, depth - 1);
    var cs := Children(callees, us[i]);
    assert us[..i + 1] <= near && us[..i + 1][..i] == us[..i];
    ExpandPrefix(callees, [root], us[..i + 1], near);
    ExpandEnds(callees, [root], us[..i], us[i]);
    assert us[..i + 1] == us[..i] + [us[i]];
    assert cs == cs[..k + 1] + cs[k + 1..];
    AddNewConcat(Expand(callees, [root], us[..i]), cs[..k + 1], cs[k + 1..]);
    AddNewFacts(AddNew(Expand(callees, [root], us[..i]), cs[..k + 1]), cs[k + 1..]);
  }

  lemma ExpandEnds(callees: Callees, acc: seq<Address>, us: seq<Address>, u: Address)
    ensures Expand(callees, acc, us + [u]) == AddNew(Expand(callees, acc, us), Children(callees, u))
  {
  }

  lemma ExpandedIsNear(callees: Callees, root: Address, depth: int, maxNodes: int)
    requires Expanded(callees, root, depth, maxNodes) != []
    ensures depth > 0 && Distinct(Order(callees, root, depth))
    ensures Kept(callees, root, depth, maxNodes) <= Order(callees, root, depth)
    ensures Expanded(callees, root, depth, maxNodes) <= Order(callees, root, depth - 1)
    ensures Order(callees, root, depth) == Expand(callees, [root], Order(callees, root, depth - 1))
  {
    OrderPrefix(callees, root, depth, depth);
    hide Expand;
  }

  lemma KnownHasSite(callees: Callees, root: Address, us: seq<Address>, cs: seq<Callee>, v: Address)
    returns (i: nat, k: nat)
    requires v in AddNew(Expand(callees, [root], us), cs) && v != root
    ensures i <= |us|
    ensures i < |us| ==> k < |Children(callees, us[i])| && Children(callees, us[i])[k].target == v
    ensures i == |us| ==> k < |cs| && cs[k].target == v
  {
    AddNewFacts(Expand(callees, [root], us), cs);
    ExpandFacts(callees, [root], us);
    if v in Expand(callees, [root], us) {
      var u :| u in us && Calls(callees, u, v);
      i :| 0 <= i < |us| && us[i] == u;
      k :| 0 <= k < |Children(callees, u)| && Children(callees, u)[k].target == v;
    } else {
      i := |us|;
      k :| 0 <= k < |cs| && cs[k].target == v;
    }
  }

  // ---------------------------------------------------------------- names

  /** Call site `k` of the `i`-th of `us` gives `v` a name. */
  predicate NamesAt(callees: Callees, us: seq<Address>, i: int, k: int, v: Address) {
    && 0 <= i < |us| && 0 <= k < |Children(callees, us[i])|
    && Children(callees, us[i])[k].target == v && Children(callees, us[i])[k].name.Some?
  }

  ghost predicate IsFirstNaming(callees: Callees, us: seq<Address>, i: int, k: int, v: Address) {
    NamesAt(callees, us, i, k, v) && forall i', k' :: NamesAt(callees, us, i', k', v) ==> !IsBefore(i', k', i, k)
  }

  lemma {:induction false} FirstNameIn(cs: seq<Callee>, v: Address)
    ensures FirstName(cs, v) == None <==> forall k :: 0 <= k < |cs| && cs[k].target == v ==> cs[k].name == None
    decreases |cs|
  {
    if cs != [] {
      var init, last := cs[..|cs| - 1], |cs| - 1;
      FirstNameIn(init, v);
      assert forall k :: 0 <= k < last ==> init[k] == cs[k];
    }
  }

  lemma {:induction false} FirstNameConcat(a: seq<Callee>, b: seq<Callee>, v: Address)
    ensures FirstName(a + b, v) == if FirstName(a, v).Some? then FirstName(a, v) else FirstName(b, v)
    decreases |b|
  {
    if b == [] {
      assert a + b == a;
    } else {
      assert (a + b)[..|a + b| - 1] == a + b[..|b| - 1];
      FirstNameConcat(a, b[..|b| - 1], v);
    }
  }

  /** In a list of call sites the first that names `v` gives the name. */
  lemma FirstNameAt(cs: seq<Callee>, v: Address, k: nat)
    requires k < |cs| && cs[k].target == v && cs[k].name.Some?
    requires forall j :: 0 <= j < k && cs[j].target == v ==> cs[j].name == None
    ensures FirstName(cs, v) == cs[k].name
  {
    var before, after := cs[..k], cs[k + 1..];
    FirstNameIn(before, v);
    assert FirstName(before + [cs[k]], v) == cs[k].name by { assert (before + [cs[k]])[..k] == before; }
    FirstNameConcat(before + [cs[k]], after, v);
    assert cs == before + [cs[k]] + after;
  }

  lemma OneMoreCaller(callees: Callees, us: seq<Address>, v: Address)
    requires us != []
    ensures var init, cs := us[..|us| - 1], Children(callees, us[|us| - 1]);
      FirstName(Sites(callees, us), v)
      == if FirstName(Sites(callees, init), v).Some? then FirstName(Sites(callees, init), v) else FirstName(cs, v)
  {
    FirstNameConcat(Sites(callees, us[..|us| - 1]), Children(callees, us[|us| - 1]), v);
  }

  lemma {:induction false} SitesNone(callees: Callees, us: seq<Address>, v: Address)
    ensures FirstName(Sites(callees, us), v) == None <==> forall i, k :: !NamesAt(callees, us, i, k, v)
    decreases |us|
  {
    if us != [] {
      var init, n := us[..|us| - 1], |us| - 1;
      SitesNone(callees, init, v);
      OneMoreCaller(callees, us, v);
      FirstNameIn(Children(callees, us[n]), v);
      hide FirstName, Sites, NamesAt;
      if FirstName(Sites(callees, us), v) == None {
        forall i, k ensures !NamesAt(callees, us, i, k, v) {
          NamesAtEnd(callees, us, i, k, v);
        }
      } else if FirstName(Sites(callees, init), v).Some? {
        var i, k :| NamesAt(callees, init, i, k, v);
        NamesAtEnd(callees, us, i, k, v);
      } else {
        var k :| 0 <= k < |Children(callees, us[n])| && Children(callees, us[n])[k].target == v
                 && Children(callees, us[n])[k].name.Some?;
        NamesAtEnd(callees, us, n, k, v);
      }
    }
  }

  lemma NamesAtEnd(callees: Callees, us: seq<Address>, i: int, k: int, v: Address)
    requires us != []
    ensures var init, n := us[..|us| - 1], |us| - 1;
      NamesAt(callees, us, i, k, v) <==>
        NamesAt(callees, init, i, k, v)
        || (i == n && 0 <= k < |Children(callees, us[n])| && Children(callees, us[n])[k].target == v
            && Children(callees, us[n])[k].name.Some?)
  {
    hide Children;
  }

  /** The name the call sites of `us` give `v` is the first one there is. */
  lemma {:induction false} SitesName(callees: Callees, us: seq<Address>, i: int, k: int, v: Address)
    requires IsFirstNaming(callees, us, i, k, v)
    ensures FirstName(Sites(callees, us), v) == Children(callees, us[i])[k].name
    decreases |us|
  {
    var init, n := us[..|us| - 1], |us| - 1;
    OneMoreCaller(callees, us, v);
    hide FirstName, Sites, Children;
    assert forall i', k' :: i' != n ==> NamesAt(callees, us, i', k', v) == NamesAt(callees, init, i', k', v);
    if i < n {
      SitesName(callees, init, i, k, v);
    } else {
      forall i', k' ensures !NamesAt(callees, init, i', k', v) {
        assert i' < n ==> IsBefore(i', k', i, k);
      }
      SitesNone(callees, init, v);
      var cs := Children(callees, us[n]);
      forall j | 0 <= j < k && cs[j].target == v ensures cs[j].name == None {
        assert IsBefore(n, j, i, k);
        assert !NamesAt(callees, us, n, j, v);
      }
      FirstNameAt(cs, v, k);
    }
  }

  /** Call site `k` of node `i`, which was followed, gives `v` a name. */
  ghost predicate IsNaming(callees: Callees, root: Address, depth: int, g: Graph, i: int, k: int, v: Address) {
    IsSiteOf(callees, root, depth, g, i, k, v) && Children(callees, g.nodes[i].address)[k].name.Some?
  }

  lemma NamingIsAt(callees: Callees, root: Address, depth: int, maxNodes: int, g: Graph, i: int, k: int, v: Address)
    requires IsBuild(callees, root, depth, maxNodes, g)
    ensures var us := Expanded(callees, root, depth, maxNodes);
      && (NamesAt(callees, us, i, k, v) <==> IsNaming(callees, root, depth, g, i, k, v))
      && (0 <= i < |us| ==> i < |g.nodes| && us[i] == g.nodes[i].address)
  {
    var kept := Kept(callees, root, depth, maxNodes);
    FollowedAreExpanded(callees, root, depth, maxNodes, 0) by { NodesAreDistinct(callees, root, depth, maxNodes, g); }
    if 0 <= i < |kept| { FollowedAreExpanded(callees, root, depth, maxNodes, i); }
    hide Kept, Expanded, Edges, Sites, FirstName, IsFollowed, Children;
  }

  /**
    A node bears the name given by the first followed call site that names it, in the order of the nodes
    and of their call sites; it has no name if none does.
  */
  lemma NodeNames(callees: Callees, root: Address, depth: int, maxNodes: int, g: Graph, m: nat)
    requires IsBuild(callees, root, depth, maxNodes, g) && m < |g.nodes|
    ensures var v := g.nodes[m].address;
      g.nodes[m].name == None <==> forall i, k :: !IsNaming(callees, root, depth, g, i, k, v)
    ensures var v := g.nodes[m].address;
      forall i, k | IsNaming(callees, root, depth, g, i, k, v)
        && (forall i', k' :: IsNaming(callees, root, depth, g, i', k', v) ==> !IsBefore(i', k', i, k))
        :: g.nodes[m].name == Children(callees, g.nodes[i].address)[k].name
  {
    var v, us := g.nodes[m].address, Expanded(callees, root, depth, maxNodes);
    assert g.nodes[m].name == FirstName(Sites(callees, us), v);
    hide *;
    forall i, k
      ensures NamesAt(callees, us, i, k, v) <==> IsNaming(callees, root, depth, g, i, k, v)
      ensures 0 <= i < |us| ==> i < |g.nodes| && us[i] == g.nodes[i].address
    {
      NamingIsAt(callees, root, depth, maxNodes, g, i, k, v);
    }
    SitesNone(callees, us, v);
    forall i, k | IsNaming(callees, root, depth, g, i, k, v) &&
      (forall i', k' :: IsNaming(callees, root, depth, g, i', k', v) ==> !IsBefore(i', k', i, k))
      ensures 0 <= i < |us| && us[i] == g.nodes[i].address && 0 <= k < |Children(callees, us[i])|
      ensures g.nodes[m].name == Children(callees, us[i])[k].name
    {
      NamesAtRange(callees, us, i, k, v);
      FirstNamingIs(callees, us, i, k, v);
      SitesName(callees, us, i, k, v);
    }
  }

  lemma NamesAtRange(callees: Callees, us: seq<Address>, i: int, k: int, v: Address)
    requires NamesAt(callees, us, i, k, v)
    ensures 0 <= i < |us| && 0 <= k < |Children(callees, us[i])|
  {
  }

  lemma FirstNamingIs(callees: Callees, us: seq<Address>, i: int, k: int, v: Address)
    requires NamesAt(callees, us, i, k, v) && forall i', k' :: NamesAt(callees, us, i', k', v) ==>
      !IsBefore(i', k', i, k)
    ensures IsFirstNaming(callees, us, i, k, v)
  {
  }
}
