/**
  The bounded breadth-first call graph (src/idamesh/domain/services/call_graph.py).

  `Order` is a queue-free reference: the functions within a given number of calls of the root, in
  first-discovery order.  `Build` is the worklist algorithm, proved to list exactly the first
  `max(1, maxNodes)` functions of that reference, and the laws are proved about the reference.
*/
module CallGraph {
  import opened Common

  type Address = int

  datatype Callee = Callee(target: Address, name: Option<string>)

  // The callee query: None is a lookup failure.  Nothing bounds the relation, so it may be infinite.
  type Callees = Address -> Option<seq<Callee>>

  datatype Node = Node(address: Address, name: Option<string>)

  datatype Edge = Edge(source: Address, target: Address)

  datatype Graph = Graph(root: Address, nodes: seq<Node>, edges: seq<Edge>, truncated: bool)

  datatype LookupFailure = LookupFailure(at: Address)

  // ---------------------------------------------------------------- reference order

  /** The call sites listed for `u`; a function that cannot be enumerated is a leaf. */
  function Children(callees: Callees, u: Address): seq<Callee> {
    match callees(u)
    case None => []
    case Some(cs) => cs
  }

  predicate Calls(callees: Callees, u: Address, v: Address) {
    exists k :: 0 <= k < |Children(callees, u)| && Children(callees, u)[k].target == v
  }

  function AddNew(acc: seq<Address>, cs: seq<Callee>): seq<Address>
    decreases |cs|
  {
    if cs == [] then acc
    else AddNew(if cs[0].target in acc then acc else acc + [cs[0].target], cs[1..])
  }

  function Expand(callees: Callees, acc: seq<Address>, us: seq<Address>): seq<Address> {
    if us == [] then acc
    else AddNew(Expand(callees, acc, us[..|us| - 1]), Children(callees, us[|us| - 1]))
  }

  /** Everything within `k` calls of `root`, in first-discovery order. */
  function Order(callees: Callees, root: Address, k: nat): seq<Address> {
    if k == 0 then [root] else Expand(callees, [root], Order(callees, root, k - 1))
  }

  function Take(s: seq<Address>, n: nat): seq<Address> {
    if |s| <= n then s else s[..n]
  }

  function Layers(depth: int): nat { if depth > 0 then depth else 0 }

  function Cap(maxNodes: int): nat { if maxNodes > 1 then maxNodes else 1 }

  /** The functions a bounded build keeps. */
  function Kept(callees: Callees, root: Address, depth: int, maxNodes: int): seq<Address> {
    Take(Order(callees, root, Layers(depth)), Cap(maxNodes))
  }

  /** The kept functions whose callees were followed: those closer than the depth bound. */
  function Expanded(callees: Callees, root: Address, depth: int, maxNodes: int): seq<Address> {
    if Layers(depth) == 0 then [] else Take(Order(callees, root, Layers(depth) - 1), Cap(maxNodes))
  }

  /** The first name a list of call sites gives `v`, if any does. */
  function FirstName(cs: seq<Callee>, v: Address): Option<string> {
    if cs == [] then None
    else
      var before := FirstName(cs[..|cs| - 1], v);
      var last := cs[|cs| - 1];
      if before == None && last.target == v then last.name else before
  }

  /** Every call site of `us`, in order. */
  function Sites(callees: Callees, us: seq<Address>): seq<Callee> {
    if us == [] then [] else Sites(callees, us[..|us| - 1]) + Children(callees, us[|us| - 1])
  }

  // ---------------------------------------------------------------- facts about the reference

  predicate Distinct<T(==)>(s: seq<T>) {
    forall i, j :: 0 <= i < j < |s| ==> s[i] != s[j]
  }

  lemma {:induction false} AddNewFacts(acc: seq<Address>, cs: seq<Callee>)
    ensures acc <= AddNew(acc, cs)
    ensures Distinct(acc) ==> Distinct(AddNew(acc, cs))
    ensures forall v :: v in AddNew(acc, cs) <==> v in acc || exists k :: 0 <= k < |cs| && cs[k].target == v
    decreases |cs|
  {
    if cs != [] {
      var acc' := if cs[0].target in acc then acc else acc + [cs[0].target];
      AddNewFacts(acc', cs[1..]);
      forall v ensures v in AddNew(acc, cs) <==> v in acc || exists k :: 0 <= k < |cs| && cs[k].target == v {
        if k :| 0 <= k < |cs| && cs[k].target == v {
          if k > 0 {
            assert cs[1..][k - 1].target == v;
          } else {
            assert v in acc';
          }
        }
        if v in AddNew(acc, cs) && v !in acc {
          if v in acc' {
            assert cs[0].target == v;
          } else {
            var k :| 0 <= k < |cs[1..]| && cs[1..][k].target == v;
            assert cs[k + 1].target == v;
          }
        }
      }
    }
  }

  lemma {:induction false} AddNewConcat(acc: seq<Address>, cs: seq<Callee>, ds: seq<Callee>)
    ensures AddNew(acc, cs + ds) == AddNew(AddNew(acc, cs), ds)
    decreases |cs|
  {
    if cs == [] {
      assert cs + ds == ds;
    } else {
      assert (cs + ds)[1..] == cs[1..] + ds;
      AddNewConcat(if cs[0].target in acc then acc else acc + [cs[0].target], cs[1..], ds);
    }
  }

  lemma {:induction false} ExpandFacts(callees: Callees, acc: seq<Address>, us: seq<Address>)
    ensures acc <= Expand(callees, acc, us)
    ensures Distinct(acc) ==> Distinct(Expand(callees, acc, us))
    ensures forall v :: v in Expand(callees, acc, us) <==> v in acc || exists u :: u in us && Calls(callees, u, v)
    decreases |us|
  {
    if us != [] {
      var ts, u0 := us[..|us| - 1], us[|us| - 1];
      ExpandFacts(callees, acc, ts);
      AddNewFacts(Expand(callees, acc, ts), Children(callees, u0));
      assert us == ts + [u0];
      forall v ensures v in Expand(callees, acc, us) <==> v in acc || exists u :: u in us && Calls(callees, u, v) {
        if v in Expand(callees, acc, us) && v !in acc {
          if v in Expand(callees, acc, ts) {
            var u :| u in ts && Calls(callees, u, v);
            assert u in us;
          } else {
            assert u0 in us && Calls(callees, u0, v);
          }
        }
        if u :| u in us && Calls(callees, u, v) {
          assert u in ts || u == u0;
        }
      }
    }
  }

  lemma {:induction false} ExpandPrefix(callees: Callees, acc: seq<Address>, us: seq<Address>, ws: seq<Address>)
    requires us <= ws
    ensures Expand(callees, acc, us) <= Expand(callees, acc, ws)
    decreases |ws|
  {
    if us == ws {
    } else {
      var ts := ws[..|ws| - 1];
      ExpandPrefix(callees, acc, us, ts);
      AddNewFacts(Expand(callees, acc, ts), Children(callees, ws[|ws| - 1]));
    }
  }

  lemma {:induction false} OrderPrefix(callees: Callees, root: Address, j: nat, k: nat)
    requires j <= k
    ensures Order(callees, root, j) <= Order(callees, root, k)
    ensures Distinct(Order(callees, root, k)) && 1 <= |Order(callees, root, k)|
    decreases k
  {
    if k > 0 {
      ExpandFacts(callees, [root], Order(callees, root, k - 1));
      OrderPrefix(callees, root, if j == 0 then 0 else j - 1, k - 1);
      if j > 0 {
        ExpandPrefix(callees, [root], Order(callees, root, j - 1), Order(callees, root, k - 1));
      }
    }
  }

  // ---------------------------------------------------------------- call paths and distance

  /** `p` walks the call relation from `root` to `v` in `|p| - 1` calls. */
  ghost predicate IsPath(callees: Callees, root: Address, v: Address, p: seq<Address>) {
    && |p| >= 1 && p[0] == root && p[|p| - 1] == v
    && forall i :: 0 < i < |p| ==> Calls(callees, p[i - 1], p[i])
  }

  ghost predicate IsDistance(callees: Callees, root: Address, v: Address, n: nat) {
    && (exists p :: IsPath(callees, root, v, p) && |p| == n + 1)
    && (forall p :: IsPath(callees, root, v, p) ==> |p| >= n + 1)
  }

  lemma {:induction false} PathInOrder(callees: Callees, root: Address, v: Address, p: seq<Address>, k: nat)
    requires IsPath(callees, root, v, p) && |p| <= k + 1
    ensures v in Order(callees, root, k)
    decreases |p|
  {
    if |p| == 1 {
      OrderPrefix(callees, root, 0, k);
      assert Order(callees, root, k)[0] == root;
    } else {
      var q := p[..|p| - 1];
      var u := q[|q| - 1];
      assert Calls(callees, p[|p| - 2], p[|p| - 1]);
      PathInOrder(callees, root, u, q, k - 1);
      ExpandFacts(callees, [root], Order(callees, root, k - 1));
    }
  }

  lemma {:induction false} OrderHasPath(callees: Callees, root: Address, v: Address, k: nat) returns (p: seq<Address>)
    requires v in Order(callees, root, k)
    ensures IsPath(callees, root, v, p) && |p| <= k + 1
    decreases k
  {
    if k == 0 || v == root {
      p := [root];
    } else {
      ExpandFacts(callees, [root], Order(callees, root, k - 1));
      var u :| u in Order(callees, root, k - 1) && Calls(callees, u, v);
      var q := OrderHasPath(callees, root, u, k - 1);
      p := q + [v];
      forall i | 0 < i < |p| ensures Calls(callees, p[i - 1], p[i]) {
        if i < |q| { assert Calls(callees, q[i - 1], q[i]); }
      }
    }
  }

  /** The reference order contains exactly the functions a path of at most `k` calls reaches. */
  lemma OrderIsReachability(callees: Callees, root: Address, v: Address, k: nat)
    ensures v in Order(callees, root, k) <==> exists p :: IsPath(callees, root, v, p) && |p| <= k + 1
  {
    if v in Order(callees, root, k) {
      var p := OrderHasPath(callees, root, v, k);
    }
    if p :| IsPath(callees, root, v, p) && |p| <= k + 1 {
      PathInOrder(callees, root, v, p, k);
    }
  }

  /** Distance `n` means: listed by round `n`, and by no earlier round. */
  lemma DistanceIsRound(callees: Callees, root: Address, v: Address, n: nat)
    ensures IsDistance(callees, root, v, n)
       <==> v in Order(callees, root, n) && (n > 0 ==> v !in Order(callees, root, n - 1))
  {
    if IsDistance(callees, root, v, n) {
      OrderIsReachability(callees, root, v, n);
      if n > 0 { OrderIsReachability(callees, root, v, n - 1); }
    }
    if v in Order(callees, root, n) && (n > 0 ==> v !in Order(callees, root, n - 1)) {
      var p := OrderHasPath(callees, root, v, n);
      forall q | IsPath(callees, root, v, q) ensures |q| >= n + 1 {
        if |q| <= n { PathInOrder(callees, root, v, q, n - 1); }
      }
    }
  }

  // ---------------------------------------------------------------- laws of the kept list

  /** Each kept function has a shortest call distance, and it is within the depth bound. */
  lemma KeptWithinDepth(callees: Callees, root: Address, depth: int, maxNodes: int, i: nat) returns (n: nat)
    requires i < |Kept(callees, root, depth, maxNodes)|
    ensures n <= Layers(depth) && IsDistance(callees, root, Kept(callees, root, depth, maxNodes)[i], n)
  {
    var v := Kept(callees, root, depth, maxNodes)[i];
    n := Layers(depth);
    while n > 0 && v in Order(callees, root, n - 1)
      invariant n <= Layers(depth) && v in Order(callees, root, n)
    {
      n := n - 1;
    }
    DistanceIsRound(callees, root, v, n);
  }

  /**
    Nearest first, even when the node ceiling bites: a function strictly closer to the root than
    the j-th kept one is itself kept, and is listed before it.
  */
  lemma NearestFirst(callees: Callees, root: Address, depth: int, maxNodes: int, j: nat, m: nat, v: Address, n: nat)
    requires j < |Kept(callees, root, depth, maxNodes)|
    requires IsDistance(callees, root, Kept(callees, root, depth, maxNodes)[j], m)
    requires IsDistance(callees, root, v, n) && n < m
    ensures v in Kept(callees, root, depth, maxNodes)[..j]
  {
    hide *;
    DistanceIsRound(callees, root, Kept(callees, root, depth, maxNodes)[j], m);
    DistanceIsRound(callees, root, v, n);
    EarlierRoundFirst(callees, root, depth, maxNodes, j, m - 1, v, n);
  }

  lemma EarlierRoundFirst(callees: Callees, root: Address, depth: int, maxNodes: int, j: nat, m: nat, v: Address,
                          n: nat)
    requires j < |Kept(callees, root, depth, maxNodes)|
    requires Kept(callees, root, depth, maxNodes)[j] !in Order(callees, root, m)
    requires v in Order(callees, root, n) && n <= m
    ensures v in Kept(callees, root, depth, maxNodes)[..j]
  {
    OrderPrefix(callees, root, n, m);
    if Layers(depth) <= m {
      OrderPrefix(callees, root, Layers(depth), m);
    } else {
      OrderPrefix(callees, root, m, Layers(depth));
    }
    CloserPrefix(Order(callees, root, m), Order(callees, root, Layers(depth)), Kept(callees, root, depth, maxNodes), j,
                 v);
  }

  lemma CloserPrefix(near: seq<Address>, all: seq<Address>, kept: seq<Address>, j: nat, v: Address)
    requires near <= all || all <= near
    requires kept <= all && j < |kept|
    requires kept[j] !in near && v in near
    ensures v in kept[..j]
  {
    assert kept[j] == all[j];
    var i :| 0 <= i < |near| && near[i] == v;
    assert i < j;
    assert kept[..j][i] == all[i] == v;
  }

  /** Kept functions are listed in non-decreasing distance. */
  lemma DistancesAscend(callees: Callees, root: Address, depth: int, maxNodes: int, i: nat, n: nat, j: nat, m: nat)
    requires i <= j < |Kept(callees, root, depth, maxNodes)|
    requires IsDistance(callees, root, Kept(callees, root, depth, maxNodes)[i], n)
    requires IsDistance(callees, root, Kept(callees, root, depth, maxNodes)[j], m)
    ensures n <= m
  {
    if m < n {
      NearestFirst(callees, root, depth, maxNodes, i, n, Kept(callees, root, depth, maxNodes)[j], m);
      OrderPrefix(callees, root, 0, Layers(depth));
      assert false;
    }
  }

  /** Raising either bound only appends to the node list. */
  lemma BoundsOnlyAppend(callees: Callees, root: Address, depth: int, maxNodes: int, depth': int, maxNodes': int)
    requires depth <= depth' && maxNodes <= maxNodes'
    ensures Kept(callees, root, depth, maxNodes) <= Kept(callees, root, depth', maxNodes')
  {
    OrderPrefix(callees, root, Layers(depth), Layers(depth'));
  }

  // ---------------------------------------------------------------- edges and truncation

  function EdgesOf(u: Address, cs: seq<Callee>, kept: seq<Address>): seq<Edge> {
    if cs == [] then []
    else
      var before := EdgesOf(u, cs[..|cs| - 1], kept);
      var e := Edge(u, cs[|cs| - 1].target);
      if e.target in kept && e !in before then before + [e] else before
  }

  /** One edge per distinct call from `us` into `kept`, in discovery order. */
  function Edges(callees: Callees, us: seq<Address>, kept: seq<Address>): seq<Edge> {
    if us == [] then []
    else Edges(callees, us[..|us| - 1], kept) + EdgesOf(us[|us| - 1], Children(callees, us[|us| - 1]), kept)
  }

  lemma {:induction false} EdgesOfFacts(u: Address, cs: seq<Callee>, kept: seq<Address>)
    ensures Distinct(EdgesOf(u, cs, kept))
    ensures forall e :: (e in EdgesOf(u, cs, kept) <==>
              e.source == u && e.target in kept && exists k :: 0 <= k < |cs| && cs[k].target == e.target)
  {
    if cs != [] {
      var init := cs[..|cs| - 1];
      EdgesOfFacts(u, init, kept);
      assert Distinct(EdgesOf(u, cs, kept)) by {
        forall i, j | 0 <= i < j < |EdgesOf(u, cs, kept)| ensures EdgesOf(u, cs, kept)[i] != EdgesOf(u, cs, kept)[j] {
          assert EdgesOf(u, cs, kept)[i] in EdgesOf(u, init, kept);
        }
      }
      hide Distinct;
      forall e ensures e in EdgesOf(u, cs, kept)
          <==> e.source == u && e.target in kept && exists k :: 0 <= k < |cs| && cs[k].target == e.target {
        if e in EdgesOf(u, init, kept) {
          var k :| 0 <= k < |init| && init[k].target == e.target;
          assert cs[k].target == e.target;
        } else if k :| 0 <= k < |cs| && cs[k].target == e.target {
          if k < |init| { assert init[k].target == e.target; }
        }
      }
    }
  }

  lemma {:induction false} EdgesFacts(callees: Callees, us: seq<Address>, kept: seq<Address>)
    ensures forall e :: (e in Edges(callees, us, kept) <==>
              e.source in us && e.target in kept && Calls(callees, e.source, e.target))
    ensures Distinct(us) ==> Distinct(Edges(callees, us, kept))
  {
    if us != [] {
      var ts, u := us[..|us| - 1], us[|us| - 1];
      assert us == ts + [u];
      EdgesFacts(callees, ts, kept);
      EdgesOfFacts(u, Children(callees, u), kept);
    }
  }

  lemma {:induction false} FirstNameOfStranger(cs: seq<Callee>, v: Address)
    requires forall k :: 0 <= k < |cs| ==> cs[k].target != v
    ensures FirstName(cs, v) == None
  {
    if cs != [] {
      FirstNameOfStranger(cs[..|cs| - 1], v);
    }
  }

  lemma {:induction false} SitesTargets(callees: Callees, us: seq<Address>, k: nat)
    requires k < |Sites(callees, us)|
    ensures exists u :: u in us && Calls(callees, u, Sites(callees, us)[k].target)
  {
    var ts, u := us[..|us| - 1], us[|us| - 1];
    var before := Sites(callees, ts);
    if k < |before| {
      SitesTargets(callees, ts, k);
      var w :| w in ts && Calls(callees, w, before[k].target);
      assert w in us;
    } else {
      assert Sites(callees, us)[k] == Children(callees, u)[k - |before|];
      assert Calls(callees, u, Sites(callees, us)[k].target);
    }
  }

  /** What a build returns: every field of the graph, in terms of the reference. */
  ghost predicate IsBuild(callees: Callees, root: Address, depth: int, maxNodes: int, g: Graph) {
    var kept := Kept(callees, root, depth, maxNodes);
    var expanded := Expanded(callees, root, depth, maxNodes);
    && g.root == root
    && |g.nodes| == |kept|
    && (forall i :: 0 <= i < |kept| ==>
          g.nodes[i] == Node(kept[i], FirstName(Sites(callees, expanded), kept[i])))
    && g.edges == Edges(callees, expanded, kept)
    && (g.truncated <==> exists u, v :: u in kept && Calls(callees, u, v) && Edge(u, v) !in g.edges)
  }

  /**
    A graph that is not flagged truncated is the whole reachable set with its whole call relation,
    whatever the bounds were.
  */
  lemma NotTruncatedIsComplete(callees: Callees, root: Address, depth: int, maxNodes: int, g: Graph,
                               p: seq<Address>, v: Address, w: Address)
    requires IsBuild(callees, root, depth, maxNodes, g) && !g.truncated
    requires IsPath(callees, root, v, p)
    ensures exists i :: 0 <= i < |g.nodes| && g.nodes[i].address == v
    ensures Calls(callees, v, w) <==> Edge(v, w) in g.edges
    decreases |p|
  {
    var kept := Kept(callees, root, depth, maxNodes);
    EdgesFacts(callees, Expanded(callees, root, depth, maxNodes), kept);
    if |p| == 1 {
      OrderPrefix(callees, root, 0, Layers(depth));
      assert kept[0] == root;
    } else {
      var q := p[..|p| - 1];
      var u := q[|q| - 1];
      assert IsPath(callees, root, u, q);
      assert Calls(callees, p[|p| - 2], p[|p| - 1]);
      NotTruncatedIsComplete(callees, root, depth, maxNodes, g, q, u, v);
    }
    assert v in kept;
    var i :| 0 <= i < |kept| && kept[i] == v;
    assert g.nodes[i].address == v;
  }

  // ---------------------------------------------------------------- the worklist algorithm

  ghost predicate Comparable(a: seq<Address>, b: seq<Address>) { a <= b || b <= a }

  /** The list built from any of its own prefixes agrees with every reference round. */
  lemma {:induction false} ListFollowsOrder(callees: Callees, root: Address, us: seq<Address>, list: seq<Address>,
                                            k: nat)
    requires us <= list <= Expand(callees, [root], us) && [root] <= list
    ensures Comparable(list, Order(callees, root, k))
  {
    if k > 0 {
      ListFollowsOrder(callees, root, us, list, k - 1);
      var before := Order(callees, root, k - 1);
      assert Comparable(us, before);
      if us <= before {
        ExpandPrefix(callees, [root], us, before);
      } else {
        ExpandPrefix(callees, [root], before, us);
      }
    }
  }

  /** Position `i` of the reference belongs to round `l`. */
  ghost predicate InRound(callees: Callees, root: Address, i: nat, l: nat) {
    i < |Order(callees, root, l)| && (l > 0 ==> |Order(callees, root, l - 1)| <= i)
  }

  lemma RoundBound(callees: Callees, root: Address, i: nat, l: nat, layers: nat)
    requires InRound(callees, root, i, l)
    ensures l < layers <==> layers > 0 && i < |Order(callees, root, layers - 1)|
  {
    if l < layers {
      OrderPrefix(callees, root, l, layers - 1);
    } else if layers > 0 {
      OrderPrefix(callees, root, layers - 1, l - 1);
    }
  }

  /** Everything the worklist knows when it has followed `us` and part `cs` of the next list. */
  ghost predicate Listed(callees: Callees, root: Address, cap: nat, us: seq<Address>, cs: seq<Callee>,
                         list: seq<Address>) {
    && us <= list
    && list == Take(AddNew(Expand(callees, [root], us), cs), cap)
  }

  lemma ListedFacts(callees: Callees, root: Address, cap: nat, us: seq<Address>, cs: seq<Callee>, list: seq<Address>)
    requires Listed(callees, root, cap, us, cs, list) && cap >= 1
    ensures [root] <= list && Distinct(list)
    ensures |list| < cap ==> forall u, v :: u in us && Calls(callees, u, v) ==> v in list
    ensures |list| < cap ==> forall k :: 0 <= k < |cs| ==> cs[k].target in list
  {
    ExpandFacts(callees, [root], us);
    AddNewFacts(Expand(callees, [root], us), cs);
  }

  lemma ListedStep(callees: Callees, root: Address, cap: nat, us: seq<Address>, cs: seq<Callee>, c: Callee,
                   list: seq<Address>, list': seq<Address>)
    requires Listed(callees, root, cap, us, cs, list) && cap >= 1
    requires list' == if c.target in list || |list| >= cap then list else list + [c.target]
    ensures Listed(callees, root, cap, us, cs + [c], list')
  {
    var base := AddNew(Expand(callees, [root], us), cs);
    AddNewConcat(Expand(callees, [root], us), cs, [c]);
    assert AddNew(base, [c]) == if c.target in base then base else base + [c.target];
  }

  /** Following a whole child list moves on to the next function. */
  lemma ListedNext(callees: Callees, root: Address, cap: nat, us: seq<Address>, u: Address, list: seq<Address>)
    requires Listed(callees, root, cap, us, Children(callees, u), list)
    requires us + [u] <= list
    ensures Listed(callees, root, cap, us + [u], [], list)
  {
    assert (us + [u])[..|us|] == us;
  }

  /** A list grown from functions closer than the bound never leaves the kept list. */
  lemma ListedWithinKept(callees: Callees, root: Address, depth: int, maxNodes: int,
                         us: seq<Address>, u: Address, cs: seq<Callee>, list: seq<Address>)
    requires Listed(callees, root, Cap(maxNodes), us, cs, list)
    requires us + [u] <= list && cs <= Children(callees, u)
    requires Layers(depth) > 0 && |us| < |Order(callees, root, Layers(depth) - 1)|
    ensures list <= Kept(callees, root, depth, maxNodes)
    ensures |list| >= Cap(maxNodes) ==> list == Kept(callees, root, depth, maxNodes)
  {
    var inner := Order(callees, root, Layers(depth) - 1);
    var next := us + [u];
    PartOfExpansion(callees, root, us, u, cs);
    assert next <= inner by {
      ListFollowsOrderUpTo(callees, root, Cap(maxNodes), us, u, cs, list, Layers(depth) - 1);
      hide Order, Expand, AddNew;
    }
    ExpandPrefix(callees, [root], next, inner);
    assert Order(callees, root, Layers(depth)) == Expand(callees, [root], inner);
    hide Order, Expand, AddNew, Children, Layers;
  }

  lemma PartOfExpansion(callees: Callees, root: Address, us: seq<Address>, u: Address, cs: seq<Callee>)
    requires cs <= Children(callees, u)
    ensures AddNew(Expand(callees, [root], us), cs) <= Expand(callees, [root], us + [u])
  {
    assert (us + [u])[..|us|] == us;
    var rest := Children(callees, u)[|cs|..];
    assert Children(callees, u) == cs + rest;
    AddNewConcat(Expand(callees, [root], us), cs, rest);
    AddNewFacts(AddNew(Expand(callees, [root], us), cs), rest);
  }

  lemma ListFollowsOrderUpTo(callees: Callees, root: Address, cap: nat, us: seq<Address>, u: Address,
                             cs: seq<Callee>, list: seq<Address>, k: nat)
    requires cap >= 1 && Listed(callees, root, cap, us, cs, list) && us + [u] <= list && cs <= Children(callees, u)
    ensures Comparable(list, Order(callees, root, k))
  {
    ListedFacts(callees, root, cap, us, cs, list);
    PartOfExpansion(callees, root, us, u, cs);
    ListFollowsOrder(callees, root, us + [u], list, k);
  }

  /** A function discovered while following round `l` belongs to round `l + 1`. */
  lemma DiscoveredInNextRound(callees: Callees, root: Address, cap: nat, us: seq<Address>, u: Address,
                              cs: seq<Callee>, c: Callee, list: seq<Address>, l: nat)
    requires cap >= 1 && Listed(callees, root, cap, us, cs, list) && us + [u] <= list
    requires cs + [c] <= Children(callees, u)
    requires InRound(callees, root, |us|, l)
    requires |list| < cap && c.target !in list
    ensures InRound(callees, root, |list|, l + 1)
  {
    assert cs <= Children(callees, u);
    DiscoveredByNextRound(callees, root, cap, us, u, cs, c, list, l);
    DiscoveredAfterRound(callees, root, cap, us, u, cs, list, l);
    hide Order, Expand, AddNew, Children, Listed;
  }

  lemma DiscoveredByNextRound(callees: Callees, root: Address, cap: nat, us: seq<Address>, u: Address,
                              cs: seq<Callee>, c: Callee, list: seq<Address>, l: nat)
    requires cap >= 1 && Listed(callees, root, cap, us, cs, list) && us + [u] <= list
    requires cs + [c] <= Children(callees, u)
    requires InRound(callees, root, |us|, l)
    requires |list| < cap && c.target !in list
    ensures |list| < |Order(callees, root, l + 1)|
  {
    ListedStep(callees, root, cap, us, cs, c, list, list + [c.target]);
    ListFollowsOrderUpTo(callees, root, cap, us, u, cs, list, l);
    assert us + [u] <= Order(callees, root, l);
    ExpandPrefix(callees, [root], us + [u], Order(callees, root, l));
    PartOfExpansion(callees, root, us, u, cs + [c]);
    assert Order(callees, root, l + 1) == Expand(callees, [root], Order(callees, root, l));
    hide Order, Expand, AddNew, Children;
  }

  lemma DiscoveredAfterRound(callees: Callees, root: Address, cap: nat, us: seq<Address>, u: Address,
                             cs: seq<Callee>, list: seq<Address>, l: nat)
    requires cap >= 1 && Listed(callees, root, cap, us, cs, list) && us + [u] <= list && cs <= Children(callees, u)
    requires InRound(callees, root, |us|, l) && |list| < cap
    ensures |Order(callees, root, l)| <= |list|
  {
    AddNewFacts(Expand(callees, [root], us), cs);
    ExpandFacts(callees, [root], us);
    if l > 0 {
      OrderPrefix(callees, root, l - 1, l);
      ListFollowsOrderUpTo(callees, root, cap, us, u, cs, list, l - 1);
      assert Order(callees, root, l - 1) <= us;
      ExpandPrefix(callees, [root], Order(callees, root, l - 1), us);
      assert Order(callees, root, l) == Expand(callees, [root], Order(callees, root, l - 1));
    }
    hide Expand, AddNew, Children;
  }

  /** When nothing closer than the bound is left to follow, the list is the kept list. */
  lemma Finished(callees: Callees, root: Address, depth: int, maxNodes: int, us: seq<Address>, list: seq<Address>)
    requires Listed(callees, root, Cap(maxNodes), us, [], list)
    requires Layers(depth) == 0 ==> us == []
    requires Layers(depth) > 0 ==>
      var bound := |Order(callees, root, Layers(depth) - 1)|;
      |us| == if |list| < bound then |list| else bound
    ensures list == Kept(callees, root, depth, maxNodes)
    ensures us == Expanded(callees, root, depth, maxNodes)
  {
    if Layers(depth) > 0 {
      ListedFacts(callees, root, Cap(maxNodes), us, [], list);
      ListFollowsOrder(callees, root, us, list, Layers(depth) - 1);
      FinishedInside(callees, root, Cap(maxNodes), us, list, Layers(depth) - 1);
    }
  }

  lemma FinishedInside(callees: Callees, root: Address, cap: nat, us: seq<Address>, list: seq<Address>, last: nat)
    requires Listed(callees, root, cap, us, [], list)
    requires Comparable(list, Order(callees, root, last))
    requires |us| == var bound := |Order(callees, root, last)|; if |list| < bound then |list| else bound
    ensures list == Take(Order(callees, root, last + 1), cap)
    ensures us == Take(Order(callees, root, last), cap)
  {
    var inner := Order(callees, root, last);
    if us == list && |list| < cap {
      ClosedListIsAll(callees, root, list, last);
    }
    OrderPrefix(callees, root, last, last + 1);
    assert Order(callees, root, last + 1) == Expand(callees, [root], inner);
    hide Order, Expand;
    if us != inner {
      assert us == list && |list| == cap;
    }
  }

  lemma {:induction false} ClosedListIsAll(callees: Callees, root: Address, list: seq<Address>, k: nat)
    requires list == Expand(callees, [root], list)
    ensures Order(callees, root, k) <= list
  {
    if k == 0 {
      ExpandFacts(callees, [root], list);
    } else {
      ClosedListIsAll(callees, root, list, k - 1);
      ExpandPrefix(callees, [root], Order(callees, root, k - 1), list);
    }
  }

  /** The queue holds the listed but not yet dequeued functions, each with its round. */
  ghost predicate Queued(callees: Callees, root: Address, list: seq<Address>, done: nat, queue: seq<(Address, nat)>) {
    && done + |queue| == |list|
    && forall j :: 0 <= j < |queue| ==> queue[j].0 == list[done + j] && InRound(callees, root, done + j, queue[j].1)
  }

  ghost predicate Named(callees: Callees, us: seq<Address>, cs: seq<Callee>, list: seq<Address>,
                        names: map<Address, Option<string>>) {
    && names.Keys == (set v | v in list)
    && forall v :: v in list ==> names[v] == FirstName(Sites(callees, us) + cs, v)
  }

  /** One child updates the name table exactly as the first-name rule says. */
  lemma NamedStep(callees: Callees, root: Address, cap: nat, us: seq<Address>, cs: seq<Callee>, c: Callee,
                  list: seq<Address>, names: map<Address, Option<string>>, names': map<Address, Option<string>>)
    requires cap >= 1 && Listed(callees, root, cap, us, cs, list) && Named(callees, us, cs, list, names)
    requires c.target in list || |list| < cap
    requires names' == if c.target !in names || (names[c.target] == None && c.name != None)
                       then names[c.target := c.name] else names
    ensures Named(callees, us, cs + [c], if c.target in list then list else list + [c.target], names')
  {
    var sites := Sites(callees, us) + cs;
    assert Sites(callees, us) + (cs + [c]) == sites + [c];
    if c.target !in list {
      StrangerHasNoName(callees, root, cap, us, cs, c.target, list);
    }
    hide FirstName, Sites, Listed;
    var list' := if c.target in list then list else list + [c.target];
    assert names'.Keys == (set v | v in list');
    forall v | v in list' ensures names'[v] == FirstName(sites + [c], v) {
      hide *;
      NameAfter(sites, c, v);
    }
  }

  lemma NameAfter(sites: seq<Callee>, c: Callee, v: Address)
    ensures FirstName(sites + [c], v) == if FirstName(sites, v) == None && c.target == v then c.name
      else FirstName(sites, v)
  {
    assert (sites + [c])[..|sites|] == sites;
  }

  lemma StrangerHasNoName(callees: Callees, root: Address, cap: nat, us: seq<Address>, cs: seq<Callee>, v: Address,
                          list: seq<Address>)
    requires cap >= 1 && Listed(callees, root, cap, us, cs, list) && v !in list && |list| < cap
    ensures FirstName(Sites(callees, us) + cs, v) == None
  {
    var sites := Sites(callees, us) + cs;
    ListedFacts(callees, root, cap, us, cs, list);
    hide Listed, FirstName;
    forall k | 0 <= k < |sites| ensures sites[k].target != v {
      if k < |Sites(callees, us)| {
        SitesTargets(callees, us, k);
      } else {
        assert sites[k] == cs[k - |Sites(callees, us)|];
      }
    }
    FirstNameOfStranger(sites, v);
  }

  /** The worklist's variables: nodes (`list` and `names`), edges, the two visited sets and the queue. */
  datatype Work = Work(list: seq<Address>, names: map<Address, Option<string>>, edges: seq<Edge>,
                       edgeSeen: set<Edge>, scheduled: set<Address>, queue: seq<(Address, nat)>, truncated: bool)

  /** What holds once the functions `us` and the first call sites `cs` of `current` have been followed. */
  ghost predicate Explored(callees: Callees, root: Address, depth: int, maxNodes: int,
                           us: seq<Address>, current: Address, cs: seq<Callee>, done: nat, w: Work) {
    var kept := Kept(callees, root, depth, maxNodes);
    && Listed(callees, root, Cap(maxNodes), us, cs, w.list)
    && w.list <= kept
    && Queued(callees, root, w.list, done, w.queue)
    && w.scheduled == (set v | v in w.list)
    && Named(callees, us, cs, w.list, w.names)
    && w.edges == Edges(callees, us, kept) + EdgesOf(current, cs, kept)
    && w.edgeSeen == (set e | e in w.edges)
  }

  /** The node list after one more call site. */
  function Listing(list: seq<Address>, target: Address, cap: nat): seq<Address> {
    if target in list || |list| >= cap then list else list + [target]
  }

  lemma ChildIsListed(callees: Callees, root: Address, depth: int, maxNodes: int, us: seq<Address>, current: Address,
                      level: nat, cs: seq<Callee>, c: Callee, list: seq<Address>, list': seq<Address>)
    requires us + [current] <= list && InRound(callees, root, |us|, level) && level < Layers(depth)
    requires cs + [c] <= Children(callees, current)
    requires Listed(callees, root, Cap(maxNodes), us, cs, list)
    requires list' == Listing(list, c.target, Cap(maxNodes))
    ensures Listed(callees, root, Cap(maxNodes), us, cs + [c], list')
    ensures list' <= Kept(callees, root, depth, maxNodes)
    ensures c.target in list' <==> c.target in Kept(callees, root, depth, maxNodes)
  {
    RoundBound(callees, root, |us|, level, Layers(depth));
    ListedStep(callees, root, Cap(maxNodes), us, cs, c, list, list');
    hide Order, Expand, AddNew, Kept;
    assert us + [current] <= list';
    ListedWithinKept(callees, root, depth, maxNodes, us, current, cs + [c], list');
  }

  lemma ChildIsQueued(callees: Callees, root: Address, cap: nat, us: seq<Address>, current: Address, level: nat,
                      cs: seq<Callee>, c: Callee, list: seq<Address>, queue: seq<(Address, nat)>)
    requires us + [current] <= list && InRound(callees, root, |us|, level) && cs + [c] <= Children(callees, current)
    requires cap >= 1 && Listed(callees, root, cap, us, cs, list)
    requires c.target !in list && |list| < cap
    requires Queued(callees, root, list, |us| + 1, queue)
    ensures Queued(callees, root, list + [c.target], |us| + 1, queue + [(c.target, level + 1)])
  {
    DiscoveredInNextRound(callees, root, cap, us, current, cs, c, list, level);
    hide InRound, Listed;
  }

  lemma ChildHasEdge(callees: Callees, us: seq<Address>, current: Address, cs: seq<Callee>, c: Callee,
                     kept: seq<Address>, edges: seq<Edge>, edges': seq<Edge>)
    requires current !in us
    requires edges == Edges(callees, us, kept) + EdgesOf(current, cs, kept)
    requires edges' == if c.target in kept && Edge(current, c.target) !in edges then edges + [Edge(current, c.target)]
      else edges
    ensures edges' == Edges(callees, us, kept) + EdgesOf(current, cs + [c], kept)
  {
    EdgesFacts(callees, us, kept);
    assert (cs + [c])[..|cs|] == cs;
  }

  lemma NotAmongEarlier(list: seq<Address>, us: seq<Address>, current: Address)
    requires us + [current] <= list && Distinct(list)
    ensures current !in us
  {
    assert list[|us|] == current;
    assert forall i :: 0 <= i < |us| ==> us[i] == list[i];
  }

  /** Follow one call site of `current`. */
  method FollowChild(callees: Callees, root: Address, depth: int, maxNodes: int, current: Address, level: nat,
                     edge: Callee, w: Work, ghost us: seq<Address>, ghost cs: seq<Callee>)
    returns (w': Work)
    requires us + [current] <= w.list && InRound(callees, root, |us|, level) && level < Layers(depth)
    requires cs + [edge] <= Children(callees, current)
    requires Explored(callees, root, depth, maxNodes, us, current, cs, |us| + 1, w)
    ensures w.list <= w'.list
    ensures Explored(callees, root, depth, maxNodes, us, current, cs + [edge], |us| + 1, w')
    ensures w'.truncated == (w.truncated || edge.target !in Kept(callees, root, depth, maxNodes))
    ensures |w'.queue| - |w.queue| == |w'.list| - |w.list|
  {
    hide Order, Expand, AddNew, Kept, Edges, EdgesOf, FirstName, Sites, Children, InRound, Calls;
    ghost var cap, kept := Cap(maxNodes), Kept(callees, root, depth, maxNodes);
    var target := edge.target;
    assert current !in us by {
      ListedFacts(callees, root, cap, us, cs, w.list);
      NotAmongEarlier(w.list, us, current);
    }
    ChildIsListed(callees, root, depth, maxNodes, us, current, level, cs, edge, w.list, Listing(w.list, target, cap));
    assert target in w.names <==> target in w.list;
    hide Listed;
    if target !in w.names && |w.list| >= maxNodes {
      ChildHasEdge(callees, us, current, cs, edge, kept, w.edges, w.edges);
      NamedElsewhere(callees, us, cs, edge, w.list, w.names);
      hide Queued, Named;
      return w.(truncated := true);
    }
    var list, names, queue, scheduled := w.list, w.names, w.queue, w.scheduled;
    if target !in names {
      list := list + [target];
      names := names[target := edge.name];
    } else if names[target] == None && edge.name != None {
      names := names[target := edge.name];
    }
    assert Named(callees, us, cs + [edge], list, names) by {
      NamedStep(callees, root, cap, us, cs, edge, w.list, w.names, names);
    }
    var edges, edgeSeen, pair := w.edges, w.edgeSeen, Edge(current, target);
    if pair !in edgeSeen {
      edgeSeen := edgeSeen + {pair};
      edges := edges + [pair];
    }
    assert edges == Edges(callees, us, kept) + EdgesOf(current, cs + [edge], kept) by {
      ChildHasEdge(callees, us, current, cs, edge, kept, w.edges, edges);
    }
    if target !in scheduled {
      scheduled := scheduled + {target};
      queue := queue + [(target, level + 1)];
      ChildIsQueued(callees, root, cap, us, current, level, cs, edge, w.list, w.queue);
    }
    hide Queued, Named;
    w' := Work(list, names, edges, edgeSeen, scheduled, queue, w.truncated);
  }

  lemma NamedElsewhere(callees: Callees, us: seq<Address>, cs: seq<Callee>, c: Callee, list: seq<Address>,
                       names: map<Address, Option<string>>)
    requires Named(callees, us, cs, list, names) && c.target !in list
    ensures Named(callees, us, cs + [c], list, names)
  {
    var sites := Sites(callees, us) + cs;
    assert Sites(callees, us) + (cs + [c]) == sites + [c];
    assert (sites + [c])[..|sites|] == sites;
  }

  lemma OneMoreSite(children: seq<Callee>, k: nat)
    requires k < |children|
    ensures children[..k + 1] == children[..k] + [children[k]] <= children
  {
  }

  /** Follow every call site of `current`. */
  method FollowChildren(callees: Callees, root: Address, depth: int, maxNodes: int, current: Address, level: nat,
                        children: seq<Callee>, w: Work, ghost us: seq<Address>)
    returns (w': Work)
    requires us + [current] <= w.list && InRound(callees, root, |us|, level) && level < Layers(depth)
    requires children == Children(callees, current)
    requires Explored(callees, root, depth, maxNodes, us, current, [], |us| + 1, w)
    ensures w.list <= w'.list
    ensures Explored(callees, root, depth, maxNodes, us, current, children, |us| + 1, w')
    ensures w'.truncated ==
      (w.truncated || exists i :: 0 <= i < |children| && children[i].target !in Kept(callees, root, depth, maxNodes))
    ensures |w'.queue| - |w.queue| == |w'.list| - |w.list|
  {
    hide *;
    ghost var kept := Kept(callees, root, depth, maxNodes);
    w' := w;
    var k := 0;
    while k < |children|
      invariant 0 <= k <= |children|
      invariant us + [current] <= w.list <= w'.list
      invariant Explored(callees, root, depth, maxNodes, us, current, children[..k], |us| + 1, w')
      invariant w'.truncated == (w.truncated || exists i :: 0 <= i < k && children[i].target !in kept)
      invariant |w'.queue| - |w.queue| == |w'.list| - |w.list|
    {
      OneMoreSite(children, k);
      w' := FollowChild(callees, root, depth, maxNodes, current, level, children[k], w', us, children[..k]);
      k := k + 1;
    }
    assert children[..k] == children;
  }

  /** The fully followed `current` joins the followed functions. */
  lemma ExploredNext(callees: Callees, root: Address, depth: int, maxNodes: int, us: seq<Address>, current: Address,
                     any: Address, done: nat, w: Work)
    requires us + [current] <= w.list
    requires Explored(callees, root, depth, maxNodes, us, current, Children(callees, current), done, w)
    ensures Explored(callees, root, depth, maxNodes, us + [current], any, [], done, w)
  {
    ListedNext(callees, root, Cap(maxNodes), us, current, w.list);
    FollowedJoins(callees, us, current, any, Kept(callees, root, depth, maxNodes));
    hide Order, Expand, AddNew, Kept, Edges, EdgesOf, FirstName, Sites, Children, Listed, Queued;
  }

  lemma FollowedJoins(callees: Callees, us: seq<Address>, current: Address, any: Address, kept: seq<Address>)
    ensures Sites(callees, us + [current]) + [] == Sites(callees, us) + Children(callees, current)
    ensures Edges(callees, us + [current], kept) + EdgesOf(any, [], kept)
      == Edges(callees, us, kept) + EdgesOf(current, Children(callees, current), kept)
  {
    assert (us + [current])[..|us|] == us;
    hide Children;
  }

  /** Some call out of the dequeued functions is missing from the final edges. */
  ghost predicate Elides(callees: Callees, us: seq<Address>, dequeued: seq<Address>, kept: seq<Address>) {
    exists u, v :: u in dequeued && Calls(callees, u, v) && !(u in us && v in kept)
  }

  /** Dequeue one function and, unless it is a leaf or at the depth bound, follow its callees. */
  method Visit(callees: Callees, root: Address, depth: int, maxNodes: int, answer: Option<seq<Callee>>, w: Work,
               ghost us: seq<Address>, ghost done: nat)
    returns (w': Work, ghost us': seq<Address>)
    requires Explored(callees, root, depth, maxNodes, us, root, [], done, w)
    requires w.queue != [] && answer == callees(w.queue[0].0)
    requires |us| == var bound := if Layers(depth) == 0 then 0 else |Order(callees, root, Layers(depth) - 1)|;
                     if done < bound then done else bound
    requires done + |w.queue| == |w.list|
    requires w.truncated == Elides(callees, us, w.list[..done], Kept(callees, root, depth, maxNodes))
    ensures Explored(callees, root, depth, maxNodes, us', root, [], done + 1, w')
    ensures |us'| == var bound := if Layers(depth) == 0 then 0 else |Order(callees, root, Layers(depth) - 1)|;
                     if done + 1 < bound then done + 1 else bound
    ensures done + 1 + |w'.queue| == |w'.list|
    ensures w'.truncated == Elides(callees, us', w'.list[..done + 1], Kept(callees, root, depth, maxNodes))
    ensures |w'.list| >= |w.list|
  {
    hide Order, Expand, AddNew, Kept, Edges, EdgesOf, FirstName, Sites, InRound, Calls, Explored, Elides;
    var layers := Layers(depth);
    var current, level := w.queue[0].0, w.queue[0].1;
    ghost var before, kept := w.list[..done], Kept(callees, root, depth, maxNodes);
    NextInQueue(callees, root, depth, maxNodes, us, done, layers, w);
    w', us' := w.(queue := w.queue[1..]), us;
    assert w.list[..done + 1] == before + [current];
    if answer == None {
      LeafElides(callees, us, before, current, kept);
      if level < layers {
        ExploredNext(callees, root, depth, maxNodes, us, current, root, done + 1, w');
        us' := us + [current];
      }
      return;
    }
    var children := answer.value;
    if level >= layers {
      assert forall u :: u in us ==> u in before by { assert us == before[..|us|]; }
      FrontierElides(callees, us, before, current, kept);
      if |children| > 0 {
        w' := w'.(truncated := true);
      }
      return;
    }
    FollowedElides(callees, us, before, current, kept);
    assert us == before;
    w' := FollowChildren(callees, root, depth, maxNodes, current, level, children, w', us);
    ExploredNext(callees, root, depth, maxNodes, us, current, root, done + 1, w');
    us' := us + [current];
    assert w'.list[..done + 1] == before + [current];
  }

  /** Explore the callee relation from `root`; fails only when the root itself cannot be enumerated. */
  method Build(root: Address, callees: Callees, depth: int, maxNodes: int) returns (r: Result<Graph, LookupFailure>)
    ensures callees(root) == None ==> r == Failure(LookupFailure(root))
    ensures callees(root) != None ==> r.Success? && IsBuild(callees, root, depth, maxNodes, r.value)
  {
    hide *;
    var layers := Layers(depth);
    var w := Work([root], map[root := None], [], {}, {root}, [(root, 0)], false);
    ghost var kept := Kept(callees, root, depth, maxNodes);
    ghost var bound := if layers == 0 then 0 else |Order(callees, root, layers - 1)|;
    ghost var done := 0;
    ghost var us: seq<Address> := [];
    Started(callees, root, depth, maxNodes, w);

    while w.queue != []
      invariant done > 0 ==> callees(root) != None
      invariant |us| == if done < bound then done else bound
      invariant Explored(callees, root, depth, maxNodes, us, root, [], done, w)
      invariant done + |w.queue| == |w.list|
      invariant w.truncated == Elides(callees, us, w.list[..done], kept)
      decreases 2 * (Cap(maxNodes) - |w.list|) + |w.queue|
    {
      var current := w.queue[0].0;
      NextInQueue(callees, root, depth, maxNodes, us, done, layers, w);
      if callees(current) == None && current == root {
        return Failure(LookupFailure(root));
      }
      w, us := Visit(callees, root, depth, maxNodes, callees(current), w, us, done);
      done := done + 1;
    }
    assert w.list[..done] == w.list;
    var list, names := w.list, w.names;
    NamesAreListed(callees, root, depth, maxNodes, us, done, w);
    var nodes := seq(|list|, i requires 0 <= i < |list| && list[i] in names => Node(list[i], names[list[i]]));
    var g := Graph(root, nodes, w.edges, w.truncated);
    ExploredAll(callees, root, depth, maxNodes, us, w, g);
    r := Success(g);
  }

  lemma Started(callees: Callees, root: Address, depth: int, maxNodes: int, w: Work)
    requires w == Work([root], map[root := None], [], {}, {root}, [(root, 0)], false)
    ensures Explored(callees, root, depth, maxNodes, [], root, [], 0, w)
    ensures !Elides(callees, [], w.list[..0], Kept(callees, root, depth, maxNodes))
  {
    OrderPrefix(callees, root, 0, Layers(depth));
    assert InRound(callees, root, 0, 0);
  }

  lemma NextInQueue(callees: Callees, root: Address, depth: int, maxNodes: int, us: seq<Address>, done: nat,
                    layers: nat, w: Work)
    requires Explored(callees, root, depth, maxNodes, us, root, [], done, w) && w.queue != []
    requires layers == Layers(depth)
    requires |us| == var bound := if layers == 0 then 0 else |Order(callees, root, layers - 1)|; if done < bound
      then done else bound
    ensures w.queue[0].1 < layers <==> layers > 0 && done < |Order(callees, root, layers - 1)|
    ensures InRound(callees, root, done, w.queue[0].1)
    ensures done < |w.list| <= Cap(maxNodes) && w.queue[0].0 == w.list[done]
    ensures |us| <= done && us == w.list[..|us|]
    ensures w.queue[0].0 !in w.list[..done]
    ensures us == w.list[..done] ==> us + [w.queue[0].0] <= w.list
    ensures done > 0 ==> w.queue[0].0 != root
    ensures done == 0 ==> w.queue[0].0 == root
    ensures Explored(callees, root, depth, maxNodes, us, root, [], done + 1, w.(queue := w.queue[1..]))
    ensures Explored(callees, root, depth, maxNodes, us, root, [], done + 1,
                     w.(queue := w.queue[1..], truncated := true))
    ensures Explored(callees, root, depth, maxNodes, us, w.queue[0].0, [], done + 1, w.(queue := w.queue[1..]))
  {
    hide *;
    QueueHead(callees, root, depth, maxNodes, us, done, layers, w);
    Dequeued(callees, root, depth, maxNodes, us, root, done, w, w.truncated);
    Dequeued(callees, root, depth, maxNodes, us, root, done, w, true);
    Dequeued(callees, root, depth, maxNodes, us, w.queue[0].0, done, w, w.truncated);
    assert w.(queue := w.queue[1..], truncated := w.truncated) == w.(queue := w.queue[1..]);
  }

  lemma QueueHead(callees: Callees, root: Address, depth: int, maxNodes: int, us: seq<Address>, done: nat, layers: nat,
                  w: Work)
    requires Explored(callees, root, depth, maxNodes, us, root, [], done, w) && w.queue != []
    requires layers == Layers(depth)
    requires |us| == var bound := if layers == 0 then 0 else |Order(callees, root, layers - 1)|; if done < bound
      then done else bound
    ensures w.queue[0].1 < layers <==> layers > 0 && done < |Order(callees, root, layers - 1)|
    ensures InRound(callees, root, done, w.queue[0].1)
    ensures done < |w.list| <= Cap(maxNodes) && w.queue[0].0 == w.list[done]
    ensures |us| <= done && us == w.list[..|us|]
    ensures w.queue[0].0 !in w.list[..done]
    ensures us == w.list[..done] ==> us + [w.queue[0].0] <= w.list
    ensures done > 0 ==> w.queue[0].0 != root
    ensures done == 0 ==> w.queue[0].0 == root
  {
    assert w.list[0] == root by { ListedFacts(callees, root, Cap(maxNodes), us, [], w.list); }
    ListedFacts(callees, root, Cap(maxNodes), us, [], w.list);
    RoundBound(callees, root, done, w.queue[0].1, layers);
    hide Order, Expand, AddNew, Kept, Edges, FirstName, Sites, InRound, Named;
    var before := w.list[..done];
    assert forall i :: 0 <= i < done ==> before[i] == w.list[i];
    hide Listed;
  }

  lemma Dequeued(callees: Callees, root: Address, depth: int, maxNodes: int, us: seq<Address>, current: Address,
                 done: nat, w: Work, truncated: bool)
    requires Explored(callees, root, depth, maxNodes, us, root, [], done, w) && w.queue != []
    ensures Explored(callees, root, depth, maxNodes, us, current, [], done + 1,
                     w.(queue := w.queue[1..], truncated := truncated))
  {
    assert EdgesOf(root, [], Kept(callees, root, depth, maxNodes))
      == EdgesOf(current, [], Kept(callees, root, depth, maxNodes));
    hide Order, Expand, AddNew, Kept, Edges, EdgesOf, FirstName, Sites, InRound, Named, Listed;
    var queue := w.queue[1..];
    assert forall j :: 0 <= j < |queue| ==> queue[j] == w.queue[j + 1];
  }

  lemma NamesAreListed(callees: Callees, root: Address, depth: int, maxNodes: int, us: seq<Address>, done: nat, w: Work)
    requires Explored(callees, root, depth, maxNodes, us, root, [], done, w)
    ensures w.names.Keys == (set v | v in w.list)
  {
  }

  /** When the queue is empty the variables hold exactly the result. */
  lemma ExploredAll(callees: Callees, root: Address, depth: int, maxNodes: int, us: seq<Address>, w: Work, g: Graph)
    requires Explored(callees, root, depth, maxNodes, us, root, [], |w.list|, w)
    requires |us| == var bound := if Layers(depth) == 0 then 0 else |Order(callees, root, Layers(depth) - 1)|;
                     if |w.list| < bound then |w.list| else bound
    requires w.truncated == Elides(callees, us, w.list, Kept(callees, root, depth, maxNodes))
    requires w.names.Keys == (set v | v in w.list)
    requires g.root == root && g.edges == w.edges && g.truncated == w.truncated && |g.nodes| == |w.list|
    requires forall i :: 0 <= i < |w.list| ==> g.nodes[i] == Node(w.list[i], w.names[w.list[i]])
    ensures IsBuild(callees, root, depth, maxNodes, g)
  {
    var kept := Kept(callees, root, depth, maxNodes);
    Finished(callees, root, depth, maxNodes, us, w.list);
    EdgesFacts(callees, us, kept);
    hide Order, Expand, AddNew, Kept, Expanded, Edges, FirstName, Sites, Calls, Listed;
    assert Edges(callees, us, kept) + [] == Edges(callees, us, kept);
    assert Sites(callees, us) + [] == Sites(callees, us);
    assert g.edges == Edges(callees, us, kept);
    if Elides(callees, us, kept, kept) {
      var u, v :| u in kept && Calls(callees, u, v) && !(u in us && v in kept);
      assert Edge(u, v) !in g.edges;
    }
  }

  lemma LeafElides(callees: Callees, us: seq<Address>, before: seq<Address>, current: Address, kept: seq<Address>)
    requires Children(callees, current) == []
    requires current !in before
    ensures Elides(callees, us, before + [current], kept) == Elides(callees, us, before, kept)
    ensures Elides(callees, us + [current], before + [current], kept) == Elides(callees, us, before, kept)
  {
    assert forall v :: !Calls(callees, current, v);
    if u, v :| u in before && Calls(callees, u, v) && !(u in us && v in kept) {
      assert u in before + [current];
    }
  }

  lemma FrontierElides(callees: Callees, us: seq<Address>, before: seq<Address>, current: Address, kept: seq<Address>)
    requires current !in before && forall u :: u in us ==> u in before
    ensures Elides(callees, us, before + [current], kept)
         == (Elides(callees, us, before, kept) || |Children(callees, current)| > 0)
  {
    if |Children(callees, current)| > 0 {
      assert Calls(callees, current, Children(callees, current)[0].target);
      assert current in before + [current];
    }
    if u, v :| u in before && Calls(callees, u, v) && !(u in us && v in kept) {
      assert u in before + [current];
    }
  }

  lemma FollowedElides(callees: Callees, us: seq<Address>, before: seq<Address>, current: Address, kept: seq<Address>)
    requires current !in before
    ensures Elides(callees, us + [current], before + [current], kept)
         == (Elides(callees, us, before, kept)
             || exists i :: 0 <= i < |Children(callees, current)| && Children(callees, current)[i].target !in kept)
  {
    if i :| 0 <= i < |Children(callees, current)| && Children(callees, current)[i].target !in kept {
      assert Calls(callees, current, Children(callees, current)[i].target);
      assert current in before + [current];
    }
    if u, v :| u in before && Calls(callees, u, v) && !(u in us && v in kept) {
      assert u in before + [current];
    }
    if u, v :| u in before + [current] && Calls(callees, u, v) && !(u in us + [current] && v in kept) {
      if u == current {
        assert v !in kept;
      }
    }
  }
}
