/** Router.shortestPath as written: a loop that, every round, rescans the
    neighbours of the start vertex, returns at once when the destination is
    among them, and otherwise appends the neighbour with the smallest score
    and makes it the new "last" vertex. The start vertex itself never
    changes, so the route is either the destination alone or, after the
    round limit, empty. */
module Router {
  import opened Wrappers
  import opened GraphStore

  /** max_count: the number of rounds before giving up. */
  const MaxCount: nat := 999999999

  /** The initial `shortest` of each round: no score at or above it is taken. */
  const Unreached: real := 99999999.0

  /** The score of a neighbour: its distance to the destination plus its
      distance to the last vertex added. */
  function Score(dist: (int, int) -> real, v: int, destination: int, last: int): real {
    dist(v, destination) + dist(v, last)
  }

  /** The node a full scan of `ns` settles on and its score: the first
      neighbour with the strictly smallest score below `Unreached`, or 0 when
      there is none. */
  function Pick(ns: seq<int>, destination: int, last: int, dist: (int, int) -> real): (r: (int, real))
  {
    if ns == [] then (0, Unreached)
    else
      var (node, best) := Pick(ns[..|ns| - 1], destination, last, dist);
      var v := ns[|ns| - 1];
      var s := Score(dist, v, destination, last);
      if s < best then (v, s) else (node, best)
  }

  /** Index `i` holds the first strict minimum of the scores, and that
      minimum is below `Unreached`. */
  predicate FirstBest(ns: seq<int>, destination: int, last: int, dist: (int, int) -> real, i: int) {
    && 0 <= i < |ns|
    && Score(dist, ns[i], destination, last) < Unreached
    && (forall j :: 0 <= j < |ns| ==> Score(dist, ns[i], destination, last) <= Score(dist, ns[j], destination, last))
    && (forall j :: 0 <= j < i ==> Score(dist, ns[i], destination, last) < Score(dist, ns[j], destination, last))
  }

  /** The scan picks the first neighbour of least score below `Unreached`,
      and 0 when every score reaches `Unreached`. */
  lemma {:induction false} PickIsFirstBest(ns: seq<int>, destination: int, last: int, dist: (int, int) -> real)
    ensures var (node, best) := Pick(ns, destination, last, dist);
      || (best == Unreached && node == 0 &&
          forall j :: 0 <= j < |ns| ==> Score(dist, ns[j], destination, last) >= Unreached)
      || (exists i :: FirstBest(ns, destination, last, dist, i) && node == ns[i] &&
                      best == Score(dist, ns[i], destination, last))
  {
    if ns != [] {
      var k := |ns| - 1;
      var p := ns[..k];
      PickIsFirstBest(p, destination, last, dist);
      var (node, best) := Pick(p, destination, last, dist);
      var v := ns[k];
      var s := Score(dist, v, destination, last);
      assert forall j :: 0 <= j < k ==> ns[j] == p[j];
      if s < best {
        assert FirstBest(ns, destination, last, dist, k);
      } else if best == Unreached && node == 0 {
      } else {
        var i :| FirstBest(p, destination, last, dist, i) && node == p[i] &&
                 best == Score(dist, p[i], destination, last);
        assert FirstBest(ns, destination, last, dist, i);
      }
    }
  }

  /** The node picked is a neighbour, or 0. */
  lemma {:induction false} PickIsNeighbor(ns: seq<int>, destination: int, last: int, dist: (int, int) -> real)
    ensures Pick(ns, destination, last, dist).0 in ns || Pick(ns, destination, last, dist).0 == 0
  {
    if ns != [] {
      PickIsNeighbor(ns[..|ns| - 1], destination, last, dist);
    }
  }

  /** The outcome of one scan of the neighbours. */
  datatype Scan =
    | Reached        // the destination is a neighbour: the route ends
    | Passed(node: int)  // no neighbour is the destination: `node` is added
    | Fault          // a distance to an id that is not a vertex throws

  /** Some neighbour scanned before the destination is reached needs a
      distance involving an id that is not a vertex. */
  predicate FaultBefore(ns: seq<int>, destination: int, last: int, vertices: set<int>) {
    exists i :: 0 <= i < |ns| && destination !in ns[..i] &&
      (ns[i] !in vertices || destination !in vertices || last !in vertices)
  }

  /** The inner for loop of shortestPath: score each neighbour in order,
      keeping the first strict minimum, and stop at the destination. */
  method ScanNeighbors(ns: seq<int>, destination: int, last: int, vertices: set<int>, dist: (int, int) -> real)
    returns (outcome: Scan)
    ensures outcome.Fault? <==> FaultBefore(ns, destination, last, vertices)
    ensures outcome.Reached? <==> destination in ns && !FaultBefore(ns, destination, last, vertices)
    ensures outcome.Passed? ==> outcome.node == Pick(ns, destination, last, dist).0
  {
    var shortestNode := 0;
    var shortest := Unreached;
    var k := 0;
    while k < |ns|
      invariant k <= |ns|
      invariant destination !in ns[..k]
      invariant forall i :: 0 <= i < k ==> ns[i] in vertices && destination in vertices && last in vertices
      invariant (shortestNode, shortest) == Pick(ns[..k], destination, last, dist)
    {
      var neighbor := ns[k];
      if neighbor !in vertices || destination !in vertices || last !in vertices {
        return Fault;
      }
      var s := Score(dist, neighbor, destination, last);
      assert ns[..k + 1][..k] == ns[..k];
      if s < shortest {
        shortest := s;
        shortestNode := neighbor;
      }
      if neighbor == destination {
        return Reached;
      }
      assert ns[..k + 1] == ns[..k] + [neighbor];
      k := k + 1;
    }
    assert ns[..k] == ns;
    return Passed(shortestNode);
  }

  /** The "last" vertex after `k` rounds that each pass without reaching
      the destination. */
  function LastAt(ns: seq<int>, destination: int, start: int, dist: (int, int) -> real, k: nat): int {
    if k == 0 then start else Pick(ns, destination, LastAt(ns, destination, start, dist, k - 1), dist).0
  }

  /** After the first round every "last" vertex is a neighbour of the start
      or 0. */
  lemma {:induction false} LastAtIsNeighbor(ns: seq<int>, destination: int, start: int, dist: (int, int) -> real, k: nat)
    requires k > 0
    ensures LastAt(ns, destination, start, dist, k) in ns || LastAt(ns, destination, start, dist, k) == 0
  {
    PickIsNeighbor(ns, destination, LastAt(ns, destination, start, dist, k - 1), dist);
  }

  /** Every round passes without a fault: the destination and the
      neighbours are vertices and so is every "last" vertex. */
  predicate AllRoundsPass(ns: seq<int>, destination: int, start: int, vertices: set<int>, dist: (int, int) -> real) {
    && destination in vertices
    && (forall v :: v in ns ==> v in vertices)
    && forall k :: 0 <= k < MaxCount ==> LastAt(ns, destination, start, dist, k) in vertices
  }

  /** A round that passes without a fault has checked every neighbour, the
      destination and the "last" vertex against the vertex set. */
  lemma {:induction false} PassedAllVertices(ns: seq<int>, destination: int, last: int, vertices: set<int>)
    requires destination !in ns
    requires !FaultBefore(ns, destination, last, vertices)
    ensures ns != [] ==> destination in vertices && last in vertices
    ensures forall v :: v in ns ==> v in vertices
  {
    forall i | 0 <= i < |ns|
      ensures ns[i] in vertices && destination in vertices && last in vertices
    {
      assert destination !in ns[..i];
    }
    if ns != [] {
      assert ns[0] in vertices;
    }
  }

  /** A fault in round `count`, when the destination is not a neighbour,
      means that not every round passes. */
  lemma {:induction false} FaultBreaksRounds(ns: seq<int>, destination: int, start: int, vertices: set<int>,
                                             dist: (int, int) -> real, count: nat)
    requires count < MaxCount
    requires destination !in ns
    requires FaultBefore(ns, destination, LastAt(ns, destination, start, dist, count), vertices)
    ensures !AllRoundsPass(ns, destination, start, vertices, dist)
  {
    var last := LastAt(ns, destination, start, dist, count);
    var i :| 0 <= i < |ns| && destination !in ns[..i] &&
      (ns[i] !in vertices || destination !in vertices || last !in vertices);
    if ns[i] !in vertices {
      var v := ns[i];
      assert v in ns && v !in vertices;
    }
  }

  /** Router.shortestPath from vertex `start` to vertex `destination` (the
      vertices closest to the two query points). `None` stands for an
      exception escaping: an unknown start, or a distance to an id that is
      not a vertex. */
  method ShortestPath(g: GraphDB, start: int, destination: int, dist: (int, int) -> real)
    returns (route: Option<seq<int>>)
    requires g.NodesValid()
    ensures start !in g.nodes ==> route.None?
    ensures route.Some? ==> route.value == [] || route.value == [destination]
    ensures start in g.nodes ==>
      var ns := g.Lists()[start];
      && (route == Some([destination]) <==> destination in ns && !FaultBefore(ns, destination, start, g.nodes.Keys))
      && (destination in ns ==> route != Some([]))
      && (destination !in ns ==>
            (route == Some([]) <==> ns == [] || AllRoundsPass(ns, destination, start, g.nodes.Keys, dist)))
  {
    ghost var vertices := g.nodes.Keys;
    ghost var ns: seq<int> := if start in g.nodes then g.Lists()[start] else [];
    var last := start;
    var path: seq<int> := [];
    var count := 0;
    while count < MaxCount
      invariant count <= MaxCount
      invariant |path| == count
      invariant count > 0 ==> start in vertices && destination !in ns
      invariant count > 0 ==> ns == [] || (destination in vertices && forall v :: v in ns ==> v in vertices)
      invariant last == LastAt(ns, destination, start, dist, count)
      invariant forall k :: 0 <= k < count ==> ns == [] || LastAt(ns, destination, start, dist, k) in vertices
    {
      var neighbors := g.Adjacent(start);
      if neighbors.None? {
        return None;
      }
      assert neighbors.value == ns;
      var outcome := ScanNeighbors(neighbors.value, destination, last, g.nodes.Keys, dist);
      match outcome
      case Fault =>
        if destination !in ns {
          FaultBreaksRounds(ns, destination, start, vertices, dist, count);
        }
        return None;
      case Reached =>
        path := path + [destination];
        return Some(path);
      case Passed(node) =>
        PassedAllVertices(ns, destination, last, vertices);
        assert LastAt(ns, destination, start, dist, count + 1) == node;
        assert ns == [] || last in vertices;
        path := path + [node];
        last := node;
        count := count + 1;
    }
    return Some([]);
  }
}
