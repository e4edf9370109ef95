/** The graph store of GraphDB: vertices keyed by id, each holding a singly
    linked adjacency chain behind a head sentinel, plus the name index that
    maps cleaned location names to nodes. */
module GraphStore {
  import opened Wrappers
  import opened NameIndex

  /** The abstract adjacency relation: each vertex id with the ids its chain lists. */
  type AdjacencyMap = map<int, seq<int>>

  /** Adjacency is symmetric: whenever `w` is listed for `v`, `w` is a vertex
      and lists `v`. */
  ghost predicate Symmetric(m: AdjacencyMap) {
    forall v, w :: v in m && w in m[v] ==> w in m && v in m[w]
  }

  /** Every listed id refers to a vertex of the graph. */
  ghost predicate Closed(m: AdjacencyMap) {
    forall v, w :: v in m && w in m[v] ==> w in m
  }

  /** The adjacency after `adj(v, w)`: `w` appended to the list of `v`, then
      `v` appended to the list of `w` (for `v == w`, both to the same list). */
  function AdjLists(m: AdjacencyMap, v: int, w: int): (r: AdjacencyMap)
    requires v in m && w in m
    ensures r.Keys == m.Keys
    ensures v != w ==> r[v] == m[v] + [w] && r[w] == m[w] + [v]
    ensures v == w ==> r[v] == m[v] + [v, v]
    ensures forall k :: k in m && k != v && k != w ==> r[k] == m[k]
  {
    var m1 := m[v := m[v] + [w]];
    m1[w := m1[w] + [v]]
  }

  /** The adjacency after `clean()`: the vertices with an empty list are gone,
      the others keep their lists. */
  function PruneLists(m: AdjacencyMap): (r: AdjacencyMap)
    ensures forall k :: k in r <==> k in m && m[k] != []
    ensures forall k :: k in r ==> r[k] == m[k]
  {
    map k | k in m && m[k] != [] :: m[k]
  }

  /** A map that keeps exactly the non-empty lists of `m`, unchanged, is `m` pruned. */
  lemma {:induction false} PruneByKeys(m: AdjacencyMap, p: AdjacencyMap)
    requires forall k :: k in p <==> k in m && m[k] != []
    requires forall k :: k in p ==> p[k] == m[k]
    ensures p == PruneLists(m)
  {
    var q := PruneLists(m);
    forall k
      ensures k in p.Keys <==> k in q.Keys
    {
      assert k in p <==> k in m && m[k] != [];
      assert k in q <==> k in m && m[k] != [];
    }
    assert p.Keys == q.Keys;
    assert forall k :: k in p ==> p[k] == q[k];
  }

  /** `adj` keeps adjacency symmetric. */
  lemma {:induction false} AdjKeepsSymmetric(m: AdjacencyMap, v: int, w: int)
    requires v in m && w in m
    requires Symmetric(m)
    ensures Symmetric(AdjLists(m, v, w))
  {
    var r := AdjLists(m, v, w);
    forall a, b | a in r && b in r[a]
      ensures b in r && a in r[b]
    {
      if b in m[a] {
        assert a in m[b];
        assert m[b] <= r[b] by {
          assert r[b] == m[b] || r[b] == m[b] + [a] || r[b] == m[b] + [v] || r[b] == m[b] + [w] || r[b] == m[b] + [v, v];
        }
      }
    }
  }

  /** Adding a vertex with an empty list under a fresh id keeps symmetry. */
  lemma {:induction false} AddEmptyKeepsSymmetric(m: AdjacencyMap, k: int)
    requires Symmetric(m)
    requires k !in m
    ensures Symmetric(m[k := []])
  {
  }

  /** Since adjacency is symmetric, pruning never removes a vertex that a
      remaining vertex lists: after `clean()` every listed id is a vertex. */
  lemma {:induction false} PruneKeepsClosed(m: AdjacencyMap)
    requires Symmetric(m)
    ensures Symmetric(PruneLists(m))
    ensures Closed(PruneLists(m))
  {
    var p := PruneLists(m);
    forall v, w | v in p && w in p[v]
      ensures w in p && v in p[w]
    {
      assert w in m && v in m[w];
    }
  }

  /** Overwriting a vertex that others already list breaks symmetry, and
      `clean()` may then leave an id that refers to no vertex. */
  lemma {:induction false} OverwriteCanBreakClosure()
    ensures var m := map[1 := [2], 2 := [1]];
            Symmetric(m) && !Closed(PruneLists(m[1 := []]))
  {
    var m := map[1 := [2], 2 := [1]];
    var p := PruneLists(m[1 := []]);
    assert 2 in p && p[2] == [1] && 1 !in p;
  }

  /** A non-empty set has an element to pick. */
  lemma {:induction false} HasElement(s: set<int>)
    requires s != {}
    ensures exists k :: k in s
  {
    if forall k :: k !in s {
      assert false;
    }
  }

  /** The iteration of GraphDB.clean over the node map: every node whose
      head is its tail is dropped, and `removed` counts the drops. */
  method KeepNonEmpty(nodes: map<int, Node>) returns (kept: map<int, Node>, removed: nat)
    ensures kept.Keys == set k | k in nodes && !nodes[k].IsEmpty()
    ensures forall k :: k in kept ==> kept[k] == nodes[k]
    ensures removed == |nodes| - |kept|
  {
    kept := nodes;
    removed := 0;
    var todo := nodes.Keys;
    while todo != {}
      invariant todo <= kept.Keys <= nodes.Keys
      invariant forall k :: k in nodes && k !in kept ==> k !in todo && nodes[k].IsEmpty()
      invariant forall k :: k in kept && k !in todo ==> !nodes[k].IsEmpty()
      invariant forall k :: k in kept ==> kept[k] == nodes[k]
      invariant removed == |nodes.Keys| - |kept.Keys|
      decreases todo
    {
      HasElement(todo);
      var k :| k in todo;
      if kept[k].IsEmpty() {
        kept := kept - {k};
        removed := removed + 1;
      }
      todo := todo - {k};
    }
    assert forall k :: k in kept.Keys <==> k in nodes && !nodes[k].IsEmpty();
  }

  /** GraphDB.Node. The Vertix chain is kept as the sequence of the ids it
      holds: `chain[0]` is the head sentinel, `chain[tail]` the tail. */
  class Node {
    const id: int
    var latitude: real
    var longitude: real
    var name: Option<string>
    var chain: seq<int>
    var tail: nat

    /** The head holds the node's own id, and `tail` points at the last vertix. */
    ghost predicate Valid()
      reads this
    {
      |chain| == tail + 1 && chain[0] == id
    }

    /** The ids after the head sentinel, in insertion order. */
    function Neighbors(): (r: seq<int>)
      reads this
      requires Valid()
      ensures |r| == tail
    {
      chain[1..]
    }

    /** `head == tail`: no neighbour was ever inserted. */
    predicate IsEmpty()
      reads this
    {
      tail == 0
    }

    /** Node(i, lat, lon): a head vertix holding `i`, which is also the tail. */
    constructor (i: int, lat: real, lon: real)
      ensures Valid()
      ensures id == i && latitude == lat && longitude == lon && name == None
      ensures Neighbors() == [] && IsEmpty()
    {
      id := i;
      latitude := lat;
      longitude := lon;
      name := None;
      chain := [i];
      tail := 0;
    }

    /** Node.insert_adj: a new vertix holding `n` after the tail, which then
        becomes the tail. */
    method InsertAdj(n: int)
      requires Valid()
      modifies this
      ensures Valid()
      ensures Neighbors() == old(Neighbors()) + [n]
      ensures !IsEmpty()
      ensures latitude == old(latitude) && longitude == old(longitude) && name == old(name)
    {
      chain := chain + [n];
      tail := tail + 1;
    }

    /** Node.id(): the id held by the head sentinel, which is the node's own. */
    function Id(): (r: int)
      reads this
      requires Valid()
      ensures r == id
    {
      chain[0]
    }
  }

  /** A vertex record handed over by the map parser. */
  datatype VertexRecord = VertexRecord(id: int, lat: real, lon: real)

  /** The record each id is left with after `addnode` for every record in
      turn: the last one carrying that id. */
  function Located(vs: seq<VertexRecord>): (m: map<int, VertexRecord>)
    ensures forall k :: k in m ==> m[k].id == k
  {
    if vs == [] then map[]
    else
      var r := vs[|vs| - 1];
      Located(vs[..|vs| - 1])[r.id := r]
  }

  /** The ids the records carry. */
  function Ids(vs: seq<VertexRecord>): set<int> {
    set i | 0 <= i < |vs| :: vs[i].id
  }

  /** Every id of a record, and only those, is located. */
  lemma {:induction false} LocatedKeys(vs: seq<VertexRecord>)
    ensures Located(vs).Keys == Ids(vs)
  {
    if vs != [] {
      var p := vs[..|vs| - 1];
      LocatedKeys(p);
      forall k | k in Ids(vs)
        ensures k in Ids(p) + {vs[|vs| - 1].id}
      {
        var i :| 0 <= i < |vs| && vs[i].id == k;
        if i < |p| {
          assert p[i] == vs[i];
        }
      }
      assert Ids(vs) == Ids(p) + {vs[|vs| - 1].id};
    }
  }

  /** Each id is left with a record that carries it and that no later
      record with the same id follows. */
  lemma {:induction false} LocatedLast(vs: seq<VertexRecord>, k: int)
    requires k in Located(vs)
    ensures exists i :: 0 <= i < |vs| && vs[i] == Located(vs)[k] && forall j :: i < j < |vs| ==> vs[j].id != k
  {
    var p := vs[..|vs| - 1];
    if vs[|vs| - 1].id != k {
      LocatedLast(p, k);
      var i :| 0 <= i < |p| && p[i] == Located(p)[k] && forall j :: i < j < |p| ==> p[j].id != k;
      assert vs[i] == p[i];
      assert forall j :: i < j < |p| ==> vs[j] == p[j];
    }
  }

  /** The adjacency after the vertex records: every id with an empty list. */
  function Placed(vs: seq<VertexRecord>): (m: AdjacencyMap)
    ensures m.Keys == Located(vs).Keys
    ensures forall k :: k in m ==> m[k] == []
  {
    map k | k in Located(vs) :: []
  }

  /** The adjacency after `adj` for each edge in turn; an edge with an end
      that is not a vertex changes nothing. */
  function Linked(m: AdjacencyMap, es: seq<(int, int)>): (r: AdjacencyMap)
    ensures r.Keys == m.Keys
  {
    if es == [] then m
    else
      var p := Linked(m, es[..|es| - 1]);
      var e := es[|es| - 1];
      if e.0 in p && e.1 in p then AdjLists(p, e.0, e.1) else p
  }

  /** What the vertex records leave each node holding besides its chain:
      the coordinates of the last record with its id, and no name. */
  function Coordinates(vs: seq<VertexRecord>): (m: map<int, (real, real, Option<string>)>)
    ensures m.Keys == Located(vs).Keys
    ensures forall k :: k in m ==> m[k].2 == None
  {
    map k | k in Located(vs) :: (Located(vs)[k].lat, Located(vs)[k].lon, None)
  }

  /** The adjacency the constructor's parse leaves before `clean()`. */
  function Build(vs: seq<VertexRecord>, es: seq<(int, int)>): AdjacencyMap {
    Linked(Placed(vs), es)
  }

  /** Two maps over the same keys have the same size. */
  lemma {:induction false} SameKeysSameSize<X, Y>(a: map<int, X>, b: map<int, Y>)
    requires a.Keys == b.Keys
    ensures |a| == |b|
  {
    assert |a| == |a.Keys|;
    assert |b| == |b.Keys|;
  }

  /** One more vertex record overwrites the record of its id. */
  lemma {:induction false} LocatedSnoc(vs: seq<VertexRecord>, i: nat)
    requires i < |vs|
    ensures Located(vs[..i + 1]) == Located(vs[..i])[vs[i].id := vs[i]]
    ensures Placed(vs[..i + 1]) == Placed(vs[..i])[vs[i].id := []]
    ensures Coordinates(vs[..i + 1]) == Coordinates(vs[..i])[vs[i].id := (vs[i].lat, vs[i].lon, None)]
  {
    assert vs[..i + 1][..i] == vs[..i];
  }

  /** The maps `addnode` leaves after one more vertex record. */
  lemma {:induction false} PlaceStep(vs: seq<VertexRecord>, i: nat,
      lists: AdjacencyMap, places: map<int, (real, real, Option<string>)>,
      lists': AdjacencyMap, places': map<int, (real, real, Option<string>)>)
    requires i < |vs|
    requires lists == Placed(vs[..i]) && places == Coordinates(vs[..i])
    requires lists' == lists[vs[i].id := []] && places' == places[vs[i].id := (vs[i].lat, vs[i].lon, None)]
    ensures lists' == Placed(vs[..i + 1]) && places' == Coordinates(vs[..i + 1])
  {
    LocatedSnoc(vs, i);
  }

  /** One more edge is one more `adj` when both its ends are vertices. */
  lemma {:induction false} LinkedSnoc(m: AdjacencyMap, es: seq<(int, int)>, i: nat)
    requires i < |es|
    ensures var p := Linked(m, es[..i]);
      Linked(m, es[..i + 1]) == if es[i].0 in p && es[i].1 in p then AdjLists(p, es[i].0, es[i].1) else p
  {
    assert es[..i + 1][..i] == es[..i];
  }

  /** Adding edges one by one keeps adjacency symmetric. */
  lemma {:induction false} LinkedSymmetric(m: AdjacencyMap, es: seq<(int, int)>)
    requires Symmetric(m)
    ensures Symmetric(Linked(m, es))
  {
    if es != [] {
      var p := Linked(m, es[..|es| - 1]);
      var e := es[|es| - 1];
      LinkedSymmetric(m, es[..|es| - 1]);
      if e.0 in p && e.1 in p {
        AdjKeepsSymmetric(p, e.0, e.1);
      }
    }
  }

  /** The graph the constructor builds is symmetric, and after `clean()`
      every listed id is a vertex. */
  lemma {:induction false} BuildClosed(vs: seq<VertexRecord>, es: seq<(int, int)>)
    ensures Symmetric(PruneLists(Build(vs, es))) && Closed(PruneLists(Build(vs, es)))
  {
    LinkedSymmetric(Placed(vs), es);
    PruneKeepsClosed(Build(vs, es));
  }

  class GraphDB {
    var nodes: map<int, Node>
    var name2node: map<string, Node>
    const trie: Trie
    var nodeNumber: int

    /** Every node is stored under its own id and is well formed; so distinct
        keys hold distinct node objects. */
    ghost predicate NodesValid()
      reads this, nodes.Values
    {
      forall k | k in nodes :: nodes[k].id == k && nodes[k].Valid()
    }

    ghost predicate Valid()
      reads this, nodes.Values, trie
    {
      NodesValid() && trie.Valid()
    }

    /** What each node holds besides its chain. */
    ghost function Places(): (m: map<int, (real, real, Option<string>)>)
      reads this, nodes.Values
      ensures m.Keys == nodes.Keys
    {
      map k | k in nodes :: (nodes[k].latitude, nodes[k].longitude, nodes[k].name)
    }

    /** The adjacency relation the node chains hold. */
    ghost function Lists(): (m: AdjacencyMap)
      reads this, nodes.Values
      requires NodesValid()
      ensures m.Keys == nodes.Keys
    {
      map k | k in nodes :: nodes[k].Neighbors()
    }

    /** GraphDB(dbPath): the parser's vertex records become nodes, its edges
        `adj` calls, and `clean()` runs last. Afterwards the lists are those
        of `Build` without the empty ones, so adjacency is symmetric, every
        listed id is a vertex and no vertex has an empty list; each vertex
        keeps the coordinates of the last record with its id. */
    constructor (vertices: seq<VertexRecord>, edges: seq<(int, int)>)
      ensures Valid() && fresh(trie)
      ensures Lists() == PruneLists(Build(vertices, edges))
      ensures Symmetric(Lists()) && Closed(Lists())
      ensures forall k :: k in nodes ==> Lists()[k] != []
      ensures forall k :: k in nodes ==>
        && k in Located(vertices)
        && nodes[k].latitude == Located(vertices)[k].lat && nodes[k].longitude == Located(vertices)[k].lon
        && nodes[k].name == None
      ensures nodeNumber == |nodes| - |Located(vertices)|
      ensures name2node == map[] && trie.root == TrieNode(' ', false, [])
    {
      nodes := map[];
      name2node := map[];
      trie := new Trie();
      nodeNumber := 0;
      new;
      Populate(vertices, edges);
      Settle(vertices, edges);
    }

    /** The `clean()` that ends the constructor, applied to the parsed graph. */
    method Settle(vertices: seq<VertexRecord>, edges: seq<(int, int)>)
      requires Valid() && nodeNumber == 0
      requires Lists() == Build(vertices, edges) && Places() == Coordinates(vertices)
      modifies this
      ensures Valid() && name2node == old(name2node)
      ensures Lists() == PruneLists(Build(vertices, edges))
      ensures Symmetric(Lists()) && Closed(Lists())
      ensures forall k :: k in nodes ==> Lists()[k] != []
      ensures forall k :: k in nodes ==>
        && k in Located(vertices)
        && nodes[k].latitude == Located(vertices)[k].lat && nodes[k].longitude == Located(vertices)[k].lon
        && nodes[k].name == None
      ensures nodeNumber == |nodes| - |Located(vertices)|
    {
      ghost var loaded, before := nodes, Places();
      SameKeysSameSize(loaded, Located(vertices));
      Clean();
      assert nodeNumber == |nodes| - |loaded|;
      forall k | k in nodes
        ensures k in Located(vertices)
        ensures nodes[k].latitude == Located(vertices)[k].lat && nodes[k].longitude == Located(vertices)[k].lon
        ensures nodes[k].name == None
      {
        assert before[k] == (nodes[k].latitude, nodes[k].longitude, nodes[k].name);
      }
      BuildClosed(vertices, edges);
    }

    /** The parse: every vertex record, then every edge. */
    method Populate(vertices: seq<VertexRecord>, edges: seq<(int, int)>)
      requires Valid() && nodes == map[]
      modifies this
      ensures Valid()
      ensures name2node == old(name2node) && nodeNumber == old(nodeNumber)
      ensures Lists() == Build(vertices, edges)
      ensures Places() == Coordinates(vertices)
    {
      LoadVertices(vertices);
      LoadEdges(vertices, edges);
    }

    /** The first loop of the constructor: `addnode` of a fresh node for
        every vertex record in turn. */
    method LoadVertices(vertices: seq<VertexRecord>)
      requires Valid() && nodes == map[]
      modifies this
      ensures Valid()
      ensures name2node == old(name2node) && nodeNumber == old(nodeNumber)
      ensures forall k :: k in nodes ==> fresh(nodes[k])
      ensures Lists() == Placed(vertices)
      ensures Places() == Coordinates(vertices)
    {
      var i := 0;
      while i < |vertices|
        invariant i <= |vertices|
        invariant Valid()
        invariant name2node == old(name2node) && nodeNumber == old(nodeNumber)
        invariant forall k :: k in nodes ==> fresh(nodes[k])
        invariant Lists() == Placed(vertices[..i])
        invariant Places() == Coordinates(vertices[..i])
      {
        ghost var lists, places := Lists(), Places();
        var n := new Node(vertices[i].id, vertices[i].lat, vertices[i].lon);
        assert Lists() == lists && Places() == places;
        AddNode(n);
        PlaceStep(vertices, i, lists, places, Lists(), Places());
        i := i + 1;
      }
      assert vertices[..i] == vertices;
    }

    /** The second loop of the constructor: `adj` for every edge in turn. */
    method LoadEdges(vertices: seq<VertexRecord>, edges: seq<(int, int)>)
      requires Valid() && Lists() == Placed(vertices)
      modifies nodes.Values
      ensures Valid()
      ensures Lists() == Build(vertices, edges)
      ensures Places() == old(Places())
    {
      var i := 0;
      while i < |edges|
        invariant i <= |edges|
        invariant Valid()
        invariant Lists() == Linked(Placed(vertices), edges[..i])
        invariant Places() == old(Places())
      {
        var ok := Adj(edges[i].0, edges[i].1);
        LinkedSnoc(Placed(vertices), edges, i);
        i := i + 1;
      }
      assert edges[..i] == edges;
    }

    /** GraphDB.addnode: last write wins. */
    method AddNode(n: Node)
      requires Valid() && n.Valid()
      modifies this
      ensures Valid()
      ensures nodes == old(nodes)[n.id := n]
      ensures Lists() == old(Lists())[n.id := n.Neighbors()]
      ensures Places() == old(Places())[n.id := (n.latitude, n.longitude, n.name)]
      ensures name2node == old(name2node) && nodeNumber == old(nodeNumber)
    {
      nodes := nodes[n.id := n];
    }

    /** GraphDB.adj: `w` goes to the end of the chain of `v` and `v` to the
        end of the chain of `w`. With an id that is not a vertex the source
        throws (from `distance`) before changing anything; here `ok` is false
        and nothing changes. */
    method Adj(v: int, w: int) returns (ok: bool)
      requires Valid()
      modifies if v in nodes && w in nodes then {nodes[v], nodes[w]} else {}
      ensures Valid()
      ensures nodes == old(nodes) && name2node == old(name2node) && nodeNumber == old(nodeNumber)
      ensures unchanged(trie)
      ensures ok <==> v in nodes && w in nodes
      ensures Lists() == if ok then AdjLists(old(Lists()), v, w) else old(Lists())
      ensures Places() == old(Places())
    {
      if v !in nodes || w !in nodes {
        return false;
      }
      ghost var m0 := Lists();
      ghost var m1 := m0[v := m0[v] + [w]];
      ghost var p0 := Places();
      nodes[v].InsertAdj(w);
      assert NodesValid();
      assert Places() == p0;
      assert Lists() == m1 by {
        forall k | k in nodes
          ensures Lists()[k] == m1[k]
        {
          if k != v {
            assert nodes[k].id != v;
          }
        }
      }
      nodes[w].InsertAdj(v);
      assert NodesValid();
      assert Places() == p0;
      assert Lists() == m1[w := m1[w] + [v]] by {
        forall k | k in nodes
          ensures Lists()[k] == m1[w := m1[w] + [v]][k]
        {
          if k != w {
            assert nodes[k].id != w;
          }
        }
      }
      ok := true;
    }

    /** GraphDB.adjacent: walks the chain from the head, collecting the id of
        every vertix after it; an id that is not a vertex throws (None). */
    method Adjacent(v: int) returns (r: Option<seq<int>>)
      requires NodesValid()
      ensures r.None? <==> v !in nodes
      ensures r.Some? ==> r.value == Lists()[v]
    {
      if v !in nodes {
        return None;
      }
      var node := nodes[v];
      var result: seq<int> := [];
      var point := 0;
      while point + 1 < |node.chain|
        invariant 0 <= point < |node.chain|
        invariant result == node.chain[1..point + 1]
      {
        point := point + 1;
        result := result + [node.chain[point]];
      }
      return Some(result);
    }

    /** GraphDB.clean: removes, in iteration order, every node whose head is
        its tail, decrementing `node_number` once per removal. */
    method Clean()
      requires Valid()
      modifies this
      ensures Valid()
      ensures nodes.Keys == set k | k in old(nodes) && !old(nodes)[k].IsEmpty()
      ensures forall k :: k in nodes ==> nodes[k] == old(nodes)[k]
      ensures Lists() == PruneLists(old(Lists()))
      ensures nodeNumber == old(nodeNumber) - (|old(nodes)| - |nodes|)
      ensures name2node == old(name2node)
    {
      ghost var before := Lists();
      var kept, removed := KeepNonEmpty(nodes);
      nodes := kept;
      nodeNumber := nodeNumber - removed;
      ghost var after := Lists();
      forall k | k in before
        ensures k in after <==> before[k] != []
        ensures k in after ==> after[k] == before[k]
      {
        assert before[k] == old(nodes)[k].Neighbors();
      }
      PruneByKeys(before, after);
    }

    /** GraphDB.vertices: every vertex id exactly once. */
    method Vertices() returns (r: seq<int>)
      ensures forall k :: k in r <==> k in nodes
      ensures forall i, j :: 0 <= i < j < |r| ==> r[i] != r[j]
      ensures |r| == |nodes|
    {
      r := [];
      var todo := nodes.Keys;
      while todo != {}
        invariant todo <= nodes.Keys
        invariant forall k :: k in r <==> k in nodes && k !in todo
        invariant forall i, j :: 0 <= i < j < |r| ==> r[i] != r[j]
        invariant |r| + |todo| == |nodes.Keys|
        decreases todo
      {
        HasElement(todo);
        var k :| k in todo;
        r := r + [k];
        todo := todo - {k};
      }
    }

    /** GraphDB.lat: the stored latitude; an id that is not a vertex throws (None). */
    function Lat(v: int): (r: Option<real>)
      reads this, nodes.Values
      ensures r.Some? <==> v in nodes
      ensures r.Some? ==> r.value == nodes[v].latitude
    {
      if v in nodes then Some(nodes[v].latitude) else None
    }

    /** GraphDB.lon: the stored longitude; an id that is not a vertex throws (None). */
    function Lon(v: int): (r: Option<real>)
      reads this, nodes.Values
      ensures r.Some? <==> v in nodes
      ensures r.Some? ==> r.value == nodes[v].longitude
    {
      if v in nodes then Some(nodes[v].longitude) else None
    }

    /** GraphDB.addtn: the cleaned word joins the words of the trie. */
    method AddTn(word: string)
      requires Valid()
      modifies trie
      ensures Valid()
      ensures forall u :: Contains(trie.root, u) <==> old(Contains(trie.root, u)) || u == CleanString(word)
      ensures trie.root == if old(Contains(trie.root, CleanString(word))) then old(trie.root)
                           else InsertPath(old(trie.root), CleanString(word))
    {
      trie.Insert(CleanString(word));
    }

    /** GraphDB.addname2node: the node is filed under the cleaned name, last write wins. */
    method AddName2Node(name: string, n: Node)
      requires Valid()
      modifies this
      ensures Valid()
      ensures name2node == old(name2node)[CleanString(name) := n]
      ensures nodes == old(nodes) && nodeNumber == old(nodeNumber)
    {
      name2node := name2node[CleanString(name) := n];
    }

    /** GraphDB.findlocationbyprefix: the names of the nodes filed under the
        trie's completions of the cleaned prefix, in the trie's order; a
        completion with no node filed under it throws (None). */
    method FindLocationByPrefix(s: string) returns (r: Option<seq<Option<string>>>)
      requires Valid()
      ensures var words := Prefixed(trie.root, CleanString(s));
              && (r.Some? <==> forall i :: 0 <= i < |words| ==> words[i] in name2node)
              && (r.Some? ==> |r.value| == |words|)
              && (r.Some? ==> forall i :: 0 <= i < |words| ==>
                                words[i] in name2node && r.value[i] == name2node[words[i]].name)
    {
      var words := trie.FindByPrefix(CleanString(s));
      var result: seq<Option<string>> := [];
      var i := 0;
      while i < |words|
        invariant 0 <= i <= |words|
        invariant |result| == i
        invariant forall j :: 0 <= j < i ==> words[j] in name2node && result[j] == name2node[words[j]].name
      {
        if words[i] !in name2node {
          assert words == Prefixed(trie.root, CleanString(s));
          assert !(forall j :: 0 <= j < |words| ==> words[j] in name2node);
          return None;
        }
        result := result + [name2node[words[i]].name];
        i := i + 1;
      }
      return Some(result);
    }
  }
}
