/** The element graph and reachability along its edges. */
module Graphs {
  import opened Options

  type Name = string

  datatype SpecialKind =
    | NoSpecial | TorIn | TorOut | NicIn | NicOut | HostIn | HostOut | Drop | Idle | Begin | End

  datatype Kernel = Kernel(name: Name, special: SpecialKind, inPorts: int, outPorts: int, hostControl: bool)

  datatype Edge = Edge(src: Name, srcPort: int, dst: Name, dstPort: int, lossy: bool, depth: int)

  datatype Graph = Graph(kernels: seq<Kernel>, edges: seq<Edge>)

  /** The first kernel of that name. */
  function Find(ks: seq<Kernel>, name: Name): (k: Option<Kernel>)
    ensures k.Some? ==> k.value in ks && k.value.name == name
    ensures k.None? ==> forall j :: 0 <= j < |ks| ==> ks[j].name != name
  {
    if ks == [] then None
    else if ks[0].name == name then Some(ks[0])
    else Find(ks[1..], name)
  }

  /** The kernel a name stands for is the first one that bears it. */
  lemma {:induction false} FindIsFirst(ks: seq<Kernel>, i: nat)
    requires i < |ks| && forall j :: 0 <= j < i ==> ks[j].name != ks[i].name
    ensures Find(ks, ks[i].name) == Some(ks[i])
  {
    if i > 0 {
      FindIsFirst(ks[1..], i - 1);
    }
  }

  /** The targets of the edges leaving v, in the order of the edges. */
  function Successors(es: seq<Edge>, v: Name): seq<Name> {
    if es == [] then []
    else
      var rest := Successors(es[..|es| - 1], v);
      var e := es[|es| - 1];
      if e.src == v then rest + [e.dst] else rest
  }

  lemma {:induction false} SuccessorsAreTargets(es: seq<Edge>, v: Name, w: Name)
    ensures w in Successors(es, v) <==> exists i :: 0 <= i < |es| && es[i].src == v && es[i].dst == w
  {
    if es != [] {
      var rest := es[..|es| - 1];
      SuccessorsAreTargets(rest, v, w);
      if w in Successors(rest, v) {
        var i :| 0 <= i < |rest| && rest[i].src == v && rest[i].dst == w;
        assert es[i] == rest[i];
      }
      if exists i :: 0 <= i < |es| && es[i].src == v && es[i].dst == w {
        var i :| 0 <= i < |es| && es[i].src == v && es[i].dst == w;
        if i < |rest| {
          assert rest[i] == es[i];
        }
      }
    }
  }

  ghost predicate Step(g: Graph, x: Name, y: Name) {
    y in Successors(g.edges, x)
  }

  ghost predicate IsPath(g: Graph, p: seq<Name>) {
    p != [] && forall i :: 0 <= i < |p| - 1 ==> Step(g, p[i], p[i + 1])
  }

  ghost predicate PathFromTo(g: Graph, p: seq<Name>, x: Name, y: Name) {
    IsPath(g, p) && p[0] == x && p[|p| - 1] == y
  }

  /** y can be reached from x along edges; every vertex reaches itself. */
  ghost predicate Reach(g: Graph, x: Name, y: Name) {
    exists p :: PathFromTo(g, p, x, y)
  }

  lemma ReachRefl(g: Graph, x: Name)
    ensures Reach(g, x, x)
  {
    assert PathFromTo(g, [x], x, x);
  }

  lemma ReachStep(g: Graph, x: Name, y: Name)
    requires Step(g, x, y)
    ensures Reach(g, x, y)
  {
    assert PathFromTo(g, [x, y], x, y);
  }

  lemma ReachTrans(g: Graph, x: Name, y: Name, z: Name)
    requires Reach(g, x, y) && Reach(g, y, z)
    ensures Reach(g, x, z)
  {
    var p :| PathFromTo(g, p, x, y);
    var q :| PathFromTo(g, q, y, z);
    var r := p + q[1..];
    forall i | 0 <= i < |r| - 1
      ensures Step(g, r[i], r[i + 1])
    {
      if i < |p| - 1 {
        assert r[i] == p[i] && r[i + 1] == p[i + 1];
      } else {
        var j := i - (|p| - 1);
        assert r[i] == q[j] && r[i + 1] == q[j + 1];
      }
    }
    assert PathFromTo(g, r, x, z);
  }

  lemma ReachTransStep(g: Graph, x: Name, y: Name, z: Name)
    requires Reach(g, x, y) && Step(g, y, z)
    ensures Reach(g, x, z)
  {
    ReachStep(g, y, z);
    ReachTrans(g, x, y, z);
  }

  /** Two vertices on a common cycle, or equal. */
  ghost predicate Mutual(g: Graph, x: Name, y: Name) {
    Reach(g, x, y) && Reach(g, y, x)
  }

  ghost predicate NoDuplicates<T>(s: seq<T>) {
    forall i, j :: 0 <= i < j < |s| ==> s[i] != s[j]
  }

  /** c lists, once each, the vertices of one strongly connected component. */
  ghost predicate IsComponent(g: Graph, c: seq<Name>) {
    && c != []
    && NoDuplicates(c)
    && forall x, y :: x in c ==> (y in c <==> Mutual(g, x, y))
  }

  /** All names the graph mentions. */
  function Vertices(g: Graph): set<Name> {
    (set k | k in g.kernels :: k.name) + (set e | e in g.edges :: e.src) + (set e | e in g.edges :: e.dst)
  }

  lemma StepStaysInGraph(g: Graph, x: Name, y: Name)
    requires Step(g, x, y)
    ensures y in Vertices(g)
  {
    SuccessorsAreTargets(g.edges, x, y);
    var i :| 0 <= i < |g.edges| && g.edges[i].src == x && g.edges[i].dst == y;
    assert g.edges[i] in g.edges;
  }
}
