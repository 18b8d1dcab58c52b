/** Cycle detection on the element graph: Tarjan's algorithm and the warnings drawn from it. */
module Cycles {
  import opened Options
  import opened Graphs
  import opened TarjanProof

  class Tarjan {
    const g: Graph
    var succ: map<Name, seq<Name>>
    var idx: map<Name, int>
    var low: map<Name, int>
    var onstack: map<Name, bool>
    var stk: seq<Name>
    var sccs: seq<seq<Name>>
    var counter: int

    ghost function Snap(): Env
      reads this`idx, this`stk, this`sccs, this`counter
    {
      Env(idx, stk, sccs, counter)
    }

    ghost predicate SuccBuilt(es: seq<Edge>)
      reads this`succ
    {
      forall x: Name :: (if x in succ then succ[x] else []) == Successors(es, x)
    }

    /** The maps agree with the stack. */
    ghost predicate MapsAgree()
      reads this`idx, this`low, this`onstack, this`stk
    {
      && idx.Keys <= Vertices(g) && idx.Keys <= low.Keys
      && (forall x :: x in idx ==> x in onstack && (onstack[x] <==> x in stk))
    }

    /** The maps agree with the stack, and the invariant of the algorithm holds. */
    ghost predicate Valid(gray: set<Name>)
      reads this
    {
      SuccBuilt(g.edges) && MapsAgree() && WF(g, Snap(), gray)
    }

    constructor (g: Graph)
      ensures this.g == g && Valid({}) && idx == map[] && sccs == [] && stk == []
    {
      this.g := g;
      succ, idx, low, onstack := map[], map[], map[], map[];
      stk, sccs, counter := [], [], 0;
      new;
      EmptyWF(g);
      hide Vertices, WF;
      for i := 0 to |g.edges|
        modifies this`succ
        invariant SuccBuilt(g.edges[..i])
      {
        var e := g.edges[i];
        assert g.edges[..i + 1][..i] == g.edges[..i];
        succ := succ[e.src := (if e.src in succ then succ[e.src] else []) + [e.dst]];
      }
      assert g.edges[..|g.edges|] == g.edges;
    }

    /** The successors of v; asking for a vertex without any records an empty list. */
    method Row(v: Name) returns (ws: seq<Name>)
      requires SuccBuilt(g.edges)
      modifies this`succ
      ensures SuccBuilt(g.edges) && ws == Successors(g.edges, v)
    {
      hide Successors;
      if v !in succ {
        succ := succ[v := []];
      }
      ws := succ[v];
    }

    /** Number v and push it. */
    method Enter(v: Name, ghost gray: set<Name>)
      requires Valid(gray) && v !in idx && v in Vertices(g) && GrayReach(g, gray, v)
      modifies this
      ensures Valid(gray + {v}) && idx.Keys == old(idx.Keys) + {v} && old(idx.Keys <= low.Keys) && low == old(low)[v := idx[v]]
      ensures Exploring(g, gray, v, old(Snap()), Snap(), low[v], 0)
    {
      hide WF, Exploring, Vertices, SuccBuilt;
      ghost var e := Snap();
      Push(g, e, gray, v);
      idx := idx[v := counter];
      low := low[v := counter];
      counter := counter + 1;
      stk := stk + [v];
      onstack := onstack[v := true];
      assert Snap() == Pushed(e, v);
      ExploringWF(g, gray, v, e, Snap(), low[v], 0);
    }

    /** All successors of v are done: emit its component if v reaches nothing lower on the stack. */
    method Leave(v: Name, ghost gray: set<Name>, ghost e: Env)
      requires Valid(gray + {v}) && v in idx && v in low && WF(g, e, gray)
      requires Exploring(g, gray, v, e, Snap(), low[v], |Successors(g.edges, v)|)
      modifies this
      ensures Valid(gray) && idx == old(idx) && low == old(low)
      ensures Explored(g, gray, v, e, Snap(), low[v])
    {
      hide WF, Exploring, Explored, Finished, MapsAgree, SuccBuilt, NoDuplicates;
      if low[v] == idx[v] {
        LeaveRoot(g, gray, v, e, Snap(), low[v]);
        PopComponent(v, |e.stk|);
      } else {
        LeaveStacked(g, gray, v, e, Snap(), low[v]);
      }
    }

    /** Explore everything reachable from the unvisited vertex v. */
    method Strong(v: Name, ghost gray: set<Name>)
      requires Valid(gray) && v !in idx && v in Vertices(g) && GrayReach(g, gray, v)
      modifies this
      ensures Valid(gray) && v in low && v in idx && old(idx.Keys) <= idx.Keys
      ensures Explored(g, gray, v, old(Snap()), Snap(), low[v])
      ensures forall x :: x in old(idx) ==> x in low && low[x] == old(low[x])
      decreases Vertices(g) - idx.Keys, 0
    {
      hide WF, Successors, Exploring, Explored, GrayReach, Vertices, MapsAgree, SuccBuilt;
      ghost var e := Snap();
      Enter(v, gray);
      var ws := Row(v);
      for i := 0 to |ws|
        invariant Valid(gray + {v}) && v in idx && v in low && ws == Successors(g.edges, v)
        invariant old(idx.Keys) <= idx.Keys
        invariant Exploring(g, gray, v, e, Snap(), low[v], i)
        invariant forall x :: x in e.idx ==> x in low && low[x] == old(low[x])
      {
        Visit(v, ws[i], gray, e, i);
      }
      Leave(v, gray, e);
    }

    /** The i-th successor w of v: explore it, or take its number if it is on the stack. */
    method Visit(v: Name, w: Name, ghost gray: set<Name>, ghost e: Env, ghost i: nat)
      requires Valid(gray + {v}) && v in low && v in idx && v !in e.idx && GrayReach(g, gray, v)
      requires i < |Successors(g.edges, v)| && w == Successors(g.edges, v)[i]
      requires Exploring(g, gray, v, e, Snap(), low[v], i)
      modifies this
      ensures Valid(gray + {v}) && v in low && v in idx && old(idx.Keys) <= idx.Keys
      ensures Exploring(g, gray, v, e, Snap(), low[v], i + 1)
      ensures forall x :: x in old(idx) && x != v ==> x in low && low[x] == old(low[x])
      decreases Vertices(g) - idx.Keys, 1
    {
      hide WF, Reach, Successors, Step, Exploring, Explored, Min, SuccBuilt, GrayReach, Vertices;
      ghost var e' := Snap();
      SuccessorFacts(g, gray, v, e, e', low[v], i);
      if w !in idx {
        GrayReachStep(g, gray, v, w);
        Strong(w, gray + {v});
        AfterCall(g, gray, v, w, e, e', Snap(), low[v], low[w], i);
        low := low[v := Min(low[v], low[w])];
      } else if onstack[w] {
        AfterStacked(g, gray, v, w, e, e', low[v], i);
        low := low[v := Min(low[v], idx[w])];
      } else {
        AfterFinished(g, gray, v, w, e, e', low[v], i);
      }
    }

    /** Pop the stack down to v, which is at position p, and record what was popped. */
    method PopComponent(v: Name, ghost p: nat)
      requires NoDuplicates(stk) && p < |stk| && stk[p] == v
      requires MapsAgree() && forall x :: x in stk ==> x in idx
      modifies this`stk, this`onstack, this`sccs
      ensures Snap() == Finished(old(Snap()), p) && MapsAgree()
    {
      hide SuccBuilt, Vertices;
      var comp := [];
      while true
        invariant sccs == old(sccs)
        invariant p < |stk| <= |old(stk)| && stk == old(stk)[..|stk|]
        invariant PoppedFrom(old(stk), |stk|) == comp
        invariant forall x :: x in idx ==> x in onstack && (onstack[x] <==> x in stk)
        decreases |stk|
      {
        var w := stk[|stk| - 1];
        PoppedOneMore(old(stk), |stk|);
        LastOnce(stk, w);
        assert stk[..|stk| - 1] == old(stk)[..|stk| - 1];
        stk := stk[..|stk| - 1];
        onstack := onstack[w := false];
        comp := comp + [w];
        if w == v { break; }
      }
      assert |stk| == p && comp == PoppedFrom(old(stk), p);
      sccs := sccs + [comp];
    }

    /** Start from every kernel that no earlier start has reached. */
    method Run()
      requires Valid({}) && idx == map[] && sccs == [] && stk == []
      modifies this
      ensures ComponentsOf(g, sccs)
    {
      hide WF, Explored, Reach, Vertices, SuccBuilt, MapsAgree;
      for i := 0 to |g.kernels|
        invariant Valid({}) && stk == []
        invariant forall j :: 0 <= j < i ==> g.kernels[j].name in idx
        invariant forall x :: x in idx ==> FromKernel(g, x)
      {
        var v := g.kernels[i].name;
        if v !in idx {
          KernelInGraph(g, i);
          ghost var e := Snap();
          Strong(v, {});
          StartedFrom(g, i, e, Snap(), low[v]);
        }
      }
      AllDone(g, Snap());
    }
  }

  // ---- the warnings ----------------------------------------------------------

  /** A warning names the members of a cycle and points at the kernel of the first one, if there is one. */
  datatype Warning = Warning(at: Option<Kernel>, members: seq<Name>)

  predicate HostControlled(g: Graph, x: Name) {
    var k := Find(g.kernels, x);
    k.Some? && k.value.hostControl
  }

  predicate Tolerated(g: Graph, comp: seq<Name>) {
    exists i :: 0 <= i < |comp| && HostControlled(g, comp[i])
  }

  /** x shares a cycle with another vertex, and no vertex on a cycle with x is host-controlled. */
  ghost predicate AtRisk(g: Graph, x: Name) {
    && (exists y :: y != x && Mutual(g, x, y))
    && (forall y :: Mutual(g, x, y) ==> !HostControlled(g, y))
  }

  /** With distinct names: x shares a cycle with another vertex, and no host-controlled kernel is on a cycle with x. */
  lemma AtRiskByKernels(g: Graph, x: Name)
    requires forall i, j :: 0 <= i < j < |g.kernels| ==> g.kernels[i].name != g.kernels[j].name
    ensures AtRisk(g, x) <==>
      && (exists y :: y != x && Mutual(g, x, y))
      && (forall i :: 0 <= i < |g.kernels| && g.kernels[i].hostControl ==> !Mutual(g, x, g.kernels[i].name))
  {
    hide Mutual, Find;
    forall i | 0 <= i < |g.kernels|
      ensures Find(g.kernels, g.kernels[i].name) == Some(g.kernels[i])
    {
      FindIsFirst(g.kernels, i);
    }
  }

  predicate Reported(g: Graph, comp: seq<Name>) {
    |comp| >= 2 && !Tolerated(g, comp)
  }

  /** The components to report, in the order they were found. */
  function Reports(g: Graph, sccs: seq<seq<Name>>): seq<Warning> {
    if sccs == [] then []
    else
      var comp := sccs[|sccs| - 1];
      Reports(g, sccs[..|sccs| - 1]) +
      (if Reported(g, comp) then [Warning(Find(g.kernels, comp[0]), comp)] else [])
  }

  ghost predicate Warned(ws: seq<Warning>, x: Name) {
    exists k :: 0 <= k < |ws| && x in ws[k].members
  }

  /** The warnings are whole components, disjoint, and cover exactly the reachable vertices at risk. */
  ghost predicate WarnsExactly(g: Graph, ws: seq<Warning>) {
    && (forall k :: 0 <= k < |ws| ==> IsComponent(g, ws[k].members) && ws[k].at == Find(g.kernels, ws[k].members[0]))
    && (forall j, k, x :: 0 <= j < k < |ws| && x in ws[j].members ==> x !in ws[k].members)
    && (forall x :: Warned(ws, x) <==> FromKernel(g, x) && AtRisk(g, x))
  }

  lemma {:induction false} ReportsFrom(g: Graph, sccs: seq<seq<Name>>, k: nat) returns (j: nat)
    requires k < |Reports(g, sccs)|
    ensures j < |sccs| && Reported(g, sccs[j])
    ensures Reports(g, sccs)[k] == Warning(Find(g.kernels, sccs[j][0]), sccs[j])
    ensures k < |Reports(g, sccs[..j + 1])| && |Reports(g, sccs[..j])| == k
  {
    var rest := sccs[..|sccs| - 1];
    if k < |Reports(g, rest)| {
      j := ReportsFrom(g, rest, k);
      assert rest[j] == sccs[j] && rest[..j + 1] == sccs[..j + 1] && rest[..j] == sccs[..j];
    } else {
      j := |sccs| - 1;
      assert sccs[..j + 1] == sccs;
    }
  }

  lemma {:induction false} ReportsOf(g: Graph, sccs: seq<seq<Name>>, j: nat)
    requires j < |sccs| && Reported(g, sccs[j])
    ensures exists k :: 0 <= k < |Reports(g, sccs)| && Reports(g, sccs)[k].members == sccs[j]
  {
    var rest := sccs[..|sccs| - 1];
    if j < |rest| {
      ReportsOf(g, rest, j);
      var k :| 0 <= k < |Reports(g, rest)| && Reports(g, rest)[k].members == rest[j];
      assert Reports(g, sccs)[k] == Reports(g, rest)[k];
    } else {
      var k := |Reports(g, rest)|;
      assert Reports(g, sccs)[k].members == sccs[j];
    }
  }

  /** A component is reported exactly when its vertices are at risk. */
  lemma ReportedAtRisk(g: Graph, comp: seq<Name>, x: Name)
    requires IsComponent(g, comp) && x in comp
    ensures Reported(g, comp) <==> AtRisk(g, x)
  {
    hide Reach;
    if |comp| >= 2 {
      var y := if comp[0] == x then comp[1] else comp[0];
      assert y in comp && y != x;
      assert Mutual(g, x, y);
    }
    if y :| y != x && Mutual(g, x, y) {
      assert y in comp;
      assert |comp| >= 2;
    }
    if Tolerated(g, comp) {
      var i :| 0 <= i < |comp| && HostControlled(g, comp[i]);
      assert Mutual(g, x, comp[i]);
    } else {
      forall y | Mutual(g, x, y)
        ensures !HostControlled(g, y)
      {
        assert y in comp;
      }
    }
  }

  lemma ReportsAreExact(g: Graph, sccs: seq<seq<Name>>)
    requires ComponentsOf(g, sccs)
    ensures WarnsExactly(g, Reports(g, sccs))
  {
    var ws := Reports(g, sccs);
    hide Reach, Reported, AtRisk, Reports;
    forall k | 0 <= k < |ws|
      ensures IsComponent(g, ws[k].members) && ws[k].at == Find(g.kernels, ws[k].members[0])
    {
      var j := ReportsFrom(g, sccs, k);
    }
    forall k, l, x | 0 <= k < l < |ws| && x in ws[k].members
      ensures x !in ws[l].members
    {
      var i := ReportsFrom(g, sccs, k);
      var j := ReportsFrom(g, sccs, l);
      if j <= i {
        ReportsMonotone(g, sccs, i, j);
      }
    }
    forall x
      ensures Warned(ws, x) <==> FromKernel(g, x) && AtRisk(g, x)
    {
      WarnedExactly(g, sccs, x);
    }
  }

  lemma {:induction false} ReportsGrow(g: Graph, sccs: seq<seq<Name>>, i: nat)
    requires i <= |sccs|
    ensures |Reports(g, sccs[..i])| <= |Reports(g, sccs)|
    decreases |sccs|
  {
    if i < |sccs| {
      ReportsGrow(g, sccs[..|sccs| - 1], i);
      assert sccs[..|sccs| - 1][..i] == sccs[..i];
    } else {
      assert sccs[..i] == sccs;
    }
  }

  lemma ReportsMonotone(g: Graph, sccs: seq<seq<Name>>, i: nat, j: nat)
    requires j <= i <= |sccs|
    ensures |Reports(g, sccs[..j])| <= |Reports(g, sccs[..i])|
  {
    ReportsGrow(g, sccs[..i], j);
    assert sccs[..i][..j] == sccs[..j];
  }

  lemma WarnedExactly(g: Graph, sccs: seq<seq<Name>>, x: Name)
    requires ComponentsOf(g, sccs)
    ensures Warned(Reports(g, sccs), x) <==> FromKernel(g, x) && AtRisk(g, x)
  {
    var ws := Reports(g, sccs);
    hide Reach, Reported, AtRisk, Reports;
    if Warned(ws, x) {
      var k :| 0 <= k < |ws| && x in ws[k].members;
      var j := ReportsFrom(g, sccs, k);
      assert InSome(sccs, x);
      ReportedAtRisk(g, sccs[j], x);
    }
    if FromKernel(g, x) && AtRisk(g, x) {
      assert InSome(sccs, x);
      var j :| 0 <= j < |sccs| && x in sccs[j];
      ReportedAtRisk(g, sccs[j], x);
      ReportsOf(g, sccs, j);
    }
  }

  /** One warning per component of two or more kernels without a host-controlled member. */
  method AnalyzeCycles(g: Graph) returns (ok: bool, warnings: seq<Warning>)
    ensures ok && WarnsExactly(g, warnings)
  {
    var t := new Tarjan(g);
    t.Run();
    hide ComponentsOf;
    warnings := [];
    for c := 0 to |t.sccs|
      invariant warnings == Reports(g, t.sccs[..c])
    {
      var comp := t.sccs[c];
      assert t.sccs[..c + 1][..c] == t.sccs[..c];
      if |comp| < 2 { continue; }
      var tolerated := false;
      for i := 0 to |comp|
        invariant tolerated == exists j :: 0 <= j < i && HostControlled(g, comp[j])
      {
        var k := Find(g.kernels, comp[i]);
        if k.Some? && k.value.hostControl {
          tolerated := true;
          assert HostControlled(g, comp[i]);
          break;
        }
      }
      if tolerated { continue; }
      warnings := warnings + [Warning(Find(g.kernels, comp[0]), comp)];
    }
    assert t.sccs[..|t.sccs|] == t.sccs;
    ReportsAreExact(g, t.sccs);
    return true, warnings;
  }
}
