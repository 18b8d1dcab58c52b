/** The invariant of Tarjan's algorithm, on snapshots of its state, and how each step keeps it. */
module TarjanProof {
  import opened Graphs

  /** What the algorithm has recorded: discovery numbers, the vertex stack, the finished components. */
  datatype Env = Env(idx: map<Name, int>, stk: seq<Name>, sccs: seq<seq<Name>>, counter: int)

  ghost predicate InSome(sccs: seq<seq<Name>>, x: Name) {
    exists k :: 0 <= k < |sccs| && x in sccs[k]
  }

  /** Every visited vertex is on the stack, once, or else in exactly one finished component. */
  ghost predicate Placed(e: Env) {
    && NoDuplicates(e.stk)
    && (forall x :: x in e.idx <==> x in e.stk || InSome(e.sccs, x))
    && (forall x :: x in e.stk ==> !InSome(e.sccs, x))
    && (forall j, k, x :: 0 <= j < k < |e.sccs| && x in e.sccs[j] ==> x !in e.sccs[k])
  }

  /** Numbers are below the counter and grow along the stack. */
  ghost predicate Numbered(e: Env) {
    && (forall x :: x in e.idx ==> 0 <= e.idx[x] < e.counter)
    && 0 <= e.counter
    && (forall x :: x in e.stk ==> x in e.idx)
    && (forall i, j :: 0 <= i < j < |e.stk| ==> e.idx[e.stk[i]] < e.idx[e.stk[j]])
  }

  /** A visited vertex that is not being explored has only visited successors. */
  ghost predicate Closed(g: Graph, e: Env, gray: set<Name>) {
    forall x, y :: x in e.idx && x !in gray && Step(g, x, y) ==> y in e.idx
  }

  /** The stack reaches upwards. */
  ghost predicate Chained(g: Graph, e: Env) {
    forall i, j :: 0 <= i <= j < |e.stk| ==> Reach(g, e.stk[i], e.stk[j])
  }

  ghost predicate Anchor(g: Graph, e: Env, gray: set<Name>, i: int, j: int) {
    0 <= j <= i < |e.stk| && e.stk[j] in gray && Reach(g, e.stk[i], e.stk[j])
  }

  ghost predicate HasAnchor(g: Graph, e: Env, gray: set<Name>, i: int) {
    exists j :: Anchor(g, e, gray, i, j)
  }

  /** Every stack vertex reaches one being explored that lies no higher. */
  ghost predicate Anchored(g: Graph, e: Env, gray: set<Name>) {
    && (forall x :: x in gray ==> x in e.stk)
    && (forall i :: 0 <= i < |e.stk| ==> HasAnchor(g, e, gray, i))
  }

  ghost predicate Emitted(g: Graph, e: Env) {
    forall k :: 0 <= k < |e.sccs| ==> IsComponent(g, e.sccs[k])
  }

  /** The invariant between two steps, `gray` being the vertices whose exploration is under way. */
  ghost predicate WF(g: Graph, e: Env, gray: set<Name>) {
    && Placed(e)
    && Numbered(e)
    && Closed(g, e, gray)
    && Chained(g, e)
    && Anchored(g, e, gray)
    && Emitted(g, e)
  }

  /** What exploring from v may change: it adds vertices reachable from v, above the old stack. */
  ghost predicate Extends(g: Graph, v: Name, e: Env, e': Env) {
    && (forall x :: x in e.idx ==> x in e'.idx && e'.idx[x] == e.idx[x])
    && e.stk <= e'.stk
    && e.sccs <= e'.sccs
    && e.counter <= e'.counter
    && (forall x :: x in e'.idx && x !in e.idx ==> Reach(g, v, x) && e.counter <= e'.idx[x])
  }

  /** low is the number of a stack vertex that v reaches. */
  ghost predicate LowWitness(g: Graph, e: Env, v: Name, low: int) {
    exists y :: y in e.stk && y in e.idx && e.idx[y] == low && Reach(g, v, y)
  }

  /** No edge from the stack above position k into the old stack ends below low. */
  ghost predicate Crossing(g: Graph, e: Env, e': Env, k: int, low: int) {
    forall i, y :: 0 <= k <= i < |e'.stk| && y in e.stk && y in e'.idx && Step(g, e'.stk[i], y) ==> low <= e'.idx[y]
  }

  /** What one call of `strong` on v achieves. */
  ghost predicate Explored(g: Graph, gray: set<Name>, v: Name, e: Env, e': Env, low: int) {
    && WF(g, e', gray)
    && Extends(g, v, e, e')
    && v in e'.idx && e'.idx[v] == e.counter && low <= e.counter
    && (if v in e'.stk then LowWitness(g, e', v, low) else low == e.counter)
    && Crossing(g, e, e', |e.stk|, low)
  }

  /** The first i of ws are visited, and those on the old stack are not below low. */
  ghost predicate SeenUpTo(e: Env, e': Env, ws: seq<Name>, low: int, i: int) {
    && 0 <= i <= |ws|
    && (forall j :: 0 <= j < i ==> ws[j] in e'.idx && (ws[j] in e.stk ==> low <= e'.idx[ws[j]]))
  }

  /** The state of `strong` on v after i of its successors. */
  ghost predicate Exploring(g: Graph, gray: set<Name>, v: Name, e: Env, e': Env, low: int, i: int) {
    var ws := Successors(g.edges, v);
    && WF(g, e', gray + {v})
    && Extends(g, v, e, e')
    && v in e'.idx && e'.idx[v] == e.counter && low <= e.counter
    && |e.stk| < |e'.stk| && e'.stk[|e.stk|] == v
    && LowWitness(g, e', v, low)
    && Crossing(g, e, e', |e.stk| + 1, low)
    && SeenUpTo(e, e', ws, low, i)
  }

  /** All vertices being explored lead to v. */
  ghost predicate GrayReach(g: Graph, gray: set<Name>, v: Name) {
    forall x :: x in gray ==> Reach(g, x, v)
  }

  // ---- entering a vertex ------------------------------------------------------

  function Pushed(e: Env, v: Name): Env {
    Env(e.idx[v := e.counter], e.stk + [v], e.sccs, e.counter + 1)
  }

  lemma StackReaches(g: Graph, e: Env, gray: set<Name>, v: Name, i: int)
    requires Anchored(g, e, gray) && GrayReach(g, gray, v) && 0 <= i < |e.stk|
    ensures Reach(g, e.stk[i], v)
  {
    hide Reach;
    assert HasAnchor(g, e, gray, i);
    var j :| Anchor(g, e, gray, i, j);
    ReachTrans(g, e.stk[i], e.stk[j], v);
  }

  lemma PushPlaced(e: Env, v: Name)
    requires Placed(e) && v !in e.idx
    ensures Placed(Pushed(e, v))
  {
  }

  lemma PushAnchored(g: Graph, e: Env, gray: set<Name>, v: Name)
    requires Anchored(g, e, gray)
    ensures Anchored(g, Pushed(e, v), gray + {v})
  {
    hide Reach;
    var e', n := Pushed(e, v), |e.stk|;
    forall i | 0 <= i < |e'.stk|
      ensures HasAnchor(g, e', gray + {v}, i)
    {
      if i < n {
        assert HasAnchor(g, e, gray, i);
        var j :| Anchor(g, e, gray, i, j);
        assert Anchor(g, e', gray + {v}, i, j);
      } else {
        ReachRefl(g, v);
        assert Anchor(g, e', gray + {v}, n, n);
      }
    }
  }

  lemma Push(g: Graph, e: Env, gray: set<Name>, v: Name)
    requires WF(g, e, gray) && v !in e.idx && GrayReach(g, gray, v)
    ensures Exploring(g, gray, v, e, Pushed(e, v), e.counter, 0)
  {
    hide Reach;
    var e' := Pushed(e, v);
    PushPlaced(e, v);
    PushAnchored(g, e, gray, v);
    ReachRefl(g, v);
    forall i, j | 0 <= i <= j < |e'.stk|
      ensures Reach(g, e'.stk[i], e'.stk[j])
    {
      if i < |e.stk| == j {
        StackReaches(g, e, gray, v, i);
      }
    }
    assert e'.stk[|e.stk|] == v;
    assert LowWitness(g, e', v, e.counter);
  }

  function Min(x: int, y: int): int {
    if x <= y then x else y
  }

  // ---- one successor ---------------------------------------------------------------

  lemma ExtendsTrans(g: Graph, v: Name, w: Name, e: Env, e': Env, e'': Env)
    requires Extends(g, v, e, e') && Extends(g, w, e', e'') && Reach(g, v, w)
    ensures Extends(g, v, e, e'')
  {
    hide Reach;
    forall x | x in e''.idx && x !in e.idx
      ensures Reach(g, v, x) && e.counter <= e''.idx[x]
    {
      if x !in e'.idx {
        ReachTrans(g, v, w, x);
      }
    }
  }

  /** A successor that was explored just now: the smaller of the two lows is right for v. */
  lemma AfterCall(g: Graph, gray: set<Name>, v: Name, w: Name, e: Env, e': Env, e'': Env, low: int, loww: int, i: int)
    requires Exploring(g, gray, v, e, e', low, i) && i < |Successors(g.edges, v)| && w == Successors(g.edges, v)[i]
    requires w !in e'.idx && Explored(g, gray + {v}, w, e', e'', loww)
    ensures Exploring(g, gray, v, e, e'', Min(low, loww), i + 1)
  {
    var ws := Successors(g.edges, v);
    assert Step(g, v, w);
    StackVisited(g, gray + {v}, v, e, e');
    ExtendsBase(g, v, e, e');
    ExtendsBase(g, w, e', e'');
    hide Reach, WF, Crossing, LowWitness, Step, Successors, Extends, Min, SeenUpTo;
    ReachStep(g, v, w);
    SeenAfterCall(e, e', e'', ws, low, loww, i);
    ExtendsTrans(g, v, w, e, e', e'');
    LowAfterCall(g, v, w, e', e'', low, loww);
    CrossingAfterCall(g, e, e', e'', |e.stk| + 1, low, loww);
    MinBelow(low, loww);
  }

  lemma MinBelow(x: int, y: int)
    ensures Min(x, y) <= x && Min(x, y) <= y
  {
  }

  lemma StackVisited(g: Graph, gray: set<Name>, v: Name, e: Env, e': Env)
    requires WF(g, e', gray) && e.stk <= e'.stk
    ensures forall x :: x in e.stk ==> x in e'.stk && x in e'.idx
  {
  }

  lemma ExtendsBase(g: Graph, v: Name, e: Env, e': Env)
    requires Extends(g, v, e, e')
    ensures e.stk <= e'.stk && e.counter <= e'.counter
    ensures forall x :: x in e.idx ==> x in e'.idx && e'.idx[x] == e.idx[x]
  {
  }

  lemma SeenAfterCall(e: Env, e': Env, e'': Env, ws: seq<Name>, low: int, loww: int, i: int)
    requires SeenUpTo(e, e', ws, low, i) && i < |ws| && ws[i] !in e'.idx && ws[i] in e''.idx
    requires forall x :: x in e.stk ==> x in e'.idx
    requires forall x :: x in e'.idx ==> x in e''.idx && e''.idx[x] == e'.idx[x]
    ensures SeenUpTo(e, e'', ws, Min(low, loww), i + 1)
  {
  }

  lemma LowAfterCall(g: Graph, v: Name, w: Name, e': Env, e'': Env, low: int, loww: int)
    requires LowWitness(g, e', v, low) && Extends(g, w, e', e'') && Reach(g, v, w)
    requires e'.counter >= low
    requires if w in e''.stk then LowWitness(g, e'', w, loww) else loww == e'.counter
    ensures LowWitness(g, e'', v, Min(low, loww))
  {
    hide Reach;
    if low <= loww {
      var y :| y in e'.stk && y in e'.idx && e'.idx[y] == low && Reach(g, v, y);
      assert y in e''.stk && e''.idx[y] == low;
    } else {
      var y :| y in e''.stk && y in e''.idx && e''.idx[y] == loww && Reach(g, w, y);
      ReachTrans(g, v, w, y);
    }
  }

  lemma CrossingAfterCall(g: Graph, e: Env, e': Env, e'': Env, k: int, low: int, loww: int)
    requires Crossing(g, e, e', k, low) && Crossing(g, e', e'', |e'.stk|, loww)
    requires e.stk <= e'.stk <= e''.stk
    requires forall x :: x in e'.idx ==> x in e''.idx && e''.idx[x] == e'.idx[x]
    requires forall x :: x in e.stk ==> x in e'.idx
    ensures Crossing(g, e, e'', k, Min(low, loww))
  {
    forall i, y | 0 <= k <= i < |e''.stk| && y in e.stk && y in e''.idx && Step(g, e''.stk[i], y)
      ensures Min(low, loww) <= e''.idx[y]
    {
      if i < |e'.stk| {
        assert e'.stk[i] == e''.stk[i];
      } else {
        assert y in e'.stk;
      }
    }
  }

  /** A successor that is still on the stack. */
  lemma AfterStacked(g: Graph, gray: set<Name>, v: Name, w: Name, e: Env, e': Env, low: int, i: int)
    requires Exploring(g, gray, v, e, e', low, i) && i < |Successors(g.edges, v)| && w == Successors(g.edges, v)[i]
    requires w in e'.stk && w in e'.idx
    ensures Exploring(g, gray, v, e, e', Min(low, e'.idx[w]), i + 1)
  {
    assert Step(g, v, w);
    hide Reach, WF, Extends, Successors, Step, Crossing, SeenUpTo;
    ReachStep(g, v, w);
    var low' := Min(low, e'.idx[w]);
    MinBelow(low, e'.idx[w]);
    assert LowWitness(g, e', v, low');
    CrossingBelow(g, e, e', |e.stk| + 1, low, low');
    SeenStacked(e, e', Successors(g.edges, v), low, i);
  }

  lemma CrossingBelow(g: Graph, e: Env, e': Env, k: int, low: int, low': int)
    requires Crossing(g, e, e', k, low) && low' <= low
    ensures Crossing(g, e, e', k, low')
  {
  }

  lemma SeenStacked(e: Env, e': Env, ws: seq<Name>, low: int, i: int)
    requires SeenUpTo(e, e', ws, low, i) && i < |ws| && ws[i] in e'.idx
    ensures SeenUpTo(e, e', ws, Min(low, e'.idx[ws[i]]), i + 1)
  {
  }

  /** A successor whose component is already finished. */
  lemma AfterFinished(g: Graph, gray: set<Name>, v: Name, w: Name, e: Env, e': Env, low: int, i: int)
    requires Exploring(g, gray, v, e, e', low, i) && i < |Successors(g.edges, v)| && w == Successors(g.edges, v)[i]
    requires w !in e'.stk && w in e'.idx
    ensures Exploring(g, gray, v, e, e', low, i + 1)
  {
    assert forall x :: x in e.stk ==> x in e'.stk;
  }

  // ---- leaving a vertex -----------------------------------------------------------------

  lemma ClosedAfterAll(g: Graph, gray: set<Name>, v: Name, e: Env, e': Env, low: int)
    requires Exploring(g, gray, v, e, e', low, |Successors(g.edges, v)|)
    ensures Closed(g, e', gray)
  {
    forall x, y | x in e'.idx && x !in gray && Step(g, x, y)
      ensures y in e'.idx
    {
      if x == v {
        var j :| 0 <= j < |Successors(g.edges, v)| && Successors(g.edges, v)[j] == y;
      }
    }
  }

  /** When v reaches a lower stack vertex, v stays on the stack and is anchored through it. */
  lemma AnchorThroughLow(g: Graph, gray: set<Name>, v: Name, e: Env, e': Env, low: int)
    requires Anchored(g, e', gray + {v}) && Numbered(e') && NoDuplicates(e'.stk)
    requires |e.stk| < |e'.stk| && e'.stk[|e.stk|] == v && e.stk <= e'.stk
    requires forall x :: x in gray ==> x in e.stk
    requires v in e'.idx && LowWitness(g, e', v, low) && low < e'.idx[v]
    ensures Anchored(g, e', gray)
  {
    hide Reach;
    var p := |e.stk|;
    var y :| y in e'.stk && y in e'.idx && e'.idx[y] == low && Reach(g, v, y);
    var k :| 0 <= k < |e'.stk| && e'.stk[k] == y;
    assert k < p;
    assert HasAnchor(g, e', gray + {v}, k);
    var a :| Anchor(g, e', gray + {v}, k, a);
    assert e'.stk[a] in gray;
    ReachTrans(g, v, y, e'.stk[a]);
    forall i | 0 <= i < |e'.stk|
      ensures HasAnchor(g, e', gray, i)
    {
      assert HasAnchor(g, e', gray + {v}, i);
      var j :| Anchor(g, e', gray + {v}, i, j);
      if e'.stk[j] in gray {
        assert Anchor(g, e', gray, i, j);
      } else {
        ReachTrans(g, e'.stk[i], v, e'.stk[a]);
        assert Anchor(g, e', gray, i, a);
      }
    }
  }

  lemma CrossingWithV(g: Graph, gray: set<Name>, v: Name, e: Env, e': Env, low: int)
    requires Exploring(g, gray, v, e, e', low, |Successors(g.edges, v)|)
    ensures Crossing(g, e, e', |e.stk|, low)
  {
    forall i, y | 0 <= |e.stk| <= i < |e'.stk| && y in e.stk && y in e'.idx && Step(g, e'.stk[i], y)
      ensures low <= e'.idx[y]
    {
      if i == |e.stk| {
        var j :| 0 <= j < |Successors(g.edges, v)| && Successors(g.edges, v)[j] == y;
      }
    }
  }

  lemma LeaveStacked(g: Graph, gray: set<Name>, v: Name, e: Env, e': Env, low: int)
    requires WF(g, e, gray) && Exploring(g, gray, v, e, e', low, |Successors(g.edges, v)|) && low != e'.idx[v]
    ensures WF(g, e', gray) && Explored(g, gray, v, e, e', low)
  {
    hide Reach;
    ClosedAfterAll(g, gray, v, e, e', low);
    AnchorThroughLow(g, gray, v, e, e', low);
    CrossingWithV(g, gray, v, e, e', low);
  }

  // ---- finishing a component ----------------------------------------------------------------

  /** The vertices from position p of a stack up, top first: what popping down to p collects. */
  function PoppedFrom(s: seq<Name>, p: nat): (c: seq<Name>)
    requires p <= |s|
    decreases |s|
    ensures |c| == |s| - p
    ensures forall k :: 0 <= k < |c| ==> c[k] == s[|s| - 1 - k]
  {
    if |s| == p then [] else [s[|s| - 1]] + PoppedFrom(s[..|s| - 1], p)
  }

  lemma PoppedMembers(s: seq<Name>, p: nat, x: Name)
    requires p <= |s|
    ensures x in PoppedFrom(s, p) <==> x in s[p..]
  {
    var c := PoppedFrom(s, p);
    if x in c {
      var k :| 0 <= k < |c| && c[k] == x;
      assert s[p..][|s| - 1 - k - p] == x;
    }
    if x in s[p..] {
      var k :| 0 <= k < |s[p..]| && s[p..][k] == x;
      assert c[|s| - 1 - k - p] == x;
    }
  }

  lemma PoppedNoDuplicates(s: seq<Name>, p: nat)
    requires p <= |s| && NoDuplicates(s)
    ensures NoDuplicates(PoppedFrom(s, p))
  {
  }

  /** Every vertex above v on the stack lies on a cycle with v. */
  lemma AboveIsMutual(g: Graph, gray: set<Name>, e': Env, p: nat, i: nat)
    requires Chained(g, e') && Anchored(g, e', gray) && p <= i < |e'.stk|
    requires forall x :: x in gray ==> x in e'.stk[..p + 1]
    ensures Mutual(g, e'.stk[p], e'.stk[i])
  {
    hide Reach;
    assert HasAnchor(g, e', gray, i);
    var j :| Anchor(g, e', gray, i, j);
    var k :| 0 <= k <= p && e'.stk[k] == e'.stk[j];
    ReachTrans(g, e'.stk[i], e'.stk[j], e'.stk[p]);
  }

  /** Nothing on a cycle with v has escaped: a path from v that can return stays above v on the stack. */
  lemma {:induction false} StaysAbove(g: Graph, gray: set<Name>, v: Name, e: Env, e': Env, path: seq<Name>)
    requires Exploring(g, gray, v, e, e', e.counter, |Successors(g.edges, v)|) && Numbered(e)
    requires forall x :: x in gray ==> x in e.stk
    requires IsPath(g, path) && path[0] in e'.stk[|e.stk|..] && Reach(g, path[|path| - 1], v) && Reach(g, v, path[0])
    ensures path[|path| - 1] in e'.stk[|e.stk|..]
    decreases |path|
  {
    var p := |e.stk|;
    if |path| > 1 {
      var x, y, rest := path[0], path[1], path[1..];
      assert Step(g, x, y);
      PathTail(g, path);
      assert PathFromTo(g, rest, y, path[|path| - 1]);
      assert Reach(g, y, path[|path| - 1]);
      hide Reach;
      ReachTransStep(g, v, x, y);
      ReachTrans(g, y, path[|path| - 1], v);
      NextStaysAbove(g, gray, v, e, e', x, y);
      StaysAbove(g, gray, v, e, e', rest);
    }
  }

  lemma PathTail(g: Graph, path: seq<Name>)
    requires IsPath(g, path) && |path| > 1
    ensures IsPath(g, path[1..])
  {
    var rest := path[1..];
    forall i | 0 <= i < |rest| - 1
      ensures Step(g, rest[i], rest[i + 1])
    {
      assert rest[i] == path[i + 1] && rest[i + 1] == path[i + 2];
    }
  }

  lemma NotFinished(g: Graph, e': Env, v: Name, y: Name)
    requires Placed(e') && Emitted(g, e') && v in e'.stk && Mutual(g, v, y)
    ensures !InSome(e'.sccs, y)
  {
    hide Reach;
    if InSome(e'.sccs, y) {
      var k :| 0 <= k < |e'.sccs| && y in e'.sccs[k];
      assert false;
    }
  }

  lemma NotBelow(g: Graph, e: Env, e': Env, x: Name, y: Name)
    requires Numbered(e) && Crossing(g, e, e', |e.stk|, e.counter) && e.stk <= e'.stk
    requires forall x :: x in e.idx ==> x in e'.idx && e'.idx[x] == e.idx[x]
    requires x in e'.stk[|e.stk|..] && Step(g, x, y) && y in e'.stk
    ensures y in e'.stk[|e.stk|..]
  {
    var p := |e.stk|;
    var i :| 0 <= i < |e'.stk[p..]| && e'.stk[p..][i] == x;
    assert e'.stk[p + i] == x;
    var k :| 0 <= k < |e'.stk| && e'.stk[k] == y;
    if k >= p {
      assert e'.stk[p..][k - p] == y;
    }
  }

  lemma NextStaysAbove(g: Graph, gray: set<Name>, v: Name, e: Env, e': Env, x: Name, y: Name)
    requires Exploring(g, gray, v, e, e', e.counter, |Successors(g.edges, v)|) && Numbered(e)
    requires forall x :: x in gray ==> x in e.stk
    requires x in e'.stk[|e.stk|..] && Step(g, x, y) && Mutual(g, v, y)
    ensures y in e'.stk[|e.stk|..]
  {
    ClosedAfterAll(g, gray, v, e, e', e.counter);
    CrossingWithV(g, gray, v, e, e', e.counter);
    NotFinished(g, e', v, y);
    ExtendsBase(g, v, e, e');
    hide Reach, Crossing, Anchored, Chained, Emitted, Step, SeenUpTo, Extends;
    AboveIsNotGray(e, e', gray, x);
    assert y in e'.idx;
    NotBelow(g, e, e', x, y);
  }

  lemma AboveIsNotGray(e: Env, e': Env, gray: set<Name>, x: Name)
    requires e.stk <= e'.stk && NoDuplicates(e'.stk) && (forall x :: x in gray ==> x in e.stk)
    requires x in e'.stk[|e.stk|..]
    ensures x !in gray && x in e'.stk
  {
    var i :| 0 <= i < |e'.stk[|e.stk|..]| && e'.stk[|e.stk|..][i] == x;
    assert e'.stk[|e.stk| + i] == x;
  }

  lemma MutualTrans(g: Graph, x: Name, y: Name, z: Name)
    requires Mutual(g, x, y) && Mutual(g, y, z)
    ensures Mutual(g, x, z) && Mutual(g, z, x)
  {
    hide Reach;
    ReachTrans(g, x, y, z);
    ReachTrans(g, z, y, x);
  }

  lemma PoppedIsMutual(g: Graph, gray: set<Name>, v: Name, e: Env, e': Env, low: int, x: Name)
    requires Exploring(g, gray, v, e, e', low, |Successors(g.edges, v)|)
    requires (forall x :: x in gray ==> x in e.stk) && x in e'.stk[|e.stk|..]
    ensures Mutual(g, v, x)
  {
    hide Reach;
    var p := |e.stk|;
    var i :| 0 <= i < |e'.stk[p..]| && e'.stk[p..][i] == x;
    GrayIsLow(gray, v, e, e');
    AboveIsMutual(g, gray + {v}, e', p, p + i);
  }

  lemma GrayIsLow(gray: set<Name>, v: Name, e: Env, e': Env)
    requires (forall x :: x in gray ==> x in e.stk) && e.stk <= e'.stk && |e.stk| < |e'.stk| && e'.stk[|e.stk|] == v
    ensures forall x :: x in gray + {v} ==> x in e'.stk[..|e.stk| + 1]
  {
    assert e'.stk[..|e.stk| + 1] == e.stk + [v];
  }

  lemma MutualIsPopped(g: Graph, gray: set<Name>, v: Name, e: Env, e': Env, y: Name)
    requires Exploring(g, gray, v, e, e', e.counter, |Successors(g.edges, v)|) && Numbered(e)
    requires (forall x :: x in gray ==> x in e.stk) && Mutual(g, v, y)
    ensures y in e'.stk[|e.stk|..]
  {
    var path :| PathFromTo(g, path, v, y);
    ReachRefl(g, v);
    hide Reach;
    assert e'.stk[|e.stk|..][0] == v;
    StaysAbove(g, gray, v, e, e', path);
  }

  /** What is popped when v turns out to be the lowest vertex it reaches is a whole component. */
  lemma PoppedIsComponent(g: Graph, gray: set<Name>, v: Name, e: Env, e': Env)
    requires Exploring(g, gray, v, e, e', e.counter, |Successors(g.edges, v)|) && Numbered(e)
    requires forall x :: x in gray ==> x in e.stk
    ensures IsComponent(g, PoppedFrom(e'.stk, |e.stk|))
  {
    var p := |e.stk|;
    var c := PoppedFrom(e'.stk, p);
    PoppedNoDuplicates(e'.stk, p);
    forall x, y | x in c
      ensures y in c <==> Mutual(g, x, y)
    {
      PoppedMembers(e'.stk, p, x);
      PoppedMembers(e'.stk, p, y);
      PoppedIsMutual(g, gray, v, e, e', e.counter, x);
      hide Exploring, Mutual;
      MutualSym(g, v, x);
      if y in c {
        PoppedIsMutual(g, gray, v, e, e', e.counter, y);
        MutualTrans(g, x, v, y);
      }
      if Mutual(g, x, y) {
        MutualTrans(g, v, x, y);
        MutualIsPopped(g, gray, v, e, e', y);
      }
    }
  }

  lemma MutualSym(g: Graph, x: Name, y: Name)
    requires Mutual(g, x, y)
    ensures Mutual(g, y, x)
  {
  }

  function Finished(e: Env, p: nat): Env
    requires p <= |e.stk|
  {
    Env(e.idx, e.stk[..p], e.sccs + [PoppedFrom(e.stk, p)], e.counter)
  }

  lemma FinishedPlaced(e: Env, p: nat)
    requires Placed(e) && p <= |e.stk|
    ensures Placed(Finished(e, p))
  {
    var e' := Finished(e, p);
    var c := PoppedFrom(e.stk, p);
    forall x
      ensures x in c <==> x in e.stk[p..]
    {
      PoppedMembers(e.stk, p, x);
    }
    assert e.stk == e.stk[..p] + e.stk[p..];
    forall x
      ensures InSome(e'.sccs, x) <==> InSome(e.sccs, x) || x in c
    {
      InSomeAppend(e.sccs, c, x);
    }
    forall x | x in e.stk[..p]
      ensures x !in e.stk[p..]
    {
      SplitNoDuplicates(e.stk, p, x);
    }
    hide PoppedFrom;
    forall j, k, x | 0 <= j < k < |e'.sccs| && x in e'.sccs[j]
      ensures x !in e'.sccs[k]
    {
      assert e'.sccs[j] == e.sccs[j];
      assert InSome(e.sccs, x);
    }
  }

  lemma InSomeAppend(sccs: seq<seq<Name>>, c: seq<Name>, x: Name)
    ensures InSome(sccs + [c], x) <==> InSome(sccs, x) || x in c
  {
    if InSome(sccs, x) {
      var k :| 0 <= k < |sccs| && x in sccs[k];
      assert (sccs + [c])[k] == sccs[k];
    }
    if x in c {
      assert (sccs + [c])[|sccs|] == c;
    }
  }

  lemma SplitNoDuplicates(s: seq<Name>, p: nat, x: Name)
    requires NoDuplicates(s) && p <= |s| && x in s[..p]
    ensures x !in s[p..]
  {
  }

  lemma FinishedAnchored(g: Graph, gray: set<Name>, v: Name, e: Env, e': Env)
    requires Anchored(g, e', gray + {v}) && NoDuplicates(e'.stk)
    requires e.stk <= e'.stk && |e.stk| < |e'.stk| && e'.stk[|e.stk|] == v
    requires forall x :: x in gray ==> x in e.stk
    ensures Anchored(g, Finished(e', |e.stk|), gray)
  {
    hide Reach;
    var f := Finished(e', |e.stk|);
    forall i | 0 <= i < |f.stk|
      ensures HasAnchor(g, f, gray, i)
    {
      assert HasAnchor(g, e', gray + {v}, i);
      var j :| Anchor(g, e', gray + {v}, i, j);
      assert Anchor(g, f, gray, i, j);
    }
  }

  lemma FinishedRest(g: Graph, e': Env, p: nat)
    requires Numbered(e') && Chained(g, e') && Emitted(g, e') && p <= |e'.stk|
    requires IsComponent(g, PoppedFrom(e'.stk, p))
    ensures Numbered(Finished(e', p)) && Chained(g, Finished(e', p)) && Emitted(g, Finished(e', p))
  {
    hide PoppedFrom, Reach, IsComponent;
  }

  lemma FinishedWF(g: Graph, gray: set<Name>, v: Name, e: Env, e': Env)
    requires WF(g, e, gray) && Exploring(g, gray, v, e, e', e.counter, |Successors(g.edges, v)|)
    ensures WF(g, Finished(e', |e.stk|), gray)
  {
    PoppedIsComponent(g, gray, v, e, e');
    ClosedAfterAll(g, gray, v, e, e', e.counter);
    hide Numbered, Chained, Emitted, Placed, IsComponent, PoppedFrom, HasAnchor, SeenUpTo, Crossing;
    FinishedPlaced(e', |e.stk|);
    ExtendsBase(g, v, e, e');
    PlacedNoDuplicates(e');
    FinishedAnchored(g, gray, v, e, e');
    FinishedRest(g, e', |e.stk|);
  }

  lemma PlacedNoDuplicates(e: Env)
    requires Placed(e)
    ensures NoDuplicates(e.stk)
  {
  }

  lemma RootIsGone(v: Name, s: seq<Name>, p: nat)
    requires NoDuplicates(s) && p < |s| && s[p] == v
    ensures v !in s[..p]
  {
  }

  lemma ExtendsFinished(g: Graph, v: Name, e: Env, e': Env)
    requires Extends(g, v, e, e')
    ensures Extends(g, v, e, Finished(e', |e.stk|)) && Finished(e', |e.stk|).stk == e.stk
  {
    hide PoppedFrom, Reach;
    assert e'.stk[..|e.stk|] == e.stk;
    assert e.sccs <= e'.sccs + [PoppedFrom(e'.stk, |e.stk|)];
  }

  lemma LeaveRoot(g: Graph, gray: set<Name>, v: Name, e: Env, e': Env, low: int)
    requires WF(g, e, gray) && Exploring(g, gray, v, e, e', low, |Successors(g.edges, v)|)
    requires v in e'.idx && low == e'.idx[v]
    ensures |e.stk| < |e'.stk| && e'.stk[|e.stk|] == v && NoDuplicates(e'.stk)
    ensures forall x :: x in e'.stk ==> x in e'.idx
    ensures WF(g, Finished(e', |e.stk|), gray)
    ensures Explored(g, gray, v, e, Finished(e', |e.stk|), low)
  {
    FinishedWF(g, gray, v, e, e');
    PlacedNoDuplicates(e');
    RootIsGone(v, e'.stk, |e.stk|);
    ExtendsFinished(g, v, e, e');
    assert Crossing(g, e, Finished(e', |e.stk|), |e.stk|, low);
    assert forall x :: x in e'.stk ==> x in e'.idx;
    hide WF, PoppedFrom, SeenUpTo, Extends, Crossing, LowWitness;
  }

  lemma GrayReachStep(g: Graph, gray: set<Name>, v: Name, w: Name)
    requires GrayReach(g, gray, v) && Step(g, v, w)
    ensures GrayReach(g, gray + {v}, w)
  {
    hide Reach;
    ReachStep(g, v, w);
    forall x | x in gray
      ensures Reach(g, x, w)
    {
      ReachTransStep(g, x, v, w);
    }
  }

  lemma PoppedOneMore(s: seq<Name>, p: nat)
    requires 0 < p <= |s|
    ensures PoppedFrom(s, p - 1) == PoppedFrom(s, p) + [s[p - 1]]
  {
  }

  lemma LastOnce(s: seq<Name>, w: Name)
    requires s != [] && w == s[|s| - 1] && NoDuplicates(s)
    ensures forall x :: x in s[..|s| - 1] <==> x in s && x != w
  {
    assert s == s[..|s| - 1] + [w];
  }

  lemma SuccessorFacts(g: Graph, gray: set<Name>, v: Name, e: Env, e': Env, low: int, i: int)
    requires Exploring(g, gray, v, e, e', low, i) && i < |Successors(g.edges, v)|
    ensures var w := Successors(g.edges, v)[i];
            Step(g, v, w) && w in Vertices(g) && (w in e'.stk ==> w in e'.idx)
  {
    var w := Successors(g.edges, v)[i];
    assert Step(g, v, w);
    StepStaysInGraph(g, v, w);
  }

  lemma ExploringWF(g: Graph, gray: set<Name>, v: Name, e: Env, e': Env, low: int, i: int)
    requires Exploring(g, gray, v, e, e', low, i)
    ensures WF(g, e', gray + {v})
  {
  }

  // ---- the whole run --------------------------------------------------------------------------

  /** x can be reached from some kernel. */
  ghost predicate FromKernel(g: Graph, x: Name) {
    exists i :: 0 <= i < |g.kernels| && Reach(g, g.kernels[i].name, x)
  }

  /**
   * sccs is a partition of the vertices reachable from the kernels into the
   * strongly connected components of the graph.
   */
  ghost predicate ComponentsOf(g: Graph, sccs: seq<seq<Name>>) {
    && (forall k :: 0 <= k < |sccs| ==> IsComponent(g, sccs[k]))
    && (forall j, k, x :: 0 <= j < k < |sccs| && x in sccs[j] ==> x !in sccs[k])
    && (forall x :: InSome(sccs, x) <==> FromKernel(g, x))
  }

  lemma KernelInGraph(g: Graph, i: nat)
    requires i < |g.kernels|
    ensures g.kernels[i].name in Vertices(g)
  {
    assert g.kernels[i] in g.kernels;
  }

  lemma StartedFrom(g: Graph, i: nat, e: Env, e': Env, low: int)
    requires i < |g.kernels| && Explored(g, {}, g.kernels[i].name, e, e', low) && e.stk == []
    requires forall x :: x in e.idx ==> FromKernel(g, x)
    ensures e'.stk == [] && g.kernels[i].name in e'.idx
    ensures forall x :: x in e.idx ==> x in e'.idx
    ensures forall x :: x in e'.idx ==> FromKernel(g, x)
  {
    hide Reach;
    NothingLeft(g, e');
  }

  lemma NothingLeft(g: Graph, e: Env)
    requires Anchored(g, e, {})
    ensures e.stk == []
  {
    assert e.stk == [] || HasAnchor(g, e, {}, 0);
  }

  lemma {:induction false} ClosedPath(g: Graph, e: Env, path: seq<Name>)
    requires Closed(g, e, {}) && IsPath(g, path) && path[0] in e.idx
    ensures path[|path| - 1] in e.idx
    decreases |path|
  {
    if |path| > 1 {
      assert Step(g, path[0], path[1]);
      PathTail(g, path);
      ClosedPath(g, e, path[1..]);
    }
  }

  lemma AllVisited(g: Graph, e: Env, x: Name)
    requires Closed(g, e, {}) && FromKernel(g, x)
    requires forall j :: 0 <= j < |g.kernels| ==> g.kernels[j].name in e.idx
    ensures x in e.idx
  {
    var i :| 0 <= i < |g.kernels| && Reach(g, g.kernels[i].name, x);
    var path :| PathFromTo(g, path, g.kernels[i].name, x);
    ClosedPath(g, e, path);
  }

  lemma AllDone(g: Graph, e: Env)
    requires WF(g, e, {}) && e.stk == []
    requires forall j :: 0 <= j < |g.kernels| ==> g.kernels[j].name in e.idx
    requires forall x :: x in e.idx ==> FromKernel(g, x)
    ensures ComponentsOf(g, e.sccs)
  {
    forall x | FromKernel(g, x)
      ensures x in e.idx
    {
      AllVisited(g, e, x);
    }
    hide FromKernel, Closed, Chained, Anchored, IsComponent;
  }

  lemma EmptyWF(g: Graph)
    ensures WF(g, Env(map[], [], [], 0), {})
  {
  }
}
