/** From the element graph to the backend's build plan: every edge is given one kind of connection. */
module Lowering {
  import opened Graphs

  datatype Class = StreamClass | TorClass | NicClass | FromHost | ToHost | Discarded

  /** The kind of special kernel a name stands for, NoSpecial for a user kernel or an unknown name. */
  function KindOf(g: Graph, name: Name): SpecialKind {
    match Find(g.kernels, name)
    case Some(k) => k.special
    case None => NoSpecial
  }

  /** The source end decides first; only an end that decides nothing leaves the edge an ordinary stream. */
  function Classify(g: Graph, e: Edge): Class {
    match KindOf(g, e.src)
    case TorIn => TorClass
    case NicIn => NicClass
    case HostIn => FromHost
    case Idle => Discarded
    case _ =>
      match KindOf(g, e.dst)
      case TorOut => TorClass
      case NicOut => NicClass
      case HostOut => ToHost
      case Drop => Discarded
      case _ => StreamClass
  }

  datatype HostConn = HostConn(kernel: Name, port: int, toHost: bool, slot: int)

  const FIRST_SLOT: int := 32

  /** The edges of a class, in order. */
  function Select(g: Graph, es: seq<Edge>, c: Class): seq<Edge> {
    if es == [] then []
    else
      var rest := Select(g, es[..|es| - 1], c);
      var e := es[|es| - 1];
      if Classify(g, e) == c then rest + [e] else rest
  }

  /** The host connections, numbered in the order of the edges. */
  function Hosts(g: Graph, es: seq<Edge>): seq<HostConn> {
    if es == [] then []
    else
      var rest := Hosts(g, es[..|es| - 1]);
      var e := es[|es| - 1];
      match Classify(g, e)
      case FromHost => rest + [HostConn(e.dst, e.dstPort, false, FIRST_SLOT + |rest|)]
      case ToHost => rest + [HostConn(e.src, e.srcPort, true, FIRST_SLOT + |rest|)]
      case _ => rest
  }

  function UserKernels(ks: seq<Kernel>): seq<Kernel> {
    if ks == [] then []
    else
      var rest := UserKernels(ks[..|ks| - 1]);
      var k := ks[|ks| - 1];
      if k.special == NoSpecial then rest + [k] else rest
  }

  /** The names of the user kernels a host can signal. */
  function SignalTable(ks: seq<Kernel>): seq<Name> {
    if ks == [] then []
    else
      var rest := SignalTable(ks[..|ks| - 1]);
      var k := ks[|ks| - 1];
      if k.special == NoSpecial && k.hostControl then rest + [k.name] else rest
  }

  /** The build plan: the connections are edges, each with its width of 512 bits understood. */
  class Build {
    var kernels: seq<Kernel>
    var signals: seq<Name>
    var streams: seq<Edge>
    var tors: seq<Edge>
    var nics: seq<Edge>
    var hosts: seq<HostConn>

    constructor ()
      ensures kernels == [] && signals == [] && streams == [] && tors == [] && nics == [] && hosts == []
    {
      kernels, signals, streams, tors, nics, hosts := [], [], [], [], [], [];
    }
  }

  method LowerKernels(g: Graph, out: Build)
    modifies out`kernels, out`signals
    ensures out.kernels == old(out.kernels) + UserKernels(g.kernels)
    ensures out.signals == old(out.signals) + SignalTable(g.kernels)
  {
    for i := 0 to |g.kernels|
      invariant out.kernels == old(out.kernels) + UserKernels(g.kernels[..i])
      invariant out.signals == old(out.signals) + SignalTable(g.kernels[..i])
    {
      assert g.kernels[..i + 1][..i] == g.kernels[..i];
      var k := g.kernels[i];
      if k.special == NoSpecial {
        out.kernels := out.kernels + [k];
        if k.hostControl {
          out.signals := out.signals + [k.name];
        }
      }
    }
    assert g.kernels[..|g.kernels|] == g.kernels;
  }

  function OneIf(b: bool, e: Edge): seq<Edge> { if b then [e] else [] }

  /** What an edge adds to the host connections when the next free slot is given. */
  function HostOf(g: Graph, e: Edge, slot: int): seq<HostConn> {
    match Classify(g, e)
    case FromHost => [HostConn(e.dst, e.dstPort, false, slot)]
    case ToHost => [HostConn(e.src, e.srcPort, true, slot)]
    case _ => []
  }

  /** One turn of the loop over the edges: the two switches. */
  method LowerEdge(g: Graph, e: Edge, slot: int, out: Build) returns (next: int)
    modifies out`streams, out`tors, out`nics, out`hosts
    ensures out.streams == old(out.streams) + OneIf(Classify(g, e) == StreamClass, e)
    ensures out.tors == old(out.tors) + OneIf(Classify(g, e) == TorClass, e)
    ensures out.nics == old(out.nics) + OneIf(Classify(g, e) == NicClass, e)
    ensures out.hosts == old(out.hosts) + HostOf(g, e, slot) && next == slot + |HostOf(g, e, slot)|
  {
    hide Find;
    next := slot;
    var sk, dk := Find(g.kernels, e.src), Find(g.kernels, e.dst);
    var srcKind := if sk.Some? then sk.value.special else NoSpecial;
    var dstKind := if dk.Some? then dk.value.special else NoSpecial;
    match srcKind {
      case TorIn => out.tors := out.tors + [e]; return;
      case NicIn => out.nics := out.nics + [e]; return;
      case HostIn =>
        out.hosts := out.hosts + [HostConn(e.dst, e.dstPort, false, slot)];
        next := slot + 1;
        return;
      case Idle => return;
      case _ =>
    }
    match dstKind {
      case TorOut => out.tors := out.tors + [e]; return;
      case NicOut => out.nics := out.nics + [e]; return;
      case HostOut =>
        out.hosts := out.hosts + [HostConn(e.src, e.srcPort, true, slot)];
        next := slot + 1;
        return;
      case Drop => return;
      case _ =>
    }
    out.streams := out.streams + [e];
  }

  method LowerEdges(g: Graph, out: Build)
    modifies out`streams, out`tors, out`nics, out`hosts
    ensures out.streams == old(out.streams) + Select(g, g.edges, StreamClass)
    ensures out.tors == old(out.tors) + Select(g, g.edges, TorClass)
    ensures out.nics == old(out.nics) + Select(g, g.edges, NicClass)
    ensures out.hosts == old(out.hosts) + Hosts(g, g.edges)
  {
    hide Classify;
    var slot := FIRST_SLOT;
    for i := 0 to |g.edges|
      invariant out.streams == old(out.streams) + Select(g, g.edges[..i], StreamClass)
      invariant out.tors == old(out.tors) + Select(g, g.edges[..i], TorClass)
      invariant out.nics == old(out.nics) + Select(g, g.edges[..i], NicClass)
      invariant out.hosts == old(out.hosts) + Hosts(g, g.edges[..i])
      invariant slot == FIRST_SLOT + |Hosts(g, g.edges[..i])|
    {
      assert g.edges[..i + 1][..i] == g.edges[..i];
      slot := LowerEdge(g, g.edges[i], slot, out);
    }
    assert g.edges[..|g.edges|] == g.edges;
  }

  method LowerToBackend(g: Graph, out: Build)
    modifies out
    ensures out.kernels == old(out.kernels) + UserKernels(g.kernels)
    ensures out.signals == old(out.signals) + SignalTable(g.kernels)
    ensures out.streams == old(out.streams) + Select(g, g.edges, StreamClass)
    ensures out.tors == old(out.tors) + Select(g, g.edges, TorClass)
    ensures out.nics == old(out.nics) + Select(g, g.edges, NicClass)
    ensures out.hosts == old(out.hosts) + Hosts(g, g.edges)
  {
    LowerKernels(g, out);
    LowerEdges(g, out);
  }

  // ---- every edge in exactly one class ---------------------------------------------------------------

  lemma {:induction false} Selected(g: Graph, es: seq<Edge>, c: Class, e: Edge)
    ensures e in Select(g, es, c) <==> e in es && Classify(g, e) == c
  {
    hide Classify;
    if es != [] {
      var init := es[..|es| - 1];
      Selected(g, init, c, e);
      assert es == init + [es[|es| - 1]];
    }
  }

  /** The six classes partition the edges, repetitions included. */
  lemma {:induction false} ClassesPartition(g: Graph, es: seq<Edge>)
    ensures multiset(es)
         == multiset(Select(g, es, StreamClass)) + multiset(Select(g, es, TorClass)) + multiset(Select(g, es, NicClass))
          + multiset(Select(g, es, FromHost)) + multiset(Select(g, es, ToHost)) + multiset(Select(g, es, Discarded))
  {
    hide Classify;
    if es != [] {
      var init, e := es[..|es| - 1], es[|es| - 1];
      ClassesPartition(g, init);
      assert es == init + [e];
    }
  }

  /** One host slot for each edge of a host class, numbered without a gap from 32. */
  lemma {:induction false} SlotsConsecutive(g: Graph, es: seq<Edge>)
    ensures |Hosts(g, es)| == |Select(g, es, FromHost)| + |Select(g, es, ToHost)|
    ensures forall i :: 0 <= i < |Hosts(g, es)| ==> Hosts(g, es)[i].slot == FIRST_SLOT + i
  {
    hide Classify;
    if es != [] {
      SlotsConsecutive(g, es[..|es| - 1]);
    }
  }

  lemma {:induction false} HostConnOfEdge(g: Graph, es: seq<Edge>, h: HostConn)
    requires h in Hosts(g, es)
    ensures exists e :: e in es && if h.toHost then Classify(g, e) == ToHost && h.kernel == e.src && h.port == e.srcPort
                                   else Classify(g, e) == FromHost && h.kernel == e.dst && h.port == e.dstPort
  {
    hide Classify;
    var init, e := es[..|es| - 1], es[|es| - 1];
    if h in Hosts(g, init) {
      HostConnOfEdge(g, init, h);
      var f :| f in init && if h.toHost then Classify(g, f) == ToHost && h.kernel == f.src && h.port == f.srcPort
                            else Classify(g, f) == FromHost && h.kernel == f.dst && h.port == f.dstPort;
      assert f in es;
    } else {
      assert e in es;
    }
  }

  lemma {:induction false} HostEdgeKept(g: Graph, es: seq<Edge>, e: Edge)
    requires e in es
    ensures Classify(g, e) == ToHost ==> exists h :: h in Hosts(g, es) && h.toHost && h.kernel == e.src && h.port == e.srcPort
    ensures Classify(g, e) == FromHost ==> exists h :: h in Hosts(g, es) && !h.toHost && h.kernel == e.dst && h.port == e.dstPort
  {
    hide Classify;
    var init, last := es[..|es| - 1], es[|es| - 1];
    var hs := Hosts(g, es);
    if e == last {
      if Classify(g, e) == ToHost || Classify(g, e) == FromHost {
        assert hs[|hs| - 1] in hs;
      }
    } else {
      HostEdgeKept(g, init, e);
      assert forall h :: h in Hosts(g, init) ==> h in hs;
    }
  }

  // ---- what the lists hold, in terms of the kernels ------------------------------------------------------

  lemma KindIsFirst(g: Graph, i: nat)
    requires i < |g.kernels| && forall j :: 0 <= j < i ==> g.kernels[j].name != g.kernels[i].name
    ensures KindOf(g, g.kernels[i].name) == g.kernels[i].special
  {
    FindIsFirst(g.kernels, i);
  }

  /** The source end is of a kind that decides the edge. */
  predicate Decides(k: SpecialKind) { k == TorIn || k == NicIn || k == HostIn || k == Idle }

  /** The class of an edge by the kinds at its two ends. */
  lemma ClassByKinds(g: Graph, e: Edge)
    ensures var s, d := KindOf(g, e.src), KindOf(g, e.dst);
      && (Classify(g, e) == TorClass <==> s == TorIn || (!Decides(s) && d == TorOut))
      && (Classify(g, e) == NicClass <==> s == NicIn || (!Decides(s) && d == NicOut))
      && (Classify(g, e) == FromHost <==> s == HostIn)
      && (Classify(g, e) == ToHost <==> !Decides(s) && d == HostOut)
      && (Classify(g, e) == Discarded <==> s == Idle || (!Decides(s) && d == Drop))
      && (Classify(g, e) == StreamClass <==> !Decides(s) && d != TorOut && d != NicOut && d != HostOut && d != Drop)
  {
    hide KindOf;
  }

  /** Which edges the plan's lists hold, by the kinds of the kernels at their ends. */
  lemma ListsByKinds(g: Graph, e: Edge)
    ensures var s, d := KindOf(g, e.src), KindOf(g, e.dst);
      && (e in Select(g, g.edges, TorClass) <==> e in g.edges && (s == TorIn || (!Decides(s) && d == TorOut)))
      && (e in Select(g, g.edges, NicClass) <==> e in g.edges && (s == NicIn || (!Decides(s) && d == NicOut)))
      && (e in Select(g, g.edges, StreamClass) <==>
            e in g.edges && !Decides(s) && d != TorOut && d != NicOut && d != HostOut && d != Drop)
  {
    hide KindOf, Classify, Decides, Select;
    ClassByKinds(g, e);
    Selected(g, g.edges, TorClass, e);
    Selected(g, g.edges, NicClass, e);
    Selected(g, g.edges, StreamClass, e);
  }

  /** The lists keep the order of the edges: edge j stands behind those of its class among the edges before it. */
  lemma {:induction false} KeptInOrder(g: Graph, es: seq<Edge>, j: nat)
    requires j < |es|
    ensures var c := Classify(g, es[j]); var i := |Select(g, es[..j], c)|;
      i < |Select(g, es, c)| && Select(g, es, c)[i] == es[j]
    decreases |es|
  {
    hide Classify;
    var init := es[..|es| - 1];
    if j < |init| {
      KeptInOrder(g, init, j);
      assert init[..j] == es[..j];
    }
  }

  /** The host connection of edge j: its kernel's end, its direction, and the next slot after those of the edges before it. */
  lemma {:induction false} HostConnAt(g: Graph, es: seq<Edge>, j: nat)
    requires j < |es|
    ensures var e, i := es[j], |Hosts(g, es[..j])|;
      && (KindOf(g, e.src) == HostIn ==> i < |Hosts(g, es)| && Hosts(g, es)[i] == HostConn(e.dst, e.dstPort, false, 32 + i))
      && (!Decides(KindOf(g, e.src)) && KindOf(g, e.dst) == HostOut ==>
            i < |Hosts(g, es)| && Hosts(g, es)[i] == HostConn(e.src, e.srcPort, true, 32 + i))
    decreases |es|
  {
    ClassByKinds(g, es[j]);
    hide Classify, KindOf, Decides;
    var init := es[..|es| - 1];
    if j < |init| {
      HostConnAt(g, init, j);
      assert init[..j] == es[..j];
    }
  }

  /** Every host connection is that of an edge from or to the host. */
  lemma HostConnByKinds(g: Graph, h: HostConn)
    requires h in Hosts(g, g.edges)
    ensures h.toHost ==> exists e ::
              e in g.edges && !Decides(KindOf(g, e.src)) && KindOf(g, e.dst) == HostOut && h.kernel == e.src && h.port == e.srcPort
    ensures !h.toHost ==> exists e ::
              e in g.edges && KindOf(g, e.src) == HostIn && h.kernel == e.dst && h.port == e.dstPort
  {
    HostConnOfEdge(g, g.edges, h);
    hide Classify, KindOf, Decides, Hosts;
    var e :| e in g.edges && if h.toHost then Classify(g, e) == ToHost && h.kernel == e.src && h.port == e.srcPort
                             else Classify(g, e) == FromHost && h.kernel == e.dst && h.port == e.dstPort;
    ClassByKinds(g, e);
  }

  /** The plan's kernels are the user kernels, in order. */
  lemma {:induction false} UserKernelsAre(ks: seq<Kernel>, j: nat)
    requires j < |ks| && ks[j].special == NoSpecial
    ensures var i := |UserKernels(ks[..j])|; i < |UserKernels(ks)| && UserKernels(ks)[i] == ks[j]
    ensures forall k :: k in UserKernels(ks) ==> k in ks && k.special == NoSpecial
    decreases |ks|
  {
    var init := ks[..|ks| - 1];
    OnlyUsers(ks);
    if j < |init| {
      UserKernelsAre(init, j);
      assert init[..j] == ks[..j];
    }
  }

  lemma {:induction false} OnlyUsers(ks: seq<Kernel>)
    ensures forall k :: k in UserKernels(ks) ==> k in ks && k.special == NoSpecial
    ensures forall n :: n in SignalTable(ks) ==> exists k :: k in ks && k.special == NoSpecial && k.hostControl && k.name == n
  {
    if ks != [] {
      var init, last := ks[..|ks| - 1], ks[|ks| - 1];
      OnlyUsers(init);
      assert ks == init + [last];
      forall n | n in SignalTable(ks)
        ensures exists k :: k in ks && k.special == NoSpecial && k.hostControl && k.name == n
      {
        if n in SignalTable(init) {
          var k :| k in init && k.special == NoSpecial && k.hostControl && k.name == n;
          assert k in ks;
        } else {
          assert last in ks;
        }
      }
    }
  }

  /** The signal table is the names of the host-controlled user kernels, in order. */
  lemma {:induction false} SignalTableIs(ks: seq<Kernel>, j: nat)
    requires j < |ks| && ks[j].special == NoSpecial && ks[j].hostControl
    ensures var i := |SignalTable(ks[..j])|; i < |SignalTable(ks)| && SignalTable(ks)[i] == ks[j].name
    ensures forall n :: n in SignalTable(ks) ==> exists k :: k in ks && k.special == NoSpecial && k.hostControl && k.name == n
    decreases |ks|
  {
    var init := ks[..|ks| - 1];
    OnlyUsers(ks);
    if j < |init| {
      SignalTableIs(init, j);
      assert init[..j] == ks[..j];
    }
  }
}
