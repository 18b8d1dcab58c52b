/** The map from kernel ports to streams, and what it says about the graph it was lowered from. */
module Wiring {
  import opened Options
  import opened Graphs
  import opened Lowering

  datatype Dir = In | Out

  datatype PortKey = PortKey(kernel: Name, dir: Dir, port: int)

  /** A declared stream: its family and its number in the family. */
  datatype Stream = Plain(n: nat) | Tor(n: nat) | Nic(n: nat) | Host(n: nat)

  type Ports = map<PortKey, Stream>

  function SrcKey(e: Edge): PortKey { PortKey(e.src, Out, e.srcPort) }
  function DstKey(e: Edge): PortKey { PortKey(e.dst, In, e.dstPort) }
  function HostKey(h: HostConn): PortKey { PortKey(h.kernel, if h.toHost then Out else In, h.port) }

  predicate TorName(n: Name) { n == "tor_in" || n == "tor_out" }
  predicate NicName(n: Name) { n == "nic_in" || n == "nic_out" }

  function PlainMap(cs: seq<Edge>): Ports {
    if cs == [] then map[]
    else
      var k := |cs| - 1;
      PlainMap(cs[..k])[SrcKey(cs[k]) := Plain(k)][DstKey(cs[k]) := Plain(k)]
  }

  /** Later entries for the same port replace earlier ones. */
  function TorMap(m: Ports, cs: seq<Edge>): Ports {
    if cs == [] then m
    else
      var k := |cs| - 1;
      var m1 := TorMap(m, cs[..k]);
      var m2 := if TorName(cs[k].src) then m1 else m1[SrcKey(cs[k]) := Tor(k)];
      if TorName(cs[k].dst) then m2 else m2[DstKey(cs[k]) := Tor(k)]
  }

  function NicMap(m: Ports, cs: seq<Edge>): Ports {
    if cs == [] then m
    else
      var k := |cs| - 1;
      var m1 := NicMap(m, cs[..k]);
      var m2 := if NicName(cs[k].src) then m1 else m1[SrcKey(cs[k]) := Nic(k)];
      if NicName(cs[k].dst) then m2 else m2[DstKey(cs[k]) := Nic(k)]
  }

  function HostMap(m: Ports, hs: seq<HostConn>): Ports {
    if hs == [] then m
    else
      var k := |hs| - 1;
      HostMap(m, hs[..k])[HostKey(hs[k]) := Host(k)]
  }

  function PortMap(streams: seq<Edge>, tors: seq<Edge>, nics: seq<Edge>, hosts: seq<HostConn>): Ports {
    HostMap(NicMap(TorMap(PlainMap(streams), tors), nics), hosts)
  }

  /** The port map of the plan lowered from a graph. */
  function Wired(g: Graph): Ports {
    PortMap(Select(g, g.edges, StreamClass), Select(g, g.edges, TorClass), Select(g, g.edges, NicClass), Hosts(g, g.edges))
  }

  // ---- the four loops -----------------------------------------------------------------------------------

  method WireStreams(cs: seq<Edge>) returns (m: Ports)
    ensures m == PlainMap(cs)
  {
    m := map[];
    for k := 0 to |cs|
      invariant m == PlainMap(cs[..k])
    {
      assert cs[..k + 1][..k] == cs[..k];
      m := m[SrcKey(cs[k]) := Plain(k)];
      m := m[DstKey(cs[k]) := Plain(k)];
    }
    assert cs[..|cs|] == cs;
  }

  method WireTors(was: Ports, cs: seq<Edge>) returns (m: Ports)
    ensures m == TorMap(was, cs)
  {
    m := was;
    for k := 0 to |cs|
      invariant m == TorMap(was, cs[..k])
    {
      assert cs[..k + 1][..k] == cs[..k];
      if cs[k].src != "tor_in" && cs[k].src != "tor_out" {
        m := m[SrcKey(cs[k]) := Tor(k)];
      }
      if cs[k].dst != "tor_in" && cs[k].dst != "tor_out" {
        m := m[DstKey(cs[k]) := Tor(k)];
      }
    }
    assert cs[..|cs|] == cs;
  }

  method WireNics(was: Ports, cs: seq<Edge>) returns (m: Ports)
    ensures m == NicMap(was, cs)
  {
    m := was;
    for k := 0 to |cs|
      invariant m == NicMap(was, cs[..k])
    {
      assert cs[..k + 1][..k] == cs[..k];
      if cs[k].src != "nic_in" && cs[k].src != "nic_out" {
        m := m[SrcKey(cs[k]) := Nic(k)];
      }
      if cs[k].dst != "nic_in" && cs[k].dst != "nic_out" {
        m := m[DstKey(cs[k]) := Nic(k)];
      }
    }
    assert cs[..|cs|] == cs;
  }

  method WireHosts(was: Ports, hs: seq<HostConn>) returns (m: Ports)
    ensures m == HostMap(was, hs)
  {
    m := was;
    for k := 0 to |hs|
      invariant m == HostMap(was, hs[..k])
    {
      assert hs[..k + 1][..k] == hs[..k];
      m := m[HostKey(hs[k]) := Host(k)];
    }
    assert hs[..|hs|] == hs;
  }

  method WirePorts(b: Build) returns (m: Ports)
    ensures m == PortMap(b.streams, b.tors, b.nics, b.hosts)
  {
    m := WireStreams(b.streams);
    m := WireTors(m, b.tors);
    m := WireNics(m, b.nics);
    m := WireHosts(m, b.hosts);
  }

  /** Both passes in sequence. */
  method Compile(g: Graph) returns (m: Ports)
    ensures m == Wired(g)
  {
    var b := new Build();
    LowerToBackend(g, b);
    assert [] + Select(g, g.edges, StreamClass) == Select(g, g.edges, StreamClass) && [] + Hosts(g, g.edges) == Hosts(g, g.edges);
    assert [] + Select(g, g.edges, TorClass) == Select(g, g.edges, TorClass) && [] + Select(g, g.edges, NicClass) == Select(g, g.edges, NicClass);
    m := WirePorts(b);
  }

  // ---- a port's stream belongs to a connection that ends there --------------------------------------------

  ghost predicate Ends(e: Edge, k: PortKey) { k == SrcKey(e) || k == DstKey(e) }

  ghost predicate EndsSome(cs: seq<Edge>, k: PortKey) {
    exists i :: 0 <= i < |cs| && Ends(cs[i], k)
  }

  lemma {:induction false} PlainSound(cs: seq<Edge>, k: PortKey)
    ensures k in PlainMap(cs) <==> EndsSome(cs, k)
    ensures k in PlainMap(cs) ==> var v := PlainMap(cs)[k]; v.Plain? && v.n < |cs| && Ends(cs[v.n], k) && forall j :: v.n < j < |cs| ==> !Ends(cs[j], k)
  {
    if cs != [] {
      var init := cs[..|cs| - 1];
      PlainSound(init, k);
      if EndsSome(init, k) {
        var i :| 0 <= i < |init| && Ends(init[i], k);
        assert Ends(cs[i], k);
      }
      if EndsSome(cs, k) && !Ends(cs[|cs| - 1], k) {
        var i :| 0 <= i < |cs| && Ends(cs[i], k);
        assert Ends(init[i], k);
      }
    }
  }

  /** A port is left alone unless a tor connection ends there; then its stream is that of such a connection. */
  lemma {:induction false} TorSound(m: Ports, cs: seq<Edge>, k: PortKey)
    requires !TorName(k.kernel)
    ensures !EndsSome(cs, k) ==> (k in TorMap(m, cs) <==> k in m) && (k in m ==> TorMap(m, cs)[k] == m[k])
    ensures EndsSome(cs, k) ==>
      (k in TorMap(m, cs) && var v := TorMap(m, cs)[k]; v.Tor? && v.n < |cs| && Ends(cs[v.n], k) && forall j :: v.n < j < |cs| ==> !Ends(cs[j], k))
  {
    if cs != [] {
      var init := cs[..|cs| - 1];
      TorSound(m, init, k);
      Shorter(cs, k);
    }
  }

  lemma {:induction false} NicSound(m: Ports, cs: seq<Edge>, k: PortKey)
    requires !NicName(k.kernel)
    ensures !EndsSome(cs, k) ==> (k in NicMap(m, cs) <==> k in m) && (k in m ==> NicMap(m, cs)[k] == m[k])
    ensures EndsSome(cs, k) ==>
      (k in NicMap(m, cs) && var v := NicMap(m, cs)[k]; v.Nic? && v.n < |cs| && Ends(cs[v.n], k) && forall j :: v.n < j < |cs| ==> !Ends(cs[j], k))
  {
    if cs != [] {
      var init := cs[..|cs| - 1];
      NicSound(m, init, k);
      Shorter(cs, k);
    }
  }

  lemma Shorter(cs: seq<Edge>, k: PortKey)
    requires cs != []
    ensures EndsSome(cs, k) <==> EndsSome(cs[..|cs| - 1], k) || Ends(cs[|cs| - 1], k)
  {
    var init := cs[..|cs| - 1];
    if EndsSome(init, k) {
      var i :| 0 <= i < |init| && Ends(init[i], k);
      assert Ends(cs[i], k);
    }
    if EndsSome(cs, k) && !Ends(cs[|cs| - 1], k) {
      var i :| 0 <= i < |cs| && Ends(cs[i], k);
      assert Ends(init[i], k);
    }
  }

  ghost predicate HostEnds(hs: seq<HostConn>, k: PortKey) {
    exists i :: 0 <= i < |hs| && HostKey(hs[i]) == k
  }

  lemma {:induction false} HostSound(m: Ports, hs: seq<HostConn>, k: PortKey)
    ensures !HostEnds(hs, k) ==> (k in HostMap(m, hs) <==> k in m) && (k in m ==> HostMap(m, hs)[k] == m[k])
    ensures HostEnds(hs, k) ==>
      (k in HostMap(m, hs) && var v := HostMap(m, hs)[k]; v.Host? && v.n < |hs| && HostKey(hs[v.n]) == k && forall j :: v.n < j < |hs| ==> HostKey(hs[j]) != k)
  {
    if hs != [] {
      var init := hs[..|hs| - 1];
      HostSound(m, init, k);
      if HostEnds(init, k) {
        var i :| 0 <= i < |init| && HostKey(init[i]) == k;
        assert HostKey(hs[i]) == k;
      }
      if HostEnds(hs, k) && HostKey(hs[|hs| - 1]) != k {
        var i :| 0 <= i < |hs| && HostKey(hs[i]) == k;
        assert HostKey(init[i]) == k;
      }
    }
  }

  // ---- user ports and the edges that end there -----------------------------------------------------------

  /** A kernel of the user's: not special, and not called by one of the four names the backend treats as the network's. */
  predicate User(g: Graph, name: Name) {
    KindOf(g, name) == NoSpecial && !TorName(name) && !NicName(name)
  }

  ghost predicate UsesPort(g: Graph, e: Edge, k: PortKey) {
    match Classify(g, e)
    case StreamClass => Ends(e, k)
    case TorClass => Ends(e, k)
    case NicClass => Ends(e, k)
    case FromHost => k == DstKey(e)
    case ToHost => k == SrcKey(e)
    case Discarded => false
  }

  /** Whether some edge of a class ends at a port. */
  ghost predicate ClassEnds(g: Graph, c: Class, k: PortKey) {
    exists e :: e in g.edges && Classify(g, e) == c && UsesPort(g, e, k)
  }

  lemma SelectEnds(g: Graph, c: Class, k: PortKey)
    requires c == StreamClass || c == TorClass || c == NicClass
    ensures EndsSome(Select(g, g.edges, c), k) <==> ClassEnds(g, c, k)
  {
    hide Classify, Select;
    var cs := Select(g, g.edges, c);
    if EndsSome(cs, k) {
      var i :| 0 <= i < |cs| && Ends(cs[i], k);
      Selected(g, g.edges, c, cs[i]);
      assert UsesPort(g, cs[i], k);
    }
    if ClassEnds(g, c, k) {
      var e :| e in g.edges && Classify(g, e) == c && UsesPort(g, e, k);
      Selected(g, g.edges, c, e);
      var i :| 0 <= i < |cs| && cs[i] == e;
      assert Ends(cs[i], k);
    }
  }

  lemma HostsEnd(g: Graph, k: PortKey)
    ensures HostEnds(Hosts(g, g.edges), k) <==> ClassEnds(g, FromHost, k) || ClassEnds(g, ToHost, k)
  {
    hide Classify, Hosts;
    var hs := Hosts(g, g.edges);
    if HostEnds(hs, k) {
      var i :| 0 <= i < |hs| && HostKey(hs[i]) == k;
      HostConnOfEdge(g, g.edges, hs[i]);
      var h := hs[i];
      var e :| e in g.edges && if h.toHost then Classify(g, e) == ToHost && h.kernel == e.src && h.port == e.srcPort
                               else Classify(g, e) == FromHost && h.kernel == e.dst && h.port == e.dstPort;
      assert UsesPort(g, e, k);
    }
    if ClassEnds(g, FromHost, k) {
      var e :| e in g.edges && Classify(g, e) == FromHost && UsesPort(g, e, k);
      HostEdgeKept(g, g.edges, e);
      var h :| h in hs && !h.toHost && h.kernel == e.dst && h.port == e.dstPort;
      var i :| 0 <= i < |hs| && hs[i] == h;
      assert HostKey(hs[i]) == k;
    }
    if ClassEnds(g, ToHost, k) {
      var e :| e in g.edges && Classify(g, e) == ToHost && UsesPort(g, e, k);
      HostEdgeKept(g, g.edges, e);
      var h :| h in hs && h.toHost && h.kernel == e.src && h.port == e.srcPort;
      var i :| 0 <= i < |hs| && hs[i] == h;
      assert HostKey(hs[i]) == k;
    }
  }

  /** Connection n of a list ends at the port, and no later one does. */
  ghost predicate LastEnd(cs: seq<Edge>, n: nat, k: PortKey) {
    n < |cs| && Ends(cs[n], k) && forall j :: n < j < |cs| ==> !Ends(cs[j], k)
  }

  ghost predicate LastHostEnd(hs: seq<HostConn>, n: nat, k: PortKey) {
    n < |hs| && HostKey(hs[n]) == k && forall j :: n < j < |hs| ==> HostKey(hs[j]) != k
  }

  /** The stream is that of the last connection of its list that ends at the port. */
  ghost predicate Belongs(g: Graph, v: Stream, k: PortKey) {
    match v
    case Plain(n) => LastEnd(Select(g, g.edges, StreamClass), n, k)
    case Tor(n) => LastEnd(Select(g, g.edges, TorClass), n, k)
    case Nic(n) => LastEnd(Select(g, g.edges, NicClass), n, k)
    case Host(n) => LastHostEnd(Hosts(g, g.edges), n, k)
  }

  /**
   * A user port gets a stream exactly when a recorded edge uses it, the stream of the last connection that ends
   * there in the family written last: an edge to the host takes the port from one to the NIC, that from one to the
   * ToR, and that from a plain stream.
   */
  lemma PortStream(g: Graph, k: PortKey)
    requires User(g, k.kernel)
    ensures var m := Wired(g);
      && (k in m <==> ClassEnds(g, StreamClass, k) || ClassEnds(g, TorClass, k) || ClassEnds(g, NicClass, k)
                      || ClassEnds(g, FromHost, k) || ClassEnds(g, ToHost, k))
      && (k in m ==> Belongs(g, m[k], k))
      && (k in m ==> var host, nic, tor := ClassEnds(g, FromHost, k) || ClassEnds(g, ToHost, k), ClassEnds(g, NicClass, k), ClassEnds(g, TorClass, k);
            && (m[k].Host? <==> host) && (m[k].Nic? <==> nic && !host)
            && (m[k].Tor? <==> tor && !nic && !host) && (m[k].Plain? <==> !tor && !nic && !host))
  {
    hide Select, Hosts, PlainMap, TorMap, NicMap, HostMap, ClassEnds, EndsSome, HostEnds, Find;
    var s, t := Select(g, g.edges, StreamClass), Select(g, g.edges, TorClass);
    var n, h := Select(g, g.edges, NicClass), Hosts(g, g.edges);
    var m1 := PlainMap(s);
    var m2 := TorMap(m1, t);
    var m3 := NicMap(m2, n);
    PlainSound(s, k);
    TorSound(m1, t, k);
    NicSound(m2, n, k);
    HostSound(m3, h, k);
    SelectEnds(g, StreamClass, k);
    SelectEnds(g, TorClass, k);
    SelectEnds(g, NicClass, k);
    HostsEnd(g, k);
  }

  /**
   * On a user port, a ToR stream is that of an edge whose other end is a ToR pseudo-element, and likewise for the
   * NIC and the host; on a plain stream the other end is none of these.
   */
  lemma StreamFamily(g: Graph, k: PortKey)
    requires User(g, k.kernel) && k in Wired(g)
    ensures var v := Wired(g)[k];
      exists e :: e in g.edges &&
        if k == PortKey(e.dst, In, e.dstPort) then
          var s := KindOf(g, e.src);
          (v.Tor? <==> s == TorIn) && (v.Nic? <==> s == NicIn) && (v.Host? <==> s == HostIn) && s != Idle
        else
          var d := KindOf(g, e.dst);
          && k == PortKey(e.src, Out, e.srcPort)
          && (v.Tor? <==> d == TorOut) && (v.Nic? <==> d == NicOut) && (v.Host? <==> d == HostOut) && d != Drop
  {
    PortStream(g, k);
    var v := Wired(g)[k];
    hide Select, Hosts, KindOf, PortMap, ClassEnds, Classify;
    match v
    case Plain(n) => ConnFamily(g, StreamClass, n, k);
    case Tor(n) => ConnFamily(g, TorClass, n, k);
    case Nic(n) => ConnFamily(g, NicClass, n, k);
    case Host(n) => HostFamily(g, Hosts(g, g.edges)[n], k);
  }

  lemma ConnFamily(g: Graph, c: Class, n: nat, k: PortKey)
    requires User(g, k.kernel) && LastEnd(Select(g, g.edges, c), n, k) && (c == StreamClass || c == TorClass || c == NicClass)
    ensures var e := Select(g, g.edges, c)[n];
      e in g.edges &&
        if k == PortKey(e.dst, In, e.dstPort) then
          var s := KindOf(g, e.src);
          (c == TorClass <==> s == TorIn) && (c == NicClass <==> s == NicIn) && s != HostIn && s != Idle
        else
          var d := KindOf(g, e.dst);
          && k == PortKey(e.src, Out, e.srcPort)
          && (c == TorClass <==> d == TorOut) && (c == NicClass <==> d == NicOut) && d != HostOut && d != Drop
  {
    hide Select, KindOf, Classify;
    var e := Select(g, g.edges, c)[n];
    Selected(g, g.edges, c, e);
    ClassByKinds(g, e);
  }

  lemma HostFamily(g: Graph, h: HostConn, k: PortKey)
    requires h in Hosts(g, g.edges) && HostKey(h) == k && User(g, k.kernel)
    ensures exists e ::
              e in g.edges && if k == PortKey(e.dst, In, e.dstPort) then KindOf(g, e.src) == HostIn
                              else k == PortKey(e.src, Out, e.srcPort) && KindOf(g, e.dst) == HostOut
  {
    hide Hosts, KindOf;
    HostConnByKinds(g, h);
  }

  ghost predicate Shared(g: Graph, k1: PortKey, k2: PortKey) {
    var m := Wired(g);
    k1 in m && k2 in m && m[k1] == m[k2]
  }

  /** Some edge leaves k1, an output port, and enters k2, an input port. */
  ghost predicate Joins(g: Graph, k1: PortKey, k2: PortKey) {
    exists e :: e in g.edges && k1 == PortKey(e.src, Out, e.srcPort) && k2 == PortKey(e.dst, In, e.dstPort)
  }

  lemma SpecialEnd(g: Graph, e: Edge)
    requires Classify(g, e) != StreamClass
    ensures KindOf(g, e.src) != NoSpecial || KindOf(g, e.dst) != NoSpecial
  {
  }

  lemma UserEdgeIsStream(g: Graph, e: Edge)
    requires KindOf(g, e.src) == NoSpecial && KindOf(g, e.dst) == NoSpecial
    ensures Classify(g, e) == StreamClass
  {
  }

  /** No stream runs where the graph has no edge: two user ports on one stream are the two ends of an edge. */
  lemma SharedIsJoined(g: Graph, k1: PortKey, k2: PortKey)
    requires User(g, k1.kernel) && User(g, k2.kernel) && k1 != k2 && Shared(g, k1, k2)
    ensures Joins(g, k1, k2) || Joins(g, k2, k1)
  {
    hide Select, Hosts, Classify, Find, PortMap;
    PortStream(g, k1);
    PortStream(g, k2);
    var v := Wired(g)[k1];
    match v
    case Plain(n) =>
      SharedEdge(g, StreamClass, n, k1, k2);
    case Tor(n) =>
      SharedEdge(g, TorClass, n, k1, k2);
    case Nic(n) =>
      SharedEdge(g, NicClass, n, k1, k2);
    case Host(n) =>
      assert false;
  }

  lemma SharedEdge(g: Graph, c: Class, n: nat, k1: PortKey, k2: PortKey)
    requires n < |Select(g, g.edges, c)|
    requires k1 != k2 && Ends(Select(g, g.edges, c)[n], k1) && Ends(Select(g, g.edges, c)[n], k2)
    ensures Joins(g, k1, k2) || Joins(g, k2, k1)
  {
    hide Select, Classify;
    var e := Select(g, g.edges, c)[n];
    Selected(g, g.edges, c, e);
  }

  // ---- when every edge gets its stream ---------------------------------------------------------------------

  predicate SameEnds(e: Edge, f: Edge) { SrcKey(e) == SrcKey(f) && DstKey(e) == DstKey(f) }

  predicate UserEdge(g: Graph, e: Edge) { User(g, e.src) && User(g, e.dst) }

  /** Both ends of the edge are wired to one stream. */
  ghost predicate Realised(g: Graph, e: Edge) { Shared(g, SrcKey(e), DstKey(e)) }

  /** No other recorded edge uses a port of this one. */
  ghost predicate Alone(g: Graph, e: Edge) {
    forall f :: f in g.edges && (UsesPort(g, f, SrcKey(e)) || UsesPort(g, f, DstKey(e))) ==> SameEnds(e, f)
  }

  /** Among connections that meet an edge's ends only as a whole, both ends always get the same stream. */
  lemma {:induction false} PlainTogether(cs: seq<Edge>, e: Edge)
    requires forall i :: 0 <= i < |cs| && (Ends(cs[i], SrcKey(e)) || Ends(cs[i], DstKey(e))) ==> SameEnds(e, cs[i])
    ensures SrcKey(e) in PlainMap(cs) <==> DstKey(e) in PlainMap(cs)
    ensures SrcKey(e) in PlainMap(cs) ==> PlainMap(cs)[SrcKey(e)] == PlainMap(cs)[DstKey(e)]
  {
    if cs != [] {
      var init := cs[..|cs| - 1];
      assert forall i :: 0 <= i < |init| ==> init[i] == cs[i];
      PlainTogether(init, e);
    }
  }

  lemma {:induction false} AloneIsRealised(g: Graph, e: Edge)
    requires e in g.edges && UserEdge(g, e) && Alone(g, e)
    ensures Realised(g, e)
  {
    var s, t, n, h := Select(g, g.edges, StreamClass), Select(g, g.edges, TorClass), Select(g, g.edges, NicClass), Hosts(g, g.edges);
    UserEdgeIsStream(g, e);
    hide Select, Hosts, Classify, Find, PlainMap, TorMap, NicMap, HostMap;
    forall i | 0 <= i < |s| && (Ends(s[i], SrcKey(e)) || Ends(s[i], DstKey(e)))
      ensures SameEnds(e, s[i])
    {
      Selected(g, g.edges, StreamClass, s[i]);
    }
    PlainTogether(s, e);
    Untouched(g, e, SrcKey(e));
    Untouched(g, e, DstKey(e));
    Selected(g, g.edges, StreamClass, e);
    var i :| 0 <= i < |s| && s[i] == e;
    assert Ends(s[i], SrcKey(e));
    PlainSound(s, SrcKey(e));
  }

  /** A port of a lone user edge keeps the stream of the first loop. */
  lemma Untouched(g: Graph, e: Edge, k: PortKey)
    requires e in g.edges && UserEdge(g, e) && Alone(g, e) && Ends(e, k)
    ensures var p := PlainMap(Select(g, g.edges, StreamClass)); k in Wired(g) <==> k in p
    ensures var p := PlainMap(Select(g, g.edges, StreamClass)); k in p ==> k in Wired(g) && Wired(g)[k] == p[k]
  {
    UserEdgeIsStream(g, e);
    var s, t, n, h := Select(g, g.edges, StreamClass), Select(g, g.edges, TorClass), Select(g, g.edges, NicClass), Hosts(g, g.edges);
    forall f | f in g.edges && UsesPort(g, f, k)
      ensures Classify(g, f) == StreamClass
    {
      assert SameEnds(e, f);
    }
    hide Select, Hosts, Classify, Find, PlainMap, TorMap, NicMap, HostMap;
    var m1 := PlainMap(s);
    var m2 := TorMap(m1, t);
    var m3 := NicMap(m2, n);
    SelectEnds(g, TorClass, k);
    SelectEnds(g, NicClass, k);
    HostsEnd(g, k);
    TorSound(m1, t, k);
    NicSound(m2, n, k);
    HostSound(m3, h, k);
  }

  /** Every stream edge joins two user kernels: the resolver's port counts and the arity check leave nothing else. */
  ghost predicate StreamsJoinUsers(g: Graph) {
    forall e :: e in g.edges && Classify(g, e) == StreamClass ==> UserEdge(g, e)
  }

  lemma SharedIsPlain(g: Graph, e: Edge)
    requires UserEdge(g, e) && Realised(g, e)
    ensures var m := Wired(g); m[SrcKey(e)].Plain? && Belongs(g, m[SrcKey(e)], SrcKey(e)) && Belongs(g, m[SrcKey(e)], DstKey(e))
  {
    hide Select, Hosts, Classify, Find, PortMap;
    PortStream(g, SrcKey(e));
    PortStream(g, DstKey(e));
    match Wired(g)[SrcKey(e)]
    case Plain(n) =>
    case Tor(n) => NotBothUsers(g, TorClass, n, e);
    case Nic(n) => NotBothUsers(g, NicClass, n, e);
    case Host(n) => assert false;
  }

  lemma NotBothUsers(g: Graph, c: Class, n: nat, e: Edge)
    requires c == TorClass || c == NicClass
    requires UserEdge(g, e) && n < |Select(g, g.edges, c)|
    ensures !(Ends(Select(g, g.edges, c)[n], SrcKey(e)) && Ends(Select(g, g.edges, c)[n], DstKey(e)))
  {
    hide Select, Classify;
    var f := Select(g, g.edges, c)[n];
    Selected(g, g.edges, c, f);
    SpecialEnd(g, f);
  }

  lemma RealisedIsAlone(g: Graph, e: Edge, f: Edge)
    requires StreamsJoinUsers(g)
    requires forall x :: x in g.edges && UserEdge(g, x) ==> Realised(g, x)
    requires e in g.edges && UserEdge(g, e)
    requires f in g.edges && (UsesPort(g, f, SrcKey(e)) || UsesPort(g, f, DstKey(e)))
    ensures SameEnds(e, f)
  {
    hide Select, Hosts, Find, PortMap, Classify;
    SharedIsPlain(g, e);
    var k := if UsesPort(g, f, SrcKey(e)) then SrcKey(e) else DstKey(e);
    PortStream(g, k);
    UsersClass(g, f, k);
    assert Classify(g, f) == StreamClass;
    SharedIsPlain(g, f);
  }

  lemma UsersClass(g: Graph, f: Edge, k: PortKey)
    requires f in g.edges && UsesPort(g, f, k)
    ensures ClassEnds(g, Classify(g, f), k) && Classify(g, f) != Discarded
  {
  }

  /**
   * Lowering and wiring realise the whole edge relation between user kernels exactly when no port of such an edge
   * is used by a second edge; a port used twice keeps only the last connection recorded for it.
   */
  lemma AllRealisedIff(g: Graph)
    requires StreamsJoinUsers(g)
    ensures (forall e :: e in g.edges && UserEdge(g, e) ==> Realised(g, e))
       <==> (forall e :: e in g.edges && UserEdge(g, e) ==> Alone(g, e))
  {
    if forall e :: e in g.edges && UserEdge(g, e) ==> Realised(g, e) {
      forall e | e in g.edges && UserEdge(g, e)
        ensures Alone(g, e)
      {
        forall f | f in g.edges && (UsesPort(g, f, SrcKey(e)) || UsesPort(g, f, DstKey(e)))
          ensures SameEnds(e, f)
        {
          RealisedIsAlone(g, e, f);
        }
      }
    }
    if forall e :: e in g.edges && UserEdge(g, e) ==> Alone(g, e) {
      forall e | e in g.edges && UserEdge(g, e)
        ensures Realised(g, e)
      {
        AloneIsRealised(g, e);
      }
    }
  }

  /**
   * Two user ports share a stream exactly when an edge joins them, provided no other recorded edge uses a port
   * of an edge between user kernels that ends at either.
   */
  lemma WiringIsTheGraph(g: Graph, k1: PortKey, k2: PortKey)
    requires User(g, k1.kernel) && User(g, k2.kernel) && k1 != k2
    requires forall e :: e in g.edges && UserEdge(g, e) && (Ends(e, k1) || Ends(e, k2)) ==> Alone(g, e)
    ensures Shared(g, k1, k2) <==> Joins(g, k1, k2) || Joins(g, k2, k1)
  {
    hide Wired, User, Classify, UsesPort;
    if Shared(g, k1, k2) {
      SharedIsJoined(g, k1, k2);
    }
    if Joins(g, k1, k2) || Joins(g, k2, k1) {
      var e :| e in g.edges && ((k1 == PortKey(e.src, Out, e.srcPort) && k2 == PortKey(e.dst, In, e.dstPort))
                              || (k2 == PortKey(e.src, Out, e.srcPort) && k1 == PortKey(e.dst, In, e.dstPort)));
      AloneIsRealised(g, e);
    }
  }

  /** Each port of a user kernel in at most one edge; the ports of pseudo-elements may be used again. */
  predicate UserPortsUsedOnce(g: Graph) {
    forall i, j :: 0 <= i < j < |g.edges| ==>
      && (SrcKey(g.edges[i]) == SrcKey(g.edges[j]) ==> !User(g, g.edges[i].src))
      && (DstKey(g.edges[i]) == DstKey(g.edges[j]) ==> !User(g, g.edges[i].dst))
  }

  /** Then every edge between user kernels is alone on its ports, so the wiring is the graph for every pair of them. */
  lemma UsedOnceIsAlone(g: Graph, e: Edge)
    requires UserPortsUsedOnce(g) && e in g.edges && UserEdge(g, e)
    ensures Alone(g, e)
  {
    hide User, Classify;
    var i :| 0 <= i < |g.edges| && g.edges[i] == e;
    forall f | f in g.edges && (UsesPort(g, f, SrcKey(e)) || UsesPort(g, f, DstKey(e)))
      ensures SameEnds(e, f)
    {
      var j :| 0 <= j < |g.edges| && g.edges[j] == f;
    }
  }

  // ---- what the front end guarantees ------------------------------------------------------------------------

  /**
   * A kernel as the resolver makes it: a pseudo-element that is a source has no input port, one that is a sink no
   * output port, and no user kernel bears one of the four names the backend treats as the network's.
   */
  predicate ResolvedKernel(k: Kernel) {
    && (k.special == NoSpecial ==> !TorName(k.name) && !NicName(k.name))
    && (k.special == TorIn || k.special == NicIn || k.special == HostIn || k.special == Idle ==> k.inPorts == 0 && k.outPorts == 1)
    && (k.special == TorOut || k.special == NicOut || k.special == HostOut || k.special == Drop ==> k.inPorts == 1 && k.outPorts == 0)
  }

  predicate ArityFits(g: Graph, e: Edge) {
    var sk, dk := Find(g.kernels, e.src), Find(g.kernels, e.dst);
    && (sk.Some? ==> e.srcPort <= sk.value.outPorts)
    && (dk.Some? ==> e.dstPort <= dk.value.inPorts)
    && e.srcPort >= 1 && e.dstPort >= 1
  }

  /** The bound on each end is the port count of the first kernel of that name; an unknown name has none. */
  lemma ArityBounds(g: Graph, e: Edge)
    ensures ArityFits(g, e) <==>
      && e.srcPort >= 1 && e.dstPort >= 1
      && (forall i :: 0 <= i < |g.kernels| && First(g.kernels, i, e.src) ==> e.srcPort <= g.kernels[i].outPorts)
      && (forall i :: 0 <= i < |g.kernels| && First(g.kernels, i, e.dst) ==> e.dstPort <= g.kernels[i].inPorts)
  {
    FindFirst(g.kernels, e.src);
    FindFirst(g.kernels, e.dst);
    hide Find;
  }

  /** Kernel i is the first of that name. */
  ghost predicate First(ks: seq<Kernel>, i: nat, name: Name)
    requires i < |ks|
  {
    ks[i].name == name && forall j :: 0 <= j < i ==> ks[j].name != name
  }

  lemma FindFirst(ks: seq<Kernel>, name: Name)
    ensures forall i :: 0 <= i < |ks| && First(ks, i, name) ==> Find(ks, name) == Some(ks[i])
    ensures Find(ks, name).Some? ==> exists i :: 0 <= i < |ks| && First(ks, i, name)
  {
    forall i | 0 <= i < |ks| && First(ks, i, name)
      ensures Find(ks, name) == Some(ks[i])
    {
      FindIsFirst(ks, i);
    }
    if Find(ks, name).Some? {
      var i := FirstOf(ks, name);
    }
  }

  lemma {:induction false} FirstOf(ks: seq<Kernel>, name: Name) returns (i: nat)
    requires Find(ks, name).Some?
    ensures i < |ks| && First(ks, i, name)
  {
    if ks[0].name == name {
      i := 0;
    } else {
      i := FirstOf(ks[1..], name);
      assert forall j :: 0 < j <= i ==> ks[j] == ks[1..][j - 1];
      i := i + 1;
    }
  }

  method CheckPortArity(g: Graph) returns (ok: bool)
    ensures ok <==> forall i :: 0 <= i < |g.edges| ==> ArityFits(g, g.edges[i])
  {
    hide Find;
    ok := true;
    for i := 0 to |g.edges|
      invariant ok <==> forall j :: 0 <= j < i ==> ArityFits(g, g.edges[j])
    {
      var e := g.edges[i];
      var sk, dk := Find(g.kernels, e.src), Find(g.kernels, e.dst);
      if sk.Some? && e.srcPort > sk.value.outPorts { ok := false; }
      if dk.Some? && e.dstPort > dk.value.inPorts { ok := false; }
      if e.srcPort < 1 { ok := false; }
      if e.dstPort < 1 { ok := false; }
      assert ArityFits(g, e) || !ok;
    }
  }

  /** A resolved graph that passes the arity check, with no group boundary left in it, has only user kernels on its stream edges. */
  lemma ResolvedStreamsJoinUsers(g: Graph)
    requires forall k :: k in g.kernels ==> ResolvedKernel(k) && k.special != Begin && k.special != End
    requires forall e :: e in g.edges ==> ArityFits(g, e) && Find(g.kernels, e.src).Some? && Find(g.kernels, e.dst).Some?
    ensures StreamsJoinUsers(g)
  {
    hide Find;
  }
}
