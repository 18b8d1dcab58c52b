/**
 * The RSA modular-exponentiation element as a state machine: one step per
 * handler call, operands arriving flit by flit on three ports. `flits` is the
 * number of flits per operand: 4, 8 or 16 for 1024, 2048 or 4096 bits.
 */
module RsaMachine {
  import opened Arith
  import opened Limbs
  import opened BigInt
  import opened ModExp
  import opened Options
  import opened LimbFlits

  datatype Phase = Collect | Init | FindBit | Square | MaybeMul | NextBit | Final | Emit

  /** The element's state and the input latches of the wrapper that calls its handler. */
  datatype State = State(
    phase: Phase, mIdx: nat, eIdx: nat, nIdx: nat, outIdx: nat, bitIdx: int,
    m: seq<Limb>, e: seq<Limb>, n: seq<Limb>, c: seq<Limb>, mMont: seq<Limb>, rMont: seq<Limb>, nInv: Limb,
    in1: Option<Flit>, in2: Option<Flit>, in3: Option<Flit>)

  /** What one wrapper iteration reads from the three streams, leaves behind, and outputs. */
  datatype Call = Call(a1: Option<Flit>, a2: Option<Flit>, a3: Option<Flit>, after: State, out: Option<Flit>)

  function Start(flits: nat): State {
    var z: seq<Limb> := seq(4 * flits, _ => 0);
    State(Collect, 0, 0, 0, 0, 0, z, z, z, z, z, z, 0, None, None, None)
  }

  // ---- one step -----------------------------------------------------------------

  function Latch(s: State, a1: Option<Flit>, a2: Option<Flit>, a3: Option<Flit>): State {
    s.(in1 := Latched(s.in1, a1), in2 := Latched(s.in2, a2), in3 := Latched(s.in3, a3))
  }

  function TakeM(flits: nat, s: State): State
    requires |s.m| == 4 * flits
  {
    if Takes(flits, s.mIdx, s.in1)
    then s.(m := Stored(s.m, s.mIdx, s.in1.value), mIdx := s.mIdx + 1, in1 := None) else s
  }

  function TakeE(flits: nat, s: State): State
    requires |s.e| == 4 * flits
  {
    if Takes(flits, s.eIdx, s.in2)
    then s.(e := Stored(s.e, s.eIdx, s.in2.value), eIdx := s.eIdx + 1, in2 := None) else s
  }

  function TakeN(flits: nat, s: State): State
    requires |s.n| == 4 * flits
  {
    if Takes(flits, s.nIdx, s.in3)
    then s.(n := Stored(s.n, s.nIdx, s.in3.value), nIdx := s.nIdx + 1, in3 := None) else s
  }

  function CollectStep(flits: nat, s: State): State
    requires |s.m| == |s.e| == |s.n| == 4 * flits
  {
    var t := TakeN(flits, TakeE(flits, TakeM(flits, s)));
    if t.mIdx == flits && t.eIdx == flits && t.nIdx == flits then t.(phase := Init) else t
  }

  /** What MontMul guarantees for its result, whatever the modulus. */
  ghost predicate MontResult(z: seq<Limb>, a: nat, b: nat, n: seq<Limb>, nInv: Limb) {
    && |z| == |n|
    && (Val(n) > 0 ==> Val(z) < Val(n) || Val(z) < b)
    && (Val(n) > 0 && IsNegInv(nInv, n) ==> Cong(Val(z) * Radix(|n|), a * b, Val(n)))
  }

  ghost predicate InitStep(s: State, s': State) {
    && s' == s.(nInv := s'.nInv, mMont := s'.mMont, rMont := s'.rMont, phase := FindBit)
    && |s'.mMont| == |s'.rMont| == |s.n|
    && (IsOdd(s.n) ==> IsNegInv(s'.nInv, s.n) && Mont(s'.mMont, Val(s.m), s.n) && Mont(s'.rMont, 1, s.n))
  }

  /** What the INIT step computes is the Montgomery form of m and of 1. */
  lemma InitRegisters(mm: seq<Limb>, r: seq<Limb>, v: nat, r2: seq<Limb>, n: seq<Limb>, nInv: Limb)
    requires IsOdd(n) && IsNegInv(nInv, n) && Val(n) > 0 && |r| == |n|
    requires Val(r2) == (Radix(|n|) * Radix(|n|)) % Val(n) && Val(r) == Radix(|n|) % Val(n)
    requires MontResult(mm, v, Val(r2), n, nInv)
    ensures Mont(mm, v, n) && Mont(r, 1, n)
  {
    MontUnit(r, n);
    ReducedProduct(mm, v, Val(r2), n, nInv);
    MontEnter(mm, v, r2, n);
  }

  function FindBitStep(s: State): State {
    var b := BitLength(Val(s.e)) - 1;
    s.(bitIdx := b, phase := if b < 0 then Final else Square)
  }

  ghost predicate SquareStep(s: State, s': State) {
    && s' == s.(rMont := s'.rMont, phase := MaybeMul)
    && MontResult(s'.rMont, Val(s.rMont), Val(s.rMont), s.n, s.nInv)
  }

  ghost predicate MaybeMulStep(s: State, s': State) {
    && s' == s.(rMont := s'.rMont, phase := NextBit)
    && (if s.bitIdx >= 0 && Bit(s.e, s.bitIdx) then MontResult(s'.rMont, Val(s.rMont), Val(s.mMont), s.n, s.nInv)
        else s'.rMont == s.rMont)
  }

  function NextBitStep(s: State): State {
    var b := s.bitIdx - 1;
    s.(bitIdx := b, phase := if b < 0 then Final else Square)
  }

  ghost predicate FinalStep(s: State, s': State) {
    && s' == s.(c := s'.c, phase := Emit)
    && MontResult(s'.c, Val(s.rMont), 1, s.n, s.nInv)
  }

  function EmitStep(flits: nat, s: State): State {
    if s.outIdx + 1 == flits then s.(mIdx := 0, eIdx := 0, nIdx := 0, outIdx := 0, phase := Collect)
    else s.(outIdx := s.outIdx + 1)
  }

  predicate Sized(flits: nat, s: State) {
    |s.m| == |s.e| == |s.n| == |s.c| == |s.mMont| == |s.rMont| == 4 * flits
  }

  /** The handler, on a state whose latches are already filled. */
  ghost predicate HandlerStep(flits: nat, s: State, s': State, out: Option<Flit>)
    requires Sized(flits, s)
  {
    match s.phase
    case Collect => s' == CollectStep(flits, s) && out == None
    case Init => InitStep(s, s') && out == None
    case FindBit => s' == FindBitStep(s) && out == None
    case Square => SquareStep(s, s') && out == None
    case MaybeMul => MaybeMulStep(s, s') && out == None
    case NextBit => s' == NextBitStep(s) && out == None
    case Final => FinalStep(s, s') && out == None
    case Emit =>
      if s.outIdx < flits then s' == EmitStep(flits, s) && out == Some(OutFlit(flits, s.c, s.outIdx))
      else s' == s && out == None
  }

  ghost predicate Steps(flits: nat, s: State, call: Call) {
    && MayArrive(s.in1, call.a1) && MayArrive(s.in2, call.a2) && MayArrive(s.in3, call.a3)
    && Sized(flits, s)
    && HandlerStep(flits, Latch(s, call.a1, call.a2, call.a3), call.after, call.out)
  }

  // ---- whole runs -------------------------------------------------------------------

  function After(flits: nat, calls: seq<Call>): State {
    if calls == [] then Start(flits) else calls[|calls| - 1].after
  }

  ghost predicate IsRun(flits: nat, calls: seq<Call>) {
    calls != [] ==>
      var before := calls[..|calls| - 1];
      IsRun(flits, before) && Steps(flits, After(flits, before), calls[|calls| - 1])
  }

  /** The limbs delivered so far on a port. */
  function Arrived(calls: seq<Call>, port: int): seq<Limb> {
    if calls == [] then []
    else
      var c := calls[|calls| - 1];
      Arrived(calls[..|calls| - 1], port) + FlitLanes(if port == 1 then c.a1 else if port == 2 then c.a2 else c.a3)
  }

  /** The flits delivered so far on a port. */
  function ArrivedFlits(calls: seq<Call>, port: int): seq<Flit> {
    if calls == [] then []
    else
      var c := calls[|calls| - 1];
      var a := if port == 1 then c.a1 else if port == 2 then c.a2 else c.a3;
      ArrivedFlits(calls[..|calls| - 1], port) + (if a.Some? then [a.value] else [])
  }

  function Outputs(calls: seq<Call>): seq<Flit> {
    if calls == [] then []
    else
      var c := calls[|calls| - 1];
      Outputs(calls[..|calls| - 1]) + (if c.out.Some? then [c.out.value] else [])
  }

  /** The operands of one exponentiation. */
  datatype Job = Job(m: seq<Limb>, e: seq<Limb>, n: seq<Limb>)

  function Current(s: State): Job {
    Job(s.m, s.e, s.n)
  }

  /** The jobs whose last output flit has left, in order. */
  function Done(flits: nat, calls: seq<Call>): seq<Job> {
    if calls == [] then []
    else
      var before := calls[..|calls| - 1];
      var s := After(flits, before);
      Done(flits, before) +
      (if s.phase.Emit? && calls[|calls| - 1].after.phase.Collect? then [Current(s)] else [])
  }

  function Operand(job: Job, port: int): seq<Limb> {
    if port == 1 then job.m else if port == 2 then job.e else job.n
  }

  function OperandStream(jobs: seq<Job>, port: int): seq<Limb> {
    if jobs == [] then [] else OperandStream(jobs[..|jobs| - 1], port) + Operand(jobs[|jobs| - 1], port)
  }

  /** m^e mod n in the operand width. */
  function Result(job: Job): (c: seq<Limb>)
    ensures |c| == |job.n|
  {
    if Val(job.n) == 0 then seq(|job.n|, _ => 0)
    else ToLimbs(Pow(Val(job.m), Val(job.e)) % Val(job.n), |job.n|)
  }

  ghost predicate SizedJobs(flits: nat, jobs: seq<Job>) {
    forall k :: 0 <= k < |jobs| ==> |jobs[k].m| == |jobs[k].e| == |jobs[k].n| == 4 * flits
  }

  // ---- the invariant of a run ---------------------------------------------------------

  /** The registers hold n's inverse word and the Montgomery forms of m and of x. */
  ghost predicate Registers(s: State, x: int) {
    IsNegInv(s.nInv, s.n) && Mont(s.mMont, Val(s.m), s.n) && Mont(s.rMont, x, s.n)
  }

  /** m to the power of the bits of e from position i up. */
  function TopPower(s: State, i: int): int {
    if i < 0 then 0 else PowTop(Val(s.m), Val(s.e), i)
  }

  /** What the registers hold in each phase, for an odd modulus. */
  ghost predicate Numeric(s: State) {
    match s.phase
    case Collect => true
    case Init => true
    case FindBit => Registers(s, 1)
    case Square => Registers(s, TopPower(s, s.bitIdx + 1))
    case MaybeMul => Registers(s, TopPower(s, s.bitIdx + 1) * TopPower(s, s.bitIdx + 1))
    case NextBit => Registers(s, TopPower(s, s.bitIdx))
    case Final => Registers(s, TopPower(s, 0))
    case Emit => s.c == Result(Current(s))
  }

  /** The shape of the state in each phase. */
  ghost predicate Shape(flits: nat, s: State) {
    && flits > 0 && Sized(flits, s)
    && s.mIdx <= flits && s.eIdx <= flits && s.nIdx <= flits
    && (s.phase.Collect? <==> !(s.mIdx == s.eIdx == s.nIdx == flits))
    && s.outIdx < flits
    && (!s.phase.Emit? ==> s.outIdx == 0)
    && (s.phase.Square? || s.phase.MaybeMul? || s.phase.NextBit? ==> 0 <= s.bitIdx < 64 * |s.e|)
  }

  ghost predicate StateInv(flits: nat, s: State) {
    Shape(flits, s) && (IsOdd(s.n) ==> Numeric(s))
  }

  lemma StartInv(flits: nat)
    requires flits > 0
    ensures StateInv(flits, Start(flits))
  {
  }

  lemma LatchInv(flits: nat, s: State, a1: Option<Flit>, a2: Option<Flit>, a3: Option<Flit>)
    requires StateInv(flits, s)
    ensures StateInv(flits, Latch(s, a1, a2, a3))
  {
    hide Val, Mont, PowTop, IsNegInv, Result, IsOdd;
  }

  lemma CollectShape(flits: nat, s: State)
    requires Shape(flits, s) && s.phase.Collect?
    ensures Shape(flits, CollectStep(flits, s))
  {
    hide Stored;
  }

  lemma FindBitShape(flits: nat, s: State)
    requires Shape(flits, s) && s.phase.FindBit?
    ensures Shape(flits, FindBitStep(s))
  {
    ValBound(s.e);
    RadixIsPowTwo(|s.e|);
    BitLengthMax(Val(s.e), 64 * |s.e|);
    hide Val, BitLength;
  }

  lemma ShapeKept(flits: nat, s: State, s': State, out: Option<Flit>)
    requires Shape(flits, s) && HandlerStep(flits, s, s', out)
    ensures Shape(flits, s')
  {
    hide Val, Mont, IsNegInv, IsOdd, Stored, BitLength, CollectStep, FindBitStep;
    if s.phase.Collect? {
      CollectShape(flits, s);
    } else if s.phase.FindBit? {
      FindBitShape(flits, s);
    }
  }

  /** An unreduced second factor would be the only way to miss full reduction. */
  lemma ReducedProduct(z: seq<Limb>, a: nat, b: nat, n: seq<Limb>, nInv: Limb)
    requires MontResult(z, a, b, n, nInv) && IsOdd(n) && IsNegInv(nInv, n) && b <= Val(n)
    ensures Val(n) > 0 && IsMontProduct(z, a, b, n)
  {
    OddVal(n);
  }

  lemma NumericFindBit(s: State)
    requires s.phase.FindBit? && Numeric(s)
    ensures Numeric(FindBitStep(s))
  {
    var ve := Val(s.e);
    BitLengthBound(ve);
    PowTopStart(Val(s.m), ve, BitLength(ve));
    hide Val, Mont, IsNegInv, PowTop;
  }

  lemma NumericSquare(s: State, s': State)
    requires s.phase.Square? && IsOdd(s.n) && Numeric(s) && SquareStep(s, s')
    ensures Numeric(s')
  {
    var x := TopPower(s, s.bitIdx + 1);
    hide Val, PowTop;
    ReducedProduct(s'.rMont, Val(s.rMont), Val(s.rMont), s.n, s.nInv);
    MontTimes(s'.rMont, s.rMont, x, s.rMont, x, s.n);
  }

  lemma NumericMaybeMul(s: State, s': State)
    requires s.phase.MaybeMul? && IsOdd(s.n) && Numeric(s) && MaybeMulStep(s, s')
    requires 0 <= s.bitIdx < 64 * |s.e|
    ensures Numeric(s')
  {
    var vm, ve, i := Val(s.m), Val(s.e), s.bitIdx;
    var x := TopPower(s, i + 1);
    PowTopStep(vm, ve, i);
    LimbBit(s.e, i);
    PowBit(vm, BitOf(ve, i));
    hide Val, PowTop;
    if Bit(s.e, i) {
      ReducedProduct(s'.rMont, Val(s.rMont), Val(s.mMont), s.n, s.nInv);
      MontTimes(s'.rMont, s.rMont, x * x, s.mMont, vm, s.n);
    }
  }

  lemma NumericNextBit(s: State)
    requires s.phase.NextBit? && Numeric(s) && s.bitIdx >= 0
    ensures Numeric(NextBitStep(s))
  {
    hide Val, Mont, PowTop, IsNegInv;
  }

  lemma NumericFinal(s: State, s': State)
    requires s.phase.Final? && IsOdd(s.n) && Numeric(s) && FinalStep(s, s')
    ensures Numeric(s')
  {
    OddVal(s.n);
    var v := Pow(Val(s.m), Val(s.e));
    PowTopEnd(Val(s.m), Val(s.e));
    ReducedProduct(s'.c, Val(s.rMont), 1, s.n, s.nInv);
    MontLeave(s'.c, s.rMont, v, s.n);
    ValBound(s.n);
    CongMod(v, Val(s.n));
    ToLimbsVal(v % Val(s.n), |s.n|);
    ValInjective(s'.c, ToLimbs(v % Val(s.n), |s.n|));
  }

  lemma NumericKept(flits: nat, s: State, s': State, out: Option<Flit>)
    requires StateInv(flits, s) && HandlerStep(flits, s, s', out) && !s.phase.Collect? && IsOdd(s.n)
    ensures s'.n == s.n && Numeric(s')
  {
    match s.phase
    case FindBit => NumericFindBit(s);
    case Square => NumericSquare(s, s');
    case MaybeMul => NumericMaybeMul(s, s');
    case NextBit => NumericNextBit(s);
    case Final => NumericFinal(s, s');
    case _ => { hide Val, Registers, TopPower, Result; }
  }

  /** Every handler call keeps the invariant. */
  lemma InvKept(flits: nat, s: State, s': State, out: Option<Flit>)
    requires StateInv(flits, s) && HandlerStep(flits, s, s', out)
    ensures StateInv(flits, s')
  {
    ShapeKept(flits, s, s', out);
    if s.phase.Collect? {
      hide Val, Registers, TopPower, Result, Stored;
    } else if IsOdd(s.n) {
      NumericKept(flits, s, s', out);
    } else {
      hide Val, Registers, TopPower, Result;
    }
  }

  // ---- operands in, results out ---------------------------------------------------------

  /** The limbs of the unfinished operand on a port, and what waits in its latch. */
  function Pending(s: State, port: int): seq<Limb>
    requires 4 * s.mIdx <= |s.m| && 4 * s.eIdx <= |s.e| && 4 * s.nIdx <= |s.n|
  {
    if port == 1 then s.m[..4 * s.mIdx] + FlitLanes(s.in1)
    else if port == 2 then s.e[..4 * s.eIdx] + FlitLanes(s.in2)
    else s.n[..4 * s.nIdx] + FlitLanes(s.in3)
  }

  /** The result of a job, for the odd moduli whose results the algorithm promises. */
  function Promised(job: Job): Option<seq<Limb>> {
    if IsOdd(job.n) then Some(Result(job)) else None
  }

  function PromisedAll(jobs: seq<Job>): seq<Option<seq<Limb>>> {
    seq(|jobs|, k requires 0 <= k < |jobs| => Promised(jobs[k]))
  }

  /** The result being sent. */
  function Sending(s: State): Option<seq<Limb>> {
    if s.phase.Emit? then Promised(Current(s)) else None
  }

  lemma PromisedSizes(flits: nat, jobs: seq<Job>)
    requires SizedJobs(flits, jobs)
    ensures SizedResults(flits, PromisedAll(jobs))
  {
    hide Result, IsOdd;
  }

  /** The outputs are the results of the finished jobs and a part of the current one. */
  ghost predicate OutputsFit(flits: nat, jobs: seq<Job>, s: State, outs: seq<Flit>) {
    && Sized(flits, s) && SizedJobs(flits, jobs) && s.outIdx <= flits
    && SizedResults(flits, PromisedAll(jobs)) && SizedResult(flits, Sending(s))
    && Delivered(flits, PromisedAll(jobs), Sending(s), s.outIdx, outs)
  }

  /**
   * Every flit that arrived belongs to a finished job, to the operand being
   * collected or computed with, or waits in a latch; and the outputs are the
   * framed results of the finished jobs followed by a part of the current one.
   */
  ghost predicate RunInv(flits: nat, calls: seq<Call>) {
    var s, jobs := After(flits, calls), Done(flits, calls);
    && StateInv(flits, s)
    && SizedJobs(flits, jobs)
    && (forall port :: 1 <= port <= 3 ==> Arrived(calls, port) == OperandStream(jobs, port) + Pending(s, port))
    && OutputsFit(flits, jobs, s, Outputs(calls))
  }

  lemma LatchPending(flits: nat, s: State, call: Call, port: int)
    requires Shape(flits, s) && Steps(flits, s, call) && 1 <= port <= 3
    ensures Pending(Latch(s, call.a1, call.a2, call.a3), port)
         == Pending(s, port) + FlitLanes(if port == 1 then call.a1 else if port == 2 then call.a2 else call.a3)
  {
    hide HandlerStep, Lanes;
  }

  lemma CollectPending(flits: nat, s: State, port: int)
    requires Shape(flits, s) && s.phase.Collect? && 1 <= port <= 3
    ensures Shape(flits, CollectStep(flits, s))
    ensures Pending(CollectStep(flits, s), port) == Pending(s, port)
  {
    CollectShape(flits, s);
    TakeMFields(flits, s);
    TakeEFields(flits, TakeM(flits, s));
    TakeNFields(flits, TakeE(flits, TakeM(flits, s)));
    hide Stored, Lanes, Shape, FlitLanes, TakeM, TakeE, TakeN;
  }

  lemma TakeMFields(flits: nat, s: State)
    requires |s.m| == 4 * flits && s.mIdx <= flits
    ensures var t := TakeM(flits, s);
      && t == s.(m := t.m, mIdx := t.mIdx, in1 := t.in1) && |t.m| == |s.m| && t.mIdx <= flits
      && t.m[..4 * t.mIdx] + FlitLanes(t.in1) == s.m[..4 * s.mIdx] + FlitLanes(s.in1)
  {
    if Takes(flits, s.mIdx, s.in1) { TakenPending(s.m, s.mIdx, s.in1.value); }
    hide Stored, FlitLanes;
  }

  lemma TakeEFields(flits: nat, s: State)
    requires |s.e| == 4 * flits && s.eIdx <= flits
    ensures var t := TakeE(flits, s);
      && t == s.(e := t.e, eIdx := t.eIdx, in2 := t.in2) && |t.e| == |s.e| && t.eIdx <= flits
      && t.e[..4 * t.eIdx] + FlitLanes(t.in2) == s.e[..4 * s.eIdx] + FlitLanes(s.in2)
  {
    if Takes(flits, s.eIdx, s.in2) { TakenPending(s.e, s.eIdx, s.in2.value); }
    hide Stored, FlitLanes;
  }

  lemma TakeNFields(flits: nat, s: State)
    requires |s.n| == 4 * flits && s.nIdx <= flits
    ensures var t := TakeN(flits, s);
      && t == s.(n := t.n, nIdx := t.nIdx, in3 := t.in3) && |t.n| == |s.n| && t.nIdx <= flits
      && t.n[..4 * t.nIdx] + FlitLanes(t.in3) == s.n[..4 * s.nIdx] + FlitLanes(s.in3)
  {
    if Takes(flits, s.nIdx, s.in3) { TakenPending(s.n, s.nIdx, s.in3.value); }
    hide Stored, FlitLanes;
  }

  predicate Completes(flits: nat, s: State) {
    s.phase.Emit? && s.outIdx + 1 == flits
  }

  /** After collection the operands stay put until the last flit of the result leaves. */
  lemma WorkPending(flits: nat, s: State, s': State, out: Option<Flit>, port: int)
    requires Shape(flits, s) && HandlerStep(flits, s, s', out) && !s.phase.Collect? && 1 <= port <= 3
    ensures Shape(flits, s')
    ensures Pending(s, port) == (if Completes(flits, s) then Operand(Current(s), port) else []) + Pending(s', port)
    ensures s'.phase.Collect? <==> Completes(flits, s)
    ensures !Completes(flits, s) ==> Current(s') == Current(s)
  {
    ShapeKept(flits, s, s', out);
    assert s.m[..4 * flits] == s.m && s.e[..4 * flits] == s.e && s.n[..4 * flits] == s.n;
    hide InitStep, SquareStep, MaybeMulStep, FinalStep, FlitLanes, BitLength, Val;
    match s.phase
    case Init => InitFrame(s, s');
    case Square => SquareFrame(s, s');
    case MaybeMul => MaybeMulFrame(s, s');
    case Final => FinalFrame(s, s');
    case _ => {}
  }

  lemma InitFrame(s: State, s': State)
    requires InitStep(s, s')
    ensures s' == s.(nInv := s'.nInv, mMont := s'.mMont, rMont := s'.rMont, phase := FindBit)
  {
  }

  lemma SquareFrame(s: State, s': State)
    requires SquareStep(s, s')
    ensures s' == s.(rMont := s'.rMont, phase := MaybeMul)
  {
  }

  lemma MaybeMulFrame(s: State, s': State)
    requires MaybeMulStep(s, s')
    ensures s' == s.(rMont := s'.rMont, phase := NextBit)
  {
  }

  lemma FinalFrame(s: State, s': State)
    requires FinalStep(s, s')
    ensures s' == s.(c := s'.c, phase := Emit)
  {
  }

  lemma StreamsGrow(flits: nat, jobs: seq<Job>, job: Job)
    requires SizedJobs(flits, jobs) && |job.n| == 4 * flits
    ensures forall port {:trigger OperandStream(jobs + [job], port)} ::
              OperandStream(jobs + [job], port) == OperandStream(jobs, port) + Operand(job, port)
  {
    assert (jobs + [job])[..|jobs|] == jobs;
  }

  /** The list of finished jobs grows exactly when a result is complete. */
  lemma DoneStep(flits: nat, before: seq<Call>, call: Call)
    requires Shape(flits, After(flits, before)) && Steps(flits, After(flits, before), call)
    ensures var s := After(flits, before);
      Done(flits, before + [call])
      == Done(flits, before) + (if Completes(flits, s) then [Current(s)] else [])
  {
    var s := After(flits, before);
    var t := Latch(s, call.a1, call.a2, call.a3);
    assert (before + [call])[..|before|] == before;
    hide HandlerStep;
    if !s.phase.Collect? {
      LatchShape(flits, s, call.a1, call.a2, call.a3);
      WorkPending(flits, t, call.after, call.out, 1);
    }
  }

  lemma LatchShape(flits: nat, s: State, a1: Option<Flit>, a2: Option<Flit>, a3: Option<Flit>)
    requires Shape(flits, s)
    ensures Shape(flits, Latch(s, a1, a2, a3))
  {
  }

  lemma CollectOnly(flits: nat, s: State, s': State, out: Option<Flit>)
    requires Sized(flits, s) && HandlerStep(flits, s, s', out) && s.phase.Collect?
    ensures s' == CollectStep(flits, s) && out == None && !s'.phase.Emit?
  {
    hide Stored;
  }

  lemma StepOf(flits: nat, s: State, call: Call)
    requires Steps(flits, s, call)
    ensures HandlerStep(flits, Latch(s, call.a1, call.a2, call.a3), call.after, call.out)
  {
  }

  function Finished(flits: nat, jobs: seq<Job>, s: State): seq<Job> {
    jobs + (if Completes(flits, s) then [Current(s)] else [])
  }

  /** A completed job passes from the operands in use to the finished jobs. */
  lemma CompletedCase(flits: nat, jobs: seq<Job>, s: State, port: int, rest: seq<Limb>)
    requires Sized(flits, s) && SizedJobs(flits, jobs) && Completes(flits, s)
    ensures SizedJobs(flits, Finished(flits, jobs, s))
    ensures OperandStream(jobs, port) + (Operand(Current(s), port) + rest) == OperandStream(Finished(flits, jobs, s), port) + rest
  {
    hide Operand, OperandStream;
    StreamsGrow(flits, jobs, Current(s));
    Regroup(OperandStream(jobs, port), Operand(Current(s), port), rest);
  }

  /** One handler call moves limbs between latch, operand and finished jobs, and loses none. */
  lemma ArrivedCase(flits: nat, jobs: seq<Job>, s: State, s': State, out: Option<Flit>, port: int)
    requires Shape(flits, s) && HandlerStep(flits, s, s', out) && SizedJobs(flits, jobs) && 1 <= port <= 3
    ensures Shape(flits, s') && SizedJobs(flits, Finished(flits, jobs, s))
    ensures OperandStream(jobs, port) + Pending(s, port)
         == OperandStream(Finished(flits, jobs, s), port) + Pending(s', port)
  {
    ShapeKept(flits, s, s', out);
    hide HandlerStep, CollectStep, Operand, Pending, OperandStream, SizedJobs, Current;
    if s.phase.Collect? {
      CollectOnly(flits, s, s', out);
      CollectPending(flits, s, port);
    } else {
      WorkPending(flits, s, s', out, port);
      if Completes(flits, s) {
        CompletedCase(flits, jobs, s, port, Pending(s', port));
      } else {
        assert [] + Pending(s', port) == Pending(s', port);
      }
    }
    assert !Completes(flits, s) ==> Finished(flits, jobs, s) == jobs;
  }

  /** The job that completes is promised what it was sent. */
  lemma PromisedGrow(jobs: seq<Job>, job: Job)
    ensures PromisedAll(jobs + [job]) == PromisedAll(jobs) + [Promised(job)]
  {
  }

  /** A call of the last phase sends one flit of the result. */
  lemma EmitCase(flits: nat, jobs: seq<Job>, s: State, s': State, out: Option<Flit>, outs: seq<Flit>)
    requires StateInv(flits, s) && HandlerStep(flits, s, s', out) && s.phase.Emit?
    requires OutputsFit(flits, jobs, s, outs) && SizedJobs(flits, Finished(flits, jobs, s))
    ensures out.Some? && OutputsFit(flits, Finished(flits, jobs, s), s', outs + [out.value])
  {
    hide Result, OutFlit, Delivered, IsOdd, PromisedAll;
    DeliveredFlit(flits, PromisedAll(jobs), Sending(s), s.outIdx, outs, out.value);
    if Completes(flits, s) {
      PromisedGrow(jobs, Current(s));
      DeliveredJob(flits, PromisedAll(jobs), Sending(s), outs + [out.value]);
    } else {
      assert Finished(flits, jobs, s) == jobs;
    }
  }

  /** A call of any other phase sends nothing, and may begin a result. */
  lemma SilentCase(flits: nat, jobs: seq<Job>, s: State, s': State, outs: seq<Flit>)
    requires OutputsFit(flits, jobs, s, outs) && Sized(flits, s')
    requires !s.phase.Emit? && s.outIdx == s'.outIdx == 0
    ensures OutputsFit(flits, jobs, s', outs)
  {
    hide Result, Delivered, IsOdd, PromisedAll;
    DeliveredNext(flits, PromisedAll(jobs), Sending(s), Sending(s'), outs);
  }

  /** What a call outputs belongs to the current result. */
  lemma OutputsCase(flits: nat, jobs: seq<Job>, s: State, s': State, out: Option<Flit>, outs: seq<Flit>)
    requires StateInv(flits, s) && HandlerStep(flits, s, s', out) && OutputsFit(flits, jobs, s, outs)
    requires SizedJobs(flits, Finished(flits, jobs, s))
    ensures OutputsFit(flits, Finished(flits, jobs, s), s', outs + if out.Some? then [out.value] else [])
  {
    ShapeOf(flits, s);
    ShapeKept(flits, s, s', out);
    if s.phase.Emit? {
      hide OutputsFit, HandlerStep, StateInv, Shape;
      EmitCase(flits, jobs, s, s', out, outs);
    } else {
      SilentStep(flits, s, s', out);
      hide OutputsFit, HandlerStep, StateInv;
      SilentCase(flits, jobs, s, s', outs);
      assert Finished(flits, jobs, s) == jobs;
      assert outs + [] == outs;
    }
  }

  lemma SilentStep(flits: nat, s: State, s': State, out: Option<Flit>)
    requires Shape(flits, s) && HandlerStep(flits, s, s', out) && !s.phase.Emit?
    ensures out == None && s'.outIdx == s.outIdx == 0
  {
    hide Stored, InitStep, SquareStep, MaybeMulStep, FinalStep;
    match s.phase
    case Init => InitFrame(s, s');
    case Square => SquareFrame(s, s');
    case MaybeMul => MaybeMulFrame(s, s');
    case Final => FinalFrame(s, s');
    case _ => {}
  }

  lemma LatchFrame(flits: nat, s: State, a1: Option<Flit>, a2: Option<Flit>, a3: Option<Flit>)
    requires Sized(flits, s)
    ensures var t := Latch(s, a1, a2, a3);
      && Sized(flits, t) && t.phase == s.phase && t.outIdx == s.outIdx && Current(t) == Current(s) && Sending(t) == Sending(s)
      && forall jobs :: Finished(flits, jobs, t) == Finished(flits, jobs, s)
  {
    hide Result, Framed;
  }

  lemma RunStepArrivals(flits: nat, before: seq<Call>, call: Call, port: int)
    requires RunInv(flits, before) && Steps(flits, After(flits, before), call) && 1 <= port <= 3
    ensures Shape(flits, call.after)
    ensures var jobs := Finished(flits, Done(flits, before), After(flits, before));
      SizedJobs(flits, jobs) && Arrived(before + [call], port) == OperandStream(jobs, port) + Pending(call.after, port)
  {
    hide Steps, HandlerStep, StateInv, Shape, Sized, Done, Finished, Operand, Pending, OperandStream, SizedJobs, FlitLanes;
    var s := After(flits, before);
    var t := Latch(s, call.a1, call.a2, call.a3);
    assert (before + [call])[..|before|] == before;
    ShapeOf(flits, s);
    LatchShape(flits, s, call.a1, call.a2, call.a3);
    SizedOf(flits, s);
    LatchFrame(flits, s, call.a1, call.a2, call.a3);
    StepOf(flits, s, call);
    LatchPending(flits, s, call, port);
    ArrivedCase(flits, Done(flits, before), t, call.after, call.out, port);
  }

  lemma RunStepOutputs(flits: nat, before: seq<Call>, call: Call)
    requires RunInv(flits, before) && Steps(flits, After(flits, before), call)
    requires SizedJobs(flits, Finished(flits, Done(flits, before), After(flits, before)))
    ensures OutputsFit(flits, Finished(flits, Done(flits, before), After(flits, before)), call.after, Outputs(before + [call]))
  {
    hide Steps, HandlerStep, StateInv, Shape, Sized, Done, Finished, SizedJobs, IsOdd, Sending, Delivered, PromisedAll;
    var s := After(flits, before);
    var t := Latch(s, call.a1, call.a2, call.a3);
    assert (before + [call])[..|before|] == before;
    ShapeOf(flits, s);
    SizedOf(flits, s);
    LatchInv(flits, s, call.a1, call.a2, call.a3);
    LatchFrame(flits, s, call.a1, call.a2, call.a3);
    StepOf(flits, s, call);
    OutputsCase(flits, Done(flits, before), t, call.after, call.out, Outputs(before));
  }

  /** The invariant after one more call. */
  lemma RunStep(flits: nat, before: seq<Call>, call: Call)
    requires RunInv(flits, before) && Steps(flits, After(flits, before), call)
    ensures RunInv(flits, before + [call])
  {
    var s, jobs := After(flits, before), Done(flits, before);
    var calls := before + [call];
    ShapeOf(flits, s);
    DoneStep(flits, before, call);
    LatchInv(flits, s, call.a1, call.a2, call.a3);
    StepOf(flits, s, call);
    InvKept(flits, Latch(s, call.a1, call.a2, call.a3), call.after, call.out);
    assert Done(flits, calls) == Finished(flits, jobs, s);
    hide Steps, HandlerStep, Done, Finished, Operand, Pending, OperandStream, OutputsFit, StateInv, SizedJobs;
    forall port | 1 <= port <= 3
      ensures Shape(flits, call.after) && SizedJobs(flits, Done(flits, calls))
      ensures Arrived(calls, port) == OperandStream(Done(flits, calls), port) + Pending(call.after, port)
    {
      RunStepArrivals(flits, before, call, port);
    }
    RunStepArrivals(flits, before, call, 1);
    RunStepOutputs(flits, before, call);
  }

  lemma SizedOf(flits: nat, s: State)
    requires Shape(flits, s)
    ensures Sized(flits, s) && s.mIdx <= flits && s.eIdx <= flits && s.nIdx <= flits
  {
  }

  lemma ShapeOf(flits: nat, s: State)
    requires StateInv(flits, s)
    ensures Shape(flits, s)
  {
  }

  lemma EmptyRun(flits: nat)
    requires flits > 0
    ensures RunInv(flits, [])
  {
    StartInv(flits);
    NothingDelivered(flits, None);
    hide Numeric, IsOdd;
  }

  /** The invariant holds after every run. */
  lemma {:induction false} RunKeepsInv(flits: nat, calls: seq<Call>)
    requires flits > 0 && IsRun(flits, calls)
    ensures RunInv(flits, calls)
    decreases |calls|
  {
    hide RunInv, Steps;
    if calls == [] {
      EmptyRun(flits);
    } else {
      var before, call := calls[..|calls| - 1], calls[|calls| - 1];
      RunKeepsInv(flits, before);
      RunStep(flits, before, call);
      assert calls == before + [call];
    }
  }

  lemma {:induction false} OperandStreamLength(flits: nat, jobs: seq<Job>, port: int)
    requires SizedJobs(flits, jobs)
    ensures |OperandStream(jobs, port)| == |jobs| * (4 * flits)
  {
    if jobs != [] {
      OperandStreamLength(flits, jobs[..|jobs| - 1], port);
      GroupStart(|jobs| - 1, |jobs|, 4 * flits);
    }
  }

  /** The operands of job k are the k-th group of limbs that arrived on each port. */
  lemma {:induction false} KthOperand(flits: nat, jobs: seq<Job>, port: int, k: nat, rest: seq<Limb>)
    requires SizedJobs(flits, jobs) && k < |jobs|
    ensures IsGroup(OperandStream(jobs, port) + rest, k, Operand(jobs[k], port))
    decreases |jobs|
  {
    var init, last := jobs[..|jobs| - 1], jobs[|jobs| - 1];
    OperandStreamLength(flits, init, port);
    assert |Operand(jobs[k], port)| == |Operand(last, port)| == 4 * flits;
    hide IsGroup;
    if k < |init| {
      KthOperand(flits, init, port, k, []);
      assert OperandStream(init, port) + [] == OperandStream(init, port);
      EarlierGroup(OperandStream(init, port), Operand(last, port) + rest, k, Operand(jobs[k], port));
      Regroup(OperandStream(init, port), Operand(last, port), rest);
    } else {
      LastGroup(OperandStream(init, port), Operand(last, port), rest, k);
    }
  }

  lemma KthOutput(flits: nat, jobs: seq<Job>, s: State, outs: seq<Flit>, k: nat)
    requires OutputsFit(flits, jobs, s, outs) && k < |jobs|
    ensures |outs| == |jobs| * flits + s.outIdx && |Result(jobs[k])| == 4 * flits
    ensures IsOdd(jobs[k].n) ==> IsGroup(outs, k, Framed(flits, Result(jobs[k]), flits))
  {
    hide IsGroup, Framed, Result, IsOdd;
    assert PromisedAll(jobs)[k] == Promised(jobs[k]);
  }

  /**
   * Over every run, whatever the order and timing of arrivals and whatever the other jobs are:
   * finished job k took the k-th operands that arrived on the three ports, each job sends exactly
   * `flits` flits, and if its modulus is odd the k-th group of them is the framed m^e mod n.
   */
  lemma RunComputesPowers(flits: nat, calls: seq<Call>, k: nat)
    requires flits > 0 && IsRun(flits, calls) && k < |Done(flits, calls)|
    ensures var jobs := Done(flits, calls); var job := jobs[k];
      && |job.m| == |job.e| == |job.n| == 4 * flits
      && (forall port :: 1 <= port <= 3 ==> IsGroup(Arrived(calls, port), k, Operand(job, port)))
      && |Outputs(calls)| == |jobs| * flits + After(flits, calls).outIdx
      && (IsOdd(job.n) ==> IsGroup(Outputs(calls), k, Framed(flits, Result(job), flits)))
  {
    RunKeepsInv(flits, calls);
    var s, jobs := After(flits, calls), Done(flits, calls);
    hide StateInv, Shape, Done, IsRun, Framed, Result, Operand, Arrived, IsGroup, Pending, OutputsFit, IsOdd;
    ShapeOf(flits, s);
    SizedOf(flits, s);
    forall port | 1 <= port <= 3
      ensures IsGroup(Arrived(calls, port), k, Operand(jobs[k], port))
    {
      KthOperand(flits, jobs, port, k, Pending(s, port));
    }
    KthOutput(flits, jobs, s, Outputs(calls), k);
  }

  lemma {:induction false} ArrivedLanes(calls: seq<Call>, port: int)
    ensures Arrived(calls, port) == LanesOf(ArrivedFlits(calls, port))
  {
    if calls != [] {
      hide Lanes;
      var init := calls[..|calls| - 1];
      ArrivedLanes(init, port);
      var c := calls[|calls| - 1];
      var a := if port == 1 then c.a1 else if port == 2 then c.a2 else c.a3;
      if a.Some? {
        LanesOfOne(ArrivedFlits(init, port), a.value);
      } else {
        assert ArrivedFlits(init, port) + [] == ArrivedFlits(init, port) && Arrived(init, port) + [] == Arrived(init, port);
      }
    }
  }

  /**
   * Over every run, on the flits themselves: with m, e and n the numbers carried by the k-th group of flits that
   * arrived on ports 1, 2 and 3, the k-th group of output flits carries m^e mod n if n is odd, framed at its ends.
   */
  lemma RunComputesOnFlits(flits: nat, calls: seq<Call>, k: nat)
    requires flits > 0 && IsRun(flits, calls) && k < |Done(flits, calls)|
    ensures forall port :: 1 <= port <= 3 ==> 0 <= k * flits <= k * flits + flits <= |ArrivedFlits(calls, port)|
    ensures 0 <= k * flits <= k * flits + flits <= |Outputs(calls)|
    ensures var m, e, n := GroupNumber(ArrivedFlits(calls, 1), flits, k), GroupNumber(ArrivedFlits(calls, 2), flits, k), GroupNumber(ArrivedFlits(calls, 3), flits, k);
      m >= 0 && e >= 0 && n >= 0 && (n % 2 == 1 ==>
        && GroupNumber(Outputs(calls), flits, k) == Pow(m, e) % n
        && FlagsAtEnds(Outputs(calls)[k * flits..k * flits + flits]))
  {
    RunComputesPowers(flits, calls, k);
    var jobs := Done(flits, calls);
    var job := jobs[k];
    forall port | 1 <= port <= 3
      ensures 0 <= k * flits <= k * flits + flits <= |ArrivedFlits(calls, port)|
      ensures Val(Operand(job, port)) == GroupNumber(ArrivedFlits(calls, port), flits, k)
    {
      ArrivedLanes(calls, port);
      GroupOperand(ArrivedFlits(calls, port), flits, k, Operand(job, port));
    }
    assert Operand(job, 1) == job.m && Operand(job, 2) == job.e && Operand(job, 3) == job.n;
    ParityOfVal(job.n);
    GroupStart(k, |jobs|, flits);
    if IsOdd(job.n) {
      OddVal(job.n);
      FramedGroup(Outputs(calls), flits, k, Result(job));
      ResultValue(job);
    }
  }

  lemma ResultValue(job: Job)
    requires IsOdd(job.n)
    ensures Val(job.n) > 0 && Val(Result(job)) == Pow(Val(job.m), Val(job.e)) % Val(job.n)
  {
    OddVal(job.n);
    hide Pow;
    var v := Pow(Val(job.m), Val(job.e));
    ValBound(job.n);
    CongMod(v, Val(job.n));
    ToLimbsVal(v % Val(job.n), |job.n|);
  }

  // ---- when a job begins ------------------------------------------------------------------------

  /** A call made while collecting leaves a flit in a latch only when the operand of its port is complete. */
  lemma CollectDrains(flits: nat, s: State)
    requires Shape(flits, s) && s.phase.Collect?
    ensures var t := CollectStep(flits, s);
      && (t.in1.Some? ==> t.mIdx == flits) && (t.in2.Some? ==> t.eIdx == flits) && (t.in3.Some? ==> t.nIdx == flits)
      && (t.phase.Init? <==> t.mIdx == flits && t.eIdx == flits && t.nIdx == flits)
  {
    hide Stored;
  }

  function Index(s: State, port: int): nat {
    if port == 1 then s.mIdx else if port == 2 then s.eIdx else s.nIdx
  }

  function LatchOf(s: State, port: int): Option<Flit> {
    if port == 1 then s.in1 else if port == 2 then s.in2 else s.in3
  }

  function Waiting(s: State, port: int): nat {
    if LatchOf(s, port).Some? then 1 else 0
  }

  lemma PendingLength(flits: nat, s: State, port: int)
    requires Sized(flits, s) && s.mIdx <= flits && s.eIdx <= flits && s.nIdx <= flits && 1 <= port <= 3
    ensures |Pending(s, port)| == 4 * Index(s, port) + 4 * Waiting(s, port)
  {
  }

  lemma QuarterCount(x: nat, n: nat, f: nat, g: nat, i: nat)
    requires 4 * x == n * g + 4 * i && g == 4 * f
    ensures x == n * f + i
  {
    FourTimes(n, f, g);
  }

  /** Every flit that arrived on a port is one of a finished operand, of the current one, or in the latch. */
  lemma ArrivedCount(flits: nat, calls: seq<Call>, port: int)
    requires flits > 0 && IsRun(flits, calls) && 1 <= port <= 3
    ensures var s := After(flits, calls);
      |ArrivedFlits(calls, port)| == |Done(flits, calls)| * flits + (Index(s, port) + Waiting(s, port))
  {
    hide StateInv, Shape, Sized, Done, IsRun, OperandStream, OutputsFit, LanesOf, ArrivedFlits, Arrived, Pending, SizedJobs, Index, Waiting;
    RunKeepsInv(flits, calls);
    ArrivedLanes(calls, port);
    var s, jobs := After(flits, calls), Done(flits, calls);
    ShapeOf(flits, s);
    SizedOf(flits, s);
    OperandStreamLength(flits, jobs, port);
    PendingLength(flits, s, port);
    QuarterCount(|ArrivedFlits(calls, port)|, |jobs|, flits, 4 * flits, Index(s, port) + Waiting(s, port));
  }

  lemma RunLast(flits: nat, before: seq<Call>, call: Call)
    requires IsRun(flits, before + [call])
    ensures IsRun(flits, before) && Steps(flits, After(flits, before), call) && After(flits, before + [call]) == call.after
  {
    assert (before + [call])[..|before|] == before;
  }

  /** What a call made while collecting leaves. */
  lemma CollectOutcome(flits: nat, before: seq<Call>, call: Call)
    requires RunInv(flits, before) && Steps(flits, After(flits, before), call) && After(flits, before).phase.Collect?
    ensures var t := call.after;
      && Done(flits, before + [call]) == Done(flits, before) && (t.phase.Init? || t.phase.Collect?)
      && (forall port :: 1 <= port <= 3 ==> Index(t, port) <= flits && (Waiting(t, port) > 0 ==> Index(t, port) == flits))
      && (t.phase.Init? <==> forall port :: 1 <= port <= 3 ==> Index(t, port) == flits)
  {
    hide IsRun, HandlerStep, CollectStep, StateInv, Done, Numeric, Stored;
    var s := After(flits, before);
    var t := Latch(s, call.a1, call.a2, call.a3);
    ShapeOf(flits, s);
    LatchShape(flits, s, call.a1, call.a2, call.a3);
    StepOf(flits, s, call);
    CollectOnly(flits, t, call.after, call.out);
    CollectDrains(flits, t);
    CollectShape(flits, t);
    DoneStep(flits, before, call);
    assert Index(call.after, 1) == call.after.mIdx && Index(call.after, 2) == call.after.eIdx && Index(call.after, 3) == call.after.nIdx;
  }

  lemma FullWhen(x: nat, base: int, i: nat, w: nat, f: nat)
    requires x == base + (i + w) && i <= f && w <= 1 && (w > 0 ==> i == f)
    ensures i == f <==> x >= base + f
  {
  }

  lemma PortFull(flits: nat, before: seq<Call>, call: Call, port: int, base: int)
    requires flits > 0 && IsRun(flits, before + [call]) && After(flits, before + [call]) == call.after && 1 <= port <= 3
    requires Done(flits, before + [call]) == Done(flits, before) && base == |Done(flits, before)| * flits
    requires Index(call.after, port) <= flits && (Waiting(call.after, port) > 0 ==> Index(call.after, port) == flits)
    ensures Index(call.after, port) == flits <==> |ArrivedFlits(before + [call], port)| >= base + flits
  {
    hide IsRun, ArrivedFlits, Done, After;
    ArrivedCount(flits, before + [call], port);
    FullWhen(|ArrivedFlits(before + [call], port)|, base, Index(call.after, port), Waiting(call.after, port), flits);
  }

  /**
   * A call made while collecting ends the collection exactly when all three operands of the next job have arrived:
   * no flit is left waiting that the job needs.
   */
  lemma BeginsWhenArrived(flits: nat, before: seq<Call>, call: Call)
    requires flits > 0 && IsRun(flits, before + [call]) && After(flits, before).phase.Collect?
    ensures call.after.phase.Init? || call.after.phase.Collect?
    ensures call.after.phase.Init? <==>
      forall port :: 1 <= port <= 3 ==> |ArrivedFlits(before + [call], port)| >= |Done(flits, before)| * flits + flits
  {
    hide IsRun, Steps, RunInv, ArrivedFlits, Done, Index, Waiting, After;
    RunLast(flits, before, call);
    RunKeepsInv(flits, before);
    CollectOutcome(flits, before, call);
    var base := |Done(flits, before)| * flits;
    PortFull(flits, before, call, 1, base);
    PortFull(flits, before, call, 2, base);
    PortFull(flits, before, call, 3, base);
    assert call.after.phase.Init? <==> Index(call.after, 1) == flits && Index(call.after, 2) == flits && Index(call.after, 3) == flits;
  }

  // ---- the number of calls -----------------------------------------------------------------

  /** Calls still to come until the last output flit of the job has left. */
  function Remaining(flits: nat, s: State): int {
    match s.phase
    case Collect => 0
    case Init => 3 + 3 * BitLength(Val(s.e)) + flits
    case FindBit => 2 + 3 * BitLength(Val(s.e)) + flits
    case Square => 3 * (s.bitIdx + 1) + 1 + flits
    case MaybeMul => 3 * s.bitIdx + 3 + flits
    case NextBit => 3 * s.bitIdx + 2 + flits
    case Final => 1 + flits
    case Emit => flits - s.outIdx
  }

  /** Every call after collection brings the job one call closer to its end, whatever arrives meanwhile. */
  lemma CountsDown(flits: nat, s: State, call: Call)
    requires Shape(flits, s) && Steps(flits, s, call) && !s.phase.Collect?
    ensures Shape(flits, call.after) && Remaining(flits, s) > 0
    ensures Remaining(flits, call.after) == Remaining(flits, s) - 1
    ensures call.after.phase.Collect? <==> Remaining(flits, s) == 1
    ensures call.out.Some? <==> Remaining(flits, s) <= flits
    ensures call.out.Some? ==> (call.out.value.sop <==> Remaining(flits, s) == flits)
    ensures call.out.Some? ==> (call.out.value.eop <==> Remaining(flits, s) == 1)
    ensures call.after.phase.Collect? ==>
              call.after.mIdx == call.after.eIdx == call.after.nIdx == call.after.outIdx == 0
  {
    var t := Latch(s, call.a1, call.a2, call.a3);
    LatchShape(flits, s, call.a1, call.a2, call.a3);
    StepOf(flits, s, call);
    ShapeKept(flits, t, call.after, call.out);
    hide Val, Steps, InitStep, SquareStep, MaybeMulStep, FinalStep;
    match s.phase
    case Init => InitFrame(t, call.after);
    case Square => SquareFrame(t, call.after);
    case MaybeMul => MaybeMulFrame(t, call.after);
    case Final => FinalFrame(t, call.after);
    case _ => {}
  }

  ghost predicate RunFrom(flits: nat, s: State, calls: seq<Call>)
    decreases |calls|
  {
    calls != [] ==> Steps(flits, s, calls[0]) && RunFrom(flits, calls[0].after, calls[1..])
  }

  /**
   * From the call after collection on, the element is busy for exactly
   * Remaining calls, outputs in exactly the last `flits` of them, and is then
   * ready to collect again.
   */
  lemma {:induction false} ExactCalls(flits: nat, s: State, calls: seq<Call>)
    requires Shape(flits, s) && !s.phase.Collect? && RunFrom(flits, s, calls)
    requires |calls| == Remaining(flits, s)
    ensures |calls| > 0
    ensures forall i :: 0 <= i < |calls| ==> (calls[i].after.phase.Collect? <==> i == |calls| - 1)
    ensures forall i :: 0 <= i < |calls| ==> (calls[i].out.Some? <==> |calls| - flits <= i)
    ensures var last := calls[|calls| - 1];
      && last.out.Some? && last.out.value.eop
      && last.after.mIdx == last.after.eIdx == last.after.nIdx == last.after.outIdx == 0
    decreases |calls|
  {
    hide Steps, Shape;
    FlitsPositive(flits, s);
    CountsDown2(flits, s, calls);
    if |calls| > 1 {
      var rest := calls[1..];
      ExactCalls(flits, calls[0].after, rest);
      assert forall i :: 1 <= i < |calls| ==> calls[i] == rest[i - 1];
    }
  }

  lemma FlitsPositive(flits: nat, s: State)
    requires Shape(flits, s)
    ensures flits > 0
  {
  }

  lemma CountsDown2(flits: nat, s: State, calls: seq<Call>)
    requires Shape(flits, s) && !s.phase.Collect? && RunFrom(flits, s, calls)
    requires |calls| == Remaining(flits, s)
    ensures |calls| > 0
    ensures var call := calls[0];
      && Shape(flits, call.after) && Remaining(flits, call.after) == |calls| - 1
      && (call.after.phase.Collect? <==> |calls| == 1)
      && (call.out.Some? <==> |calls| <= flits)
      && (call.out.Some? ==> (call.out.value.eop <==> |calls| == 1))
      && (call.after.phase.Collect? ==> call.after.mIdx == call.after.eIdx == call.after.nIdx == call.after.outIdx == 0)
  {
    RemainingPositive(flits, s);
    hide Remaining, Steps, Shape;
    CountsDown(flits, s, calls[0]);
  }

  lemma RemainingPositive(flits: nat, s: State)
    requires Shape(flits, s) && !s.phase.Collect?
    ensures Remaining(flits, s) > 0
  {
  }
}
