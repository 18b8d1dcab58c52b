/** The element itself: its buffers, its handler, and the wrapper iteration that calls it. */
module RsaElement {
  import opened Arith
  import opened Limbs
  import opened BigInt
  import opened ModExp
  import opened Options
  import opened LimbFlits
  import opened RsaMachine

  class RsaModExp {
    const flits: nat
    const mBuf: array<Limb>
    const eBuf: array<Limb>
    const nBuf: array<Limb>
    const cBuf: array<Limb>
    const mMont: array<Limb>
    const rMont: array<Limb>
    var phase: Phase
    var mIdx: nat
    var eIdx: nat
    var nIdx: nat
    var outIdx: nat
    var bitIdx: int
    var nInv: Limb
    // input latches of the wrapper
    var in1: Option<Flit>
    var in2: Option<Flit>
    var in3: Option<Flit>

    /** Six buffers of the operand width, none of them shared. */
    ghost predicate Valid() {
      && flits > 0
      && mBuf.Length == eBuf.Length == nBuf.Length == cBuf.Length == mMont.Length == rMont.Length == 4 * flits
      && mBuf != eBuf && mBuf != nBuf && mBuf != cBuf && mBuf != mMont && mBuf != rMont
      && eBuf != nBuf && eBuf != cBuf && eBuf != mMont && eBuf != rMont
      && nBuf != cBuf && nBuf != mMont && nBuf != rMont
      && cBuf != mMont && cBuf != rMont && mMont != rMont
    }

    ghost function Buffers(): set<object> {
      {mBuf, eBuf, nBuf, cBuf, mMont, rMont}
    }

    ghost function Abs(): State
      reads this, Buffers()
    {
      State(phase, mIdx, eIdx, nIdx, outIdx, bitIdx,
            mBuf[..], eBuf[..], nBuf[..], cBuf[..], mMont[..], rMont[..], nInv, in1, in2, in3)
    }

    constructor (flits: nat)
      requires flits > 0
      ensures Valid() && this.flits == flits && Abs() == Start(flits) && fresh(Buffers())
    {
      this.flits := flits;
      mBuf, eBuf := new Limb[4 * flits](_ => 0), new Limb[4 * flits](_ => 0);
      nBuf, cBuf := new Limb[4 * flits](_ => 0), new Limb[4 * flits](_ => 0);
      mMont, rMont := new Limb[4 * flits](_ => 0), new Limb[4 * flits](_ => 0);
      phase, bitIdx, nInv := Collect, 0, 0;
      mIdx, eIdx, nIdx, outIdx := 0, 0, 0, 0;
      in1, in2, in3 := None, None, None;
    }

    method CollectM()
      requires Valid() && mIdx <= flits
      modifies this`mIdx, this`in1, mBuf
      ensures Abs() == TakeM(flits, old(Abs()))
    {
      hide Stored;
      if mIdx < flits && in1.Some? {
        StoreFlit(mBuf, mIdx, in1.value);
        in1 := None;
        mIdx := mIdx + 1;
      }
    }

    method CollectE()
      requires Valid() && eIdx <= flits
      modifies this`eIdx, this`in2, eBuf
      ensures Abs() == TakeE(flits, old(Abs()))
    {
      hide Stored;
      if eIdx < flits && in2.Some? {
        StoreFlit(eBuf, eIdx, in2.value);
        in2 := None;
        eIdx := eIdx + 1;
      }
    }

    method CollectN()
      requires Valid() && nIdx <= flits
      modifies this`nIdx, this`in3, nBuf
      ensures Abs() == TakeN(flits, old(Abs()))
    {
      hide Stored;
      if nIdx < flits && in3.Some? {
        StoreFlit(nBuf, nIdx, in3.value);
        in3 := None;
        nIdx := nIdx + 1;
      }
    }

    method CollectHandler()
      requires Valid() && Shape(flits, Abs()) && phase.Collect?
      modifies this, mBuf, eBuf, nBuf
      ensures Abs() == CollectStep(flits, old(Abs()))
    {
      hide TakeM, TakeE, TakeN;
      CollectM();
      CollectE();
      CollectN();
      if mIdx == flits && eIdx == flits && nIdx == flits {
        phase := Init;
      }
    }

    method InitHandler()
      requires Valid() && phase.Init?
      modifies this`phase, this`nInv, mMont, rMont
      ensures InitStep(old(Abs()), Abs())
    {
      hide Val, Cong, Radix;
      var n, m := nBuf[..], mBuf[..];
      nInv := ComputeNInv(n);
      var r2 := ComputeR2ModN(n);
      var r := ComputeRModN(n);
      var mm := MontMul(m, r2, n, nInv);
      CopyInto(mMont, mm);
      CopyInto(rMont, r);
      phase := FindBit;
      if IsOdd(n) {
        OddVal(n);
        InitRegisters(mm, r, Val(m), r2, n, nInv);
      }
    }

    method FindBitHandler()
      requires Valid() && phase.FindBit?
      modifies this`phase, this`bitIdx
      ensures Abs() == FindBitStep(old(Abs()))
    {
      hide Val, BitLength;
      var len := BitLen(eBuf[..]);
      bitIdx := len as int - 1;
      phase := if bitIdx < 0 then Final else Square;
    }

    method SquareHandler()
      requires Valid() && phase.Square?
      modifies this`phase, rMont
      ensures SquareStep(old(Abs()), Abs())
    {
      hide Val, Cong, Radix, IsNegInv;
      var r := rMont[..];
      var sq := MontMul(r, r, nBuf[..], nInv);
      CopyInto(rMont, sq);
      phase := MaybeMul;
    }

    method MaybeMulHandler()
      requires Valid() && phase.MaybeMul? && bitIdx >= 0
      modifies this`phase, rMont
      ensures MaybeMulStep(old(Abs()), Abs())
    {
      hide Val, Cong, Radix, IsNegInv, Bit;
      if Bit(eBuf[..], bitIdx) {
        var mu := MontMul(rMont[..], mMont[..], nBuf[..], nInv);
        CopyInto(rMont, mu);
      }
      phase := NextBit;
    }

    method FinalHandler()
      requires Valid() && phase.Final?
      modifies this`phase, cBuf
      ensures FinalStep(old(Abs()), Abs())
    {
      hide Val, Cong, Radix, IsNegInv;
      var c := MontMul(rMont[..], One(4 * flits), nBuf[..], nInv);
      CopyInto(cBuf, c);
      phase := Emit;
    }

    method EmitHandler() returns (out: Option<Flit>)
      requires Valid() && phase.Emit? && outIdx < flits
      modifies this
      ensures Abs() == EmitStep(flits, old(Abs())) && out == Some(OutFlit(flits, old(Abs()).c, old(Abs()).outIdx))
    {
      var lanes: seq<Limb> := [];
      for i := 0 to 4
        invariant |lanes| == i && forall k :: 0 <= k < i ==> lanes[k] == cBuf[outIdx * 4 + k]
      {
        lanes := lanes + [cBuf[outIdx * 4 + i]];
      }
      out := Some(Flit(lanes[0], lanes[1], lanes[2], lanes[3], outIdx == 0, outIdx + 1 == flits));
      outIdx := outIdx + 1;
      if outIdx == flits {
        mIdx, eIdx, nIdx, outIdx := 0, 0, 0, 0;
        phase := Collect;
      }
    }

    /** One wrapper iteration: read into the free latches, then call the handler. */
    method Iterate(a1: Option<Flit>, a2: Option<Flit>, a3: Option<Flit>) returns (out: Option<Flit>)
      requires Valid() && Shape(flits, Abs())
      requires MayArrive(in1, a1) && MayArrive(in2, a2) && MayArrive(in3, a3)
      modifies this, Buffers()
      ensures Steps(flits, old(Abs()), Call(a1, a2, a3, Abs(), out))
      ensures Shape(flits, Abs())
    {
      ghost var s := Abs();
      if in1.None? { in1 := a1; }
      if in2.None? { in2 := a2; }
      if in3.None? { in3 := a3; }
      ghost var t := Abs();
      assert t == Latch(s, a1, a2, a3);
      LatchShape(flits, s, a1, a2, a3);
      out := Handler();
      ShapeKept(flits, t, Abs(), out);
    }

    method Handler() returns (out: Option<Flit>)
      requires Valid() && Shape(flits, Abs())
      modifies this, Buffers()
      ensures HandlerStep(flits, old(Abs()), Abs(), out)
    {
      hide Val, InitStep, SquareStep, MaybeMulStep, FinalStep, CollectStep, FindBitStep;
      out := None;
      if phase == Collect {
        CollectHandler();
      } else if phase == Init {
        InitHandler();
      } else if phase == FindBit {
        FindBitHandler();
      } else if phase == Square {
        SquareHandler();
      } else if phase == MaybeMul {
        MaybeMulHandler();
      } else if phase == NextBit {
        bitIdx := bitIdx - 1;
        phase := if bitIdx < 0 then Final else Square;
      } else if phase == Final {
        FinalHandler();
      } else if phase == Emit && outIdx < flits {
        out := EmitHandler();
      }
    }
  }
}
