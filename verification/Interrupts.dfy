// internal/cpu/core.go: when an interrupt is taken and what taking it leaves, bit by bit.
module Interrupts {
  import opened Words
  import opened WordBits
  import M = Mips32
  import S = Stepping

  /** Bit k of Cause is requested: a line raised, or the timer on the eighth of them. */
  predicate Pending(s: S.Snap, k: nat) {
    8 <= k < 16 && (Bit(s.lines, k - 8) || (k == 15 && s.timer))
  }

  // ---- The masks ----------------------------------------------------------------------------

  lemma LowBytes()
    ensures SetBits(0xFF00, 0, 32) == SetBits(0xFF, 8, 24)
    ensures SetBits(0x8000, 0, 32) == SetBits(0x80, 8, 24)
  {
    hide SetBits;
    NextNibble(0xFF00, 0, 32);
    NextNibble(0xFF0, 4, 28);
    NextNibble(0x8000, 0, 32);
    NextNibble(0x800, 4, 28);
  }

  lemma CauseByte()
    ensures SetBits(0xFF7C, 0, 32) == SetBits(0xFF, 8, 24) + {2, 3, 4, 5, 6}
  {
    hide SetBits;
    NextNibble(0xFF7C, 0, 32);
    NextNibble(0xFF7, 4, 28);
  }

  lemma HighByte()
    ensures SetBits(0xFF, 8, 24) == {8, 9, 10, 11, 12, 13, 14, 15}
  {
    hide SetBits;
    NextNibble(0xFF, 8, 24);
    NextNibble(0xF, 12, 20);
    NothingSet(16, 16);
  }

  lemma TopOfHighByte()
    ensures SetBits(0x80, 8, 24) == {15}
  {
    hide SetBits;
    NextNibble(0x80, 8, 24);
    NextNibble(0x8, 12, 20);
    NothingSet(16, 16);
  }

  lemma {:induction false} NothingSet(k: nat, n: nat)
    ensures SetBits(0, k, n) == {}
    decreases n
  {
    if n > 0 { NothingSet(k + 1, n - 1); }
  }

  lemma MaskBits(k: nat)
    requires k < 32
    ensures Bit(0xFF00, k) <==> 8 <= k < 16
    ensures Bit(0x8000, k) <==> k == 15
    ensures Bit(0xFFFF_0083, k) <==> k < 2 || k == 7 || k >= 16
  {
    hide Bit, SetBits;
    LowBytes();
    CauseByte();
    HighByte();
    TopOfHighByte();
    SetBitsHas(0xFF00, 0, 32, k);
    SetBitsHas(0x8000, 0, 32, k);
    SetBitsHas(0xFF7C, 0, 32, k);
    NotIs(0xFF7C, k);
  }

  // ---- Requests -----------------------------------------------------------------------------

  lemma LineBit(lines: Byte, k: nat)
    requires k < 32
    ensures Bit(lines * 0x100, k) <==> 8 <= k < 16 && Bit(lines, k - 8)
  {
    Raised24(lines);
    DoubledHas(lines, 8, k);
    if k >= 16 { HighBits(lines, k - 8); }
    hide Bit, Doubled;
  }

  lemma RequestBits(s: S.Snap, k: nat)
    requires k < 32
    ensures Bit(S.Requests(s), k) <==> Pending(s, k)
  {
    hide Bit, OrW;
    LineBit(s.lines, k);
    MaskBits(k);
    if s.timer { OrIs(s.lines * 0x100, 0x8000); }
  }

  lemma SomeBit(v: Word)
    ensures v != 0 <==> exists k: nat :: k < 32 && Bit(v, k)
  {
    Pow32();
    hide Bit, Pow2;
    if forall k: nat :: k < 32 ==> !Bit(v, k) {
      forall k: nat | k < 32 ensures Bit(v, k) == Bit(0, k) { ZeroBit(k); }
      SameBits(v, 0, 32);
    }
    if v == 0 {
      forall k: nat | k < 32 ensures !Bit(v, k) { ZeroBit(k); }
    }
  }

  lemma LowStatus(v: Word)
    ensures Bit(v, 0) <==> v % 2 == 1
    ensures v / 2 % 4 == 0 <==> !Bit(v, 1) && !Bit(v, 2)
  {
    assert Pow2(0) == 1 && Pow2(1) == 2 && Pow2(2) == 4;
    var h := v / 2;
    assert v / 4 == h / 2 && h % 4 == 2 * (h / 2 % 2) + h % 2;
  }

  /** An interrupt is taken exactly when Status has IE set, EXL and ERL clear, and some bit requested is
      enabled by its mask bit. */
  lemma DeliverableIff(s: S.Snap)
    requires s.Shaped()
    ensures var status := s.cop0[12];
            S.Deliverable(s) <==> && Bit(status, 0) && !Bit(status, 1) && !Bit(status, 2)
                                  && exists k: nat :: Pending(s, k) && Bit(status, k)
  {
    hide Bit, AndW, S.Requests;
    var status, ip := s.cop0[12], S.Requests(s);
    LowStatus(status);
    SomeBit(ip);
    AndIs(status, ip);
    var both := AndW(status, ip);
    AndIs(both, 0xFF00);
    SomeBit(AndW(both, 0xFF00));
    forall k: nat | k < 32
      ensures Bit(AndW(both, 0xFF00), k) <==> Pending(s, k) && Bit(status, k)
      ensures Bit(ip, k) <==> Pending(s, k)
    {
      RequestBits(s, k);
      MaskBits(k);
    }
  }

  // ---- Delivery -----------------------------------------------------------------------------

  lemma SetBit(v: Word)
    ensures forall k: nat | k < 32 :: Bit(M.SetMask(v, 2), k) == (Bit(v, k) || k == 1)
  {
    assert Pow2(1) == 2;
    if Bit(v, 1) {
    } else {
      PutIn(v);
      forall k: nat | k < 32 ensures Bit(v + 2, k) == (Bit(v, k) || k == 1) {
        TakenOut(v + 2, 1, k);
      }
    }
    hide Bit, Pow2;
  }

  lemma PutIn(v: Word)
    requires !Bit(v, 1)
    ensures v + 2 < 0x1_0000_0000 && Bit(v + 2, 1) && M.SetMask(v, 2) == v + 2
  {
    assert Pow2(1) == 2;
    assert v / 2 % 2 == 0;
  }

  /** What a delivery leaves: the vector BEV selects, MIPS32 code, EPC with the instruction set in bit 0,
      EXL set, in Cause the requests and no exception code, no line and no reservation; and nothing else
      is touched. */
  ghost predicate Taken(s: S.Snap, d: S.Snap)
    requires s.Shaped() && d.Shaped()
  {
    && d.pc == (if Bit(s.cop0[12], 22) then 0xBFC0_0380 else 0x8000_0180)
    && d == s.(pc := d.pc, isa := false, lines := 0, link := None, cop0 := d.cop0)
    && d.cop0 == s.cop0[12 := d.cop0[12]][13 := d.cop0[13]][14 := d.cop0[14]]
    && (forall k: nat | k < 32 :: Bit(d.cop0[12], k) == (Bit(s.cop0[12], k) || k == 1))
    && (forall k: nat | k < 32 :: Bit(d.cop0[13], k) == (Pending(s, k) || (Bit(s.cop0[13], k) && (k < 2 || k == 7 || k >= 16))))
    && (forall k: nat | k < 32 :: Bit(d.cop0[14], k) == (Bit(s.pc, k) || (k == 0 && s.isa)))
  }

  lemma OneBit(k: nat)
    ensures Bit(1, k) <==> k == 0
  {
    if k == 0 {
      LowBit(1);
    } else {
      HalfBit(1, k);
      ZeroBit(k - 1);
    }
  }

  lemma Vector(v: Word)
    ensures Bit(v, 22) <==> v / 0x40_0000 % 2 == 1
  {
    assert Pow2(8) == 0x100 && Pow2(16) == 0x1_0000 && Pow2(22) == 0x40_0000;
  }

  lemma DeliveryTakes(s: S.Snap)
    requires s.Shaped()
    ensures S.Deliver(s).Shaped() && Taken(s, S.Deliver(s))
  {
    hide Bit, AndW, OrW, S.Requests, M.SetMask, Pending;
    var status, cause, ip := s.cop0[12], s.cop0[13], S.Requests(s);
    Vector(status);
    SetBit(status);
    var kept := AndW(cause, 0xFFFF_0083);
    AndIs(cause, 0xFFFF_0083);
    OrIs(kept, ip);
    OrIs(s.pc, 1);
    var d := S.Deliver(s);
    forall k: nat | k < 32
      ensures Bit(d.cop0[13], k) == (Pending(s, k) || (Bit(cause, k) && (k < 2 || k == 7 || k >= 16)))
    {
      RequestBits(s, k);
      MaskBits(k);
    }
    forall k: nat | k < 32 ensures Bit(d.cop0[14], k) == (Bit(s.pc, k) || (k == 0 && s.isa)) { OneBit(k); }
    assert d.cop0 == s.cop0[12 := d.cop0[12]][13 := d.cop0[13]][14 := d.cop0[14]];
  }

  // ---- Count, Compare and the lines ---------------------------------------------------------

  lemma {:induction false} PutBit(v: Word, b: nat)
    requires !Bit(v, b)
    ensures (v as int + Pow2(b)) / Pow2(b) % 2 == 1
  {
    var p := Pow2(b);
    assert v == v / p * p + v % p;
    assert (v as int + p) == (v / p + 1) * p + v % p;
    Over(v as int + p, p, v / p + 1, v % p);
  }

  lemma RaiseBits(lines: Byte, ip: nat, k: nat)
    requires ip <= 7 && k < 8
    ensures Bit(S.Raise(lines, ip), k) <==> Bit(lines, k) || k == ip
  {
    LineMask(ip);
    if !Bit(lines, ip) {
      PutBit(lines, ip);
      TakenOut(lines + Pow2(ip), ip, k);
    }
    hide Pow2, S.Bit;
  }

  lemma LineMask(ip: nat)
    requires ip <= 7
    ensures S.Bit(ip) == Pow2(ip)
  {
  }

  /** The lines the boundary callback raises are pending beside those that were. */
  lemma {:induction false} RaisedBits(lines: Byte, ips: seq<nat>, k: nat)
    requires k < 8 && forall j :: 0 <= j < |ips| ==> ips[j] <= 7
    ensures Bit(S.RaiseAll(lines, ips), k) <==> Bit(lines, k) || k in ips
    decreases |ips|
  {
    hide Bit, S.Raise;
    if ips != [] {
      var n := |ips| - 1;
      RaisedBits(lines, ips[..n], k);
      RaiseBits(S.RaiseAll(lines, ips[..n]), ips[n], k);
      assert ips == ips[..n] + [ips[n]];
    }
  }

  /** Count goes up by one before an instruction, by two if an interrupt is taken there, and not at all before
      a MIPS32 slot. The timer asks once Count has met a Compare that is not zero. */
  ghost predicate Counted(s: S.Snap, b: S.Snap, interrupted: bool, hook: S.Hook)
    requires s.Shaped() && b.Shaped() && hook.Raises()
  {
    var count: int, compare := s.cop0[9], s.cop0[11];
    var met := s.timer || (compare != 0 && U32(count + 1) == compare);
    && b.cop0[11] == compare
    && if s.delayed.armed && !s.isa then b == s
       else if interrupted then
         && b.cop0[9] == U32(count + 2)
         && b.timer == (met || (compare != 0 && U32(count + 2) == compare))
         && b.lines == (if hook.Pump? then S.RaiseAll(0, hook.lines) else 0)
       else b == s.(cop0 := s.cop0[9 := U32(count + 1)], timer := met)
  }

  lemma CountsUp(s: S.Snap, hook: S.Hook)
    requires s.Shaped() && hook.Raises()
    ensures S.Boundary(s, hook).Shaped() && Counted(s, S.Boundary(s, hook), S.Interrupted(s), hook)
  {
    hide OrW, AndW, M.SetMask, S.Requests, S.RaiseAll, U32, S.Deliverable;
    Twice(s.cop0[9]);
  }

  lemma Twice(v: Word)
    ensures U32(U32(v + 1) + 1) == U32(v + 2)
  {
  }
}
