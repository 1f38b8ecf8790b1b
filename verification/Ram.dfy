// internal/memory/ram.go: the DRAM. Offsets are uint32 and wrap; accesses are one, two or four bytes,
// big-endian; a bit set remembers which 4096-byte pages have been written since it was last cleared.
module Ram {
  import opened Words

  const PAGE := 4096

  datatype Size = One | Two | Four
  {
    function Count(): (n: nat)
      ensures 1 <= n <= 4
    {
      match this
      case One => 1
      case Two => 2
      case Four => 4
    }
  }

  // ---- One byte-wise big-endian access -------------------------------------------------------------------

  /** Byte i, from the top, of an n-byte value. */
  function Lane(value: Word, n: nat, i: nat): Byte
    requires i < n
  {
    value / Pow2(8 * (n - 1 - i)) % 0x100
  }

  /** The i-th byte's offset. */
  function At(off: Word, i: nat): Word {
    U32(off + i)
  }

  /** The byte at an offset; zero past the end. */
  function ByteAt(bytes: seq<Byte>, a: Word): Byte {
    if a < |bytes| then bytes[a] else 0
  }

  /** The first n bytes from an offset, the first the most significant. */
  function Load(bytes: seq<Byte>, off: Word, n: nat): (v: nat)
    ensures v < Pow2(8 * n)
  {
    if n == 0 then 0
    else
      assert Pow2(8 * n) == 0x100 * Pow2(8 * (n - 1)) by { Pow2Up(8 * (n - 1)); }
      Load(bytes, off, n - 1) * 0x100 + ByteAt(bytes, At(off, n - 1))
  }

  /** The first k of n bytes stored, one after the other; those past the end are lost. */
  function Store(bytes: seq<Byte>, off: Word, n: nat, value: Word, k: nat): (r: seq<Byte>)
    requires k <= n
    ensures |r| == |bytes|
  {
    if k == 0 then bytes
    else
      var r, a := Store(bytes, off, n, value, k - 1), At(off, k - 1);
      if a < |bytes| then r[a := Lane(value, n, k - 1)] else r
  }

  lemma Pow2Up(k: nat)
    ensures Pow2(k + 8) == 0x100 * Pow2(k)
  {
    assert Pow2(k + 8) == 2 * Pow2(k + 7) && Pow2(k + 7) == 2 * Pow2(k + 6) && Pow2(k + 6) == 2 * Pow2(k + 5);
    assert Pow2(k + 5) == 2 * Pow2(k + 4) && Pow2(k + 4) == 2 * Pow2(k + 3) && Pow2(k + 3) == 2 * Pow2(k + 2);
    assert Pow2(k + 2) == 2 * Pow2(k + 1) && Pow2(k + 1) == 2 * Pow2(k);
  }

  lemma OffsetsApart(off: Word, i: nat, j: nat)
    requires i < j < 0x1_0000_0000
    ensures At(off, i) != At(off, j)
  {
  }

  /** A store puts each lane at its own offset and leaves every other byte alone. */
  lemma {:induction false} StoreAt(bytes: seq<Byte>, off: Word, n: nat, value: Word, k: nat)
    requires k <= n <= 4
    ensures var r := Store(bytes, off, n, value, k);
            && (forall i :: 0 <= i < k && At(off, i) < |bytes| ==> r[At(off, i)] == Lane(value, n, i))
            && (forall a :: 0 <= a < |bytes| && (forall i :: 0 <= i < k ==> At(off, i) != a) ==> r[a] == bytes[a])
  {
    if k == 0 {
    } else {
      StoreAt(bytes, off, n, value, k - 1);
      forall i | 0 <= i < k - 1 ensures At(off, i) != At(off, k - 1) { OffsetsApart(off, i, k - 1); }
      hide At, Lane;
    }
  }

  /** The first k bytes of a value, those past the end of the memory as zero. */
  function Kept(value: Word, n: nat, off: Word, length: nat, k: nat): nat
    requires k <= n
  {
    if k == 0 then 0
    else Kept(value, n, off, length, k - 1) * 0x100 + if At(off, k - 1) < length then Lane(value, n, k - 1) else 0
  }

  /** What a load at any offset makes of what a store of the same width left there: the stored bytes that
      the memory has, and zeros for those it has not. */
  lemma {:induction false} ReadsBack(bytes: seq<Byte>, off: Word, n: nat, value: Word, k: nat)
    requires k <= n <= 4
    ensures Load(Store(bytes, off, n, value, n), off, k) == Kept(value, n, off, |bytes|, k)
  {
    hide Store, At, Lane;
    if k == 0 {
    } else {
      ReadsBack(bytes, off, n, value, k - 1);
      if At(off, k - 1) < |bytes| { LaneStored(bytes, off, n, value, k - 1); }
    }
  }

  /** An access with all its bytes in the memory reads back the very value stored. */
  lemma {:induction false} LoadAfterStore(bytes: seq<Byte>, off: Word, n: nat, value: Word, k: nat)
    requires k <= n <= 4
    requires forall i :: 0 <= i < n ==> At(off, i) < |bytes|
    ensures Load(Store(bytes, off, n, value, n), off, k) == value / Pow2(8 * (n - k)) % Pow2(8 * k)
  {
    hide Store, At, Lane, Pow2;
    if k == 0 {
      PowNone();
    } else {
      LoadAfterStore(bytes, off, n, value, k - 1);
      LaneStored(bytes, off, n, value, k - 1);
      LaneJoins(value, n, k);
    }
  }

  lemma PowNone()
    ensures Pow2(0) == 1
  {
  }

  lemma {:induction false} LaneStored(bytes: seq<Byte>, off: Word, n: nat, value: Word, i: nat)
    requires i < n <= 4 && At(off, i) < |bytes|
    ensures ByteAt(Store(bytes, off, n, value, n), At(off, i)) == Lane(value, n, i)
  {
    StoreAt(bytes, off, n, value, n);
    hide Store, Lane, At;
  }

  lemma LaneJoins(value: Word, n: nat, k: nat)
    requires 0 < k <= n
    ensures value / Pow2(8 * (n - k + 1)) % Pow2(8 * (k - 1)) * 0x100 + Lane(value, n, k - 1) == value / Pow2(8 * (n - k)) % Pow2(8 * k)
  {
    Pow2Up(8 * (n - k));
    Pow2Up(8 * (k - 1));
    assert 8 * (n - k) + 8 == 8 * (n - k + 1) && 8 * (k - 1) + 8 == 8 * k && 8 * (n - 1 - (k - 1)) == 8 * (n - k);
    hide Pow2;
    ByteJoins(value, Pow2(8 * (n - k)), Pow2(8 * (k - 1)), Pow2(8 * (n - k + 1)), Pow2(8 * k));
  }

  lemma ByteJoins(v: nat, a: nat, b: nat, c: nat, d: nat)
    requires a > 0 && b > 0 && c == 0x100 * a && d == 0x100 * b
    ensures v / c % b * 0x100 + v / a % 0x100 == v / a % d
  {
    DivTwice(v, a);
    ModSplit(v / a, b);
  }

  lemma DivTwice(x: nat, a: nat)
    requires a > 0
    ensures x / (0x100 * a) == x / a / 0x100
  {
    var q, r := x / a, x % a;
    var q', r' := q / 0x100, q % 0x100;
    Regroup(q', r', a, r);
    DivIs(x, 0x100 * a, q', r' * a + r);
  }

  lemma Regroup(q: int, r: int, a: int, s: int)
    requires 0 <= r < 0x100 && 0 <= s < a
    ensures (0x100 * q + r) * a + s == (0x100 * a) * q + (r * a + s)
    ensures 0 <= r * a + s < 0x100 * a
  {
  }

  lemma DivIs(x: int, d: int, q: int, r: int)
    requires d > 0 && x == d * q + r && 0 <= r < d
    ensures x / d == q && x % d == r
  {
    var k := x / d - q;
    assert d * k == r - x % d;
    assert k >= 1 ==> d * k >= d;
    assert k <= -1 ==> d * k <= -d;
  }

  lemma ModSplit(v: nat, b: nat)
    requires b > 0
    ensures v / 0x100 % b * 0x100 + v % 0x100 == v % (0x100 * b)
  {
    var q, r := v / 0x100, v % 0x100;
    var q', r' := q / b, q % b;
    assert v == (0x100 * b) * q' + (r' * 0x100 + r);
    DivIs(v, 0x100 * b, q', r' * 0x100 + r);
  }

  // ---- The dirty set ---------------------------------------------------------------------------------------

  type Word64 = x: int | 0 <= x < 0x1_0000_0000_0000_0000

  /** Bit k of x, and x with bit k set, as Go's `x & (1 << k) != 0` and `x |= 1 << k`. */
  predicate HasBit(x: nat, k: nat) {
    if k == 0 then x % 2 == 1 else HasBit(x / 2, k - 1)
  }

  function SetBit(x: nat, k: nat): nat {
    if k == 0 then x + 1 - x % 2 else 2 * SetBit(x / 2, k - 1) + x % 2
  }

  lemma {:induction false} BitsKept(x: nat, k: nat, j: nat)
    ensures HasBit(SetBit(x, k), j) == (j == k || HasBit(x, j))
  {
    if k > 0 && j > 0 {
      BitsKept(x / 2, k - 1, j - 1);
      assert SetBit(x, k) / 2 == SetBit(x / 2, k - 1);
    } else if k > 0 {
      assert SetBit(x, k) % 2 == x % 2;
    } else if j > 0 {
      assert SetBit(x, 0) / 2 == x / 2;
    }
  }

  lemma {:induction false} BitFits(x: nat, k: nat, width: nat)
    requires x < Pow2(width) && k < width
    ensures SetBit(x, k) < Pow2(width)
  {
    if k == 0 {
    } else {
      BitFits(x / 2, k - 1, width - 1);
    }
  }

  lemma SixtyFour()
    ensures Pow2(64) == 0x1_0000_0000_0000_0000
  {
    assert Pow2(8) == 0x100;
    Pow2Up(8);
    Pow2Up(16);
    Pow2Up(24);
    Pow2Up(32);
    Pow2Up(40);
    Pow2Up(48);
    Pow2Up(56);
  }

  function Mark(word: Word64, k: nat): Word64
    requires k < 64
  {
    SixtyFour(); BitFits(word, k, 64); SetBit(word, k)
  }

  /** The set as the pages it holds: page p is bit p mod 64 of word p / 64. */
  predicate Marked(words: seq<Word64>, p: nat)
    requires p / 64 < |words|
  {
    HasBit(words[p / 64], p % 64)
  }

  lemma MarkOne(words: seq<Word64>, p: nat, q: nat)
    requires p / 64 < |words| && q / 64 < |words|
    ensures Marked(words[p / 64 := Mark(words[p / 64], p % 64)], q) == (q == p || Marked(words, q))
  {
    BitsKept(words[p / 64], p % 64, q % 64);
    hide HasBit, SetBit;
  }

  // ---- What the memory promises its hash -------------------------------------------------------------------

  /** The memory, with the dirty set as one flag a page. */
  datatype Memory = Memory(bytes: seq<Byte>, dirty: seq<bool>, straddled: nat)
  {
    predicate Shaped() {
      0 < |bytes| < 0x1_0000_0000 && |bytes| == PAGE * |dirty|
    }
  }

  datatype Access = Access(off: Word, size: Size, value: Word)

  /** An access of n bytes writes some byte of page p. */
  ghost predicate Touches(off: Word, n: nat, length: nat, p: nat) {
    exists i :: 0 <= i < n && At(off, i) < length && At(off, i) / PAGE == p
  }

  ghost function Wrote(m: Memory, w: Access): (r: Memory)
    requires m.Shaped()
    ensures r.Shaped()
  {
    var n := w.size.Count();
    Memory(Store(m.bytes, w.off, n, w.value, n),
           seq(|m.dirty|, p requires 0 <= p < |m.dirty| => m.dirty[p] || Touches(w.off, n, |m.bytes|, p)),
           if w.off + n <= |m.bytes| then m.straddled else m.straddled + 1)
  }

  ghost function AfterAll(m: Memory, writes: seq<Access>): (r: Memory)
    requires m.Shaped()
    ensures r.Shaped()
  {
    if |writes| == 0 then m else Wrote(AfterAll(m, writes[..|writes| - 1]), writes[|writes| - 1])
  }

  function Cleared(m: Memory): Memory {
    m.(dirty := seq(|m.dirty|, p => false))
  }

  datatype Report = Report(page: nat, data: seq<Byte>)

  function PageOf(bytes: seq<Byte>, p: nat): (r: seq<Byte>)
    requires (p + 1) * PAGE <= |bytes|
    ensures |r| == 4096
  {
    bytes[p * PAGE..(p + 1) * PAGE]
  }

  /** What EachDirtyPage calls back with, over the first n pages. */
  function Reports(m: Memory, n: nat): (r: seq<Report>)
    requires m.Shaped() && n <= |m.dirty|
    ensures forall k :: 0 <= k < |r| ==> (r[k].page + 1) * PAGE <= |m.bytes| && |r[k].data| == PAGE
  {
    if n == 0 then []
    else Reports(m, n - 1) + if m.dirty[n - 1] then [Report(n - 1, PageOf(m.bytes, n - 1))] else []
  }

  /** An older image with each reported page laid over it, in order. */
  function Overlay(image: seq<Byte>, reports: seq<Report>): (r: seq<Byte>)
    requires forall k :: 0 <= k < |reports| ==> (reports[k].page + 1) * PAGE <= |image| && |reports[k].data| == PAGE
    ensures |r| == |image|
  {
    if |reports| == 0 then image
    else
      var below, last := Overlay(image, reports[..|reports| - 1]), reports[|reports| - 1];
      below[..last.page * PAGE] + last.data + below[(last.page + 1) * PAGE..]
  }

  /** Page order, and nothing reported twice. */
  lemma {:induction false} ReportsInOrder(m: Memory, n: nat)
    requires m.Shaped() && n <= |m.dirty|
    ensures forall k :: 0 <= k < |Reports(m, n)| ==> IsPage(m, Reports(m, n)[k]) && Reports(m, n)[k].page < n
    ensures forall j, k :: 0 <= j < k < |Reports(m, n)| ==> Reports(m, n)[j].page < Reports(m, n)[k].page
  {
    if n == 0 {
    } else {
      ReportsInOrder(m, n - 1);
    }
  }

  /** A dirty page of the memory, with its contents. */
  predicate IsPage(m: Memory, r: Report)
    requires m.Shaped()
  {
    r.page < |m.dirty| && m.dirty[r.page] && r.data == PageOf(m.bytes, r.page)
  }

  /** No written page is left out. */
  lemma {:induction false} EveryDirtyPage(m: Memory, n: nat, p: nat)
    requires m.Shaped() && p < n <= |m.dirty| && m.dirty[p]
    ensures exists k :: 0 <= k < |Reports(m, n)| && Reports(m, n)[k].page == p
  {
    var r, early := Reports(m, n), Reports(m, n - 1);
    if p == n - 1 {
      assert r[|early|].page == p;
    } else {
      EveryDirtyPage(m, n - 1, p);
      var k :| 0 <= k < |early| && early[k].page == p;
      assert r[k].page == p;
    }
  }

  /** A byte is on a dirty page or is as it was when the set was cleared. */
  ghost predicate Covered(base: seq<Byte>, m: Memory)
    requires m.Shaped()
  {
    |base| == |m.bytes| && forall a :: 0 <= a < |base| ==> m.dirty[a / 4096] || m.bytes[a] == base[a]
  }

  lemma {:induction false} WroteCovers(base: seq<Byte>, m: Memory, w: Access)
    requires m.Shaped() && Covered(base, m)
    ensures Covered(base, Wrote(m, w))
  {
    var n, r := w.size.Count(), Wrote(m, w);
    StoreAt(m.bytes, w.off, n, w.value, n);
    hide Store, At;
    forall a | 0 <= a < |base| ensures r.dirty[a / PAGE] || r.bytes[a] == base[a] {
      if !r.dirty[a / PAGE] {
        assert !Touches(w.off, n, |m.bytes|, a / PAGE);
        assert forall i :: 0 <= i < n ==> At(w.off, i) != a;
      }
    }
  }

  lemma {:induction false} AfterAllCovers(m: Memory, writes: seq<Access>)
    requires m.Shaped()
    ensures Covered(m.bytes, AfterAll(Cleared(m), writes))
  {
    if |writes| == 0 {
    } else {
      AfterAllCovers(m, writes[..|writes| - 1]);
      WroteCovers(m.bytes, AfterAll(Cleared(m), writes[..|writes| - 1]), writes[|writes| - 1]);
    }
  }

  lemma {:induction false} LaidLast(m: Memory, image: seq<Byte>, early: seq<Report>, p: nat)
    requires m.Shaped() && p < |m.dirty| && |image| == |m.bytes|
    requires forall k :: 0 <= k < |early| ==> (early[k].page + 1) * PAGE <= |image| && |early[k].data| == PAGE
    ensures var below, r := Overlay(image, early), Overlay(image, early + [Report(p, PageOf(m.bytes, p))]);
            forall a :: 0 <= a < |image| ==> r[a] == if p * PAGE <= a < (p + 1) * PAGE then m.bytes[a] else below[a]
  {
    assert (early + [Report(p, PageOf(m.bytes, p))])[..|early|] == early;
  }

  /** The first n pages overlaid: they are the memory's, and the rest is the image's. */
  lemma {:induction false} OverlayUpTo(base: seq<Byte>, m: Memory, n: nat)
    requires m.Shaped() && Covered(base, m) && n <= |m.dirty|
    ensures var r := Overlay(base, Reports(m, n));
            forall a :: 0 <= a < |base| ==> r[a] == if a < n * PAGE then m.bytes[a] else base[a]
  {
    hide Overlay, PageOf;
    if n == 0 {
      assert Overlay(base, []) == base by { OverlayNone(base); }
    } else {
      OverlayUpTo(base, m, n - 1);
      var early := Reports(m, n - 1);
      if m.dirty[n - 1] {
        LaidLast(m, base, early, n - 1);
      } else {
        assert Reports(m, n) == early;
        CleanPage(base, m, n - 1);
      }
    }
  }

  lemma OverlayNone(base: seq<Byte>)
    ensures Overlay(base, []) == base
  {
  }

  lemma CleanPage(base: seq<Byte>, m: Memory, p: nat)
    requires m.Shaped() && Covered(base, m) && p < |m.dirty| && !m.dirty[p]
    ensures forall a :: p * PAGE <= a < (p + 1) * PAGE ==> m.bytes[a] == base[a]
  {
    assert forall a :: p * PAGE <= a < (p + 1) * PAGE ==> a / PAGE == p;
  }

  /** Whatever has been written since the dirty set was cleared, laying the dirty pages over the image of
      that moment gives the memory as it is. */
  lemma {:induction false} DirtyPagesSuffice(m: Memory, writes: seq<Access>)
    requires m.Shaped()
    ensures var now := AfterAll(Cleared(m), writes);
            |now.bytes| == |m.bytes| && Overlay(m.bytes, Reports(now, |now.dirty|)) == now.bytes
  {
    var now := AfterAll(Cleared(m), writes);
    AfterAllCovers(m, writes);
    OverlayUpTo(m.bytes, now, |now.dirty|);
    assert |now.bytes| == |now.dirty| * PAGE;
    hide Reports, Overlay, AfterAll, Covered;
  }

  // ---- In place ----------------------------------------------------------------------------------------------

  lemma LoadOne(bytes: seq<Byte>, off: Word, n: nat)
    requires 0 < n && off + n <= |bytes| < 0x1_0000_0000
    ensures Load(bytes, off, n) == Load(bytes, off, n - 1) * 0x100 + bytes[off + n - 1]
  {
    assert At(off, n - 1) == off + n - 1;
  }

  /** The fast path's three shapes are the byte-wise ones. */
  lemma FastLoad(bytes: seq<Byte>, off: Word, size: Size)
    requires off + size.Count() <= |bytes| < 0x1_0000_0000
    ensures Load(bytes, off, size.Count()) ==
            match size
            case One => bytes[off] as int
            case Two => bytes[off] as int * 0x100 + bytes[off + 1]
            case Four => bytes[off] as int * 0x100_0000 + bytes[off + 1] as int * 0x1_0000 + bytes[off + 2] as int * 0x100 + bytes[off + 3]
  {
    assert Load(bytes, off, 0) == 0;
    LoadOne(bytes, off, 1);
    if size.Count() >= 2 { LoadOne(bytes, off, 2); }
    if size.Four? {
      LoadOne(bytes, off, 3);
      LoadOne(bytes, off, 4);
    }
    hide Load;
  }

  lemma Lanes(value: Word)
    ensures Lane(value, 1, 0) == value % 0x100
    ensures Lane(value, 2, 0) == value / 0x100 % 0x100 && Lane(value, 2, 1) == value % 0x100
    ensures Lane(value, 4, 0) == value / 0x100_0000 % 0x100 && Lane(value, 4, 1) == value / 0x1_0000 % 0x100
    ensures Lane(value, 4, 2) == value / 0x100 % 0x100 && Lane(value, 4, 3) == value % 0x100
  {
    assert Pow2(0) == 1;
    Pow2Up(0);
    Pow2Up(8);
    Pow2Up(16);
  }

  /** An access inside the memory stores its lanes side by side. */
  lemma FastStore(bytes: seq<Byte>, off: Word, n: nat, value: Word, r: seq<Byte>)
    requires n <= 4 && off + n <= |bytes| == |r| < 0x1_0000_0000
    requires forall i :: 0 <= i < n ==> r[off + i] == Lane(value, n, i)
    requires forall a :: 0 <= a < |bytes| && !(off <= a < off + n) ==> r[a] == bytes[a]
    ensures r == Store(bytes, off, n, value, n)
  {
    hide Store, Lane;
    StoreAt(bytes, off, n, value, n);
    var s := Store(bytes, off, n, value, n);
    assert forall i :: 0 <= i < n ==> At(off, i) == off + i;
    forall a | 0 <= a < |r| ensures r[a] == s[a] {
      if off <= a < off + n { assert At(off, a - off) == a && r[off + (a - off)] == s[At(off, a - off)]; }
    }
  }

  /** The pages an access inside the memory touches are the ones from its first byte's to its last byte's. */
  lemma TouchesRange(off: Word, n: nat, length: nat, p: nat)
    requires 0 < n <= 4 && off + n <= length < 0x1_0000_0000
    ensures Touches(off, n, length, p) <==> off / PAGE <= p <= (off + n - 1) / PAGE
  {
    assert At(off, 0) == off && At(off, n - 1) == off + n - 1;
    assert forall i :: 0 <= i < n ==> At(off, i) == off + i;
  }

  lemma TouchesNext(off: Word, i: nat, length: nat, p: nat)
    ensures Touches(off, i + 1, length, p) <==> Touches(off, i, length, p) || (At(off, i) < length && At(off, i) / PAGE == p)
    ensures !Touches(off, 0, length, p)
  {
    hide At;
  }

  /** The set as one flag a page. */
  function FlagsOf(words: seq<Word64>, pages: nat): (r: seq<bool>)
    requires pages <= 64 * |words|
    ensures |r| == pages
  {
    seq(pages, p requires 0 <= p < pages => Marked(words, p))
  }

  function MarkedFrom(flags: seq<bool>, first: nat, last: int): (r: seq<bool>)
    ensures |r| == |flags|
  {
    seq(|flags|, p requires 0 <= p < |flags| => flags[p] || first <= p <= last)
  }

  lemma MarkNext(words: seq<Word64>, pages: nat, flags: seq<bool>, first: nat, p: nat)
    requires |flags| == pages <= 64 * |words| && first <= p < pages
    requires FlagsOf(words, pages) == MarkedFrom(flags, first, p - 1)
    ensures FlagsOf(words[p / 64 := Mark(words[p / 64], p % 64)], pages) == MarkedFrom(flags, first, p)
  {
    var after := words[p / 64 := Mark(words[p / 64], p % 64)];
    forall q | 0 <= q < pages ensures FlagsOf(after, pages)[q] == MarkedFrom(flags, first, p)[q] {
      MarkOne(words, p, q);
      assert FlagsOf(words, pages)[q] == MarkedFrom(flags, first, p - 1)[q];
      hide Marked, Mark;
    }
  }

  lemma {:induction false} ZeroHas(k: nat)
    ensures !HasBit(0, k)
  {
    if k == 0 {
    } else {
      ZeroHas(k - 1);
    }
  }

  class RAM {
    const bytes: array<Byte>
    const dirty: array<Word64>
    var straddled: nat

    constructor (size: Word)
      requires size != 0 && size % PAGE == 0
      ensures Valid() && fresh(bytes) && fresh(dirty)
      ensures State() == Memory(seq(size, i => 0), seq(size / PAGE, p => false), 0)
    {
      bytes, dirty, straddled := new Byte[size](i => 0), new Word64[(size / PAGE + 63) / 64](i => 0), 0;
      new;
      assert bytes[..] == seq(size, i => 0);
      forall p: nat | p < size / PAGE ensures !Marked(dirty[..], p) { ZeroHas(p % 64); }
      assert FlagsOf(dirty[..], Pages()) == seq(size / PAGE, p => false);
    }

    ghost predicate Valid() {
      && 0 < bytes.Length < 0x1_0000_0000 && bytes.Length % PAGE == 0
      && dirty.Length == (bytes.Length / PAGE + 63) / 64
    }

    function Pages(): nat {
      bytes.Length / PAGE
    }

    ghost function Flags(): (r: seq<bool>)
      requires Valid()
      reads dirty
      ensures |r| == Pages()
    {
      FlagsOf(dirty[..], Pages())
    }

    ghost function State(): (r: Memory)
      requires Valid()
      reads this, bytes, dirty
      ensures r.Shaped()
    {
      Memory(bytes[..], Flags(), straddled)
    }

    method MarkDirty(off: Word, n: nat)
      requires Valid() && 0 < n && off + n <= bytes.Length
      modifies dirty
      ensures Flags() == MarkedFrom(old(Flags()), off / PAGE, (off + n - 1) / PAGE)
    {
      var first, last := off / PAGE, (off + n - 1) / PAGE;
      ghost var flags := Flags();
      assert MarkedFrom(flags, first, first - 1) == flags;
      for p := first to last + 1
        invariant Flags() == MarkedFrom(flags, first, p - 1)
      {
        MarkNext(dirty[..], Pages(), flags, first, p);
        hide FlagsOf, MarkedFrom, Mark;
        ghost var was := dirty[..];
        dirty[p / 64] := Mark(dirty[p / 64], p % 64);
        assert dirty[..] == was[p / 64 := Mark(was[p / 64], p % 64)];
      }
    }

    method Read(off: Word, size: Size) returns (value: nat)
      requires Valid()
      modifies this`straddled
      ensures value == Load(bytes[..], off, size.Count())
      ensures straddled == if off + size.Count() <= bytes.Length then old(straddled) else old(straddled) + 1
    {
      if off + size.Count() <= bytes.Length {
        FastLoad(bytes[..], off, size);
        hide Load;
        match size {
          case One => return bytes[off];
          case Two => return bytes[off] as int * 0x100 + bytes[off + 1];
          case Four =>
            return bytes[off] as int * 0x100_0000 + bytes[off + 1] as int * 0x1_0000 + bytes[off + 2] as int * 0x100 + bytes[off + 3];
        }
      }
      value := ReadStraddling(off, size.Count());
    }

    method ReadStraddling(off: Word, n: nat) returns (value: nat)
      requires Valid()
      modifies this`straddled
      ensures value == Load(bytes[..], off, n) && straddled == old(straddled) + 1
    {
      straddled := straddled + 1;
      value := 0;
      for i := 0 to n
        invariant value == Load(bytes[..], off, i)
      {
        value := value * 0x100;
        var a := At(off, i);
        if a < bytes.Length { value := value + bytes[a]; }
      }
    }

    method Write(off: Word, size: Size, value: Word)
      requires Valid()
      modifies this`straddled, bytes, dirty
      ensures State() == Wrote(old(State()), Access(off, size, value))
    {
      if off + size.Count() > bytes.Length {
        WriteStraddling(off, size.Count(), value);
      } else {
        StoreInside(off, size, value);
        MarkDirty(off, size.Count());
        forall p | 0 <= p < Pages() ensures Touches(off, size.Count(), bytes.Length, p) <==> off / PAGE <= p <= (off + size.Count() - 1) / PAGE {
          TouchesRange(off, size.Count(), bytes.Length, p);
        }
      }
    }

    method StoreInside(off: Word, size: Size, value: Word)
      requires Valid() && off + size.Count() <= bytes.Length
      modifies bytes
      ensures bytes[..] == Store(old(bytes[..]), off, size.Count(), value, size.Count())
    {
      Lanes(value);
      match size {
        case One => bytes[off] := value % 0x100;
        case Two => bytes[off], bytes[off + 1] := value / 0x100 % 0x100, value % 0x100;
        case Four =>
          bytes[off], bytes[off + 1] := value / 0x100_0000 % 0x100, value / 0x1_0000 % 0x100;
          bytes[off + 2], bytes[off + 3] := value / 0x100 % 0x100, value % 0x100;
      }
      hide Lane, Store;
      FastStore(old(bytes[..]), off, size.Count(), value, bytes[..]);
    }

    method WriteStraddling(off: Word, n: nat, value: Word)
      requires Valid() && n <= 4
      modifies this`straddled, bytes, dirty
      ensures bytes[..] == Store(old(bytes[..]), off, n, value, n) && straddled == old(straddled) + 1
      ensures forall p :: 0 <= p < Pages() ==> Flags()[p] == (old(Flags())[p] || Touches(off, n, bytes.Length, p))
    {
      straddled := straddled + 1;
      forall p | 0 <= p < Pages() ensures !Touches(off, 0, bytes.Length, p) { TouchesNext(off, 0, bytes.Length, p); }
      for i := 0 to n
        invariant straddled == old(straddled) + 1
        invariant bytes[..] == Store(old(bytes[..]), off, n, value, i)
        invariant forall p :: 0 <= p < Pages() ==> Flags()[p] == (old(Flags())[p] || Touches(off, i, bytes.Length, p))
      {
        StoreLane(off, n, value, i, old(bytes[..]), old(Flags()));
      }
    }

    method StoreLane(off: Word, n: nat, value: Word, i: nat, ghost was: seq<Byte>, ghost flags: seq<bool>)
      requires Valid() && i < n <= 4 && |flags| == Pages() && bytes[..] == Store(was, off, n, value, i)
      requires forall p :: 0 <= p < Pages() ==> Flags()[p] == (flags[p] || Touches(off, i, bytes.Length, p))
      modifies bytes, dirty
      ensures bytes[..] == Store(was, off, n, value, i + 1)
      ensures forall p :: 0 <= p < Pages() ==> Flags()[p] == (flags[p] || Touches(off, i + 1, bytes.Length, p))
    {
      var a := At(off, i);
      hide At, Lane, FlagsOf, Touches;
      if a < bytes.Length {
        bytes[a] := Lane(value, n, i);
        assert bytes[..] == old(bytes[..])[a := Lane(value, n, i)];
        MarkDirty(a, 1);
      }
      forall p | 0 <= p < Pages() ensures Flags()[p] == (flags[p] || Touches(off, i + 1, bytes.Length, p)) {
        TouchesNext(off, i, bytes.Length, p);
      }
    }

    /** The calls EachDirtyPage makes. */
    method EachDirtyPage() returns (reports: seq<Report>)
      requires Valid()
      ensures reports == Reports(State(), Pages())
    {
      reports := [];
      for p := 0 to Pages()
        invariant reports == Reports(State(), p)
      {
        assert Flags()[p] == HasBit(dirty[p / 64], p % 64);
        hide FlagsOf, HasBit;
        if HasBit(dirty[p / 64], p % 64) { reports := reports + [Report(p, bytes[p * PAGE..(p + 1) * PAGE])]; }
      }
    }

    method ClearDirty()
      requires Valid()
      modifies dirty
      ensures State() == Cleared(old(State()))
    {
      for i := 0 to dirty.Length
        invariant forall k :: 0 <= k < i ==> dirty[k] == 0
      {
        dirty[i] := 0;
      }
      forall p: nat | p < Pages() ensures !Marked(dirty[..], p) { ZeroHas(p % 64); }
      assert Flags() == seq(Pages(), p => false);
    }

    method MarkAllDirty()
      requires Valid()
      modifies dirty
      ensures State() == old(State()).(dirty := seq(Pages(), p => true))
    {
      ghost var flags := Flags();
      assert MarkedFrom(flags, 0, -1) == flags;
      for p := 0 to Pages()
        invariant Flags() == MarkedFrom(flags, 0, p - 1)
      {
        MarkNext(dirty[..], Pages(), flags, 0, p);
        hide FlagsOf, MarkedFrom, Mark;
        ghost var was := dirty[..];
        dirty[p / 64] := Mark(dirty[p / 64], p % 64);
        assert dirty[..] == was[p / 64 := Mark(was[p / 64], p % 64)];
      }
      assert Flags() == seq(Pages(), p => true);
    }

    method Reset()
      requires Valid()
      modifies this`straddled, bytes, dirty
      ensures State() == Memory(seq(bytes.Length, a => 0), seq(Pages(), p => false), 0)
    {
      for i := 0 to bytes.Length
        invariant forall a :: 0 <= a < i ==> bytes[a] == 0
      {
        bytes[i] := 0;
      }
      assert bytes[..] == seq(bytes.Length, a => 0);
      ClearDirty();
      straddled := 0;
    }
  }
}
