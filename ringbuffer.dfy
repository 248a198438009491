/** The masked ring buffer: a fixed-capacity FIFO of fixed-width elements whose
    capacity is a power of two, addressed by two free-running 32-bit cursors. */
module RingBuffer {
  import opened Bits

  /** The five steps `n |= n >> 1; ... n |= n >> 16;` of
      `_ringbuffer_rounddown_pow_of_two`, which copy the highest set bit of n
      into every lower position. */
  function Smear(n: u32): (r: u32)
  {
    var n1 := Or32(n, Shr32(n, 1));
    var n2 := Or32(n1, Shr32(n1, 2));
    var n3 := Or32(n2, Shr32(n2, 4));
    var n4 := Or32(n3, Shr32(n3, 8));
    Or32(n4, Shr32(n4, 16))
  }

  /** `_ringbuffer_rounddown_pow_of_two`: smear, add one (wrapping) and halve. */
  function RoundDownPowOfTwo(n: u32): (r: u32)
  {
    Shr32(Add32(Smear(n), 1), 1)
  }

  /** Bits lo (at least 0) up to hi - 1 of x are all set. */
  ghost predicate BitsSet(x: nat, lo: int, hi: int)
  {
    forall i: nat :: lo <= i < hi ==> Bit(x, i)
  }

  /** One smearing step `x | (x >> w)` doubles the run of set bits below the
      top bit of an L-bit number. */
  lemma {:induction false} SmearStep(x: u32, L: nat, w: nat)
    requires x as nat < Pow2(L)
    requires BitsSet(x as nat, L - w, L)
    ensures Or32(x, Shr32(x, w)) as nat < Pow2(L)
    ensures BitsSet(Or32(x, Shr32(x, w)) as nat, L - 2 * w, L)
  {
    var y := Shr(x as nat, w);
    OrBelow(x as nat, y, L);
    var z := Or(x as nat, y);
    forall i: nat | L - 2 * w <= i < L
      ensures Bit(z, i)
    {
      BitOfOr(x as nat, y, i);
      if i < L - w {
        BitOfShr(x as nat, w, i);
      }
    }
  }

  /** Smearing a nonzero n sets exactly the bits up to its highest one. */
  lemma {:induction false} SmearFills(n: u32)
    ensures n == 0 ==> Smear(n) == 0
    ensures n != 0 ==> Smear(n) as nat == Pow2(Log2(n as nat) + 1) - 1
  {
    var n1 := Or32(n, Shr32(n, 1));
    var n2 := Or32(n1, Shr32(n1, 2));
    var n3 := Or32(n2, Shr32(n2, 4));
    var n4 := Or32(n3, Shr32(n3, 8));
    var n5 := Or32(n4, Shr32(n4, 16));
    assert Smear(n) == n5;
    if n != 0 {
      var L := Log2(n as nat) + 1;
      TopBit(n as nat, L);
      SmearStep(n, L, 1);
      SmearStep(n1, L, 2);
      SmearStep(n2, L, 4);
      SmearStep(n3, L, 8);
      SmearStep(n4, L, 16);
      if L > 32 {
        Pow2Of32();
        Pow2Grows(32, L - 1);
      }
      AllOnes(n5 as nat, L);
    }
  }

  /** Adding one to 2^k - 1 as a `uint32_t` and halving gives 2^(k-1), or 0
      once 2^k reaches 2^32. */
  lemma {:induction false} IncrementAndHalve(s: int, k: nat)
    requires 1 <= k <= 32 && s + 1 == Pow2(k)
    ensures ((s + 1) % U32) / 2 == if k < 32 then Pow2(k - 1) else 0
  {
    Pow2Of32();
    if k < 32 {
      Pow2Grows(k, 32);
    }
  }

  /** A nonzero `uint32_t` has its highest set bit at position 30 or below
      exactly when it is below 2^31, and at position 31 otherwise. */
  lemma {:induction false} Log2OfWord(n: u32)
    requires n >= 1
    ensures n < 0x8000_0000 ==> Log2(n as nat) < 31
    ensures n >= 0x8000_0000 ==> Log2(n as nat) == 31
  {
    var k := Log2(n as nat);
    Pow2Of32();
    assert Pow2(31) == 0x8000_0000 by {
      Pow2Add(31, 1);
    }
    if k > 31 {
      Pow2Grows(31, k);
    } else if k < 31 {
      Pow2Grows(k, 31);
    }
  }

  /** The rounding is the largest power of two not above n for 1 <= n < 2^31;
      it is 0 for n = 0 and, because `n + 1` wraps to 0, for n >= 2^31. */
  lemma {:induction false} RoundDownPowOfTwoSpec(n: u32)
    ensures 1 <= n < 0x8000_0000 ==>
      RoundDownPowOfTwo(n) as int == Pow2(Log2(n as nat)) &&
      RoundDownPowOfTwo(n) <= n < 2 * RoundDownPowOfTwo(n)
    ensures n == 0 || n >= 0x8000_0000 ==> RoundDownPowOfTwo(n) == 0
  {
    SmearFills(n);
    var s := Smear(n) as int;
    var a := Add32(Smear(n), 1);
    Add32IsMod(Smear(n), 1);
    assert Shr(a as nat, 1) == Shr(a as nat / 2, 0);
    assert RoundDownPowOfTwo(n) as int == ((s + 1) % U32) / 2;
    if n != 0 {
      Log2OfWord(n);
      IncrementAndHalve(s, Log2(n as nat) + 1);
    }
  }

  /** The rounding as evidently intended: smear, then clear every bit below
      the top one with `s - (s >> 1)`, which cannot wrap. */
  function RoundDownPowOfTwoCorrected(n: u32): (r: u32)
  {
    var s := Smear(n);
    Sub32(s, Shr32(s, 1))
  }

  /** The corrected rounding is the largest power of two not above n for
      every nonzero n, 2^31 included, and 0 for n = 0. */
  lemma RoundDownPowOfTwoCorrectedSpec(n: u32)
    ensures n >= 1 ==>
      RoundDownPowOfTwoCorrected(n) as int == Pow2(Log2(n as nat)) &&
      RoundDownPowOfTwoCorrected(n) <= n && n as int < 2 * RoundDownPowOfTwoCorrected(n) as int
    ensures n == 0 ==> RoundDownPowOfTwoCorrected(n) == 0
  {
    SmearFills(n);
    var s := Smear(n);
    assert Shr(s as nat, 1) == Shr(s as nat / 2, 0);
    if n >= 1 {
      var p := Pow2(Log2(n as nat));
      DivModUnique(s as int, 2, p - 1, 1);
    }
  }

  // ---------------------------------------------------------------------
  // Storage addressing

  /** The storage index i places after storage index head, in storage of
      cap slots: wrapped once at the end of storage. */
  ghost function Wrap(head: int, i: int, cap: int): (p: int)
    requires 0 <= head < cap && 0 <= i <= cap
    ensures 0 <= p < cap
  {
    if head + i < cap then head + i else head + i - cap
  }

  /** The masked cursor `(cursor + i) & mask` is the storage index i places
      after the cursor's own, also when `cursor + i` wraps past 2^32. */
  lemma SlotIsMaskedCursor(cursor: u32, i: u32, log: nat)
    requires log < 32 && i as int <= Pow2(log)
    ensures And(Add32(cursor, i) as nat, Pow2(log) - 1) == Wrap(cursor as int % Pow2(log), i as int, Pow2(log))
  {
    Pow2Of32();
    var cap := Pow2(log);
    var x := (cursor as int + i as int) % U32;
    Add32IsMod(cursor, i);
    AndLowMask(x, log);
    Pow2Divides(log, 32);
    ModOfMod(cursor as int + i as int, cap, U32);
    ModAddSmall(cursor as int, i as int, cap);
  }

  /** The low log bits of x, that is x modulo 2^log, taken bit by bit. */
  ghost function Low(x: nat, log: nat): (r: nat)
    decreases log
  {
    if log == 0 then 0 else 2 * Low(x / 2, log - 1) + x % 2
  }

  lemma {:induction false} LowIsMod(x: nat, log: nat)
    ensures Low(x, log) == x % Pow2(log)
  {
    if log == 0 {
      DivModUnique(x, 1, x, 0);
    } else {
      LowIsMod(x / 2, log - 1);
      ModDouble(x, Pow2(log - 1));
    }
  }

  /** Cursor wrap-around is harmless: since 2^log divides 2^32, advancing a
      cursor by k modulo 2^32 moves its storage index by k, wrapped once at
      the end of storage. */
  lemma CursorAdvance(cursor: u32, k: u32, log: nat)
    requires log < 32 && k as int <= Pow2(log)
    ensures Low(cursor as nat, log) < Pow2(log)
    ensures Low(Add32(cursor, k) as nat, log) == Wrap(Low(cursor as nat, log), k as int, Pow2(log))
  {
    var cap := Pow2(log);
    var c := cursor as int;
    LowIsMod(cursor as nat, log);
    LowIsMod(Add32(cursor, k) as nat, log);
    Add32IsMod(cursor, k);
    Pow2Of32();
    Pow2Divides(log, 32);
    ModOfMod(c + k as int, cap, U32);
    ModAddSmall(c, k as int, cap);
  }

  /** The two-piece copy of `_ringbuffer_internal_write` and `_read`: with o the
      index of logical position start and l = min(len, cap - o), logical
      position start + j sits at o + j in the first piece (j < l) and at j - l
      in the second, wrapped piece; and when start + len <= cap, neither piece
      touches a logical position before start. */
  lemma TwoPieceSplit(head: int, start: nat, len: nat, cap: nat, o: nat, l: nat)
    requires 0 <= head < cap && start + len <= cap
    requires o == Wrap(head, start, cap)
    requires l == if len < cap - o then len else cap - o
    ensures o + l <= cap && len - l <= o
    ensures forall p :: start <= p < start + len ==>
      Wrap(head, p, cap) == if p - start < l then o + (p - start) else p - start - l
    ensures forall i :: 0 <= i < start ==>
      !(o <= Wrap(head, i, cap) < o + l) && len - l <= Wrap(head, i, cap)
  {
  }

  /** Where the two copies of a transfer of len elements land, for a buffer
      of 2^log slots: off = cursor + start is the cursor of logical position
      start, o = off & mask its storage index and l = min(len, size - o) the
      length of the first piece. Position start + j is at o + j in the first
      piece and at j - l in the second, and the positions before start lie
      outside both pieces. */
  lemma CopyPlan(cursor: u32, mask: u32, log: nat, head: nat, cap: nat,
                 start: u32, len: u32, o: u32, l: u32)
    requires log < 32 && cap == Pow2(log) && mask as int == cap - 1
    requires head == Low(cursor as nat, log) && head < cap && start as int + len as int <= cap
    requires o == And32(Add32(cursor, start), mask)
    requires l == if len < Sub32(Add32(mask, 1), o) then len else Sub32(Add32(mask, 1), o)
    ensures l <= len && o as int + l as int <= cap && (len - l) as int <= o as int
    ensures forall p :: start as int <= p < start as int + len as int ==>
      Wrap(head, p, cap) ==
        if p - start as int < l as int then o as int + (p - start as int) else p - start as int - l as int
    ensures forall i :: 0 <= i < start as int ==>
      !(o as int <= Wrap(head, i, cap) < o as int + l as int) && (len - l) as int <= Wrap(head, i, cap)
  {
    assert cap < U32 by {
      Pow2Of32();
      Pow2Grows(log, 32);
    }
    SlotIsMaskedCursor(cursor, start, log);
    LowIsMod(cursor as nat, log);
    TwoPieceSplit(head, start as nat, len as nat, cap, o as nat, l as nat);
  }

  /** `memcpy` of whole elements: count elements of src from index s land at
      index d of dst, and nothing else in dst changes. */
  method CopyElements<T>(dst: array<T>, d: nat, src: array<T>, s: nat, count: nat)
    requires dst != src
    requires d + count <= dst.Length && s + count <= src.Length
    modifies dst
    ensures forall i :: 0 <= i < dst.Length ==>
      dst[i] == if d <= i < d + count then src[s + i - d] else old(dst[i])
  {
    var j := 0;
    while j < count
      invariant 0 <= j <= count
      invariant forall i :: 0 <= i < dst.Length ==>
        dst[i] == if d <= i < d + j then src[s + i - d] else old(dst[i])
    {
      dst[d + j] := src[s + j];
      j := j + 1;
    }
  }

  /** The two `memcpy` calls of `_ringbuffer_internal_write`: the first l
      of len elements of src go to storage from index o on, the other len - l
      to the front of storage; nothing else in storage changes. */
  method CopyIn<T>(buf: array<T>, src: array<T>, o: nat, l: nat, len: nat)
    requires buf != src && l <= len <= src.Length
    requires o + l <= buf.Length && len - l <= o
    modifies buf
    ensures forall j :: 0 <= j < len ==> buf[if j < l then o + j else j - l] == src[j]
    ensures forall i :: 0 <= i < buf.Length && !(o <= i < o + l) && len - l <= i ==>
      buf[i] == old(buf[i])
  {
    CopyElements(buf, o, src, 0, l);
    CopyElements(buf, 0, src, l, len - l);
  }

  /** The two `memcpy` calls of `_ringbuffer_internal_read`: the first l of
      len elements come from storage index o on, the other len - l from the
      front of storage; the rest of dst is unchanged. */
  method CopyOut<T>(dst: array<T>, buf: array<T>, o: nat, l: nat, len: nat)
    requires dst != buf && l <= len <= dst.Length
    requires o + l <= buf.Length && len - l <= buf.Length
    modifies dst
    ensures forall j :: 0 <= j < len ==> dst[j] == buf[if j < l then o + j else j - l]
    ensures forall j :: len <= j < dst.Length ==> dst[j] == old(dst[j])
  {
    CopyElements(dst, 0, buf, o, l);
    CopyElements(dst, l, buf, 0, len - l);
  }

  /** `xcomm_ringbuf_t`. */
  class Ring<T(0)> {
    /** Element storage; null once destroyed. */
    var buf: array?<T>
    /** Element width in bytes. */
    var esz: u32
    /** Capacity minus one, modulo 2^32. */
    var mask: u32
    /** Free-running write cursor. */
    var wpos: u32
    /** Free-running read cursor. */
    var rpos: u32

    /** The queued elements, oldest first. */
    ghost var Contents: seq<T>
    /** mask + 1 == 2^Log as an unbounded number (Log == 32 for capacity 0). */
    ghost var Log: nat
    /** Storage handed back by Destroy, in order. */
    ghost var Released: seq<array<T>>

    /** The storage index of the oldest element: rpos modulo the capacity. */
    ghost var Head: nat

    /** The storage index of queued element i. */
    ghost function Slot(i: int): (p: int)
      reads this`buf, this`Head
      requires buf != null && Head < buf.Length && 0 <= i <= buf.Length
      ensures 0 <= p < buf.Length
    {
      Wrap(Head, i, buf.Length)
    }

    /** The configuration and cursor invariant: the mask is 2^Log - 1, the
        storage has one slot per element of capacity, a zero capacity keeps
        both cursors at 0, Head is the read cursor's storage index and the
        queued elements are the Len() between the cursors. */
    ghost predicate Config()
      reads this
    {
      buf != null && esz > 0 && Log <= 32 &&
      mask as int == Pow2(Log) - 1 &&
      buf.Length == Cap() as int &&
      (Cap() == 0 ==> wpos == 0 && rpos == 0) &&
      Head == Low(rpos as nat, Log) && (buf.Length > 0 ==> Head < buf.Length) &&
      Len() <= Cap() &&
      |Contents| == Len() as int
    }

    /** The class invariant: the configuration holds and queued element i is
        stored at Slot(i). */
    ghost predicate Valid()
      reads this, buf
    {
      Config() &&
      forall i :: 0 <= i < |Contents| ==> Contents[i] == buf[Slot(i)]
    }

    /** Configuration and storage are as before; only cursors and contents may differ. */
    twostate predicate SameStorage()
      reads this
    {
      buf == old(buf) && esz == old(esz) && mask == old(mask) &&
      Log == old(Log) && Released == old(Released)
    }

    /** `xcomm_ringbuf_len`: the distance from the read to the write cursor. */
    function Len(): (n: u32)
      reads this
      ensures Add32(rpos, n) == wpos
    {
      Sub32(wpos, rpos)
    }

    /** `xcomm_ringbuf_cap`. */
    function Cap(): (c: u32)
      reads this
    {
      Add32(mask, 1)
    }

    /** `xcomm_ringbuf_avail`: the number of free slots. */
    function Avail(): (a: u32)
      reads this, buf
      ensures Len() <= Cap() ==> Len() as int + a as int == Cap() as int
      ensures Valid() ==> a as int == buf.Length - |Contents|
    {
      Sub32(Cap(), Len())
    }

    /** `xcomm_ringbuf_full`: compares the length with the mask. */
    function Full(): (b: bool)
      reads this, buf
      ensures Valid() ==> (b <==> buf.Length > 0 && |Contents| == buf.Length)
      ensures Valid() ==> (b <==> Cap() > 0 && Avail() == 0)
    {
      Len() > mask
    }

    /** `xcomm_ringbuf_empty`. */
    function Empty(): (b: bool)
      reads this, buf
      ensures b <==> Len() == 0
      ensures Valid() ==> (b <==> Contents == [])
    {
      wpos == rpos
    }

    /** The capacity is 2^Log, or 0 when the rounding gave 0. */
    static lemma CapIsPow2(mask: u32, log: nat)
      requires log <= 32 && mask as int == Pow2(log) - 1
      ensures log < 32 ==> Add32(mask, 1) as int == Pow2(log)
      ensures log == 32 <==> Add32(mask, 1) == 0
    {
      Pow2Of32();
      if log < 32 {
        Pow2Grows(log, 32);
      }
    }

    /** The element capacity times the element width fits in the requested bytes. */
    static lemma ScaledFits(n: u32, r: u32, esize: u32, bufsize: u32)
      requires esize > 0 && n == bufsize / esize && r <= n
      ensures r as int * esize as int <= bufsize as int
    {
      assert r as int * esize as int <= n as int * esize as int by {
        MulMono(r as int, n as int, esize as int);
      }
    }

    /** The mask `r - 1` that Init stores, for r the rounding of n, is
        2^log - 1 for some log <= 32 (all ones when r is 0), and adding one to
        it gives r back. */
    static lemma MaskOfRounding(n: u32, r: u32) returns (log: nat)
      requires r == 0 || (n >= 1 && r as int == Pow2(Log2(n as nat)))
      ensures log <= 32 && Sub32(r, 1) as int == Pow2(log) - 1
      ensures Add32(Sub32(r, 1), 1) == r
    {
      Pow2Of32();
      if r == 0 {
        log := 32;
      } else {
        log := Log2(n as nat);
        Log2OfWord(n);
        Pow2Grows(log, 32);
      }
    }

    /** `xcomm_ringbuf_init`: an empty buffer of 2^k elements, 2^k the largest
        power of two not above bufsize / esize, or of 0 elements when bufsize
        is below esize. Uses the corrected rounding; allocation is taken to
        succeed. */
    constructor Init(esize: u32, bufsize: u32)
      requires esize > 0
      ensures Valid() && fresh(buf) && Released == []
      ensures esz == esize && wpos == 0 && rpos == 0 && Contents == []
      ensures Cap() == RoundDownPowOfTwoCorrected(bufsize / esize)
      ensures bufsize >= esize ==>
        Cap() as int == Pow2(Log2((bufsize / esize) as nat)) &&
        Cap() <= bufsize / esize && (bufsize / esize) as int < 2 * Cap() as int
      ensures bufsize < esize ==> Cap() == 0 && mask == 0xFFFF_FFFF
      ensures Cap() as int * esize as int <= bufsize as int
    {
      var n := bufsize / esize;
      DivIsZero(bufsize as nat, esize as nat);
      var r := RoundDownPowOfTwoCorrected(n);
      RoundDownPowOfTwoCorrectedSpec(n);
      var log := MaskOfRounding(n, r);
      var m := Sub32(r, 1);
      buf := new T[Add32(m, 1)];
      esz := esize;
      mask := m;
      wpos := 0;
      rpos := 0;
      Contents := [];
      Log := log;
      Released := [];
      Head := 0;
      LowIsMod(0, log);
      ScaledFits(n, r, esize, bufsize);
    }

    /** `xcomm_ringbuf_destroy`: releases the storage if there is any and
        forgets it, so destroying twice releases it once. */
    method Destroy()
      modifies this
      ensures buf == null
      ensures Released == old(Released) + (if old(buf) == null then [] else [old(buf)])
      ensures esz == old(esz) && mask == old(mask) && wpos == old(wpos) && rpos == old(rpos)
      ensures Contents == old(Contents) && Log == old(Log) && Head == old(Head)
    {
      if buf != null {
        Released := Released + [buf];
        buf := null;
      }
    }

    /** `_ringbuffer_internal_write`: copies len elements into the free slots
        that follow the write cursor off, in at most two pieces split at the
        end of storage. The queued elements are untouched. */
    method InternalWrite(src: array<T>, len: u32, off: u32)
      requires Config() && src != buf && len as int <= src.Length
      requires len <= Avail() && off == wpos
      modifies buf
      ensures forall i :: 0 <= i < Len() as int ==> buf[Slot(i)] == old(buf[Slot(i)])
      ensures forall p :: Len() as int <= p < Len() as int + len as int ==>
        buf[Slot(p)] == src[p - Len() as int]
    {
      var size := Add32(mask, 1);
      var o := And32(off, mask);
      var l := if len < Sub32(size, o) then len else Sub32(size, o);
      CapIsPow2(mask, Log);
      if Log == 32 {
        assert o == 0 && l == 0 && len == 0 by {
          assert off == 0;
        }
      } else {
        CopyPlan(rpos, mask, Log, Head, buf.Length, Len(), len, o, l);
      }
      CopyIn(buf, src, o as nat, l as nat, len as nat);
    }

    /** `xcomm_ringbuf_write`: appends as many of the first entryCount elements
        of src as there is room for and advances the write cursor by that many. */
    method Write(src: array<T>, entryCount: u32) returns (n: u32)
      requires Valid() && src != buf && entryCount as int <= src.Length
      modifies this, buf
      ensures Valid() && SameStorage()
      ensures n == if entryCount > old(Avail()) then old(Avail()) else entryCount
      ensures wpos == Add32(old(wpos), n) && rpos == old(rpos)
      ensures Contents == old(Contents) + src[..n]
    {
      var avail := Avail();
      n := entryCount;
      if n > avail {
        n := avail;
      }
      InternalWrite(src, n, wpos);
      ghost var len, w0, c0 := Len(), wpos, Contents;
      assert len as int + n as int <= buf.Length < U32;
      wpos := Add32(wpos, n);
      Contents := Contents + src[..n];
      assert Len() as int == len as int + n as int by {
        Add32Twice(rpos, len, n);
        SubOfAdd32(rpos, (len as int + n as int) as u32);
      }
      assert Cap() == 0 ==> wpos == 0 && rpos == 0 by {
        if Cap() == 0 {
          assert n == 0 && w0 == 0;
        }
      }
      forall i | 0 <= i < |Contents|
        ensures Contents[i] == buf[Slot(i)]
      {
        if i >= |c0| {
          assert Contents[i] == src[i - |c0|];
        } else {
          assert Contents[i] == c0[i];
        }
      }
    }

    /** `_ringbuffer_internal_read`: copies the len oldest elements, starting at
        the read cursor off, to the front of dst in at most two pieces split at
        the end of storage. */
    method InternalRead(dst: array<T>, len: u32, off: u32)
      requires Config() && dst != buf && len as int <= dst.Length
      requires len <= Len() && off == rpos
      modifies dst
      ensures forall j :: 0 <= j < len as int ==> dst[j] == buf[Slot(j)]
      ensures forall j :: len as int <= j < dst.Length ==> dst[j] == old(dst[j])
    {
      var size := Add32(mask, 1);
      var o := And32(off, mask);
      var l := if len < Sub32(size, o) then len else Sub32(size, o);
      CapIsPow2(mask, Log);
      if Log == 32 {
        assert o == 0 && l == 0 && len == 0 by {
          assert off == 0;
        }
      } else {
        assert off == Add32(rpos, 0);
        CopyPlan(rpos, mask, Log, Head, buf.Length, 0, len, o, l);
      }
      CopyOut(dst, buf, o as nat, l as nat, len as nat);
    }

    /** `_ringbuffer_internal_read_peek`: copies out up to len of the oldest
        elements without consuming them and says how many. */
    method ReadPeek(dst: array<T>, len: u32) returns (n: u32)
      requires Valid() && dst != buf && len as int <= dst.Length
      modifies dst
      ensures n == if len > Len() then Len() else len
      ensures dst[..n] == Contents[..n] && dst[n..] == old(dst[n..])
    {
      n := Sub32(wpos, rpos);
      if len <= n {
        n := len;
      }
      InternalRead(dst, n, rpos);
    }

    /** `ring->rpos += entry_count`: drops the n oldest elements by moving
        the read cursor past them; the storage is not touched. */
    method AdvanceRead(n: u32)
      requires Valid() && n <= Len()
      modifies this
      ensures Valid() && SameStorage()
      ensures rpos == Add32(old(rpos), n) && wpos == old(wpos)
      ensures Contents == old(Contents)[n..]
    {
      ghost var len, r0, c0, h0 := Len(), rpos, Contents, Head;
      if buf.Length > 0 {
        CapIsPow2(mask, Log);
        CursorAdvance(rpos, n, Log);
        Head := Wrap(Head, n as int, buf.Length);
      }
      rpos := Add32(rpos, n);
      Contents := Contents[n..];
      assert Len() == len - n by {
        Add32Twice(r0, n, len - n);
        SubOfAdd32(rpos, len - n);
      }
      forall i | 0 <= i < |Contents|
        ensures Contents[i] == buf[Slot(i)]
      {
        assert Slot(i) == Wrap(h0, n as int + i, buf.Length);
      }
    }

    /** `xcomm_ringbuf_read`: removes up to entryCount of the oldest elements
        into dst, in FIFO order, and advances the read cursor by that many. */
    method Read(dst: array<T>, entryCount: u32) returns (n: u32)
      requires Valid() && dst != buf && entryCount as int <= dst.Length
      modifies this, dst
      ensures Valid() && SameStorage()
      ensures n == if entryCount > old(Len()) then old(Len()) else entryCount
      ensures dst[..n] == old(Contents)[..n] && dst[n..] == old(dst[n..])
      ensures Contents == old(Contents)[n..]
      ensures rpos == Add32(old(rpos), n) && wpos == old(wpos)
      ensures buf[..] == old(buf[..])
    {
      n := ReadPeek(dst, entryCount);
      AdvanceRead(n);
    }

    /** Writing into an empty buffer and then reading the same count gives
        back what was written, clamped to the capacity, in order, and leaves
        the buffer empty again. */
    method WriteThenRead(src: array<T>, dst: array<T>, count: u32) returns (written: u32, read: u32)
      requires Valid() && Contents == [] && src != buf && dst != buf && src != dst
      requires count as int <= src.Length && count as int <= dst.Length
      modifies this, buf, dst
      ensures Valid() && SameStorage() && Contents == []
      ensures written == read == if count > Cap() then Cap() else count
      ensures dst[..read] == src[..read]
    {
      written := Write(src, count);
      assert Contents == src[..written];
      read := Read(dst, count);
      assert read == written;
    }
  }

}
