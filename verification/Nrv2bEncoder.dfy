/** The NRV2B bit writer and token coder, writing into a fixed output buffer. */
module Nrv2bEncoder {
  import opened Bytes
  import opened Nrv2bFormat
  import opened Nrv2bTokens
  import opened Nrv2bCost

  // ------------------------------------------- the buffer while a word is open

  /** What the bytes written so far are, when `tail` holds the operations since the
      word at p was begun: its place is reserved but not yet written. */
  ghost predicate Written(s: Width, bytes: seq<byte>, p: nat, head: seq<Op>, tail: seq<Op>)
  {
    && WholeWords(s, |BitsOf(head)|)
    && |BitsOf(tail)| <= s
    && (tail == [] ==> bytes == Layout(s, head, 0))
    && (tail != [] ==> && tail[0].Bit?
                       && p + s / 8 <= |bytes|
                       && bytes[..p] == Layout(s, head, 0)
                       && bytes[p + s / 8..] == RawsOf(tail))
  }

  /** Filling the reserved word in completes the stream. */
  lemma FillWord(s: Width, bytes: seq<byte>, p: nat, head: seq<Op>, tail: seq<Op>, full: seq<byte>)
    requires Written(s, bytes, p, head, tail) && tail != []
    requires |full| == |bytes|
    requires forall j :: 0 <= j < p || p + s / 8 <= j < |bytes| ==> full[j] == bytes[j]
    requires forall j :: p <= j < p + s / 8 ==> full[j] == WordBytes(s, BitsOf(tail))[j - p]
    ensures full == Layout(s, head + tail, 0)
    ensures |BitsOf(tail)| == s ==> Written(s, full, 0, head + tail, [])
  {
    hide Layout, BitsOf, RawsOf, WordBytes;
    OpsAppend(head, tail);
    NoBits();
    LayoutAppend(s, head, tail, 0);
    LayoutOneWord(s, tail);
    assert full[..p] == bytes[..p];
    assert full[p..p + s / 8] == WordBytes(s, BitsOf(tail));
    assert full[p + s / 8..] == bytes[p + s / 8..];
    assert full == full[..p] + (full[p..p + s / 8] + full[p + s / 8..]);
  }

  lemma {:induction false} WholeWordSpace(s: Width, a: nat)
    requires WholeWords(s, a)
    ensures 8 * WordSpace(s, a) == a
  {
    if a > 0 {
      WholeWordSpace(s, a - s);
    }
  }

  /** The space used is what was put, rounded up by what the open word still lacks. */
  lemma WrittenLength(s: Width, bytes: seq<byte>, p: nat, head: seq<Op>, tail: seq<Op>)
    requires Written(s, bytes, p, head, tail)
    ensures 8 * |bytes| == Weight(head + tail) + (if tail == [] then 0 else s - |BitsOf(tail)|)
  {
    hide Layout, BitsOf, RawsOf, WholeWords, WordSpace;
    OpsAppend(head, tail);
    LayoutSize(s, head, 0);
    WholeWordSpace(s, |BitsOf(head)|);
    if tail == [] {
      assert head + tail == head;
    } else {
      assert |bytes[p + s / 8..]| == |RawsOf(tail)|;
    }
  }

  lemma NoBits()
    ensures BitsOf([]) == [] && Value([]) == 0
  {
  }

  /** With no word open, the place of the last one is irrelevant. */
  lemma Reopen(s: Width, bytes: seq<byte>, p: nat, head: seq<Op>)
    requires Written(s, bytes, p, head, [])
    ensures Written(s, bytes, 0, head, [])
  {
  }

  lemma OpenWord(s: Width, bytes: seq<byte>, bytes': seq<byte>, ops: seq<Op>, bit: bool)
    requires Written(s, bytes, 0, ops, [])
    requires |bytes'| == |bytes| + s / 8 && bytes'[..|bytes|] == bytes
    ensures Written(s, bytes', |bytes|, ops, [Bit(bit)])
    ensures BitsOf([Bit(bit)]) == [bit]
  {
    var op := [Bit(bit)];
    assert op[1..] == [];
    assert BitsOf(op) == [bit] && RawsOf(op) == [];
  }

  lemma ExtendWord(s: Width, bytes: seq<byte>, p: nat, head: seq<Op>, tail: seq<Op>, bit: bool)
    requires Written(s, bytes, p, head, tail) && tail != [] && |BitsOf(tail)| < s
    ensures Written(s, bytes, p, head, tail + [Bit(bit)])
    ensures BitsOf(tail + [Bit(bit)]) == BitsOf(tail) + [bit]
  {
    var op := [Bit(bit)];
    OpsAppend(tail, op);
    assert op[1..] == [];
    assert BitsOf(op) == [bit] && RawsOf(op) == [];
  }

  lemma ExtendRaw(s: Width, bytes: seq<byte>, p: nat, head: seq<Op>, tail: seq<Op>, v: byte)
    requires Written(s, bytes, p, head, tail) && tail != []
    ensures Written(s, bytes + [v], p, head, tail + [Raw(v)])
    ensures BitsOf(tail + [Raw(v)]) == BitsOf(tail)
  {
    hide Layout, WholeWords, BitsOf, RawsOf;
    var op := [Raw(v)];
    OpsAppend(tail, op);
    OneOp(Raw(v));
    assert BitsOf(tail) + [] == BitsOf(tail);
    assert (bytes + [v])[..p] == bytes[..p];
    assert (bytes + [v])[p + s / 8..] == bytes[p + s / 8..] + [v];
  }

  lemma StartRaw(s: Width, bytes: seq<byte>, p: nat, head: seq<Op>, v: byte)
    requires Written(s, bytes, p, head, [])
    ensures Written(s, bytes + [v], p, head + [Raw(v)], [])
  {
    var op := [Raw(v)];
    LayoutAppend(s, head, op, 0);
    OpsAppend(head, op);
    assert op[1..] == [];
    assert BitsOf(op) == [] && Layout(s, op, 0) == [v];
  }

  lemma {:induction false} FillerChangesNothing(s: Width, head: seq<Op>, tail: seq<Op>, n: nat)
    requires WholeWords(s, |BitsOf(head)|)
    requires tail != [] && tail[0].Bit? && |BitsOf(tail)| + n <= s
    ensures Layout(s, head + (tail + Filler(n)), 0) == Layout(s, head + tail, 0)
  {
    hide Layout, WholeWords, BitsOf, RawsOf, Filler, Pad;
    LayoutAppend(s, head, tail, 0);
    LayoutAppend(s, head, tail + Filler(n), 0);
    OpsAppend(tail, Filler(n));
    FillerBits(n);
    LayoutOneWord(s, tail);
    LayoutOneWord(s, tail + Filler(n));
    PadFiller(BitsOf(tail), n, s);
  }

  lemma PadFiller(bits: seq<bool>, n: nat, s: nat)
    requires |bits| + n <= s
    ensures Pad(bits + Zeros(n), s) == Pad(bits, s)
  {
  }

  function Filler(n: nat): (ops: seq<Op>)
  {
    if n == 0 then [] else Filler(n - 1) + [Bit(false)]
  }

  lemma {:induction false} FillerBits(n: nat)
    ensures BitsOf(Filler(n)) == Zeros(n) && RawsOf(Filler(n)) == []
  {
    if n > 0 {
      FillerBits(n - 1);
      var op := [Bit(false)];
      OpsAppend(Filler(n - 1), op);
      assert op[1..] == [];
      assert BitsOf(op) == [false] && RawsOf(op) == [];
    }
  }

  // ------------------------------------------------------------------ the coder

  lemma {:induction false} ByteOfWord(b: nat, n: nat)
    ensures forall i :: 0 <= i < n ==> LeBytes(b, n)[i] == ShiftBytes(b, i) % 256
  {
    if n > 0 {
      ByteOfWord(b / 256, n - 1);
      forall i | 0 <= i < n ensures LeBytes(b, n)[i] == ShiftBytes(b, i) % 256 {
        if i > 0 {
          assert LeBytes(b, n)[i] == LeBytes(b / 256, n - 1)[i - 1];
        }
      }
    }
  }

  lemma OneBit(bit: bool)
    ensures Value([bit]) == if bit then 1 else 0
  {
    ValueAppend([], bit);
    assert [] + [bit] == [bit] && Value([]) == 0;
  }

  /** The part of `struct ucl_compress` that concerns output. */
  class Encoder {
    const s: Width
    const out: array<byte>
    var op: nat        // bb_op
    var p: nat         // bb_p
    var b: nat         // bb_b
    var k: nat         // bb_k
    var lastOff: u32   // last_m_off
    ghost var head: seq<Op>
    ghost var tail: seq<Op>

    /** Everything put so far, in order. */
    ghost function Ops(): seq<Op>
      reads this
    {
      head + tail
    }

    ghost predicate Valid()
      reads this, out
    {
      && op <= out.Length
      && Written(s, out[..op], p, head, tail)
      && k == |BitsOf(tail)| <= s
      && (k == 0 <==> tail == [])
      && b == Value(BitsOf(tail))
    }

    /** Enough buffer is left for operations of the given cost. */
    ghost predicate Room(w: int)
      reads this
    {
      Weight(Ops()) + w + s <= 8 * out.Length
    }

    constructor (s: Width, capacity: nat)
      ensures Valid() && fresh(out)
      ensures Ops() == [] && lastOff == 1
      ensures this.s == s && out.Length == capacity
    {
      this.s := s;
      out := new byte[capacity];
      op, p, b, k := 0, 0, 0, 0;
      lastOff := 1;
      head, tail := [], [];
    }

    method WriteBits()
      requires k > 0 && p + s / 8 <= op <= out.Length
      modifies out
      ensures forall j :: p <= j < p + s / 8 ==> out[j] == LeBytes(b, s / 8)[j - p]
      ensures forall j :: 0 <= j < p || p + s / 8 <= j < op ==> out[j] == old(out[j])
    {
      hide LeBytes, ShiftBytes;
      out[p] := ShiftBytes(b, 0) % 256;
      if s >= 16 {
        out[p + 1] := ShiftBytes(b, 1) % 256;
        if s >= 32 {
          out[p + 2] := ShiftBytes(b, 2) % 256;
          out[p + 3] := ShiftBytes(b, 3) % 256;
          if s == 64 {
            out[p + 4] := ShiftBytes(b, 4) % 256;
            out[p + 5] := ShiftBytes(b, 5) % 256;
            out[p + 6] := ShiftBytes(b, 6) % 256;
            out[p + 7] := ShiftBytes(b, 7) % 256;
          }
        }
      }
      ByteOfWord(b, s / 8);
    }

    /** Writes the open word, which must be full, to its reserved place. */
    method CloseWord()
      requires Valid() && k == s
      modifies out
      ensures op <= out.Length && out[..op] == Layout(s, Ops(), 0)
      ensures Written(s, out[..op], 0, Ops(), [])
    {
      hide Layout, BitsOf, RawsOf, WholeWords, LeBytes;
      ghost var bytes := out[..op];
      WriteBits();
      assert Pad(BitsOf(tail), s) == BitsOf(tail);
      FillWord(s, bytes, p, head, tail, out[..op]);
    }

    /** The first bit ever, or the first behind a word just written. */
    method OpenBit(bit: bool)
      requires op + s / 8 <= out.Length && Written(s, out[..op], 0, Ops(), [])
      modifies this`op, this`p, this`b, this`k, this`head, this`tail
      ensures Valid() && k == 1 && Ops() == old(Ops()) + [Bit(bit)]
    {
      hide Layout, BitsOf, RawsOf, WholeWords, Written, Value;
      ghost var bytes := out[..op];
      OneBit(bit);
      p := op;
      op := op + s / 8;
      head, tail := head + tail, [Bit(bit)];
      OpenWord(s, bytes, out[..op], head, bit);
      b := if bit then 1 else 0;
      k := 1;
    }

    /** One more bit of an open word. */
    method AddBit(bit: bool)
      requires Valid() && 0 < k < s
      modifies this`b, this`k, this`tail
      ensures Valid() && k == old(k) + 1 && tail == old(tail) + [Bit(bit)]
    {
      hide Layout, BitsOf, RawsOf, WholeWords, Written, Value;
      ValueAppend(BitsOf(tail), bit);
      ExtendWord(s, out[..op], p, head, tail, bit);
      tail := tail + [Bit(bit)];
      b := 2 * b + (if bit then 1 else 0);
      k := k + 1;
    }

    method PutBit(bit: bool)
      requires Valid()
      requires (0 < k < s) || Room(1)
      modifies this`op, this`p, this`b, this`k, this`head, this`tail, out
      ensures Valid() && k > 0
      ensures Ops() == old(Ops()) + [Bit(bit)]
      ensures 0 < old(k) < s ==> head == old(head) && tail == old(tail) + [Bit(bit)] && k == old(k) + 1
    {
      hide Layout, BitsOf, RawsOf, WholeWords, Written, Value, Weight;
      ghost var was := Ops();
      if 0 < k < s {
        AddBit(bit);
        assert Ops() == was + [Bit(bit)];
        return;
      }
      WrittenLength(s, out[..op], p, head, tail);
      if k == 0 {
        Reopen(s, out[..op], p, head);
        assert Ops() == head;
      } else {
        CloseWord();
      }
      OpenBit(bit);
    }

    method PutByte(v: byte)
      requires Valid() && Room(8)
      modifies this`op, this`head, this`tail, out
      ensures Valid()
      ensures Ops() == old(Ops()) + [Raw(v)]
    {
      hide Layout, BitsOf, RawsOf, WholeWords;
      ghost var was, bytes := Ops(), out[..op];
      WrittenLength(s, out[..op], p, head, tail);
      out[op] := v;
      op := op + 1;
      assert out[..op] == bytes + [v];
      if tail == [] {
        StartRaw(s, bytes, p, head, v);
        head := head + [Raw(v)];
      } else {
        ExtendRaw(s, bytes, p, head, tail, v);
        tail := tail + [Raw(v)];
      }
      assert Ops() == was + [Raw(v)];
    }

    /** Fills the open word up with zeros and writes it: the stream is complete. */
    method FlushBits()
      requires Valid()
      modifies this, out
      ensures op <= out.Length && out[..op] == Layout(s, old(Ops()), 0)
    {
      hide Layout, BitsOf, RawsOf, WholeWords, Value;
      if k > 0 {
        ghost var n := 0;
        while k != s
          invariant Valid() && k > 0 && n <= k <= s
          invariant head == old(head)
          invariant tail == old(tail) + Filler(n)
          invariant |BitsOf(old(tail))| + n == k
          decreases s - k
        {
          PutBit(false);
          n := n + 1;
        }
        FillerChangesNothing(s, head, old(tail), n);
        CloseWord();
        k := 0;
      } else {
        assert Ops() == head;
      }
    }

    method PutBits(x: bool, y: bool)
      requires Valid() && Room(2)
      modifies this`op, this`p, this`b, this`k, this`head, this`tail, out
      ensures Valid()
      ensures Ops() == old(Ops()) + [Bit(x), Bit(y)]
    {
      hide Written, Weight, Value, BitsOf;
      ghost var was := Ops();
      PutBit(x);
      WeightAppend(was, [Bit(x)]);
      WeightOfBit(x);
      PutBit(y);
      assert was + [Bit(x)] + [Bit(y)] == was + [Bit(x), Bit(y)];
    }

    /** The highest power of two that does not exceed v. */
    static method LeadingPower(v: nat) returns (t: nat, ghost e: nat)
      requires v >= 4
      ensures t == Pow2(e) && e >= 2 && t <= v < 2 * t
    {
      t := 4;
      e := 3;
      t := t * 2;
      while v >= t
        invariant 8 <= t <= 2 * v && t == Pow2(e) && e >= 3
        decreases 2 * v - t
      {
        t := t * 2;
        e := e + 1;
      }
      t := t / 2;
      e := e - 1;
    }

    method PutDigit(v: nat, t: nat, ghost was: seq<Op>)
      requires t >= 2 && 2 * t <= v
      requires Valid() && Ops() == was + PrefixHead(Digits(v, 2 * t))
      requires Weight(was) + 2 * Log2(v) + s <= 8 * out.Length
      modifies this`op, this`p, this`b, this`k, this`head, this`tail, out
      ensures Valid() && Ops() == was + PrefixHead(Digits(v, t))
    {
      hide Written, Weight, Value, BitsOf, Log2, PrefixHead, Digits;
      NextDigit(v, t);
      var digit := Digits(v, t) % 2 == 1;
      ghost var u := Digits(v, 2 * t);
      DigitRoom(was, v, u);
      PutBits(digit, false);
      assert was + PrefixHead(u) + [Bit(digit), Bit(false)] == was + (PrefixHead(u) + [Bit(digit), Bit(false)]);
    }

    /** The digits of i + 2 below its leading one, from the top down. */
    method CodePrefix(i: nat)
      requires i + 2 < 0x8000_0000
      requires Valid() && Room(2 * Log2(i + 2))
      modifies this`op, this`p, this`b, this`k, this`head, this`tail, out
      ensures Valid()
      ensures Ops() == old(Ops()) + PrefixOps(i + 2)
    {
      hide Written, Weight, Value, BitsOf, Log2, PrefixHead, Digits, Encoder.Valid;
      ghost var was := Ops();
      var v := i + 2;
      if i >= 2 {
        PutDigits(v, was);
      } else {
        NoDigits(v);
        assert was + PrefixHead(v / 2) == was;
      }
      DigitRoom(was, v, v / 2);
      PutBits(v % 2 == 1, true);
      assert was + PrefixHead(v / 2) + [Bit(v % 2 == 1), Bit(true)] == was + PrefixOps(v);
    }

    /** All digits but the first and the last. */
    method PutDigits(v: nat, ghost was: seq<Op>)
      requires v >= 4 && Valid() && Ops() == was && Room(2 * Log2(v))
      modifies this`op, this`p, this`b, this`k, this`head, this`tail, out
      ensures Valid() && Ops() == was + PrefixHead(v / 2)
    {
      hide Written, Weight, Value, BitsOf, Log2, PrefixHead, Digits, Encoder.Valid, Pow2;
      ghost var e: nat;
      var t: nat;
      t, e := LeadingPower(v);
      LeadingDigit(v, t);
      SmallPowers(e);
      while true
        invariant t == Pow2(e) && e >= 2 && 4 <= t <= v
        invariant Valid()
        invariant Ops() == was + PrefixHead(Digits(v, t))
        decreases t
      {
        NextPow2(e - 1);
        t := t / 2;
        e := e - 1;
        SmallPowers(e);
        PutDigit(v, t, was);
        if t <= 2 {
          break;
        }
      }
      AllButLast(v);
    }

    method CodeOffset(off: u32)
      requires off >= 1
      requires Valid() && Room(OffsetCost(off, lastOff))
      modifies this`op, this`p, this`b, this`k, this`head, this`tail, out
      ensures Valid()
      ensures Ops() == old(Ops()) + OffsetOps(off, lastOff)
    {
      hide Written, Weight, Value, BitsOf, Log2, PrefixOps;
      if off == lastOff {
        PutBits(false, true);
      } else {
        ghost var was := Ops();
        var v := 3 + (off - 1) / 256;
        CodePrefix(1 + (off - 1) / 256);
        WeightAppend(was, PrefixOps(v));
        PrefixWeight(v);
        PutByte((off - 1) % 256);
        Reassociate(was, PrefixOps(v), [Raw((off - 1) % 256)]);
      }
    }

    method CodeLength(m: nat)
      requires m < 0x8000_0000
      requires Valid() && Room(LengthCost(m))
      modifies this`op, this`p, this`b, this`k, this`head, this`tail, out
      ensures Valid()
      ensures Ops() == old(Ops()) + LengthOps(m)
    {
      hide Written, Weight, Value, BitsOf, Log2, PrefixOps;
      if m >= 4 {
        ghost var was := Ops();
        PutBits(false, false);
        WeightAppend(was, [Bit(false), Bit(false)]);
        WeightOfTwoBits(false, false);
        CodePrefix(m - 4);
        Reassociate(was, [Bit(false), Bit(false)], PrefixOps(m - 2));
      } else {
        PutBits(m > 1, m % 2 == 1);
      }
    }

    method CodeMatch(mLen: u32, mOff: u32)
      requires Legal(Copy(mLen, mOff))
      requires Valid() && Room(CopyCost(mLen, mOff, lastOff))
      modifies this, out
      ensures Valid()
      ensures Ops() == old(Ops()) + TokenOps(Copy(mLen, mOff), old(lastOff))
      ensures lastOff == mOff
    {
      hide Written, Weight, Value, BitsOf, Log2, OffsetOps, LengthOps;
      ghost var was := Ops();
      PutBit(false);
      WeightAppend(was, [Bit(false)]);
      WeightOfBit(false);
      CodeOffset(mOff);
      ghost var offset := OffsetOps(mOff, lastOff);
      WeightAppend(was + [Bit(false)], offset);
      OffsetWeight(mOff, lastOff);
      var m := mLen - 1 - (if mOff > M2_MAX_OFFSET then 1 else 0);
      CodeLength(m);
      Reassociate(was + [Bit(false)], offset, LengthOps(m));
      Reassociate(was, [Bit(false)], offset + LengthOps(m));
      lastOff := mOff;
    }

    /** Literals for input[ii..ii + lit]. */
    method CodeRun(input: seq<byte>, ii: nat, lit: nat)
      requires ii + lit <= |input|
      requires Valid() && Room(9 * lit)
      modifies this`op, this`p, this`b, this`k, this`head, this`tail, out
      ensures Valid()
      ensures Ops() == old(Ops()) + TokensOps(Literals(input[ii..ii + lit]), lastOff)
    {
      hide Written, Weight, Value, BitsOf, TokensOps;
      ghost var was := Ops();
      var n := 0;
      NoLiterals(lastOff);
      assert input[ii..ii] == [];
      assert was + [] == was;
      while n < lit
        invariant n <= lit && Valid()
        invariant Ops() == was + TokensOps(Literals(input[ii..ii + n]), lastOff)
        invariant Weight(Ops()) == Weight(was) + 9 * n
      {
        ghost var run := TokensOps(Literals(input[ii..ii + n]), lastOff);
        var v := input[ii + n];
        PutBit(true);
        WeightAppend(was + run, [Bit(true)]);
        WeightOfBit(true);
        PutByte(v);
        WeightAppend(was + run + [Bit(true)], [Raw(v)]);
        WeightOfRaw(v);
        OneMoreLiteral(input, ii, n, lastOff);
        OneMorePair(was, run, v);
        n := n + 1;
      }
    }
  }

  /** The digits of v from weight t up; `i & t` tests the lowest of them. */
  function Digits(v: nat, t: nat): (u: nat)
    requires t >= 1
  {
    v / t
  }

  lemma NoDigits(v: nat)
    requires 2 <= v < 4
    ensures PrefixHead(v / 2) == []
  {
  }

  lemma LeadingDigit(v: nat, t: nat)
    requires 0 < t <= v < 2 * t
    ensures PrefixHead(Digits(v, t)) == []
  {
    QuotientUnique(v, t, 1, v - t);
  }

  lemma NextDigit(v: nat, t: nat)
    requires t >= 1 && 2 * t <= v
    ensures 1 <= Digits(v, 2 * t) <= v / 2
    ensures PrefixHead(Digits(v, t)) == PrefixHead(Digits(v, 2 * t)) + [Bit(Digits(v, t) % 2 == 1), Bit(false)]
  {
    DivideThenHalve(v, t);
    HalfBound(v, t);
  }

  lemma SmallPowers(e: nat)
    requires e >= 1
    ensures Pow2(e) >= 2 && (e == 1 <==> Pow2(e) == 2) && (e >= 2 <==> Pow2(e) >= 4)
  {
    if e >= 2 {
      NextPow2(e - 1);
      NextPow2(e - 2);
    }
  }

  lemma AllButLast(v: nat)
    ensures Digits(v, 2) == v / 2
  {
  }

  lemma HalfBound(v: nat, t: nat)
    requires t >= 1
    ensures v / t / 2 <= v / 2
  {
    var q := v / t;
    assert v == t * q + v % t;
    assert t * q >= q;
  }

  /** Any proper beginning of a prefix leaves room for two more bits. */
  lemma DigitRoom(was: seq<Op>, v: nat, u: nat)
    requires 1 <= u <= v / 2
    ensures Weight(was + PrefixHead(u)) + 2 <= Weight(was) + 2 * Log2(v)
  {
    hide Weight;
    WeightAppend(was, PrefixHead(u));
    PrefixHeadWeight(u);
    Log2Monotone(u, v / 2);
  }

  function Literals(bytes: seq<byte>): (ts: seq<Token>)
    ensures |ts| == |bytes| && forall i :: 0 <= i < |ts| ==> ts[i] == Literal(bytes[i])
  {
    seq(|bytes|, i requires 0 <= i < |bytes| => Literal(bytes[i]))
  }

  lemma OneMorePair(was: seq<Op>, run: seq<Op>, v: byte)
    ensures was + run + [Bit(true)] + [Raw(v)] == was + (run + [Bit(true), Raw(v)])
  {
  }

  lemma NoLiterals(last: nat)
    ensures TokensOps(Literals([]), last) == []
  {
  }

  /** The offset remembered after a token sequence. */
  function LastOffset(ts: seq<Token>, last: nat): (off: nat)
  {
    if ts == [] then last else LastOffset(ts[1..], NextLast(ts[0], last))
  }

  /** Joining sequences joins their spellings. */
  lemma {:induction false} TokensOpsJoin(ts: seq<Token>, us: seq<Token>, last: nat)
    requires AllLegal(ts) && AllLegal(us)
    ensures TokensOps(ts + us, last) == TokensOps(ts, last) + TokensOps(us, LastOffset(ts, last))
    ensures LastOffset(ts + us, last) == LastOffset(us, LastOffset(ts, last))
  {
    hide TokenOps;
    if ts == [] {
      assert ts + us == us;
      assert TokensOps(ts, last) == [];
    } else {
      assert (ts + us)[1..] == ts[1..] + us;
      var next := NextLast(ts[0], last);
      TokensOpsJoin(ts[1..], us, next);
      Reassociate(TokenOps(ts[0], last), TokensOps(ts[1..], next), TokensOps(us, LastOffset(ts[1..], next)));
    }
  }

  lemma {:induction false} LiteralsKeepLastOffset(bytes: seq<byte>, last: nat)
    ensures LastOffset(Literals(bytes), last) == last
  {
    if bytes != [] {
      assert Literals(bytes)[1..] == Literals(bytes[1..]);
      LiteralsKeepLastOffset(bytes[1..], last);
    }
  }

  lemma OneMoreLiteral(input: seq<byte>, ii: nat, n: nat, last: nat)
    requires ii + n < |input|
    ensures TokensOps(Literals(input[ii..ii + n + 1]), last)
         == TokensOps(Literals(input[ii..ii + n]), last) + [Bit(true), Raw(input[ii + n])]
  {
    var run, t := input[ii..ii + n], Literal(input[ii + n]);
    assert Literals(input[ii..ii + n + 1]) == Literals(run) + [t];
    TokensOpsJoin(Literals(run), [t], last);
    LiteralsKeepLastOffset(run, last);
    assert [t][1..] == [] && TokensOps([t], last) == TokenOps(t, last) + [];
  }
}
