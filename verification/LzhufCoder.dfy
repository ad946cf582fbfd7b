/** EncodeChar, EncodePosition and their inverses, on one evolving tree each. */
module LzhufCoder {
  import opened Bytes
  import opened LzhufTree
  import opened LzhufHuffman
  import opened LzhufBits
  import opened LzhufCodes
  import LzhufOrder

  /** What the dictionary stage hands over: a character, or a match and how far back it lies. */
  datatype Token = Char(c: byte) | Match(len: nat, pos: nat)

  predicate Proper(k: Token)
  {
    k.Match? ==> LzhufOrder.THRESHOLD < k.len <= 60 && k.pos < 4096
  }

  /** Match lengths continue the alphabet after the characters. */
  function Symbol(k: Token): (code: nat)
    requires Proper(k)
    ensures code < N_CHAR && (code < 256 <==> k.Char?)
  {
    match k
    case Char(c) => c
    case Match(len, _) => 255 - LzhufOrder.THRESHOLD + len
  }

  function TokenBits(t: Tree, k: Token): (bits: seq<bool>)
    requires Shape(t) && Proper(k)
  {
    Code(t, Symbol(k)) + (if k.Char? then [] else PositionBits(k.pos))
  }

  /** The coder is within its limits: no reconstruction, and codes of at most 16 bits. */
  predicate Codable(t: Tree, k: Token)
  {
    Proper(k) && Shape(t) && t.freq[R] < MAX_FREQ && 1 <= |Code(t, Symbol(k))| <= 16
  }

  lemma StepCode(i: nat, suffix: seq<bool>, turn: bool)
    requires i < 0x1_0000 && ToBits(i, 16) == Pad(suffix, 16)
    ensures ToBits(i / 2 + (if turn then 0x8000 else 0), 16) == Pad([turn] + suffix, 16)
  {
    hide ToBits, Pow2;
    Pow2Sixteen();
    ShiftRightOne(i, 16);
    if turn {
      SetTopBit(i / 2);
    }
  }

  lemma SetTopBit(x: nat)
    requires x < 0x8000
    ensures ToBits(x + 0x8000, 16) == [true] + ToBits(x, 16)[1..]
  {
    hide ToBits, Pow2;
    TopBit(x + 0x8000);
    ToBitsTail(x + 0x8000, 16);
    ToBitsTail(x, 16);
    NextPow2(15);
    Pow2Sixteen();
    ToBitsMod(x + 0x8000, 15);
    ToBitsMod(x, 15);
  }

  lemma PathStep(t: Tree, k: int)
    requires Sibling(t) && 0 <= k < R
    ensures k < t.prnt[k] <= R
    ensures Path(t, k) == Path(t, t.prnt[k]) + [k % 2 == 1]
    ensures Path(t, R) == []
  {
    ParentIsLater(t, -1, k);
  }

  lemma SiblingShape(t: Tree)
    requires Sibling(t)
    ensures Shape(t)
  {
  }

  /** Climbs from the leaf to the root, gathering the code at the top of 16 bits. */
  method GatherCode(huff: Huffman, c: nat) returns (i: nat, j: nat)
    requires huff.Valid() && c < N_CHAR
    ensures i < 0x1_0000 && j == |Code(huff.Snapshot(), c)|
    ensures ToBits(i, 16) == Pad(Code(huff.Snapshot(), c), 16)
  {
    hide Rising, ToBits, Path, Pad;
    ghost var t := huff.Snapshot();
    SiblingShape(t);
    LeafStart(t, c);
    ghost var leaf := t.prnt[c + T];
    LeafIsNotRoot(t, leaf);
    var k := huff.prnt[c + T];
    i, j := 0, 0;
    ghost var suffix: seq<bool> := [];
    NothingGathered();
    while true
      invariant 0 <= k < R && j == |suffix| && i < 0x1_0000
      invariant Path(t, leaf) == Path(t, k) + suffix
      invariant ToBits(i, 16) == Pad(suffix, 16)
      decreases R - k
    {
      PathStep(t, k);
      var odd := k % 2 == 1;
      StepCode(i, suffix, odd);
      assert Path(t, k) + suffix == Path(t, t.prnt[k]) + ([odd] + suffix);
      i := i / 2 + (if odd then 0x8000 else 0);
      suffix := [odd] + suffix;
      j := j + 1;
      k := huff.prnt[k];
      if k == R {
        break;
      }
    }
    assert [] + suffix == suffix;
  }

  lemma NothingGathered()
    ensures ToBits(0, 16) == Pad([], 16)
  {
    ToBitsZero(16);
  }

  method EncodeChar(huff: Huffman, sink: BitSink, c: nat)
    requires huff.Valid() && sink.Valid() && c < N_CHAR
    requires huff.freq[R] < MAX_FREQ && |Code(huff.Snapshot(), c)| <= 16
    modifies sink, huff.freq, huff.prnt, huff.son
    ensures huff.Valid() && huff.Snapshot() == Update(old(huff.Snapshot()), c)
    ensures sink.Valid() && sink.Sent() == old(sink.Sent()) + Code(old(huff.Snapshot()), c)
  {
    hide Sorted, Downward, Upward, Sums, ToBits, Path, BytesBits, Update, Pad;
    var i, j := GatherCode(huff, c);
    sink.Putcode(j, i, Code(huff.Snapshot(), c));
    huff.Update(c);
  }

  method EncodePosition(sink: BitSink, pos: nat)
    requires sink.Valid() && pos < 4096
    modifies sink
    ensures sink.Valid() && sink.Sent() == old(sink.Sent()) + PositionBits(pos)
  {
    hide ToBits, Pad, BytesBits;
    ghost var was := sink.Sent();
    PositionArguments(pos);
    var u := pos / 64;
    var code: nat := PCode(u);
    ghost var upper, lower := ToBits(PCode(u), 8)[..PLen(u)], ToBits(pos % 64, 6);
    sink.Putcode(PLen(u), code * 256, upper);
    sink.Putcode(6, pos % 64 * 1024, lower);
    assert was + upper + lower == was + (upper + lower);
  }

  /** Descends from the root as the bits turn, and counts the character found. */
  method DecodeChar(huff: Huffman, source: BitSource) returns (c: nat)
    requires huff.Valid() && source.Valid() && huff.freq[R] < MAX_FREQ
    modifies source, huff.freq, huff.prnt, huff.son
    ensures c < N_CHAR
    ensures huff.Valid() && huff.Snapshot() == Update(old(huff.Snapshot()), c)
    ensures source.Valid()
    ensures (c, source.rest) == Walk(old(huff.Snapshot()), old(huff.son[R]), old(source.rest))
  {
    hide Sorted, Downward, Upward, Sums, ToBits, BytesBits, Update, Serves, Tail, Pad;
    ghost var t := huff.Snapshot();
    var s := huff.son[R];
    SonInRange(t, R);
    while s < T
      invariant huff.Snapshot() == t && source.Valid()
      invariant 0 <= s < T + N_CHAR && s != T - 1
      invariant s < T ==> s % 2 == 0
      invariant Walk(t, s, source.rest) == Walk(t, t.son[R], old(source.rest))
      decreases if s < T then s + 1 else 0
    {
      var bit := source.GetBit();
      ghost var node := if bit then s + 1 else s;
      SonInRange(t, node);
      s := huff.son[s + (if bit then 1 else 0)];
    }
    c := s - T;
    huff.Update(c);
  }

  lemma SonInRange(t: Tree, node: int)
    requires Sibling(t) && 0 <= node < T
    ensures 0 <= t.son[node] < T + N_CHAR && t.son[node] != T - 1
    ensures t.son[node] < T ==> t.son[node] % 2 == 0 && t.son[node] + 1 < node
  {
    hide Sorted, Sums, Upward;
    assert SonsOf(t, node, t.son[node]);
  }

  lemma {:induction false} ValueJoin(a: seq<bool>, b: seq<bool>)
    ensures Value(a + b) == Value(a) * Pow2(|b|) + Value(b)
  {
    hide Value;
    if b == [] {
      EmptyValue();
      assert a + b == a;
    } else {
      var n := |b| - 1;
      ValueJoin(a, b[..n]);
      assert a + b == (a + b[..n]) + [b[n]];
      assert b == b[..n] + [b[n]];
      ValueAppend(a + b[..n], b[n]);
      ValueAppend(b[..n], b[n]);
      DoubleFactor(Value(a), Pow2(n));
    }
  }

  lemma EmptyValue()
    ensures Value([]) == 0
  {
  }

  lemma DoubleFactor(x: nat, p: nat)
    ensures x * (2 * p) == 2 * (x * p)
  {
  }

  /** What the next bits mean as a position, and what follows them. */
  function PositionRead(bits: seq<bool>): (r: (nat, seq<bool>))
  {
    PadByteValue(bits);
    var first := Value(Pad(bits, 8));
    var n := DLen(first) + 6;
    (DCode(first) * 64 + Value(Pad(bits, n)) % 64, Tail(bits, n))
  }

  lemma PadByteValue(bits: seq<bool>)
    ensures Value(Pad(bits, 8)) < 256
  {
    hide Value, Pow2;
    Pow2Byte(0);
    Pow2One();
  }

  lemma PositionReadsBack(pos: nat, more: seq<bool>)
    requires pos < 4096
    ensures PositionRead(PositionBits(pos) + more) == (pos, more)
  {
    hide ToBits, PCode, DCode, DLen, Value;
    var u, low := pos / 64, ToBits(pos % 64, 6);
    var n := PLen(u);
    var upper := ToBits(PCode(u), 8)[..n];
    var bits := upper + low + more;
    var eight := Pad(bits, 8);
    PadByteValue(bits);
    var first: byte := Value(eight);
    ToBitsOfValue(eight);
    assert ToBits(first, 8) == eight;
    assert ToBits(first, 8)[..n] == upper;
    ByteDecodes(u, first);
    assert Pad(bits, n + 6) == upper + low;
    LowSix(upper, pos % 64);
    assert Tail(bits, n + 6) == more;
  }

  /** Reads the upper bits through the table and the lower six bits verbatim. */
  method DecodePosition(source: BitSource) returns (pos: nat)
    requires source.Valid()
    modifies source
    ensures source.Valid()
    ensures (pos, source.rest) == PositionRead(old(source.rest))
  {
    hide ToBits, BytesBits, Serves, DCode, DLen, Value, Pad, Tail;
    ghost var bits := source.rest;
    var first := source.GetByte();
    ByteValue(first);
    var i: nat := first;
    var j := DLen(first) - 2;
    ghost var taken: nat := 8;
    while j > 0
      invariant source.Valid() && 0 <= j && j == DLen(first) + 6 - taken
      invariant source.rest == Tail(bits, taken)
      invariant i == Value(Pad(bits, taken))
    {
      NextTaken(bits, taken);
      var bit := source.GetBit();
      ValueAppend(Pad(bits, taken), bit);
      i := 2 * i + (if bit then 1 else 0);
      j, taken := j - 1, taken + 1;
    }
    pos := DCode(first) * 64 + i % 64;
  }

  lemma NextTaken(bits: seq<bool>, n: nat)
    ensures Pad(bits, n) + Pad(Tail(bits, n), 1) == Pad(bits, n + 1)
    ensures Tail(Tail(bits, n), 1) == Tail(bits, n + 1)
  {
  }

  lemma ByteValue(x: byte)
    ensures Value(ToBits(x, 8)) == x
  {
    hide Pow2, Value, ToBits;
    ValueOfToBits(x, 8);
    Pow2Byte(0);
    Pow2One();
    assert Pow2(8) == 256;
  }

  lemma Pow2Six()
    ensures Pow2(6) == 64
  {
  }

  lemma LowSix(upper: seq<bool>, low: nat)
    requires low < 64
    ensures Value(upper + ToBits(low, 6)) % 64 == low
  {
    hide Value, ToBits, Pow2;
    ValueJoin(upper, ToBits(low, 6));
    ValueOfToBits(low, 6);
    Pow2Six();
  }
}
