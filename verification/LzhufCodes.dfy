/** What LZHUF puts on the wire: tree paths for characters and match lengths, a
    fixed prefix code for the upper bits of positions. */
module LzhufCodes {
  import opened Bytes
  import opened LzhufTree
  import opened LzhufBits

  // ----------------------------------------------------------------- tree paths

  /** The turns from the root to a node: the odd sibling is reached by a one. */
  function Path(t: Tree, node: int): (bits: seq<bool>)
    requires Shape(t)
    decreases T - node
  {
    if 0 <= node < R && node < t.prnt[node] <= R then Path(t, t.prnt[node]) + [node % 2 == 1] else []
  }

  function Code(t: Tree, code: nat): (bits: seq<bool>)
    requires Shape(t) && code < N_CHAR
  {
    Path(t, t.prnt[code + T])
  }

  /** Following turns down from a pair of sons s; a leaf ends the walk. Past the end
      of the input, turns are zeros. */
  function Walk(t: Tree, s: int, bits: seq<bool>): (r: (int, seq<bool>))
    requires Shape(t)
    decreases if 0 <= s < T - 1 then s + 1 else 0
  {
    if s < 0 || s >= T - 1 then (s - T, bits)
    else
      var node := if Pad(bits, 1)[0] then s + 1 else s;
      if t.son[node] >= T || t.son[node] < s then Walk(t, t.son[node], Tail(bits, 1)) else (-1, bits)
  }

  lemma WalkOne(t: Tree, hole: int, node: int, rest: seq<bool>)
    requires Rising(t, hole) && 0 <= node < R
    ensures Walk(t, PairOf(node), [node % 2 == 1] + rest) == Walk(t, t.son[node], rest)
  {
    hide Sorted, Sums;
    var s := PairOf(node);
    assert SonsOf(t, node, t.son[node]);
    assert Tail([node % 2 == 1] + rest, 1) == rest;
    assert t.son[t.prnt[node]] == s;
    assert SonsOf(t, t.prnt[node], s);
  }

  /** Descending along the path of a node arrives at that node. */
  lemma {:induction false} WalkPath(t: Tree, node: int, rest: seq<bool>)
    requires Sibling(t) && 0 <= node < T
    ensures Walk(t, t.son[R], Path(t, node) + rest) == Walk(t, t.son[node], rest)
    decreases T - node
  {
    hide Sorted, Sums, Downward, Walk;
    if node == R {
      assert Path(t, node) + rest == rest;
    } else {
      var p, turn := t.prnt[node], [node % 2 == 1];
      ParentIsLater(t, -1, node);
      assert t.son[p] == PairOf(node);
      assert Path(t, node) + rest == Path(t, p) + (turn + rest);
      WalkPath(t, p, turn + rest);
      WalkOne(t, -1, node, rest);
    }
  }

  /** Decoding the code of a character gives the character, whatever follows. */
  lemma CodeReadsBack(t: Tree, code: nat, rest: seq<bool>)
    requires Sibling(t) && code < N_CHAR
    ensures Walk(t, t.son[R], Code(t, code) + rest) == (code, rest)
  {
    LeafStart(t, code);
    WalkPath(t, t.prnt[code + T], rest);
  }

  // ------------------------------------------------- how long a code can become

  function Fib(n: nat): (f: nat)
  {
    if n < 2 then n else Fib(n - 1) + Fib(n - 2)
  }

  /** Going up two levels adds the weights of the two: a node outweighs the sum of
      its son and that son's son, because siblings have adjacent numbers. */
  lemma {:induction false} PathWeight(t: Tree, node: int, h: nat)
    requires Sibling(t) && 0 <= node < R
    requires t.freq[node] >= Fib(h + 2)
    requires t.freq[t.prnt[node]] >= Fib(h + 3)
    ensures t.freq[R] >= Fib(h + 2 + |Path(t, node)|)
    decreases T - node
  {
    hide Sorted, Sums, Downward, Fib;
    var p := t.prnt[node];
    ParentIsLater(t, -1, node);
    assert |Path(t, node)| == |Path(t, p)| + 1;
    if p == R {
      assert Path(t, R) == [];
    } else {
      ParentIsLater(t, -1, p);
      GrandparentWeight(t, node);
      FibStep(h + 2);
      PathWeight(t, p, h + 1);
    }
  }

  lemma FibStep(n: nat)
    ensures Fib(n + 2) == Fib(n + 1) + Fib(n)
  {
  }

  lemma GrandparentWeight(t: Tree, node: int)
    requires Sibling(t) && 0 <= node < R && node < t.prnt[node] < R
    ensures t.freq[t.prnt[t.prnt[node]]] >= t.freq[t.prnt[node]] + t.freq[node]
  {
    hide Sums, Upward, Downward;
    var p := t.prnt[node];
    WeightOfParent(t, p);
    var q := if p % 2 == 1 then p - 1 else p + 1;
    assert node <= q;
  }

  lemma WeightOfParent(t: Tree, i: int)
    requires Sibling(t) && 0 <= i < R
    ensures t.prnt[i] < T && t.freq[t.prnt[i]] == t.freq[i] + t.freq[if i % 2 == 1 then i - 1 else i + 1]
  {
    hide Sorted, Downward;
    assert t.son[t.prnt[i]] == PairOf(i);
  }

  /** As long as the root weighs less than the 19th Fibonacci number, codes fit in 16 bits. */
  lemma CodesFit(t: Tree, code: nat)
    requires Sibling(t) && code < N_CHAR && t.freq[R] < 4181
    ensures 1 <= |Code(t, code)| <= 16
  {
    hide Sums, Downward, Upward, Fib;
    LeafStart(t, code);
    var leaf := t.prnt[code + T];
    LeafIsNotRoot(t, leaf);
    WeightOfParent(t, leaf);
    FibValues();
    ParentIsLater(t, -1, leaf);
    PathWeight(t, leaf, 0);
    if |Code(t, code)| > 16 {
      FibMonotone(19, 2 + |Code(t, code)|);
    }
  }

  lemma LeafIsNotRoot(t: Tree, leaf: int)
    requires Sibling(t) && 0 <= leaf < T && t.son[leaf] >= T
    ensures leaf < R
  {
    hide Sorted, Sums;
    ParentIsLater(t, -1, R - 1);
    assert t.son[R] == PairOf(R - 1);
  }

  lemma {:induction false} FibMonotone(m: nat, n: nat)
    requires 2 <= m <= n
    ensures Fib(m) <= Fib(n)
    decreases n
  {
    if m < n {
      FibMonotone(m, n - 1);
    }
  }

  lemma FibValues()
    ensures Fib(2) == 1 && Fib(3) == 2 && Fib(19) == 4181
  {
    assert Fib(4) == 3 && Fib(5) == 5;
    assert Fib(6) == 8 && Fib(7) == 13 && Fib(8) == 21 && Fib(9) == 34;
    assert Fib(10) == 55 && Fib(11) == 89 && Fib(12) == 144 && Fib(13) == 233;
    assert Fib(14) == 377 && Fib(15) == 610 && Fib(16) == 987 && Fib(17) == 1597;
    assert Fib(18) == 2584 && Fib(19) == 4181;
  }

  // ------------------------------------------------------------------ positions

  /** p_len: by the runs of the table. */
  function PLen(u: nat): (n: nat)
    requires u < 64
    ensures 3 <= n <= 8
  {
    if u < 1 then 3 else if u < 4 then 4 else if u < 12 then 5
    else if u < 24 then 6 else if u < 48 then 7 else 8
  }

  /** p_code */
  function PCode(u: nat): (v: byte)
    requires u < 64
  {
    if u < 1 then 0x00 else if u < 4 then 0x20 + (u - 1) * 16 else if u < 12 then 0x50 + (u - 4) * 8
    else if u < 24 then 0x90 + (u - 12) * 4 else if u < 48 then 0xC0 + (u - 24) * 2 else 0xF0 + (u - 48)
  }

  /** d_code */
  function DCode(x: byte): (u: nat)
    ensures u < 64
  {
    if x < 0x20 then 0 else if x < 0x50 then 1 + (x - 0x20) / 16 else if x < 0x90 then 4 + (x - 0x50) / 8
    else if x < 0xC0 then 12 + (x - 0x90) / 4 else if x < 0xF0 then 24 + (x - 0xC0) / 2 else 48 + (x - 0xF0)
  }

  /** d_len */
  function DLen(x: byte): (n: nat)
    ensures 3 <= n <= 8
  {
    if x < 0x20 then 3 else if x < 0x50 then 4 else if x < 0x90 then 5
    else if x < 0xC0 then 6 else if x < 0xF0 then 7 else 8
  }

  /** Any byte that begins with the code of u is decoded as u. */
  lemma TablesAgree(u: nat, x: byte)
    requires u < 64
    requires Halve(x, 8 - PLen(u)) == Halve(PCode(u), 8 - PLen(u))
    ensures DCode(x) == u && DLen(x) == PLen(u)
  {
    hide Halve;
    HalveSmall(x);
    HalveSmall(PCode(u));
    if u < 1 {
    } else if u < 4 {
    } else if u < 12 {
    } else if u < 24 {
    } else if u < 48 {
    }
  }

  lemma HalveSmall(x: nat)
    ensures Halve(x, 0) == x && Halve(x, 1) == x / 2 && Halve(x, 2) == x / 4
    ensures Halve(x, 3) == x / 8 && Halve(x, 4) == x / 16 && Halve(x, 5) == x / 32
  {
    hide Halve;
    HalveThree(x);
    HalveThree(x / 4);
    HalveThree(x / 16);
    HalveFour(x, 0);
    HalveFour(x, 1);
    HalveOnce(x, 2);
    HalveThree(x / 2);
  }

  lemma HalveOnce(x: nat, n: nat)
    ensures Halve(x, n + 1) == Halve(x / 2, n) && Halve(x, 0) == x
  {
  }

  lemma HalveThree(x: nat)
    ensures Halve(x, 0) == x && Halve(x, 1) == x / 2 && Halve(x, 2) == x / 4
  {
    hide Halve;
    HalveOnce(x, 0);
    HalveOnce(x, 1);
    HalveOnce(x / 2, 0);
    HalveOnce(x / 4, 0);
  }

  /** The bits below the code in its table entry are zero. */
  lemma CodeIsLeftAligned(u: nat)
    requires u < 64
    ensures PCode(u) % Pow2(8 - PLen(u)) == 0
  {
    assert Pow2(0) == 1 && Pow2(1) == 2 && Pow2(2) == 4 && Pow2(3) == 8 && Pow2(4) == 16 && Pow2(5) == 32;
  }

  function PositionBits(pos: nat): (bits: seq<bool>)
    requires pos < 4096
  {
    ToBits(PCode(pos / 64), 8)[..PLen(pos / 64)] + ToBits(pos % 64, 6)
  }

  lemma TrailingZeros(v: nat, n: nat, k: nat)
    requires k <= n && v % Pow2(k) == 0
    ensures ToBits(v, n)[n - k..] == Zeros(k)
  {
    LowDigits(v, n - k, k);
    ToBitsMod(v, k);
    ToBitsZero(k);
  }

  /** The arguments EncodePosition passes to Putcode. */
  lemma PositionArguments(pos: nat)
    requires pos < 4096
    ensures var u := pos / 64;
            && ToBits(PCode(u) * 256, 16) == Pad(ToBits(PCode(u), 8)[..PLen(u)], 16)
            && ToBits(pos % 64 * 1024, 16) == Pad(ToBits(pos % 64, 6), 16)
  {
    hide ToBits, Shl, PCode, PLen, Pow2;
    var u, low := pos / 64, pos % 64;
    CodeIsLeftAligned(u);
    TrailingZeros(PCode(u), 8, 8 - PLen(u));
    ShlValues(PCode(u));
    ShlBits(PCode(u), 8, 16);
    LowDigits(PCode(u), 8, 8);
    ShlValues(low);
    ShlBits(low, 10, 16);
    LowDigits(low, 10, 6);
  }

  lemma ShlValues(x: nat)
    ensures Shl(x, 8) == x * 256 && Shl(x, 10) == x * 1024
  {
    assert Shl(x, 0) == x && Shl(x, 1) == 2 * x && Shl(x, 2) == 4 * x && Shl(x, 3) == 8 * x;
    assert Shl(x, 4) == 16 * x && Shl(x, 5) == 32 * x && Shl(x, 6) == 64 * x && Shl(x, 7) == 128 * x;
    assert Shl(x, 8) == 256 * x && Shl(x, 9) == 512 * x;
  }

  /** A byte whose leading bits are those of the code of u is decoded as u. */
  lemma ByteDecodes(u: nat, x: byte)
    requires u < 64 && ToBits(x, 8)[..PLen(u)] == ToBits(PCode(u), 8)[..PLen(u)]
    ensures DCode(x) == u && DLen(x) == PLen(u)
  {
    hide ToBits, PCode, DCode, DLen, Pow2, Halve;
    var n := PLen(u);
    LowDigits(x, n, 8 - n);
    LowDigits(PCode(u), n, 8 - n);
    ValueOfToBits(Halve(x, 8 - n), n);
    ValueOfToBits(Halve(PCode(u), 8 - n), n);
    assert ToBits(x, 8)[..n] == ToBits(Halve(x, 8 - n), n);
    assert ToBits(PCode(u), 8)[..n] == ToBits(Halve(PCode(u), 8 - n), n);
    Pow2Byte(0);
    Pow2One();
    HalveBelow(x, 8 - n, n);
    HalveBelow(PCode(u), 8 - n, n);
    TablesAgree(u, x);
  }

  lemma {:induction false} HalveBelow(v: nat, m: nat, n: nat)
    requires v < Pow2(m + n)
    ensures Halve(v, m) < Pow2(n) && Halve(v, m) % Pow2(n) == Halve(v, m)
  {
    if m > 0 {
      HalveBelow(v / 2, m - 1, n);
    } else {
      SmallRemainder(v, Pow2(n));
    }
  }

  lemma SmallRemainder(a: nat, d: nat)
    requires a < d
    ensures a % d == a
  {
  }
}
