/** The LZHUF format in numbers: the codes of the initial tree, and small files byte by byte. */
module LzhufSample {
  import opened Bytes
  import opened RingBuffer
  import opened LzhufTree
  import opened LzhufBits
  import opened LzhufCodes
  import opened LzhufCoder
  import opened LzhufOrder
  import opened LzhufStream

  // ------------------------------------------------------------ the initial codes

  /** Counted back from the root, node k is number 627 - k of a binary tree in breadth-first
      order, and its path is the complement of that number's digits. */
  lemma {:induction false} InitialPath(k: nat, e: nat)
    requires k <= R && Pow2(e) <= 627 - k < Pow2(e + 1)
    ensures Path(InitialTree(), k) == ToBits(Pow2(e + 1) - 1 - (627 - k), e)
    decreases R - k
  {
    hide InitialTree, ToBits, Pow2, Path;
    var h := 627 - k;
    NextPow2(e);
    InitialUp(k);
    if k == R {
      PowersStart(e);
      EmptyDigits(0);
    } else {
      PowersStart(e);
      NextPow2(e - 1);
      var p := N_CHAR + k / 2;
      assert 627 - p == h / 2;
      InitialPath(p, e - 1);
      LastDigit(Pow2(e + 1) - 1 - h, e);
      assert (Pow2(e + 1) - 1 - h) / 2 == Pow2(e) - 1 - h / 2;
    }
  }

  lemma PowersStart(e: nat)
    ensures Pow2(0) == 1 && (e > 0 ==> Pow2(e) >= 2)
  {
    if e > 0 {
      NextPow2(e - 1);
    }
  }

  lemma InitialUp(k: nat)
    requires k <= R
    ensures k == R ==> Path(InitialTree(), k) == []
    ensures k < R ==> Path(InitialTree(), k) == Path(InitialTree(), N_CHAR + k / 2) + [k % 2 == 1]
  {
    hide InitialTree;
  }

  /** The first 116 characters have codes of nine bits, the others of eight, in ascending order. */
  lemma InitialCodes(c: nat)
    requires c < N_CHAR
    ensures Code(InitialTree(), c) == if c < 116 then ToBits(396 + c, 9) else ToBits(c - 116, 8)
  {
    hide InitialTree, ToBits, Path, Pow2;
    PowersToTen();
    InitialLeaf(c);
    InitialPath(c, if c < 116 then 9 else 8);
  }

  lemma InitialLeaf(c: nat)
    requires c < N_CHAR
    ensures InitialTree().prnt[c + T] == c
  {
  }

  lemma PowersToTen()
    ensures Pow2(8) == 256 && Pow2(9) == 512 && Pow2(10) == 1024
  {
  }

  /** The codes for the upper six bits of a place are ascending and leave no gap. */
  lemma PlaceCodes(u: nat)
    requires u < 64
    ensures PCode(0) == 0 && PCode(63) + Pow2(8 - PLen(63)) == 256
    ensures u < 63 ==> PCode(u + 1) == PCode(u) + Pow2(8 - PLen(u))
    ensures (PLen(u) == 3 <==> u < 1) && (PLen(u) <= 4 <==> u < 4) && (PLen(u) <= 5 <==> u < 12)
    ensures (PLen(u) <= 6 <==> u < 24) && (PLen(u) <= 7 <==> u < 48) && PLen(u) <= 8
  {
    assert Pow2(0) == 1 && Pow2(1) == 2 && Pow2(2) == 4 && Pow2(3) == 8 && Pow2(4) == 16 && Pow2(5) == 32;
  }

  // ----------------------------------------------------------------- small files

  /** A file of one token. */
  lemma {:induction false} OneTokenFile(text: seq<byte>, k: Token, body: seq<byte>, pad: nat)
    requires 0 < |text| < U32 && Proper(k) && Applies(Blank(N - F), k) && Spell(Blank(N - F), k) == Blank(N - F) + text
    requires BytesBits(body) == TokenBits(InitialTree(), k) + Zeros(pad)
    ensures FileText(LeBytes(|text|, 4) + body) == Some(text)
  {
    hide InitialTree, TokenBits, Spell, Update, BytesBits, Blank, LeBytes, FileText, Code;
    InitialSibling();
    InitialCodes(Symbol(k));
    assert [k][1..] == [];
    var t := Update(InitialTree(), Symbol(k));
    assert AllCodable(t, []) && Bits(t, []) == [];
    assert TokenBits(InitialTree(), k) + [] == TokenBits(InitialTree(), k);
    assert SpellAll(Spell(Blank(N - F), k), []) == Spell(Blank(N - F), k);
    TokensDecode(text, [k], body, pad);
  }

  lemma TwoBytes(a: byte, b: byte)
    ensures BytesBits([a]) == ToBits(a, 8) && BytesBits([a, b]) == ToBits(a, 8) + ToBits(b, 8)
  {
    hide ToBits;
    assert [a][1..] == [] && [a, b][1..] == [b] && [b][1..] == [] && BytesBits([]) == [];
    assert ToBits(a, 8) + [] == ToBits(a, 8) && ToBits(b, 8) + [] == ToBits(b, 8);
  }

  lemma SizeBytes(n: nat)
    requires n < 256
    ensures LeBytes(n, 4) == [n, 0, 0, 0]
  {
    assert LeBytes(0, 1) == [0] + LeBytes(0, 0);
    assert LeBytes(0, 2) == [0] + LeBytes(0, 1);
    assert LeBytes(0, 3) == [0] + LeBytes(0, 2);
  }

  /** A text of one byte. The size comes first, lowest byte first, and the code is filled up
      with zeros from the top bit on. */
  lemma OneByteFile(x: byte)
    ensures FileText([1, 0, 0, 0] + (if x < 116 then [(396 + x) / 2, 128 * (x % 2)] else [x - 116])) == Some([x])
  {
    hide InitialTree, BytesBits, Blank, LeBytes, FileText, Code, ToBits;
    InitialCodes(x);
    SizeBytes(1);
    var k := Char(x);
    assert TokenBits(InitialTree(), k) == Code(InitialTree(), x) + [] == Code(InitialTree(), x);
    if x < 116 {
      TwoBytes((396 + x) / 2, 128 * (x % 2));
      NineBits(396 + x);
      assert (396 + x) % 2 == x % 2;
      OneTokenFile([x], k, [(396 + x) / 2, 128 * (x % 2)], 7);
    } else {
      TwoBytes(x - 116, 0);
      assert ToBits(x - 116, 8) + Zeros(0) == ToBits(x - 116, 8);
      OneTokenFile([x], k, [x - 116], 0);
    }
  }

  lemma NineBits(v: nat)
    requires v < 512
    ensures ToBits(v / 2, 8) + ToBits(128 * (v % 2), 8) == ToBits(v, 9) + Zeros(7)
  {
    hide ToBits;
    LastDigit(v, 9);
    TopBit(v % 2);
  }

  lemma TopBit(b: nat)
    requires b < 2
    ensures ToBits(128 * b, 8) == [b == 1] + Zeros(7)
  {
    hide ToBits;
    Shifted(64 * b, 7);
    Shifted(32 * b, 6);
    Shifted(16 * b, 5);
    Shifted(8 * b, 4);
    Shifted(4 * b, 3);
    Shifted(2 * b, 2);
    Shifted(b, 1);
    LastDigit(b, 1);
    EmptyDigits(0);
  }

  lemma Shifted(v: nat, n: nat)
    ensures ToBits(2 * v, n + 1) == ToBits(v, n) + [false]
  {
    LastDigit(2 * v, n + 1);
  }

  /** Three blanks, as a match of the blanks before the text from the farthest place there is:
      length three follows the 256 characters, and places are coded by table. */
  lemma ThreeBlanksFile()
    ensures FileText([3, 0, 0, 0, 140, 255, 12]) == Some([32, 32, 32])
  {
    hide InitialTree, BytesBits, Blank, LeBytes, FileText, Code, ToBits, CopyBytes;
    var k := Match(3, 4035);
    InitialCodes(256);
    SizeBytes(3);
    FarthestPlace();
    BlankCopy();
    assert TokenBits(InitialTree(), k) == ToBits(140, 8) + PositionBits(4035);
    ThreeBytes();
    OneTokenFile([32, 32, 32], k, [140, 255, 12], 2);
    assert [3, 0, 0, 0] + [140, 255, 12] == [3, 0, 0, 0, 140, 255, 12];
  }

  lemma FarthestPlace()
    ensures PositionBits(4035) == ToBits(255, 8) + ToBits(3, 6)
  {
    hide ToBits;
    assert ToBits(255, 8)[..8] == ToBits(255, 8);
  }

  lemma ThreeBytes()
    ensures BytesBits([140, 255, 12]) == ToBits(140, 8) + (ToBits(255, 8) + ToBits(3, 6)) + Zeros(2)
  {
    hide ToBits;
    TwoBytes(255, 12);
    assert [140, 255, 12][1..] == [255, 12];
    Shifted(6, 7);
    Shifted(3, 6);
  }

  lemma BlankCopy()
    ensures CopyBytes(Blank(N - F), 4036, 3) == Blank(N - F) + [32, 32, 32]
  {
    hide CopyBytes, Blank;
    var b := Blank(N - F);
    CopyStep(b, 4036, 2);
    CopyStep(b + [32], 4036, 1);
    CopyStep(b + [32] + [32], 4036, 0);
    CopyStep(b + [32] + [32] + [32], 4036, 0);
    assert b + [32] + [32] + [32] == b + [32, 32, 32];
  }

}
