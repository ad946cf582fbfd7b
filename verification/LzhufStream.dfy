/** A compressed file of LZHUF as a whole: what tokens mean as text, how a run of them
    is coded while the tree adapts, and the decoder. */
module LzhufStream {
  import opened Bytes
  import opened RingBuffer
  import opened LzhufTree
  import opened LzhufHuffman
  import opened LzhufBits
  import opened LzhufCodes
  import opened LzhufCoder
  import LzhufForest
  import opened LzhufOrder

  const N: nat := LzhufForest.N

  // --------------------------------------------------------------------- meaning

  predicate Applies(hist: seq<byte>, k: Token)
  {
    Proper(k) && (k.Match? ==> k.pos + 1 <= |hist|)
  }

  function Spell(hist: seq<byte>, k: Token): (r: seq<byte>)
    requires Applies(hist, k)
    ensures |r| > |hist|
  {
    match k
    case Char(c) => hist + [c]
    case Match(len, pos) => CopyBytes(hist, pos + 1, len)
  }

  predicate Spellable(hist: seq<byte>, ks: seq<Token>)
    decreases ks
  {
    ks == [] || (Applies(hist, ks[0]) && Spellable(Spell(hist, ks[0]), ks[1..]))
  }

  function SpellAll(hist: seq<byte>, ks: seq<Token>): (r: seq<byte>)
    requires Spellable(hist, ks)
    ensures |r| >= |hist| + |ks|
    decreases ks
  {
    if ks == [] then hist else SpellAll(Spell(hist, ks[0]), ks[1..])
  }

  lemma {:induction false} SpellMore(hist: seq<byte>, ks: seq<Token>, k: Token)
    requires Spellable(hist, ks) && Applies(SpellAll(hist, ks), k)
    ensures Spellable(hist, ks + [k]) && SpellAll(hist, ks + [k]) == Spell(SpellAll(hist, ks), k)
    decreases ks
  {
    if ks == [] {
      assert ks + [k] == [k] && [k][1..] == [];
      assert SpellAll(Spell(hist, k), []) == Spell(hist, k);
    } else {
      assert (ks + [k])[1..] == ks[1..] + [k];
      SpellMore(Spell(hist, ks[0]), ks[1..], k);
    }
  }

  // ---------------------------------------------------------------------- coding

  /** Each token is coded with the tree that the tokens before it have left. */
  function Bits(t: Tree, ks: seq<Token>): (bits: seq<bool>)
    requires AllCodable(t, ks)
    decreases ks
  {
    if ks == [] then [] else TokenBits(t, ks[0]) + Bits(Update(t, Symbol(ks[0])), ks[1..])
  }

  predicate AllCodable(t: Tree, ks: seq<Token>)
    decreases ks
  {
    ks == [] || (Codable(t, ks[0]) && AllCodable(Update(t, Symbol(ks[0])), ks[1..]))
  }

  function After(t: Tree, ks: seq<Token>): (r: Tree)
    requires AllCodable(t, ks)
    decreases ks
  {
    if ks == [] then t else After(Update(t, Symbol(ks[0])), ks[1..])
  }

  lemma {:induction false} CodeMore(t: Tree, ks: seq<Token>, k: Token)
    requires AllCodable(t, ks) && Codable(After(t, ks), k)
    ensures AllCodable(t, ks + [k])
    ensures Bits(t, ks + [k]) == Bits(t, ks) + TokenBits(After(t, ks), k)
    ensures After(t, ks + [k]) == Update(After(t, ks), Symbol(k))
    decreases ks
  {
    hide TokenBits, Update;
    if ks == [] {
      assert ks + [k] == [k] && [k][1..] == [];
      var t' := Update(t, Symbol(k));
      assert AllCodable(t', []) && Bits(t', []) == [] && After(t', []) == t';
      assert TokenBits(t, k) + [] == TokenBits(t, k) == [] + TokenBits(t, k);
    } else {
      assert (ks + [k])[1..] == ks[1..] + [k];
      CodeMore(Update(t, Symbol(ks[0])), ks[1..], k);
    }
  }

  // -------------------------------------------------------------------- decoding

  /** What the decoder makes of a stream: it stops once `size` bytes are there. None where
      the tree would have to be rebuilt, or a match reaches back before the blanks. */
  ghost function Recover(t: Tree, hist: seq<byte>, bits: seq<bool>, size: nat): (r: Option<seq<byte>>)
    decreases size - |hist|
  {
    if |hist| >= size then Some(hist)
    else if !Sibling(t) || t.freq[R] >= MAX_FREQ then None
    else
      var (c, rest) := Walk(t, t.son[R], bits);
      if !(0 <= c < N_CHAR) then None
      else if c < 256 then Recover(Update(t, c), hist + [c], rest, size)
      else
        var (pos, rest') := PositionRead(rest);
        if pos + 1 > |hist| then None
        else Recover(Update(t, c), CopyBytes(hist, pos + 1, c - 255 + THRESHOLD), rest', size)
  }

  /** One token read back, whatever follows. */
  lemma {:induction false} RecoverToken(t: Tree, hist: seq<byte>, k: Token, more: seq<bool>, size: nat)
    requires Sibling(t) && Codable(t, k) && Applies(hist, k) && |hist| < size
    ensures Recover(t, hist, TokenBits(t, k) + more, size) == Recover(Update(t, Symbol(k)), Spell(hist, k), more, size)
  {
    hide Rising, Walk, PositionRead, PositionBits, Code, Update;
    var c := Symbol(k);
    match k
    case Char(_) =>
      assert TokenBits(t, k) + more == Code(t, c) + more;
      CodeReadsBack(t, c, more);
    case Match(len, pos) =>
      assert TokenBits(t, k) + more == Code(t, c) + (PositionBits(pos) + more);
      CodeReadsBack(t, c, PositionBits(pos) + more);
      PositionReadsBack(pos, more);
  }

  /** The decoder returns the text that the tokens spell, and its tree went through the
      same states as the encoder's. */
  lemma {:induction false} RecoverAll(t: Tree, hist: seq<byte>, ks: seq<Token>, more: seq<bool>)
    requires Sibling(t) && AllCodable(t, ks) && Spellable(hist, ks)
    ensures Recover(t, hist, Bits(t, ks) + more, |SpellAll(hist, ks)|) == Some(SpellAll(hist, ks))
    decreases ks
  {
    hide Rising, Update, TokenBits, Spell;
    var size := |SpellAll(hist, ks)|;
    if ks != [] {
      var k, t', rest := ks[0], Update(t, Symbol(ks[0])), ks[1..];
      UpdateKeeps(t, Symbol(k), 0);
      assert Bits(t, ks) + more == TokenBits(t, k) + (Bits(t', rest) + more);
      RecoverToken(t, hist, k, Bits(t', rest) + more, size);
      RecoverAll(t', Spell(hist, k), rest, more);
    }
  }

  // ----------------------------------------------------------------- the decoder

  /** The ring holds the end of what was decoded. */
  ghost predicate Kept(b: seq<byte>, hist: seq<byte>)
  {
    |b| == N + F - 1 && Ring(b, hist, Low(|hist|, N), |hist|, N, 0)
  }

  lemma KeptMore(b: seq<byte>, hist: seq<byte>, c: byte)
    requires Kept(b, hist)
    ensures Kept(b[Slot(|hist|, N) := c], hist + [c])
  {
    var text := hist + [c];
    assert Ring(b, text, Low(|hist|, N), |hist|, N, 0);
    RingWrite(b, b[Slot(|hist|, N) := c], text, Low(|hist|, N), |hist|, N, 0, Low(|hist| + 1, N));
  }

  /** Reading pos + 1 back from the end, k bytes on. */
  lemma KeptRead(b: seq<byte>, hist: seq<byte>, pos: nat)
    requires Kept(b, hist) && pos < N && pos + 1 <= |hist|
    ensures b[Slot(|hist| - pos - 1, N)] == hist[|hist| - pos - 1]
  {
  }

  class Output {
    const ring: array<byte>
    var r: nat
    var out: seq<byte>

    /** Everything decoded, with the blanks in front. */
    ghost function History(): seq<byte>
      reads this
    {
      Blank(N - F) + out
    }

    ghost predicate Valid()
      reads this, ring
    {
      ring.Length == N + F - 1 && r == Slot(N - F + |out|, N) && Kept(ring[..], History())
    }

    constructor ()
      ensures Valid() && out == [] && fresh(ring)
    {
      var b := new byte[N + F - 1];
      for i := 0 to N - F
        invariant forall j :: 0 <= j < i ==> b[j] == 0x20
      {
        b[i] := 0x20;
      }
      ring, r, out := b, N - F, [];
      new;
      assert Blank(N - F) + [] == Blank(N - F);
    }

    method Put(c: byte)
      requires Valid()
      modifies this, ring
      ensures Valid() && out == old(out) + [c]
    {
      hide Kept, Slot;
      ghost var b, hist := ring[..], History();
      KeptMore(b, hist, c);
      NextSlot(|hist|, N);
      SlotInside(hist);
      ring[r] := c;
      assert ring[..] == b[r := c];
      out := out + [c];
      assert History() == hist + [c];
      r := Mask(r + 1, N);
    }

    /** Copies len bytes from pos + 1 back, byte by byte. */
    method Copy(pos: nat, len: nat)
      requires Valid() && pos < N && pos + 1 <= |History()| && len <= F
      modifies this, ring
      ensures Valid() && |out| == |old(out)| + len
      ensures History() == CopyBytes(old(History()), pos + 1, len)
    {
      hide Kept, Slot, CopyBytes, Ring;
      ghost var start := |History()| - pos - 1;
      BackSlot(|History()|, pos + 1, N);
      var i := Mask(r - pos - 1, N);
      var k := 0;
      CopyNone(History(), pos + 1);
      while k < len
        invariant 0 <= k <= len && Valid() && |out| == |old(out)| + k
        invariant CopyBytes(old(History()), pos + 1, len) == CopyBytes(History(), pos + 1, len - k)
      {
        KeptRead(ring[..], History(), pos);
        SlotAdd(start, k, N);
        CopyOne(History(), pos + 1, len - k);
        assert start + k == |History()| - pos - 1;
        var c := ring[Mask(i + k, N)];
        ghost var was := History();
        Put(c);
        assert History() == was + [c];
        k := k + 1;
      }
      CopyNone(History(), pos + 1);
    }
  }

  lemma SlotInside(hist: seq<byte>)
    ensures Slot(|hist|, N) < N
  {
  }

  /** What a compressed file means: four bytes of size, then the stream. */
  ghost function FileText(src: seq<byte>): (r: Option<seq<byte>>)
  {
    if |src| < 4 then None
    else if LeValue(src[..4]) == 0 then Some([])
    else match Recover(InitialTree(), Blank(N - F), BytesBits(src[4..]), N - F + LeValue(src[..4]))
         case None => None
         case Some(hist) => if |hist| < N - F then None else Some(hist[N - F..])
  }

  /** The definition of Recover, one step. */
  lemma {:induction false} RecoverStep(t: Tree, hist: seq<byte>, bits: seq<bool>, size: nat)
    requires Sibling(t) && |hist| < size
    ensures t.freq[R] >= MAX_FREQ ==> Recover(t, hist, bits, size) == None
    ensures var (c, rest) := Walk(t, t.son[R], bits);
            t.freq[R] < MAX_FREQ && 0 <= c < 256 ==> Recover(t, hist, bits, size) == Recover(Update(t, c), hist + [c], rest, size)
    ensures var (c, rest) := Walk(t, t.son[R], bits);
            var (pos, rest') := PositionRead(rest);
            t.freq[R] < MAX_FREQ && 256 <= c < N_CHAR ==>
              Recover(t, hist, bits, size) == if pos + 1 > |hist| then None
                                              else Recover(Update(t, c), CopyBytes(hist, pos + 1, c - 255 + THRESHOLD), rest', size)
  {
    hide Rising, Update, Walk, PositionRead, CopyBytes;
  }

  lemma PositionInRange(bits: seq<bool>)
    ensures PositionRead(bits).0 < N
  {
  }

  /** Decodes one token into out; says whether that is within the model. */
  method DecodeToken(huff: Huffman, source: BitSource, o: Output, ghost size: nat) returns (ok: bool)
    requires huff.Valid() && source.Valid() && o.Valid() && |o.History()| < size
    requires {huff.freq, huff.prnt, huff.son} !! {o.ring as object}
    modifies source, huff.freq, huff.prnt, huff.son, o, o.ring
    ensures huff.Valid() && source.Valid() && o.Valid() && |o.out| >= |old(o.out)|
    ensures ok ==> |o.out| > |old(o.out)|
    ensures !ok ==> old(Recover(huff.Snapshot(), o.History(), source.rest, size)) == None
    ensures ok ==> old(Recover(huff.Snapshot(), o.History(), source.rest, size))
                   == Recover(huff.Snapshot(), o.History(), source.rest, size)
  {
    hide Recover, Sorted, Downward, Upward, Sums, Update, Walk, PositionRead, CopyBytes, Kept, Slot, Ring, ToBits, BytesBits, Serves;
    ghost var t, hist, bits := huff.Snapshot(), o.History(), source.rest;
    RecoverStep(t, hist, bits, size);
    ok := false;
    if huff.freq[R] >= MAX_FREQ {
      return;
    }
    var c := DecodeChar(huff, source);
    if c < 256 {
      o.Put(c);
      assert o.History() == hist + [c];
      ok := true;
    } else {
      PositionInRange(source.rest);
      var pos := DecodePosition(source);
      if pos + 1 <= N - F + |o.out| {
        o.Copy(pos, c - 255 + THRESHOLD);
        ok := true;
      }
    }
  }

  /** Decode. */
  method Decode(src: seq<byte>) returns (r: Option<seq<byte>>)
    ensures r == FileText(src)
  {
    hide Recover, Sorted, Downward, Upward, Sums, Kept, Slot, Ring, ToBits, BytesBits, Serves, LeValue, InitialTree;
    if |src| < 4 {
      return None;
    }
    var textsize := LeValue(src[..4]);
    if textsize == 0 {
      return Some([]);
    }
    var huff := new Huffman();
    var source := new BitSource(src[4..]);
    var o := new Output();
    ghost var size := N - F + textsize;
    ghost var all := Recover(huff.Snapshot(), o.History(), source.rest, size);
    assert o.History() == Blank(N - F);
    while |o.out| < textsize
      invariant huff.Valid() && source.Valid() && o.Valid()
      invariant fresh(huff.freq) && fresh(huff.prnt) && fresh(huff.son) && fresh(source) && fresh(o) && fresh(o.ring)
      invariant {huff.freq, huff.prnt, huff.son} !! {o.ring as object}
      invariant Recover(huff.Snapshot(), o.History(), source.rest, size) == all
      decreases textsize - |o.out|
    {
      var ok := DecodeToken(huff, source, o, size);
      if !ok {
        return None;
      }
    }
    RecoverDone(huff.Snapshot(), o.History(), source.rest, size);
    assert o.History()[N - F..] == o.out;
    return Some(o.out);
  }

  lemma RecoverDone(t: Tree, hist: seq<byte>, bits: seq<bool>, size: nat)
    requires |hist| >= size
    ensures Recover(t, hist, bits, size) == Some(hist)
  {
  }

  /** Zeros at the end of a stream make no difference. */
  lemma {:induction false} TokensDecode(text: seq<byte>, ks: seq<Token>, body: seq<byte>, pad: nat)
    requires 0 < |text| < U32 && AllCodable(InitialTree(), ks)
    requires Spellable(Blank(N - F), ks) && SpellAll(Blank(N - F), ks) == Blank(N - F) + text
    requires BytesBits(body) == Bits(InitialTree(), ks) + Zeros(pad)
    ensures FileText(LeBytes(|text|, 4) + body) == Some(text)
  {
    hide Recover, Sibling, BytesBits, LeBytes, LeValue, InitialTree, FileText, AllCodable, Spellable, SpellAll, Bits, Zeros;
    var src := LeBytes(|text|, 4) + body;
    assert src[..4] == LeBytes(|text|, 4) && src[4..] == body;
    SizeReadsBack(|text|);
    InitialSibling();
    RecoverAll(InitialTree(), Blank(N - F), ks, Zeros(pad));
    assert (Blank(N - F) + text)[N - F..] == text;
    FileTextIs(src, |text|, Blank(N - F) + text);
  }

  /** The definition of FileText, where there is a text. */
  lemma {:induction false} FileTextIs(src: seq<byte>, size: nat, hist: seq<byte>)
    requires |src| >= 4 && LeValue(src[..4]) == size > 0 && |hist| >= N - F
    requires Recover(InitialTree(), Blank(N - F), BytesBits(src[4..]), N - F + size) == Some(hist)
    ensures FileText(src) == Some(hist[N - F..])
  {
    hide Recover, BytesBits, LeValue, InitialTree;
  }
}
