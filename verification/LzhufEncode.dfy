/** Encode: the loop that picks matches, codes them and slides the window. */
module LzhufEncode {
  import opened Bytes
  import opened RingBuffer
  import opened LzhufTree
  import opened LzhufHuffman
  import opened LzhufBits
  import opened LzhufCodes
  import opened LzhufCoder
  import opened LzhufOrder
  import opened LzhufStream
  import opened LzhufWindow
  import LzhufDictionary

  type Dictionary = LzhufDictionary.Dictionary

  // ----------------------------------------------------------- picking a token

  lemma AgreeIsSame(v: seq<byte>, p: nat, hi: nat, q: nat, n: nat)
    requires q <= p <= hi <= |v| && p + n <= hi && Agree(v, p, hi, q, n)
    ensures Same(v, q, p, n)
  {
    var a, b := v[q..q + n], v[p..p + n];
    forall i | 0 <= i < n ensures a[i] == b[i] {
      assert v[p + i] == v[p + i - p + q];
    }
  }

  lemma MatchSpells(v: seq<byte>, p: nat, hi: nat, len: nat, pos: nat, m: nat)
    requires Usable(v, p, hi, len, pos) && THRESHOLD < m <= len && p + m <= hi
    ensures Applies(v[..p], Match(m, pos)) && Spell(v[..p], Match(m, pos)) == v[..p + m] && Same(v, p - pos - 1, p, m)
  {
    assert Agree(v, p, hi, p - pos - 1, m);
    AgreeIsSame(v, p, hi, p - pos - 1, m);
    CopyReproduces(v, p, pos + 1, m);
  }

  lemma CharSpells(b: seq<byte>, v: seq<byte>, p: nat, hi: nat)
    requires Loaded(b, v, p, hi) && p < hi
    ensures Spell(v[..p], Char(b[Slot(p, N)])) == v[..p + 1]
  {
    RingRead(b, v, Low(hi, N), hi, N, F - 1, p, 0);
  }

  /** Text from q goes on like the text at p for more than n bytes, of at most 60. */
  ghost predicate Longer(v: seq<byte>, q: nat, p: nat, n: nat)
  {
    n < 60 && Same(v, q, p, n + 1)
  }

  /** No position that the window still reaches matches the text at p in more than n bytes. */
  ghost predicate NoneLonger(v: seq<byte>, p: nat, n: nat)
  {
    forall q: nat :: Recent(q, p) && q < p ==> !Longer(v, q, p, n)
  }

  /** The right token for position p: the longest match there is, if it has three bytes or more,
      else the character. */
  ghost predicate BestAt(v: seq<byte>, p: nat, k: Token)
  {
    && p < |v|
    && match k
       case Char(c) => c == v[p] && NoneLonger(v, p, 2)
       case Match(len, pos) => 3 <= len <= 60 && pos < p && Same(v, p - pos - 1, p, len) && NoneLonger(v, p, len)
  }

  lemma SameIsAgree(v: seq<byte>, q: nat, p: nat, hi: nat, n: nat)
    requires q <= p <= hi <= |v| && Same(v, q, p, n)
    ensures Agree(v, p, hi, q, n)
  {
    forall j | p <= j < p + n && j < hi ensures v[j] == v[j - p + q] {
      SameAt(v, q, p, n, j - p);
    }
  }

  /** A match clipped to the lookahead is still the longest there is. */
  lemma ClippedIsBest(v: seq<byte>, p: nat, hi: nat, len: nat, pos: int, m: nat)
    requires Usable(v, p, hi, len, pos) && p < hi <= p + F && (hi < |v| ==> hi == p + F)
    requires m == if len > hi - p then hi - p else len
    ensures NoneLonger(v, p, if m > 2 then m else 2)
  {
    hide Agree, Same;
    var n := if m > 2 then m else 2;
    forall q: nat | Recent(q, p) && q < p ensures !Longer(v, q, p, n) {
      assert AtMost(v, p, hi, q, if len > THRESHOLD then len else THRESHOLD);
      if Longer(v, q, p, n) {
        SameFits(v, q, p, n + 1);
        SameIsAgree(v, q, p, hi, n + 1);
      }
    }
  }

  lemma SameFits(v: seq<byte>, q: nat, p: nat, n: nat)
    requires Same(v, q, p, n)
    ensures p + n <= |v|
  {
  }

  /** A match no longer than the lookahead if it pays, else one character. */
  method Pick(dict: Dictionary, r: nat, len: nat, ghost v: seq<byte>, ghost p: nat, ghost hi: nat) returns (k: Token,
              m: nat)
    requires Ready(dict, v, p, hi) && r == Slot(p, N) && len == hi - p > 0
    ensures Applies(v[..p], k) && 1 <= m <= len && Spell(v[..p], k) == v[..p + m]
    ensures BestAt(v, p, k) && m == TokenLength(k)
  {
    hide Ring, Slot, Clear, Newest, LzhufDictionary.Grown, Spell, Usable, NoneLonger, Same;
    ClippedIsBest(v, p, hi, dict.matchLength, dict.matchPosition, if dict.matchLength > len then len else dict.matchLength);
    m := dict.matchLength;
    if m > len {
      m := len;
    }
    if m <= THRESHOLD {
      m := 1;
      CharSpells(dict.text[..], v, p, hi);
      CharIsText(dict.text[..], v, p, hi);
      k := Char(dict.text[r]);
    } else {
      UsablePlace(v, p, hi, dict.matchLength, dict.matchPosition);
      MatchSpells(v, p, hi, dict.matchLength, dict.matchPosition, m);
      k := Match(m, dict.matchPosition);
    }
  }

  lemma UsablePlace(v: seq<byte>, p: nat, hi: nat, len: nat, pos: int)
    requires Usable(v, p, hi, len, pos) && len > 0
    ensures 0 <= pos < p && len <= 60
  {
  }

  lemma CharIsText(b: seq<byte>, v: seq<byte>, p: nat, hi: nat)
    requires Loaded(b, v, p, hi) && p < hi
    ensures b[Slot(p, N)] == v[p]
  {
    RingRead(b, v, Low(hi, N), hi, N, F - 1, p, 0);
  }

  function TokenLength(k: Token): (n: nat)
  {
    match k
    case Char(_) => 1
    case Match(len, _) => len
  }

  function Lengths(ks: seq<Token>): (n: nat)
  {
    if ks == [] then 0 else Lengths(ks[..|ks| - 1]) + TokenLength(ks[|ks| - 1])
  }

  /** Every token is the right one where it stands. */
  ghost predicate Greedy(v: seq<byte>, ks: seq<Token>)
  {
    forall i :: 0 <= i < |ks| ==> BestAt(v, N - F + Lengths(ks[..i]), ks[i])
  }

  lemma GreedyMore(v: seq<byte>, ks: seq<Token>, k: Token)
    requires Greedy(v, ks) && BestAt(v, N - F + Lengths(ks), k)
    ensures Greedy(v, ks + [k]) && Lengths(ks + [k]) == Lengths(ks) + TokenLength(k)
  {
    hide BestAt, TokenLength;
    var all := ks + [k];
    assert all[..|ks|] == ks;
    forall i | 0 <= i < |all| ensures BestAt(v, N - F + Lengths(all[..i]), all[i]) {
      if i < |ks| {
        assert all[..i] == ks[..i];
        assert BestAt(v, N - F + Lengths(ks[..i]), ks[i]);
      }
    }
  }

  // ------------------------------------------------------------ sliding along

  /** Moves the window on by m bytes, reading as long as there is input. */
  method Advance(dict: Dictionary, s0: nat, r0: nat, len0: nat, input: seq<byte>, at0: nat, m: nat, ghost p: nat)
    returns (s: nat, r: nat, len: nat, at: nat)
    requires at0 <= |input| && Ready(dict, Blank(N - F) + input, p, N - F + at0)
    requires s0 == Slot(p + F, N) && r0 == Slot(p, N) && len0 == N - F + at0 - p && 1 <= m <= len0
    modifies dict, dict.text, dict.lson, dict.rson, dict.dad
    ensures s == Slot(p + m + F, N) && r == Slot(p + m, N) && at0 <= at <= |input| && len == N - F + at - (p + m)
    ensures len > 0 ==> Ready(dict, Blank(N - F) + input, p + m, N - F + at)
    ensures len == 0 ==> at == |input|
  {
    hide Slot, Clear, Newest, LzhufDictionary.Grown, Blank, Usable, Ring;
    ghost var v := Blank(N - F) + input;
    s, r, len, at := s0, r0, len0, at0;
    var i := 0;
    while i < m && at < |input|
      invariant 0 <= i <= m && at0 <= at <= |input| && len == len0 == N - F + at - (p + i)
      invariant s == Slot(p + i + F, N) && r == Slot(p + i, N)
      invariant Ready(dict, v, p + i, N - F + at)
    {
      assert v[N - F + at] == input[at];
      s, r := Feed(dict, s, r, input[at], v, p + i, N - F + at);
      at, i := at + 1, i + 1;
    }
    while i < m
      invariant 0 <= i <= m && at0 <= at <= |input| && len == N - F + at - (p + i)
      invariant i < m ==> at == |input|
      invariant len == 0 ==> at == |input|
      invariant s == Slot(p + i + F, N) && r == Slot(p + i, N)
      invariant len >= m - i
      invariant len > 0 ==> Ready(dict, v, p + i, N - F + at)
    {
      s, r, len := Drain(dict, s, r, len, v, p + i, N - F + at);
      i := i + 1;
    }
  }

  // ------------------------------------------------------------------- coding

  /** The tree need not be rebuilt, and the code fits in the 16 bits gathered. */
  method WithinLimits(huff: Huffman, k: Token) returns (ok: bool)
    requires huff.Valid() && Proper(k)
    ensures ok <==> Codable(huff.Snapshot(), k)
    ensures !ok ==> Shape(huff.Snapshot()) && huff.Snapshot().freq[R] >= 4181
    ensures !ok <==> LongCode(huff.Snapshot(), k) || (Shape(huff.Snapshot()) && huff.Snapshot().freq[R] >= 0x8000)
  {
    hide Sorted, Downward, Upward, Sums, Path, ToBits, Pad;
    var _, j := GatherCode(huff, Symbol(k));
    ok := huff.freq[R] < MAX_FREQ && j <= 16;
    NotEmpty(huff.Snapshot(), Symbol(k));
    if huff.freq[R] < 4181 {
      CodesFit(huff.Snapshot(), Symbol(k));
    }
  }

  lemma NotEmpty(t: Tree, code: nat)
    requires Sibling(t) && code < N_CHAR
    ensures 1 <= |Code(t, code)|
  {
    hide Sorted, Sums, Downward;
    LeafStart(t, code);
    LeafIsNotRoot(t, t.prnt[code + T]);
    PathStep(t, t.prnt[code + T]);
  }

  method EncodeToken(huff: Huffman, sink: BitSink, k: Token)
    requires huff.Valid() && sink.Valid() && Codable(huff.Snapshot(), k)
    modifies sink, huff.freq, huff.prnt, huff.son
    ensures huff.Valid() && huff.Snapshot() == Update(old(huff.Snapshot()), Symbol(k))
    ensures sink.Valid() && sink.Sent() == old(sink.Sent()) + TokenBits(old(huff.Snapshot()), k)
  {
    hide Sorted, Downward, Upward, Sums, Path, ToBits, Pad, Update, BytesBits, PositionBits;
    ghost var was, t := sink.Sent(), huff.Snapshot();
    EncodeChar(huff, sink, Symbol(k));
    if k.Match? {
      EncodePosition(sink, k.pos);
      assert was + Code(t, Symbol(k)) + PositionBits(k.pos) == was + TokenBits(t, k);
    } else {
      assert TokenBits(t, k) == Code(t, Symbol(k));
    }
  }

  /** What has been coded so far. */
  ghost predicate Progress(ks: seq<Token>, t: Tree, sent: seq<bool>, v: seq<byte>, p: nat)
  {
    && AllCodable(InitialTree(), ks) && t == After(InitialTree(), ks) && sent == Bits(InitialTree(), ks)
    && N - F + |ks| <= p <= |v| && Spellable(Blank(N - F), ks) && SpellAll(Blank(N - F), ks) == v[..p]
    && Sibling(t) && t.freq[R] == N_CHAR + |ks|
    && Greedy(v, ks) && p == N - F + Lengths(ks)
  }

  lemma ProgressStarts(v: seq<byte>)
    requires N - F <= |v| && v[..N - F] == Blank(N - F)
    ensures Progress([], InitialTree(), [], v, N - F)
  {
    hide Rising, InitialTree;
    InitialSibling();
    assert Lengths([]) == 0;
  }

  lemma ProgressMade(ks: seq<Token>, t: Tree, sent: seq<bool>, v: seq<byte>, p: nat, k: Token, m: nat)
    requires Progress(ks, t, sent, v, p) && Codable(t, k) && Applies(v[..p], k) && m >= 1 && p + m <= |v|
    requires Spell(v[..p], k) == v[..p + m] && BestAt(v, p, k) && m == TokenLength(k)
    ensures Progress(ks + [k], Update(t, Symbol(k)), sent + TokenBits(t, k), v, p + m)
  {
    hide Rising, InitialTree, Update, TokenBits, Spell, Spellable, SpellAll, AllCodable, After, Bits, Greedy, BestAt, Lengths;
    GreedyMore(v, ks, k);
    CodeMore(InitialTree(), ks, k);
    SpellMore(Blank(N - F), ks, k);
    UpdateKeeps(t, Symbol(k), 0);
  }

  /** The first tokens of the input that can be coded, and the one that cannot. */
  ghost predicate Refused(ks: seq<Token>, k: Token, input: seq<byte>)
  {
    && AllCodable(InitialTree(), ks) && !Codable(After(InitialTree(), ks), k)
    && Spellable(Blank(N - F), ks + [k]) && SpellAll(Blank(N - F), ks + [k]) <= Blank(N - F) + input
    && Greedy(Blank(N - F) + input, ks + [k])
    && (|ks| + 314 >= 0x8000 || LongCode(After(InitialTree(), ks), k))
  }

  predicate LongCode(t: Tree, k: Token)
  {
    Shape(t) && Proper(k) && |Code(t, Symbol(k))| > 16
  }

  lemma ProgressRefused(ks: seq<Token>, t: Tree, sent: seq<bool>, input: seq<byte>, p: nat, k: Token, m: nat)
    requires Progress(ks, t, sent, Blank(N - F) + input, p) && !Codable(t, k) && p + m <= N - F + |input|
    requires Applies((Blank(N - F) + input)[..p], k) && Spell((Blank(N - F) + input)[..p], k) == (Blank(N - F) + input)[..p + m]
    requires BestAt(Blank(N - F) + input, p, k) && (LongCode(t, k) || (Shape(t) && t.freq[R] >= 0x8000))
    ensures Refused(ks, k, input) && t.freq[R] == N_CHAR + |ks|
  {
    hide Rising, InitialTree, Codable, Spell, Spellable, SpellAll, AllCodable, After, Bits, Greedy, BestAt, Lengths, LongCode;
    GreedyMore(Blank(N - F) + input, ks, k);
    SpellMore(Blank(N - F), ks, k);
  }

  /** The tokens of a whole input, all of them codable. */
  ghost predicate Coded(ks: seq<Token>, input: seq<byte>)
  {
    && AllCodable(InitialTree(), ks) && Spellable(Blank(N - F), ks) && SpellAll(Blank(N - F), ks) == Blank(N - F) + input
    && Greedy(Blank(N - F) + input, ks)
  }

  lemma NothingCoded()
    ensures Coded([], [])
  {
    hide Blank;
    assert Blank(N - F) + [] == Blank(N - F);
  }

  lemma EmptyFile()
    ensures FileText(LeBytes(0, 4)) == Some([])
  {
    SizeReadsBack(0);
    assert LeBytes(0, 4)[..4] == LeBytes(0, 4);
  }

  lemma FirstSlots()
    ensures Slot(N - F + F, N) == 0 && Slot(N - F, N) == N - F
  {
  }

  lemma Finished(ks: seq<Token>, t: Tree, sent: seq<bool>, input: seq<byte>, body: seq<byte>, pad: nat)
    requires 0 < |input| < U32 && Progress(ks, t, sent, Blank(N - F) + input, N - F + |input|)
    requires BytesBits(body) == sent + Zeros(pad)
    ensures FileText(LeBytes(|input|, 4) + body) == Some(input) && Coded(ks, input)
  {
    hide Rising, InitialTree, SpellAll, Spellable, AllCodable, Bits, After, BytesBits, LeBytes, FileText, Greedy, Lengths;
    var v := Blank(N - F) + input;
    assert v[..|v|] == v;
    TokensDecode(input, ks, body, pad);
  }

  /** Codes one token and moves on past it; a token that cannot be coded is handed back. */
  method EncodeNext(dict: Dictionary, huff: Huffman, sink: BitSink, s: nat, r: nat, len: nat, input: seq<byte>,
                    at: nat, ghost ks: seq<Token>, ghost p: nat)
    returns (s': nat, r': nat, len': nat, at': nat, k: Token, ok: bool, ghost p': nat)
    requires huff.Valid() && sink.Valid() && at <= |input| && p + len == N - F + at && len > 0
    requires {huff.freq, huff.prnt, huff.son} !! {dict.lson, dict.rson, dict.dad}
    requires s == Slot(p + F, N) && r == Slot(p, N) && Ready(dict, Blank(N - F) + input, p, N - F + at)
    requires Progress(ks, huff.Snapshot(), sink.Sent(), Blank(N - F) + input, p)
    modifies sink, huff.freq, huff.prnt, huff.son, dict, dict.text, dict.lson, dict.rson, dict.dad
    ensures !ok ==> Refused(ks, k, input) && |ks| + N_CHAR >= 4181
    ensures ok ==> |ks| + 314 < 0x8000
    ensures ok ==> huff.Valid() && sink.Valid() && at' <= |input| && p' + len' == N - F + at' && p' > p
    ensures ok ==> s' == Slot(p' + F, N) && r' == Slot(p', N)
    ensures ok ==> if len' > 0 then Ready(dict, Blank(N - F) + input, p', N - F + at') else at' == |input|
    ensures ok ==> Progress(ks + [k], huff.Snapshot(), sink.Sent(), Blank(N - F) + input, p')
  {
    hide Rising, Slot, Blank, Ready, Progress, Refused, Update, Spell, BytesBits, Codable, TokenBits, BestAt, LongCode;
    ghost var v := Blank(N - F) + input;
    s', r', len', at', p' := s, r, len, at, p;
    var m;
    k, m := Pick(dict, r, len, v, p, N - F + at);
    ok := WithinLimits(huff, k);
    if !ok {
      ProgressRefused(ks, huff.Snapshot(), sink.Sent(), input, p, k, m);
      return;
    }
    ProgressWeight(ks, huff.Snapshot(), sink.Sent(), v, p);
    ProgressMade(ks, huff.Snapshot(), sink.Sent(), v, p, k, m);
    EncodeToken(huff, sink, k);
    s', r', len', at' := Advance(dict, s, r, len, input, at, m, p);
    p' := p + m;
  }

  lemma ProgressWeight(ks: seq<Token>, t: Tree, sent: seq<bool>, v: seq<byte>, p: nat)
    requires Progress(ks, t, sent, v, p)
    ensures Shape(t) && t.freq[R] == 314 + |ks|
  {
  }

  lemma TokensFewer(ks: seq<Token>, t: Tree, sent: seq<bool>, input: seq<byte>, p: nat)
    requires Progress(ks, t, sent, Blank(N - F) + input, p)
    ensures |ks| <= |input|
  {
  }

  /** Encode. Says ok exactly where each token it picks can be coded, that is where the code
      has at most 16 bits and the tree need not be rebuilt; else it names the first that cannot. */
  method Encode(input: seq<byte>) returns (out: seq<byte>, ok: bool, ghost ks: seq<Token>, ghost k: Token)
    requires |input| < U32
    ensures ok ==> Coded(ks, input) && FileText(out) == Some(input)
    ensures !ok ==> Refused(ks, k, input)
    ensures |ks| + N_CHAR < 4181 ==> ok
    ensures |ks| <= |input| && |ks| + 314 <= 0x8000
  {
    hide Rising, InitialTree, Slot, Blank, Ready, Progress, Refused, Coded, Update, Spell, BytesBits, LeBytes, FileText;
    hide Codable, TokenBits;
    out, ok, ks, k := LeBytes(|input|, 4), true, [], Char(0);
    if |input| == 0 {
      EmptyFile();
      NothingCoded();
      return;
    }
    var huff := new Huffman();
    var sink := new BitSink();
    var dict, len := Prime(input);
    ghost var v, p: nat := Blank(N - F) + input, N - F;
    ProgressStarts(v);
    FirstSlots();
    var s, r, at := 0, N - F, len;
    while len > 0
      invariant huff.Valid() && sink.Valid() && at <= |input| && p + len == N - F + at && |v| == N - F + |input|
      invariant fresh(huff.freq) && fresh(huff.prnt) && fresh(huff.son) && fresh(sink)
      invariant fresh(dict) && fresh(dict.text) && fresh(dict.lson) && fresh(dict.rson) && fresh(dict.dad)
      invariant {huff.freq, huff.prnt, huff.son} !! {dict.lson, dict.rson, dict.dad}
      invariant s == Slot(p + F, N) && r == Slot(p, N)
      invariant len > 0 ==> Ready(dict, v, p, N - F + at)
      invariant 0 <= len && (len == 0 ==> at == |input|)
      invariant Progress(ks, huff.Snapshot(), sink.Sent(), v, p) && |ks| + 314 <= 0x8000
      decreases |v| - p
    {
      TokensFewer(ks, huff.Snapshot(), sink.Sent(), input, p);
      var token;
      s, r, len, at, token, ok, p := EncodeNext(dict, huff, sink, s, r, len, input, at, ks, p);
      k := token;
      if !ok {
        return;
      }
      ks := ks + [k];
    }
    ghost var sent, t := sink.Sent(), huff.Snapshot();
    TokensFewer(ks, t, sent, input, p);
    sink.EncodeEnd();
    Finished(ks, t, sent, input, sink.out, (8 - sink.putlen) % 8);
    out := out + sink.out;
  }

  /** Decoding what was encoded gives the input back, as long as every token picked can be
      coded; while there are fewer than 3867 of them, that is always so. */
  method RoundTrip(input: seq<byte>) returns (back: Option<seq<byte>>, ok: bool, ghost ks: seq<Token>, ghost k: Token)
    requires |input| < U32
    ensures ok ==> Coded(ks, input) && back == Some(input)
    ensures !ok ==> Refused(ks, k, input)
    ensures |ks| + N_CHAR < 4181 ==> ok
    ensures |ks| <= |input| && |ks| + 314 <= 0x8000
  {
    hide Coded, Refused;
    var out;
    out, ok, ks, k := Encode(input);
    back := Decode(out);
  }
}
