/** Netascii (section 1 of RFC 1350): end of line is CR LF on the wire, and a CR that means
    itself is followed by NUL. */
module TftpNetascii {
  import opened Bytes

  const LF: byte := 10
  const CR: byte := 13
  const NUL: byte := 0

  /** What one byte of a file becomes on the wire. */
  function Wire(c: byte): (w: seq<byte>)
  {
    if c == LF then [CR, LF] else if c == CR then [CR, NUL] else [c]
  }

  function Expand(text: seq<byte>): (w: seq<byte>)
  {
    if text == [] then [] else Wire(text[0]) + Expand(text[1..])
  }

  /** The file while it is written, and the byte that came last, -1 at the start. */
  datatype Sink = Sink(out: seq<byte>, prev: int)

  /** A CR that came last is still the last byte of the file. */
  predicate Standing(k: Sink)
  {
    k.prev == CR as int ==> k.out != [] && k.out[|k.out| - 1] == CR
  }

  /** One byte off the wire: LF smashes the CR before it, NUL after CR is dropped. */
  function Put(k: Sink, c: byte): (k': Sink)
    requires Standing(k)
    ensures Standing(k')
  {
    if k.prev == CR as int && c == LF then Sink(k.out[..|k.out| - 1] + [LF], c)
    else if k.prev == CR as int && c == NUL then Sink(k.out, c)
    else Sink(k.out + [c], c)
  }

  function PutAll(k: Sink, w: seq<byte>): (k': Sink)
    requires Standing(k)
    ensures Standing(k')
    decreases |w|
  {
    if w == [] then k else PutAll(Put(k, w[0]), w[1..])
  }

  /** Where the wire is cut makes no difference. */
  lemma {:induction false} PutAllJoin(k: Sink, a: seq<byte>, b: seq<byte>)
    requires Standing(k)
    ensures PutAll(k, a + b) == PutAll(PutAll(k, a), b)
    decreases |a|
  {
    if a == [] {
      assert a + b == b;
    } else {
      assert (a + b)[1..] == a[1..] + b;
      PutAllJoin(Put(k, a[0]), a[1..], b);
    }
  }

  /** The writer undoes the reader. */
  lemma {:induction false} ExpandReadsBack(k: Sink, text: seq<byte>)
    requires k.prev != CR as int
    ensures PutAll(k, Expand(text)).out == k.out + text
    decreases |text|
  {
    if text != [] {
      var c := text[0];
      PutAllJoin(k, Wire(c), Expand(text[1..]));
      var k' := PutAll(k, Wire(c));
      WireReadsBack(k, c);
      ExpandReadsBack(k', text[1..]);
      assert k.out + [c] + text[1..] == k.out + text;
    }
  }

  lemma WireReadsBack(k: Sink, c: byte)
    requires k.prev != CR as int
    ensures PutAll(k, Wire(c)).out == k.out + [c] && PutAll(k, Wire(c)).prev != CR as int
  {
    var w := Wire(c);
    if |w| == 1 {
      assert w[1..] == [];
    } else {
      assert w[1..] == [w[1]] && [w[1]][1..] == [];
      var k1 := Put(k, CR);
      assert k1.out == k.out + [CR] && k1.out[..|k.out|] == k.out;
      assert PutAll(k, w) == PutAll(Put(k1, w[1]), []);
    }
  }

  // ------------------------------------------------------------------ in numbers

  lemma {:induction false} ExpandJoin(a: seq<byte>, b: seq<byte>)
    ensures Expand(a + b) == Expand(a) + Expand(b)
    decreases |a|
  {
    if a == [] {
      assert a + b == b;
    } else {
      assert (a + b)[1..] == a[1..] + b;
      ExpandJoin(a[1..], b);
      assert Wire(a[0]) + (Expand(a[1..]) + Expand(b)) == Wire(a[0]) + Expand(a[1..]) + Expand(b);
    }
  }

  /** Each byte of a file goes out as itself, except line feed and carriage return. */
  lemma ExpandOne(text: seq<byte>, c: byte)
    ensures Expand(text + [c]) == Expand(text) + (if c == 10 then [13, 10] else if c == 13 then [13, 0] else [c])
  {
    ExpandJoin(text, [c]);
    assert [c][1..] == [];
    assert Expand([]) == [] && Wire(c) + [] == Wire(c);
  }

  /** What may be on the wire: a carriage return only before a line feed or a null, a line feed
      only behind a carriage return. */
  lemma {:induction false} ExpandIsNetascii(text: seq<byte>, i: nat)
    requires i < |Expand(text)|
    ensures Expand(text)[i] == 13 ==> i + 1 < |Expand(text)| && Expand(text)[i + 1] in {10, 0}
    ensures Expand(text)[i] == 10 ==> i > 0 && Expand(text)[i - 1] == 13
    decreases |text|
  {
    var n := |Wire(text[0])|;
    if i >= n {
      ExpandIsNetascii(text[1..], i - n);
    }
  }

  /** What the bytes off the wire stand for, looking one byte ahead. */
  function Contract(w: seq<byte>): (text: seq<byte>)
    decreases |w|
  {
    if w == [] then []
    else if |w| >= 2 && w[0] == 13 && w[1] == 10 then [10] + Contract(w[2..])
    else if |w| >= 2 && w[0] == 13 && w[1] == 0 then [13] + Contract(w[2..])
    else [w[0]] + Contract(w[1..])
  }

  lemma PutAllStep(k: Sink, w: seq<byte>)
    requires Standing(k) && w != []
    ensures PutAll(k, w) == PutAll(Put(k, w[0]), w[1..])
  {
  }

  lemma NothingPut(k: Sink)
    requires Standing(k)
    ensures PutAll(k, []) == k && Contract([]) == []
  {
  }

  /** The definition of Contract, one step. */
  lemma ContractStep(w: seq<byte>)
    requires w != []
    ensures Contract(w) == if |w| >= 2 && w[0] == 13 && w[1] in {10, 0} then [if w[1] == 10 then 10 else 13] + Contract(w[2..])
                           else [w[0]] + Contract(w[1..])
  {
  }

  /** The writer, which only remembers the byte before, writes just that, whatever comes in. */
  lemma {:induction false} PutAllContracts(k: Sink, w: seq<byte>)
    requires k.prev != CR as int
    ensures PutAll(k, w).out == k.out + Contract(w)
    decreases |w|, 1
  {
    hide PutAll, Contract;
    NothingPut(k);
    if w != [] {
      PutAllStep(k, w);
      ContractStep(w);
      var k1 := Put(k, w[0]);
      if w[0] != 13 {
        PutAllContracts(k1, w[1..]);
        Regroup(k.out, [w[0]], Contract(w[1..]));
      } else if |w| == 1 {
        NothingPut(k1);
        assert w[1..] == [];
        assert [13] + [] == [13];
      } else {
        AfterReturn(k, w);
      }
    }
  }

  lemma {:induction false} AfterReturn(k: Sink, w: seq<byte>)
    requires k.prev != CR as int && |w| >= 2 && w[0] == 13
    ensures PutAll(k, w).out == k.out + Contract(w)
    decreases |w|, 0
  {
    hide PutAll, Contract;
    var k1 := Put(k, w[0]);
    assert k1.out == k.out + [13] && k1.out[..|k.out|] == k.out;
    assert w[1..][1..] == w[2..];
    PutAllStep(k, w);
    PutAllStep(k1, w[1..]);
    ContractStep(w);
    if w[1] in {10, 0} {
      var c: byte := if w[1] == 10 then 10 else 13;
      PutAllContracts(Put(k1, w[1]), w[2..]);
      assert Put(k1, w[1]).out == k.out + [c];
      Regroup(k.out, [c], Contract(w[2..]));
    } else {
      var k2 := Sink(k1.out, -1);
      assert Put(k1, w[1]) == Put(k2, w[1]);
      PutAllStep(k2, w[1..]);
      PutAllContracts(k2, w[1..]);
      Regroup(k.out, [13], Contract(w[1..]));
    }
  }
}
