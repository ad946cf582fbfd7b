/** The status packet of SLAM: run lengths of received and missing packets, in turn. */
module SlamNack {
  import opened Bytes
  import opened SlamCode

  // ------------------------------------------------------------------------ runs

  /** The run lengths of bits, continuing a run of len times `last`. */
  function Scan(bits: seq<bool>, last: bool, len: nat): (runs: seq<nat>)
    ensures runs != []
    decreases bits
  {
    if bits == [] then [len]
    else if bits[0] == last then Scan(bits[1..], last, len + 1)
    else [len] + Scan(bits[1..], bits[0], 1)
  }

  function Repeat(v: bool, n: nat): (bits: seq<bool>)
    ensures |bits| == n && forall i :: 0 <= i < n ==> bits[i] == v
  {
    if n == 0 then [] else [v] + Repeat(v, n - 1)
  }

  /** What runs of alternating values, beginning with v, stand for. */
  function Unrun(runs: seq<nat>, v: bool): (bits: seq<bool>)
    decreases runs
  {
    if runs == [] then [] else Repeat(v, runs[0]) + Unrun(runs[1..], !v)
  }

  lemma {:induction false} ScanReadsBack(bits: seq<bool>, last: bool, len: nat)
    ensures Unrun(Scan(bits, last, len), last) == Repeat(last, len) + bits
    decreases bits
  {
    if bits == [] {
      assert Unrun([len][1..], !last) == [];
    } else if bits[0] == last {
      ScanReadsBack(bits[1..], last, len + 1);
      assert Repeat(last, len + 1) + bits[1..] == Repeat(last, len) + bits;
    } else {
      var more := Scan(bits[1..], bits[0], 1);
      ScanReadsBack(bits[1..], bits[0], 1);
      assert ([len] + more)[1..] == more;
      assert Repeat(bits[0], 1) + bits[1..] == bits;
    }
  }

  function Sum(runs: seq<nat>): (n: nat)
  {
    if runs == [] then 0 else runs[0] + Sum(runs[1..])
  }

  /** The runs of a bitmap: none but the first is empty, and they add up to its size. */
  lemma {:induction false} ScanShape(bits: seq<bool>, last: bool, len: nat)
    ensures Scan(bits, last, len)[0] >= len
    ensures forall i :: 1 <= i < |Scan(bits, last, len)| ==> Scan(bits, last, len)[i] >= 1
    ensures Sum(Scan(bits, last, len)) == len + |bits|
    decreases bits
  {
    if bits == [] {
      assert Sum([len][1..]) == 0;
    } else if bits[0] == last {
      ScanShape(bits[1..], last, len + 1);
    } else {
      ScanShape(bits[1..], bits[0], 1);
      assert ([len] + Scan(bits[1..], bits[0], 1))[1..] == Scan(bits[1..], bits[0], 1);
    }
  }

  // ------------------------------------------------------------ missing packets

  function Range(p: nat, n: nat): (ps: seq<nat>)
    ensures |ps| == n && forall i :: 0 <= i < n ==> ps[i] == p + i
    decreases n
  {
    if n == 0 then [] else [p] + Range(p + 1, n - 1)
  }

  /** The numbers of the packets not received, ascending; the first bit is packet p. */
  function Missing(bits: seq<bool>, p: nat): (ps: seq<nat>)
    decreases bits
  {
    if bits == [] then [] else if bits[0] then Missing(bits[1..], p + 1) else [p] + Missing(bits[1..], p + 1)
  }

  /** Missing lists exactly the packets whose bit is clear, each once, in ascending order. */
  lemma {:induction false} MissingExact(bits: seq<bool>, p: nat)
    ensures forall n: nat :: n in Missing(bits, p) <==> p <= n < p + |bits| && !bits[n - p]
    ensures forall i, j :: 0 <= i < j < |Missing(bits, p)| ==> Missing(bits, p)[i] < Missing(bits, p)[j]
    decreases bits
  {
    if bits != [] {
      var rest := Missing(bits[1..], p + 1);
      MissingExact(bits[1..], p + 1);
      forall n: nat ensures n in Missing(bits, p) <==> p <= n < p + |bits| && !bits[n - p] {
        assert n in Missing(bits, p) <==> n in rest || (n == p && !bits[0]);
      }
      forall i | 0 <= i < |rest| ensures rest[i] > p {
        assert rest[i] in rest;
      }
    }
  }

  lemma {:induction false} MissingJoin(a: seq<bool>, b: seq<bool>, p: nat)
    ensures Missing(a + b, p) == Missing(a, p) + Missing(b, p + |a|)
    decreases a
  {
    if a == [] {
      assert a + b == b;
    } else {
      assert (a + b)[1..] == a[1..] + b;
      MissingJoin(a[1..], b, p + 1);
    }
  }

  lemma {:induction false} MissingRepeat(n: nat, p: nat)
    ensures Missing(Repeat(true, n), p) == [] && Missing(Repeat(false, n), p) == Range(p, n)
  {
    if n > 0 {
      MissingRepeat(n - 1, p + 1);
      assert Repeat(true, n)[1..] == Repeat(true, n - 1) && Repeat(false, n)[1..] == Repeat(false, n - 1);
    }
  }

  // ------------------------------------------------------------- what is sent

  /** What a server sends that takes the runs two by two: skip some, send some. */
  function Sends(p: nat, runs: seq<nat>): (ps: seq<nat>)
    decreases |runs|
  {
    if |runs| < 2 then [] else Range(p + runs[0], runs[1]) + Sends(p + runs[0] + runs[1], runs[2..])
  }

  /** It sends exactly what the runs declare missing. */
  lemma {:induction false} SendsMissing(p: nat, runs: seq<nat>)
    ensures Sends(p, runs) == Missing(Unrun(runs, true), p)
    decreases |runs|
  {
    if runs == [] {
    } else if |runs| == 1 {
      assert runs[1..] == [];
      assert Unrun(runs, true) == Repeat(true, runs[0]) + [];
      MissingJoin(Repeat(true, runs[0]), [], p);
      MissingRepeat(runs[0], p);
    } else {
      var a, b, rest := Repeat(true, runs[0]), Repeat(false, runs[1]), Unrun(runs[2..], true);
      assert runs[1..][1..] == runs[2..];
      assert Unrun(runs, true) == a + (b + rest);
      MissingJoin(a, b + rest, p);
      MissingJoin(b, rest, p + runs[0]);
      MissingRepeat(runs[0], p);
      MissingRepeat(runs[1], p + runs[0]);
      SendsMissing(p + runs[0] + runs[1], runs[2..]);
    }
  }

  /** Fewer runs send a prefix of what all runs send. */
  lemma {:induction false} SendsPrefix(p: nat, runs: seq<nat>, k: nat)
    requires k <= |runs|
    ensures Sends(p, runs[..k]) <= Sends(p, runs)
    decreases |runs|
  {
    hide Sends, Range;
    SendsStep(p, runs[..k]);
    if k >= 2 {
      SendsStep(p, runs);
      assert runs[..k][2..] == runs[2..][..k - 2];
      SendsPrefix(p + runs[0] + runs[1], runs[2..], k - 2);
    }
  }

  /** The definition of Sends, one step. */
  lemma {:induction false} SendsStep(p: nat, runs: seq<nat>)
    ensures Sends(p, runs) == if |runs| < 2 then [] else Range(p + runs[0], runs[1]) + Sends(p + runs[0] + runs[1], runs[2..])
  {
  }

  /** After the complete status packet of a client, exactly its missing packets are sent. */
  lemma NackAsksForMissing(bits: seq<bool>)
    ensures Sends(0, Scan(bits, true, 0)) == Missing(bits, 0)
  {
    ScanReadsBack(bits, true, 0);
    SendsMissing(0, Scan(bits, true, 0));
    assert Repeat(true, 0) + bits == bits;
  }

  // ------------------------------------------------------------------- on the wire

  predicate Small(runs: seq<nat>)
  {
    forall i :: 0 <= i < |runs| ==> runs[i] < LIMIT
  }

  function Codes(runs: seq<nat>): (bytes: seq<byte>)
    requires Small(runs)
  {
    if runs == [] then [] else Encoding(runs[0]) + Codes(runs[1..])
  }

  lemma {:induction false} CodesAppend(runs: seq<nat>, r: nat)
    requires Small(runs) && r < LIMIT
    ensures Codes(runs + [r]) == Codes(runs) + Encoding(r)
  {
    hide Encoding;
    if runs == [] {
      assert runs + [r] == [r] && [r][1..] == [];
    } else {
      assert (runs + [r])[1..] == runs[1..] + [r];
      CodesAppend(runs[1..], r);
    }
  }

  /** The bytes of a status packet: the codes, and a null. */
  function NackBytes(runs: seq<nat>): (bytes: seq<byte>)
    requires Small(runs)
    ensures |bytes| > 0
  {
    Codes(runs) + [0]
  }

  lemma NackHead(runs: seq<nat>)
    requires Small(runs)
    ensures runs == [] ==> Decoding(NackBytes(runs)) == None
    ensures runs != [] ==> NackBytes(runs) == Encoding(runs[0]) + NackBytes(runs[1..])
    ensures runs != [] ==> Decoding(NackBytes(runs)) == Some((runs[0], |Encoding(runs[0])|))
  {
    hide Encoding;
    if runs != [] {
      assert NackBytes(runs) == Encoding(runs[0]) + NackBytes(runs[1..]);
      DecodeEncoding(runs[0], NackBytes(runs[1..]));
    }
  }

  // ------------------------------------------------------------ building a packet

  /** How far the walk over the bitmap has got: done holds the runs written. */
  ghost predicate Walked(bits: seq<bool>, i: nat, last: bool, len: nat, done: seq<nat>)
    requires i <= |bits|
  {
    done + Scan(bits[i..], last, len) == Scan(bits, true, 0)
  }

  lemma WalkedMore(bits: seq<bool>, i: nat, last: bool, len: nat, done: seq<nat>)
    requires i < |bits| && Walked(bits, i, last, len, done)
    ensures bits[i] == last ==> Walked(bits, i + 1, last, len + 1, done)
    ensures bits[i] != last ==> Walked(bits, i + 1, bits[i], 1, done + [len])
  {
    assert bits[i..][1..] == bits[i + 1..];
    if bits[i] != last {
      assert done + [len] + Scan(bits[i + 1..], bits[i], 1) == done + ([len] + Scan(bits[i + 1..], bits[i], 1));
    }
  }

  /** Every run is at most the size of the bitmap. */
  lemma {:induction false} RunBelowSum(runs: seq<nat>, k: nat)
    requires k < |runs|
    ensures runs[k] <= Sum(runs)
    decreases |runs|
  {
    if k > 0 {
      RunBelowSum(runs[1..], k - 1);
    }
  }

  lemma RunsAreSmall(bits: seq<bool>)
    requires |bits| < LIMIT
    ensures Small(Scan(bits, true, 0))
  {
    ScanShape(bits, true, 0);
    var runs := Scan(bits, true, 0);
    forall i | 0 <= i < |runs| ensures runs[i] < LIMIT {
      RunBelowSum(runs, i);
    }
  }

  /** Appends the code of a run at ptr, unless it does not fit before end. */
  method PutRun(buf: array<byte>, ptr: nat, end: nat, len: nat, ghost done: seq<nat>) returns (ok: bool, next: nat)
    requires ptr <= end <= buf.Length && len < LIMIT && Small(done) && buf[..ptr] == Codes(done)
    modifies buf
    ensures ok <==> ptr + Width(len) < end
    ensures !ok ==> next == ptr && buf[..ptr] == Codes(done)
    ensures ok ==> next <= end && Small(done + [len]) && buf[..next] == Codes(done + [len])
  {
    hide Encoding, Codes, Width;
    ghost var front := buf[..ptr];
    ok, next := SlamEncode(buf, ptr, end, len);
    CodesAppend(done, len);
    if ok {
      assert buf[..next] == front + Encoding(len);
    }
  }
}
