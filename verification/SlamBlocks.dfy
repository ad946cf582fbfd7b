/** How a file is cut into SLAM blocks, and when an image has been put together. */
module SlamBlocks {
  import opened Bytes

  /** (total + block - 1) / block */
  function Packets(total: nat, block: nat): (n: nat)
    requires block > 0
  {
    (total + block - 1) / block
  }

  function Place(n: nat, i: nat, block: nat): (at: nat)
  {
    n * block + i
  }

  /** Where the last block begins and ends. */
  lemma PacketsBound(total: nat, block: nat)
    requires block > 0 && total > 0
    ensures var n := Packets(total, block); n >= 1 && (n - 1) * block < total <= n * block
  {
    var n := Packets(total, block);
    var r := (total + block - 1) % block;
    assert total + block - 1 == block * n + r;
    assert (n - 1) * block == n * block - block;
  }

  lemma MulStep(n: nat, m: nat, block: nat)
    requires n < m
    ensures n * block + block <= m * block
  {
    var d := m - n - 1;
    assert m * block == (n + (1 + d)) * block == n * block + (1 + d) * block;
    assert (1 + d) * block == block + d * block;
    assert d * block >= 0;
  }

  lemma PlaceOf(j: nat, block: nat) returns (n: nat, i: nat)
    requires block > 0
    ensures i < block && j == Place(n, i, block)
  {
    n, i := j / block, j % block;
  }

  /** Number of bytes in block n of the file. */
  function BlockLength(n: nat, total: nat, block: nat): (len: nat)
  {
    if n * block >= total then 0 else if n * block + block <= total then block else total - n * block
  }

  /** The length the client expects: what is left over, for the last block. */
  function Expected(n: nat, total: nat, block: nat): (len: nat)
    requires block > 0
  {
    if n != Packets(total, block) - 1 then block else total % block
  }

  /** The client expects the right length of every block exactly if the size of the file
      is not a multiple of the block size. */
  lemma ExpectedIsRight(n: nat, total: nat, block: nat)
    requires block > 0 && n < Packets(total, block)
    ensures Expected(n, total, block) == BlockLength(n, total, block)
            <==> n < Packets(total, block) - 1 || total % block != 0
  {
    var last := Packets(total, block) - 1;
    if total == 0 {
      EmptyFile(block);
    } else {
      PacketsBound(total, block);
      if n < last {
        MulStep(n, last, block);
      } else {
        Leftover(total, block, last);
      }
    }
  }

  lemma EmptyFile(block: nat)
    requires block > 0
    ensures Packets(0, block) == 0
  {
  }

  lemma Leftover(total: nat, block: nat, last: nat)
    requires block > 0 && last * block < total <= last * block + block
    ensures total % block == if total == last * block + block then 0 else total - last * block
  {
    if total == last * block + block {
      QuotientUnique(total, block, last + 1, 0);
    } else {
      QuotientUnique(total, block, last, total - last * block);
    }
  }

  // ----------------------------------------------------------------- the receiver

  /** What a client has: a bit for each packet and one more, the image with the memory
      behind it, and the count of packets. */
  datatype Receiver = Receiver(bits: seq<bool>, image: seq<byte>, received: nat)

  function Store(image: seq<byte>, at: nat, data: seq<byte>): (image': seq<byte>)
    requires at + |data| <= |image|
    ensures |image'| == |image|
    ensures forall j :: 0 <= j < |image| ==> image'[j] == if at <= j < at + |data| then data[j - at] else image[j]
  {
    image[..at] + data + image[at + |data|..]
  }

  /** Packet n comes in; a packet already there is ignored. */
  function Accept(v: Receiver, block: nat, n: nat, data: seq<byte>): (v': Receiver)
    requires n < |v.bits| && n * block + |data| <= |v.image|
  {
    if v.bits[n] then v
    else Receiver(v.bits[n := true], Store(v.image, n * block, data), v.received + 1)
  }

  function CountTrue(bits: seq<bool>): (n: nat)
    ensures n <= |bits|
  {
    if bits == [] then 0 else (if bits[0] then 1 else 0) + CountTrue(bits[1..])
  }

  lemma {:induction false} CountSet(bits: seq<bool>, n: nat)
    requires n < |bits| && !bits[n]
    ensures CountTrue(bits[n := true]) == CountTrue(bits) + 1
    decreases bits
  {
    if n > 0 {
      assert bits[n := true][1..] == bits[1..][n - 1 := true];
      CountSet(bits[1..], n - 1);
    } else {
      assert bits[0 := true][1..] == bits[1..];
    }
  }

  lemma {:induction false} CountFull(bits: seq<bool>)
    requires CountTrue(bits) == |bits|
    ensures forall i :: 0 <= i < |bits| ==> bits[i]
    decreases bits
  {
    if bits != [] {
      CountFull(bits[1..]);
    }
  }

  /** Byte i of block n: the file's where the packet has come in, else as before. */
  function Cell(v: Receiver, file: seq<byte>, memory: seq<byte>, block: nat, n: nat, i: nat): (x: byte)
    requires block > 0 && n < |v.bits| && Place(n, i, block) < |memory|
  {
    if n < Packets(|file|, block) && v.bits[n] && i < BlockLength(n, |file|, block) then file[Place(n, i, block)]
    else memory[Place(n, i, block)]
  }

  predicate Sized(v: Receiver, file: seq<byte>, memory: seq<byte>, block: nat)
  {
    && block > 0 && |v.bits| == Packets(|file|, block) + 1
    && |v.image| == |memory| == |v.bits| * block
  }

  /** Bits, count and image agree: a bit is set exactly if the block is the file's and
      counted, and all other memory is as it was. */
  ghost predicate Assembled(v: Receiver, file: seq<byte>, memory: seq<byte>, block: nat)
  {
    && Sized(v, file, memory, block)
    && v.received == CountTrue(v.bits[..|v.bits| - 1])
    && forall n: nat, i: nat :: n < |v.bits| && i < block ==> Right(v, file, memory, block, n, i)
  }

  ghost predicate Right(v: Receiver, file: seq<byte>, memory: seq<byte>, block: nat, n: nat, i: nat)
    requires Sized(v, file, memory, block) && n < |v.bits| && i < block
  {
    Inside(n, i, |v.bits|, block);
    v.image[Place(n, i, block)] == Cell(v, file, memory, block, n, i)
  }

  lemma Inside(n: nat, i: nat, count: nat, block: nat)
    requires n < count && i < block
    ensures Place(n, i, block) < count * block
  {
    MulStep(n, count, block);
  }

  lemma BlockInside(n: nat, len: nat, count: nat, block: nat)
    requires n < count && len <= block
    ensures n * block + len <= count * block
  {
    MulStep(n, count, block);
  }

  function Block(file: seq<byte>, n: nat, block: nat): (data: seq<byte>)
    ensures |data| == BlockLength(n, |file|, block) <= block
  {
    if n * block >= |file| then [] else file[n * block..n * block + BlockLength(n, |file|, block)]
  }

  /** A block of the file, delivered once or again, keeps everything in agreement. */
  lemma AcceptKeeps(v: Receiver, file: seq<byte>, memory: seq<byte>, block: nat, n: nat)
    requires Assembled(v, file, memory, block) && n < Packets(|file|, block)
    ensures n * block + |Block(file, n, block)| <= |v.image|
    ensures Assembled(Accept(v, block, n, Block(file, n, block)), file, memory, block)
  {
    hide CountTrue, Store;
    BlockInside(n, |Block(file, n, block)|, |v.bits|, block);
    var data := Block(file, n, block);
    var v' := Accept(v, block, n, data);
    if !v.bits[n] {
      var last := |v.bits| - 1;
      assert v'.bits[..last] == v.bits[..last][n := true];
      CountSet(v.bits[..last], n);
      forall m: nat, i: nat | m < |v.bits| && i < block ensures Right(v', file, memory, block, m, i) {
        assert Right(v, file, memory, block, m, i);
        Inside(m, i, |v.bits|, block);
        AcceptCell(v, file, block, n, m, i);
      }
    }
  }

  lemma AcceptCell(v: Receiver, file: seq<byte>, block: nat, n: nat, m: nat, i: nat)
    requires n < |v.bits| && i < block && n * block + |Block(file, n, block)| <= |v.image| && Place(m, i, block) < |v.image|
    ensures Store(v.image, n * block, Block(file, n, block))[Place(m, i, block)]
            == if m == n && i < BlockLength(n, |file|, block) then file[Place(n, i, block)] else v.image[Place(m, i, block)]
  {
    hide Store;
    var at := Place(m, i, block);
    if m < n {
      MulStep(m, n, block);
    } else if n < m {
      MulStep(n, m, block);
    }
  }

  /** Of the numbers the client lets through, the one behind the last packet is the only
      one that breaks the agreement, and it does unless the trailer bit happens to be set. */
  lemma AcceptKeepsExactly(v: Receiver, file: seq<byte>, memory: seq<byte>, block: nat, n: nat, data: seq<byte>)
    requires Assembled(v, file, memory, block) && n <= Packets(|file|, block)
    requires n * block + |data| <= |v.image| && (n < Packets(|file|, block) ==> data == Block(file, n, block))
    ensures Assembled(Accept(v, block, n, data), file, memory, block) <==> n < Packets(|file|, block) || v.bits[n]
  {
    hide CountTrue, Store;
    if n < Packets(|file|, block) {
      AcceptKeeps(v, file, memory, block, n);
    } else if !v.bits[n] {
      var v' := Accept(v, block, n, data);
      assert v'.bits[..n] == v.bits[..n];
    }
  }

  /** The trailer bit may take any value. */
  lemma TrailerKeeps(v: Receiver, file: seq<byte>, memory: seq<byte>, block: nat, x: bool)
    requires Assembled(v, file, memory, block)
    ensures Assembled(v.(bits := v.bits[|v.bits| - 1 := x]), file, memory, block)
  {
    hide CountTrue;
    var v' := v.(bits := v.bits[|v.bits| - 1 := x]);
    assert v'.bits[..|v.bits| - 1] == v.bits[..|v.bits| - 1];
    forall n: nat, i: nat | n < |v.bits| && i < block ensures Right(v', file, memory, block, n, i) {
      assert Right(v, file, memory, block, n, i);
    }
  }

  lemma NothingReceived(v: Receiver, file: seq<byte>, memory: seq<byte>, block: nat)
    requires Sized(v, file, memory, block) && v.image == memory && v.received == 0
    requires forall i :: 0 <= i < |v.bits| ==> !v.bits[i]
    ensures Assembled(v, file, memory, block)
  {
    NoneTrue(v.bits[..|v.bits| - 1]);
  }

  lemma {:induction false} NoneTrue(bits: seq<bool>)
    requires forall i :: 0 <= i < |bits| ==> !bits[i]
    ensures CountTrue(bits) == 0
    decreases bits
  {
    if bits != [] {
      NoneTrue(bits[1..]);
    }
  }

  /** Once as many packets have come in as there are, the image is the file. */
  lemma CompleteIsFile(v: Receiver, file: seq<byte>, memory: seq<byte>, block: nat)
    requires Assembled(v, file, memory, block) && v.received == Packets(|file|, block) && |file| > 0
    ensures |file| <= |v.image| && v.image[..|file|] == file
  {
    hide CountTrue;
    PacketsBound(|file|, block);
    var last := |v.bits| - 1;
    CountFull(v.bits[..last]);
    MulStep(last, last + 1, block);
    forall j | 0 <= j < |file| ensures v.image[j] == file[j] {
      var n, i := PlaceOf(j, block);
      InFile(n, i, |file|, block);
      assert v.bits[..last][n];
      assert Right(v, file, memory, block, n, i);
    }
  }

  lemma InFile(n: nat, i: nat, total: nat, block: nat)
    requires block > 0 && i < block && Place(n, i, block) < total
    ensures n < Packets(total, block) && i < BlockLength(n, total, block)
  {
    PacketsBound(total, block);
    var p := Packets(total, block);
    if n >= p {
      if n > p {
        MulStep(p, n, block);
      }
      assert false;
    }
  }
}
