/** Stop-and-wait (sections 2 and 6 of RFC 1350): the sender and the receiver. */
module TftpProtocol {
  import opened Bytes
  import opened TftpNetascii
  import opened TftpBuffers

  // ---------------------------------------------------------------------- blocks

  /** The first n blocks of the stream. */
  function Prefix(stream: seq<byte>, seg: nat, n: nat): (p: seq<byte>)
    ensures p <= stream
  {
    if n == 0 then []
    else
      var q := Prefix(stream, seg, n - 1);
      ChunkOf(stream, q, seg);
      q + Chunk(stream[|q|..], seg)
  }

  /** The contents of block n, counting from one. */
  function BlockData(stream: seq<byte>, seg: nat, n: nat): (d: seq<byte>)
    requires n >= 1
    ensures |d| <= seg && Prefix(stream, seg, n) == Prefix(stream, seg, n - 1) + d
  {
    Chunk(stream[|Prefix(stream, seg, n - 1)|..], seg)
  }

  /** Block numbers have sixteen bits in a packet. */
  function Number(n: nat): (w: nat)
    ensures w < 65536
  {
    n % 65536
  }

  lemma FirstNumbers()
    ensures Number(0) == 0 && Number(1) == 1
  {
  }

  lemma NextNumber(n: nat)
    ensures Number(n + 1) == (Number(n) + 1) % 65536
  {
  }

  /** A short block is the last. */
  lemma ShortIsLast(stream: seq<byte>, seg: nat, n: nat)
    requires n >= 1 && |BlockData(stream, seg, n)| != seg
    ensures Prefix(stream, seg, n) == stream
  {
    ChunkOf(stream, Prefix(stream, seg, n - 1), seg);
  }

  /** All blocks before n are full. */
  ghost predicate FullUpTo(stream: seq<byte>, seg: nat, n: nat)
  {
    forall k :: 1 <= k < n ==> |BlockData(stream, seg, k)| == seg
  }

  lemma {:induction false} FullLength(stream: seq<byte>, seg: nat, n: nat)
    requires n >= 1 && FullUpTo(stream, seg, n)
    ensures |Prefix(stream, seg, n - 1)| == (n - 1) * seg <= |stream|
  {
    if n > 1 {
      FullLength(stream, seg, n - 1);
      assert |BlockData(stream, seg, n - 1)| == seg;
      assert (n - 1) * seg == (n - 2) * seg + seg;
    }
  }

  /** While the stream reaches to block n, all blocks up to it are full. */
  lemma {:induction false} FullFromLength(stream: seq<byte>, seg: nat, n: nat)
    requires n * seg <= |stream|
    ensures FullUpTo(stream, seg, n + 1) && |Prefix(stream, seg, n)| == n * seg
    ensures |BlockData(stream, seg, n + 1)| == if (n + 1) * seg <= |stream| then seg else |stream| - n * seg
  {
    if n > 0 {
      assert n * seg == (n - 1) * seg + seg;
      FullFromLength(stream, seg, n - 1);
      assert |BlockData(stream, seg, n)| == seg;
    }
    assert (n + 1) * seg == n * seg + seg;
  }

  // ---------------------------------------------------------------- the programs

  /** sendfile: one block is under way, and the next may be read already. */
  class Sender {
    const reader: FileReader
    var block: nat
    var packet: seq<byte>
    var finished: bool
    ghost var index: nat         // which block it is, counting from one

    ghost predicate Valid()
      reads this, reader, reader.bfs
    {
      && reader.Valid() && index >= 1 && block == Number(index)
      && FullUpTo(reader.Stream(), reader.segsize, index)
      && packet == BlockData(reader.Stream(), reader.segsize, index)
      && reader.done == Prefix(reader.Stream(), reader.segsize, index)
      && (finished ==> |packet| < reader.segsize)
    }

    constructor (reader: FileReader)
      requires reader.Valid() && reader.done == []
      modifies reader, reader.bfs
      ensures Valid() && this.reader == reader && index == 1 && !finished
    {
      this.reader := reader;
      block, finished, index := 1, false, 1;
      var data := reader.ReadIt();
      packet := data;
      new;
      FirstPrefix(reader.Stream(), reader.segsize);
    }

    /** An acknowledgement arrives; says whether the (new) packet is to be sent. */
    method OnAck(ack: nat) returns (send: bool)
      requires Valid() && !finished
      modifies this, reader, reader.bfs
      ensures Valid()
      ensures ack == old(block) && old(|packet|) == reader.segsize ==> send && !finished && index == old(index) + 1
      ensures ack == old(block) && old(|packet|) < reader.segsize ==> !send && finished && index == old(index)
      ensures ack != old(block) ==> !finished && index == old(index) && (send <==> ack == block - 1)
    {
      hide Prefix, BlockData, FileReader.Valid, Number;
      send := false;
      if ack == block {
        if |packet| == reader.segsize {
          FullMore(reader.Stream(), reader.segsize, index);
          NextNumber(index);
          NextData(reader.Stream(), reader.segsize, index + 1);
          block, index := (block + 1) % 65536, index + 1;
          packet := reader.ReadIt();
          send := true;
        } else {
          finished := true;
        }
      } else if ack == block - 1 {
        send := true;
      }
      if send {
        reader.ReadAhead();
      }
    }
  }

  lemma FirstPrefix(stream: seq<byte>, seg: nat)
    ensures Prefix(stream, seg, 0) == [] && stream[0..] == stream
    ensures BlockData(stream, seg, 1) == Chunk(stream, seg) && Prefix(stream, seg, 1) == Chunk(stream, seg)
  {
    assert stream[0..] == stream;
    assert [] + Chunk(stream, seg) == Chunk(stream, seg);
  }

  lemma NextData(stream: seq<byte>, seg: nat, n: nat)
    requires n >= 1
    ensures BlockData(stream, seg, n) == Chunk(stream[|Prefix(stream, seg, n - 1)|..], seg)
    ensures Prefix(stream, seg, n) == Prefix(stream, seg, n - 1) + BlockData(stream, seg, n)
  {
  }

  lemma FullMore(stream: seq<byte>, seg: nat, n: nat)
    requires n >= 1 && FullUpTo(stream, seg, n) && |BlockData(stream, seg, n)| == seg
    ensures FullUpTo(stream, seg, n + 1)
  {
  }

  /** recvfile: block is the number expected; when finished, the number of the last one. The
      packet sent last is kept: the request at first, an acknowledgement later. */
  class Receiver {
    const writer: FileWriter
    const segsize: nat
    var block: nat
    var finished: bool
    var last: Option<nat>        // the number acknowledged last
    ghost var count: nat         // how many blocks have been taken

    ghost predicate Valid()
      reads this, writer, writer.bfs
    {
      && writer.Valid() && block == Number(if finished then count else count + 1)
      && (count > 0 ==> last == Some(Number(count))) && (last.Some? ==> last == Some(Number(count)))
      && (finished ==> Sink(writer.out, writer.prevchar) == WrittenFor(writer.taken, writer.convert))
    }

    /** After the request, or after the server's answer to options was acknowledged as block 0. */
    constructor (writer: FileWriter, segsize: nat, options: bool)
      requires writer.Valid() && writer.taken == []
      ensures Valid() && this.writer == writer && this.segsize == segsize && count == 0 && !finished
      ensures last == if options then Some(0) else None
    {
      hide FileWriter.Valid, WrittenFor, Number;
      FirstNumbers();
      this.writer, this.segsize, block, finished, count := writer, segsize, 1, false, 0;
      last := if options then Some(0) else None;
    }

    /** A block arrives: the one expected is written, the one before acknowledged again. */
    method OnData(n: nat, data: seq<byte>) returns (ack: Option<nat>)
      requires Valid() && !finished
      modifies this, writer, writer.bfs
      ensures Valid()
      ensures n == old(block) ==> ack == last == Some(n) && writer.taken == old(writer.taken) + data
                                  && finished == (|data| != segsize) && count == old(count) + 1
      ensures n != old(block) ==> writer.taken == old(writer.taken) && !finished && count == old(count) && last == old(last)
                                  && ack == if n == block - 1 then last else None
    {
      hide FileWriter.Valid, WrittenFor, Number;
      ack := None;
      if n == block {
        writer.WriteIt(data);
        ack, last, count := Some(n), Some(n), count + 1;
        if |data| == segsize {
          NextNumber(count);
          block := (block + 1) % 65536;
        } else {
          finished := true;
        }
        writer.WriteBehind();
      } else if n == block - 1 {
        ack := last;
        writer.WriteBehind();
      }
    }
  }
}
