/** The two buffers of the TFTP programs: read-ahead on the sending side, write-behind on
    the receiving side. */
module TftpBuffers {
  import opened Bytes
  import opened TftpNetascii

  const BF_ALLOC: int := -3
  const BF_FREE: int := -2

  /** counter is the size of the data, or a flag. */
  datatype Buf = Buf(counter: int, data: seq<byte>)

  function Other(i: nat): (j: nat)
  {
    if i == 0 then 1 else 0
  }

  /** The first n bytes, or all if there are fewer. */
  function Chunk(s: seq<byte>, n: nat): (c: seq<byte>)
    ensures |c| <= n && |c| <= |s| && c == s[..|c|]
  {
    if |s| <= n then s else s[..n]
  }

  predicate Full(b: Buf)
  {
    b.counter == |b.data|
  }

  // --------------------------------------------------------------------- reading

  class FileReader {
    const file: seq<byte>
    const convert: bool
    const segsize: nat
    const bfs: array<Buf>
    var current: nat
    var nextone: nat
    var newline: bool
    var prevchar: int
    var pos: nat
    ghost var done: seq<byte>   // everything handed out

    /** What the file is on the wire. */
    ghost function Stream(): seq<byte>
    {
      if convert then Expand(file) else file
    }

    /** What has not been put into a buffer yet. */
    ghost function Rest(): seq<byte>
      requires pos <= |file|
      reads this`pos, this`newline, this`prevchar
    {
      if !convert then file[pos..]
      else if newline then [if prevchar == LF as int then LF else NUL] + Expand(file[pos..])
      else Expand(file[pos..])
    }

    ghost function Ahead(): seq<byte>
      requires bfs.Length == 2 && current < 2
      reads this`current, bfs
    {
      if bfs[Other(current)].counter == BF_FREE then [] else bfs[Other(current)].data
    }

    /** The buffer not in use is free, or holds the next chunk; nothing is lost in between. */
    ghost predicate Valid()
      reads this, bfs
    {
      && bfs.Length == 2 && current < 2 && nextone < 2 && segsize >= 1 && pos <= |file|
      && bfs[current].counter != BF_FREE
      && Stream() == done + Ahead() + Rest()
      && (if bfs[Other(current)].counter == BF_FREE then nextone == Other(current)
          else
            && nextone == current && Full(bfs[Other(current)])
            && Ahead() == Chunk(Ahead() + Rest(), segsize))
    }

    constructor (file: seq<byte>, convert: bool, segsize: nat)
      requires segsize >= 1
      ensures Valid() && done == [] && this.file == file && this.convert == convert && this.segsize == segsize
      ensures fresh(bfs)
    {
      this.file, this.convert, this.segsize := file, convert, segsize;
      bfs := new Buf[2](i => if i == 0 then Buf(BF_ALLOC, []) else Buf(BF_FREE, []));
      current, nextone, newline, prevchar, pos, done := 0, 1, false, -1, 0, [];
      new;
      assert file[0..] == file;
      assert [] + Stream() == Stream();
    }

    /** Frees the current buffer, and hands out the next one with the next chunk. */
    method ReadIt() returns (data: seq<byte>)
      requires Valid()
      modifies this, bfs
      ensures Valid() && done == old(done) + data
      ensures data == Chunk(Stream()[|old(done)|..], segsize)
    {
      hide Expand, Chunk, Rest;
      ghost var before, rest := done, Ahead() + Rest();
      Regroup(done, Ahead(), Rest());
      bfs[current] := bfs[current].(counter := BF_FREE);
      current := Other(current);
      if bfs[current].counter == BF_FREE {
        Fill();
      }
      data := bfs[current].data;
      assert data + Rest() == rest;
      done := done + data;
      Regroup(before, data, Rest());
      assert done + [] == done;
    }

    /** Fills the next buffer if it is free; at any other time it does nothing. */
    method ReadAhead()
      requires Valid()
      modifies this`nextone, this`newline, this`prevchar, this`pos, bfs
      ensures Valid() && current == old(current) && bfs[current] == old(bfs[current])
    {
      hide Expand, Chunk, Rest;
      if bfs[nextone].counter != BF_FREE {
        return;
      }
      ghost var rest := Rest();
      assert done + [] == done;
      Fill();
      assert Ahead() + Rest() == rest;
      assert done + rest == done + Ahead() + Rest();
    }

    /** read_ahead on a free buffer. */
    method Fill()
      requires bfs.Length == 2 && nextone < 2 && bfs[nextone].counter == BF_FREE && segsize >= 1 && pos <= |file|
      modifies this`nextone, this`newline, this`prevchar, this`pos, bfs
      ensures pos <= |file| && nextone == Other(old(nextone))
      ensures bfs[Other(old(nextone))] == old(bfs[Other(nextone)]) && Full(bfs[old(nextone)])
      ensures bfs[old(nextone)].data == Chunk(old(Rest()), segsize)
      ensures bfs[old(nextone)].data + Rest() == old(Rest())
    {
      hide Expand;
      var b := nextone;
      nextone := Other(nextone);
      var data: seq<byte> := [];
      if !convert {
        data := FillRaw();
      } else {
        data := FillText();
      }
      bfs[b] := Buf(|data|, data);
    }

    /** read, repeated while it returns less than was asked for and there is more. */
    method FillRaw() returns (data: seq<byte>)
      requires !convert && pos <= |file|
      modifies this`pos
      ensures pos <= |file| && data == Chunk(old(Rest()), segsize) && data + Rest() == old(Rest())
    {
      ghost var start := pos;
      data := [];
      while |data| < segsize
        invariant start <= pos <= |file| && data == file[start..pos] && |data| <= segsize
        decreases segsize - |data|
      {
        var i := Read(segsize - |data|);
        if i == 0 {
          break;
        }
        data := data + file[pos - i..pos];
      }
      assert file[start..] == file[start..pos] + file[pos..];
    }

    /** Reads some bytes, at most n; none only at the end. */
    method Read(n: nat) returns (i: nat)
      requires pos <= |file| && n > 0
      modifies this`pos
      ensures i <= n && pos == old(pos) + i <= |file| && (i == 0 <==> old(pos) == |file|)
    {
      if pos == |file| {
        return 0;
      }
      i :| 1 <= i <= n && pos + i <= |file|;
      pos := pos + i;
    }

    /** Character by character; the second half of a pair may be left for the next buffer. */
    method FillText() returns (data: seq<byte>)
      requires convert && pos <= |file|
      modifies this`newline, this`prevchar, this`pos
      ensures pos <= |file| && data == Chunk(old(Rest()), segsize) && data + Rest() == old(Rest())
    {
      hide Rest;
      ghost var rest := Rest();
      data := [];
      for i := 0 to segsize
        invariant pos <= |file| && data + Rest() == rest && |data| == i
      {
        ghost var r := Rest();
        var c := NextChar();
        if c == None {
          break;
        }
        Regroup(data, [c.value], Rest());
        data := data + [c.value];
      }
      assert rest[..|data|] == data;
    }

    /** The next byte on the wire, unless the file is at its end. */
    method NextChar() returns (c: Option<byte>)
      requires convert && pos <= |file|
      modifies this`newline, this`prevchar, this`pos
      ensures pos <= |file|
      ensures match c case None => old(Rest()) == [] && Rest() == [] case Some(x) => old(Rest()) == [x] + Rest()
    {
      hide Expand;
      if newline {
        newline := false;
        return Some(if prevchar == LF as int then LF else NUL);
      }
      NextExpand(file, pos);
      if pos == |file| {
        return None;
      }
      var x := file[pos];
      pos := pos + 1;
      if x == LF || x == CR {
        prevchar := x as int;
        x := CR;
        newline := true;
      }
      assert old(Rest()) == [x] + Rest();
      return Some(x);
    }
  }

  lemma NextExpand(file: seq<byte>, pos: nat)
    requires pos <= |file|
    ensures pos == |file| ==> Expand(file[pos..]) == []
    ensures pos < |file| ==> Expand(file[pos..]) == Wire(file[pos]) + Expand(file[pos + 1..])
  {
    if pos < |file| {
      assert file[pos..][1..] == file[pos + 1..];
    }
  }

  // --------------------------------------------------------------------- writing

  /** What is written for the bytes w. */
  function WrittenFor(w: seq<byte>, convert: bool): (k: Sink)
    ensures Standing(k)
  {
    if convert then PutAll(Sink([], -1), w) else Sink(w, -1)
  }

  class FileWriter {
    const convert: bool
    const bfs: array<Buf>
    var current: nat
    var nextone: nat
    var prevchar: int
    var out: seq<byte>           // the file
    ghost var taken: seq<byte>   // everything handed over

    ghost function Behind(): seq<byte>
      requires bfs.Length == 2 && current < 2
      reads this`current, bfs
    {
      if bfs[Other(current)].counter == BF_FREE then [] else bfs[Other(current)].data
    }

    /** The file holds what was handed over, except what waits in the other buffer. */
    ghost predicate Valid()
      reads this, bfs
    {
      && bfs.Length == 2 && current < 2 && nextone < 2
      && bfs[current].counter == BF_ALLOC
      && (if bfs[Other(current)].counter == BF_FREE then nextone == current
          else nextone == Other(current) && Full(bfs[Other(current)]))
      && |Behind()| <= |taken| && taken[|taken| - |Behind()|..] == Behind()
      && WrittenFor(taken[..|taken| - |Behind()|], convert) == Sink(out, prevchar)
    }

    constructor (convert: bool)
      ensures Valid() && taken == [] && out == [] && this.convert == convert && fresh(bfs)
    {
      this.convert := convert;
      bfs := new Buf[2](i => if i == 0 then Buf(BF_ALLOC, []) else Buf(BF_FREE, []));
      current, nextone, prevchar, out, taken := 0, 0, -1, [], [];
    }

    /** The current buffer, into which data has arrived, is handed over for writing. */
    method WriteIt(data: seq<byte>)
      requires Valid()
      modifies this, bfs
      ensures Valid() && taken == old(taken) + data
    {
      hide WrittenFor;
      ghost var before, behind := taken, Behind();
      bfs[current] := Buf(|data|, data);
      current := Other(current);
      taken := taken + data;
      if bfs[current].counter != BF_FREE {
        assert before == before[..|before| - |behind|] + behind;
        Flush(before[..|before| - |behind|]);
      }
      bfs[current] := bfs[current].(counter := BF_ALLOC);
      assert taken[..|taken| - |data|] == before && taken[|taken| - |data|..] == data;
      assert before[..|before|] == before;
    }

    /** Writes out the waiting buffer, if there is one. */
    method WriteBehind()
      requires Valid()
      modifies this`nextone, this`prevchar, this`out, bfs
      ensures Valid() && taken == old(taken) && current == old(current)
      ensures Sink(out, prevchar) == WrittenFor(taken, convert)
    {
      hide WrittenFor;
      ghost var behind := Behind();
      if bfs[nextone].counter >= -1 {
        assert taken == taken[..|taken| - |behind|] + behind;
        Flush(taken[..|taken| - |behind|]);
      } else {
        assert taken[..|taken|] == taken;
      }
      assert taken[|taken|..] == [] && taken[..|taken|] == taken;
    }

    /** write_behind on a buffer that holds data; front is what the file stands for. */
    method Flush(ghost front: seq<byte>)
      requires bfs.Length == 2 && nextone < 2 && Full(bfs[nextone]) && WrittenFor(front, convert) == Sink(out, prevchar)
      modifies this`nextone, this`prevchar, this`out, bfs
      ensures nextone == Other(old(nextone)) && bfs[Other(old(nextone))] == old(bfs[Other(nextone)])
      ensures bfs[old(nextone)].counter == BF_FREE
      ensures WrittenFor(front + old(bfs[nextone]).data, convert) == Sink(out, prevchar)
    {
      var b := nextone;
      var data := bfs[b].data;
      bfs[b] := bfs[b].(counter := BF_FREE);
      nextone := Other(nextone);
      if |data| == 0 {
        assert front + data == front;
        return;
      }
      if !convert {
        out := out + data;
        return;
      }
      PutAllJoin(Sink([], -1), front, data);
      Convert(data);
    }

    method Convert(data: seq<byte>)
      requires Standing(Sink(out, prevchar))
      modifies this`prevchar, this`out
      ensures Sink(out, prevchar) == PutAll(old(Sink(out, prevchar)), data)
    {
      var i := 0;
      assert data[0..] == data;
      while i < |data|
        invariant 0 <= i <= |data| && Standing(Sink(out, prevchar))
        invariant PutAll(Sink(out, prevchar), data[i..]) == PutAll(old(Sink(out, prevchar)), data)
      {
        var c := data[i];
        assert data[i..][1..] == data[i + 1..];
        if prevchar == CR as int && c == LF {
          out := out[..|out| - 1] + [c];
        } else if !(prevchar == CR as int && c == NUL) {
          out := out + [c];
        }
        prevchar := c as int;
        i := i + 1;
      }
      assert data[i..] == [];
    }
  }

  // ------------------------------------------------------------- from file to file

  method Extras(reader: FileReader, writer: FileWriter, readAheads: nat, writeBehinds: nat)
    requires reader.Valid() && writer.Valid() && reader.bfs != writer.bfs
    modifies reader`nextone, reader`newline, reader`prevchar, reader`pos, reader.bfs
    modifies writer`nextone, writer`prevchar, writer`out, writer.bfs
    ensures reader.Valid() && writer.Valid()
  {
    hide FileReader.Valid, FileWriter.Valid;
    for i := 0 to readAheads
      invariant reader.Valid() && writer.Valid()
    {
      reader.ReadAhead();
    }
    for i := 0 to writeBehinds
      invariant reader.Valid() && writer.Valid()
    {
      writer.WriteBehind();
    }
  }

  /** Chunk by chunk from reader to writer, with any number of extra calls to read_ahead
      and write_behind in between: the file comes out as it went in. */
  method CopyFile(file: seq<byte>, convert: bool, segsize: nat, extra: seq<(nat, nat)>) returns (out: seq<byte>)
    requires segsize >= 1
    ensures out == file
  {
    hide Expand, WrittenFor, Chunk, FileReader.Valid, FileWriter.Valid;
    var reader := new FileReader(file, convert, segsize);
    var writer := new FileWriter(convert);
    ghost var stream := reader.Stream();
    var step := 0;
    var size := segsize;
    while size == segsize
      invariant reader.Valid() && writer.Valid() && fresh(reader) && fresh(writer) && fresh(reader.bfs) && fresh(writer.bfs)
      invariant reader.bfs != writer.bfs && reader.segsize == segsize && reader.Stream() == stream && writer.convert == convert
      invariant writer.taken == reader.done <= stream && (size != segsize ==> reader.done == stream)
      decreases |stream| - |reader.done|, size == segsize
    {
      ghost var done := reader.done;
      var data := reader.ReadIt();
      ChunkOf(stream, done, segsize);
      writer.WriteIt(data);
      size := |data|;
      if step < |extra| {
        Extras(reader, writer, extra[step].0, extra[step].1);
        step := step + 1;
      }
    }
    writer.WriteBehind();
    out := writer.out;
    AllWritten(file, convert);
  }

  /** The next chunk, and when it is the last. */
  lemma ChunkOf(stream: seq<byte>, done: seq<byte>, n: nat)
    requires done <= stream
    ensures var c := Chunk(stream[|done|..], n); done + c <= stream && (|c| < n ==> done + c == stream)
  {
  }

  lemma AllWritten(file: seq<byte>, convert: bool)
    ensures WrittenFor(if convert then Expand(file) else file, convert).out == file
  {
    if convert {
      ExpandReadsBack(Sink([], -1), file);
      assert [] + file == file;
    }
  }
}
