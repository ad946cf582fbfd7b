/** The streaming loader: the image arrives in blocks, gaps between segments are skipped in
    sectors and bytes, and segments are scattered into memory in file order. */
module ElfLoader {
  import opened Bytes
  import opened ElfImage
  import opened Checksum

  // --------------------------------------------------------------- prep_segment

  datatype Region = Region(ram: bool, addr: nat, size: nat)

  /** What segments must keep clear of, and where there is memory. */
  datatype Machine = Machine(text: nat, textEnd: nat, heapPtr: nat, heapBot: nat, regions: seq<Region>)

  predicate Holds(r: Region, start: nat, end: nat)
  {
    r.ram && start >= r.addr && end <= r.addr + r.size
  }

  predicate Acceptable(m: Machine, start: nat, mid: nat, end: nat)
  {
    && mid <= end
    && !(end > m.text && start < m.textEnd)
    && !(end > m.heapPtr && start < m.heapBot)
    && exists i :: 0 <= i < |m.regions| && Holds(m.regions[i], start, end)
  }

  /** Memory that etherboot itself runs in, or has allocated. */
  predicate Owned(m: Machine, a: int)
  {
    m.text <= a < m.textEnd || m.heapPtr <= a < m.heapBot
  }

  predicate IsRam(r: Region, a: int)
  {
    r.ram && r.addr <= a < r.addr + r.size
  }

  predicate Unused(m: Machine, start: nat, end: nat)
  {
    forall a :: start <= a < end ==> !Owned(m, a)
  }

  predicate AllRam(r: Region, start: nat, end: nat)
  {
    forall a :: start <= a < end ==> IsRam(r, a)
  }

  /** Address by address: a segment is acceptable if none of its bytes is in use, and one stretch
      of memory has them all. */
  lemma AcceptableByAddress(m: Machine, start: nat, mid: nat, end: nat)
    requires start < end && m.text < m.textEnd && m.heapPtr < m.heapBot
    ensures Acceptable(m, start, mid, end) <==>
              mid <= end && Unused(m, start, end) && exists i :: 0 <= i < |m.regions| && AllRam(m.regions[i], start, end)
  {
    if end > m.text && start < m.textEnd {
      assert Owned(m, if start < m.text then m.text else start);
    } else if end > m.heapPtr && start < m.heapBot {
      assert Owned(m, if start < m.heapPtr then m.heapPtr else start);
    } else {
      forall i | 0 <= i < |m.regions|
        ensures Holds(m.regions[i], start, end) <==> AllRam(m.regions[i], start, end)
      {
        RegionByAddress(m.regions[i], start, end);
      }
    }
  }

  lemma RegionByAddress(r: Region, start: nat, end: nat)
    requires start < end
    ensures Holds(r, start, end) <==> AllRam(r, start, end)
  {
    assert Holds(r, start, end) <==> IsRam(r, start) && IsRam(r, end - 1);
  }

  /** No byte of an acceptable segment is in use. */
  lemma NotOwned(m: Machine, start: nat, mid: nat, end: nat, a: int)
    requires Acceptable(m, start, mid, end) && start <= a < end
    ensures !Owned(m, a)
  {
  }

  ghost predicate Backed(m: Machine, size: nat)
  {
    forall i :: 0 <= i < |m.regions| && m.regions[i].ram ==> m.regions[i].addr + m.regions[i].size <= size
  }

  /** Checks a segment and zeroes its bss. */
  method PrepSegment(memory: array<byte>, m: Machine, start: nat, mid: nat, end: nat) returns (ok: bool)
    requires start <= mid && Backed(m, memory.Length)
    modifies memory
    ensures ok <==> Acceptable(m, start, mid, end)
    ensures start < end && m.text < m.textEnd && m.heapPtr < m.heapBot ==>
              (ok <==> mid <= end && Unused(m, start, end) && exists i :: 0 <= i < |m.regions| && AllRam(m.regions[i], start, end))
    ensures ok ==> end <= memory.Length
    ensures forall a :: 0 <= a < memory.Length ==> memory[a] == if ok && mid <= a < end then 0 else old(memory[a])
  {
    if start < end && m.text < m.textEnd && m.heapPtr < m.heapBot {
      AcceptableByAddress(m, start, mid, end);
    }
    ok := false;
    if mid > end || (end > m.text && start < m.textEnd) || (end > m.heapPtr && start < m.heapBot) {
      return;
    }
    var i := 0;
    while i < |m.regions|
      invariant 0 <= i <= |m.regions| && forall j :: 0 <= j < i ==> !Holds(m.regions[j], start, end)
    {
      if m.regions[i].ram && start >= m.regions[i].addr && end <= m.regions[i].addr + m.regions[i].size {
        assert Holds(m.regions[i], start, end);
        ok := true;
        break;
      }
      i := i + 1;
    }
    if !ok {
      return;
    }
    for a := mid to end
      invariant forall x :: 0 <= x < memory.Length ==> memory[x] == if mid <= x < a then 0 else old(memory[x])
    {
      memory[a] := 0;
    }
  }

  // -------------------------------------------------------------- skip accounting

  /** sectors and bytes still to be skipped */
  function Pending(sectors: nat, bytes: nat): (n: nat)
  {
    512 * sectors + bytes
  }

  predicate Exceeds(sectors: nat, bytes: nat, len: nat)
  {
    sectors > len / 512 || (sectors == len / 512 && bytes >= len % 512)
  }

  /** The test in load_block compares the pending skip with the length of the block. */
  lemma SkipTest(sectors: nat, bytes: nat, len: nat)
    requires bytes < 512
    ensures Exceeds(sectors, bytes, len) <==> Pending(sectors, bytes) >= len
  {
  }

  lemma WholeSectors(sectors: nat)
    ensures Pending(sectors, 0) == 512 * sectors
  {
  }

  /** Taking a block off the pending skip, borrowing whole sectors where bytes run out. */
  method TakeOff(sectors: nat, bytes: nat, len: nat) returns (sectors': nat, bytes': nat)
    requires bytes < 512 && Pending(sectors, bytes) >= len
    ensures bytes' < 512 && Pending(sectors', bytes') == Pending(sectors, bytes) - len
  {
    sectors', bytes' := sectors, bytes;
    if bytes' < len {
      var t := len - bytes' + 511;
      sectors' := sectors' - t / 512;
      bytes' := bytes' + (t - t % 512);
    }
    bytes' := bytes' - len;
  }

  // --------------------------------------------------------------------- loading

  class Loader {
    const phdrs: seq<Segment>
    const memory: array<byte>
    ghost const image: seq<byte>
    ghost var was: seq<byte>     // memory before the first byte was loaded
    var segment: int
    var loc: nat
    var skip: nat
    var toread: nat
    var curaddr: nat
    var started: bool
    var skipSectors: nat
    var skipBytes: nat

    constructor (phdrs: seq<Segment>, memory: array<byte>, ghost image: seq<byte>)
      requires Sane(phdrs, image, memory.Length)
      ensures this.phdrs == phdrs && this.memory == memory && this.image == image && was == memory[..]
      ensures !started && Ready(0)
    {
      this.phdrs, this.memory, this.image, was := phdrs, memory, image, memory[..];
      segment, loc, skip, toread, curaddr, started, skipSectors, skipBytes := -1, 0, 0, 0, 0, false, 0, 0;
      new;
      NothingYet(memory[..], image, phdrs);
    }

    /** The state when the data passed in has been used up to offset. */
    ghost predicate At(offset: nat)
      reads this, memory
    {
      if segment == -1 then
        && skip == 0 && toread == 0
        && Progress(memory[..], was, image, phdrs, loc + offset) && Between(phdrs, loc + offset)
      else
        && 0 <= segment < |phdrs| && Loads(phdrs[segment])
        && 0 < toread <= phdrs[segment].filesz
        && curaddr == phdrs[segment].paddr + phdrs[segment].filesz - toread
        && loc + offset + skip == phdrs[segment].offset + phdrs[segment].filesz - toread
        && Progress(memory[..], was, image, phdrs, loc + offset + skip)
    }

    /** Between blocks: pos bytes of the file have gone by, and loc is where the data
        passed in next begins. */
    ghost predicate Ready(pos: nat)
      reads this, memory
    {
      && At(0) && skipBytes < 512 && loc == pos + Pending(skipSectors, skipBytes)
      && (segment == -1 ==> loc == pos)
    }

    ghost predicate Passed(data: seq<byte>)
      reads this
    {
      loc + |data| <= |image| && data == image[loc..loc + |data|]
    }

    /** Goes on with the current segment: skips to it, copies from it. */
    method Consume(data: seq<byte>, offset: nat) returns (next: nat, more: bool)
      requires segment != -1 && offset <= |data| && At(offset) && Passed(data)
      modifies this`segment, this`skip, this`toread, this`curaddr, memory
      ensures !more ==> segment != -1 && At(|data|)
      ensures more ==> segment == -1 && offset < next <= |data| && At(next)
    {
      hide Progress, Between;
      next, more := offset, false;
      if skip != 0 {
        if skip >= |data| - next {
          skip := skip - (|data| - next);
          return;
        }
        next := next + skip;
        skip := 0;
      }
      var cplen := |data| - next;
      if cplen >= toread {
        cplen := toread;
      }
      CopyChunk(data, next, cplen);
      curaddr := curaddr + cplen;
      toread := toread - cplen;
      next := next + cplen;
      if toread != 0 {
        return;
      }
      SegmentEnds();
      segment := -1;
      more := true;
    }

    method CopyChunk(data: seq<byte>, at: nat, n: nat)
      requires 0 <= segment < |phdrs| && Loads(phdrs[segment]) && at + n <= |data| && Passed(data)
      requires n <= toread <= phdrs[segment].filesz && curaddr == phdrs[segment].paddr + phdrs[segment].filesz - toread
      requires loc + at == phdrs[segment].offset + phdrs[segment].filesz - toread
      requires Progress(memory[..], was, image, phdrs, loc + at)
      modifies memory
      ensures Progress(memory[..], was, image, phdrs, loc + at + n)
    {
      hide Covered;
      ghost var mem, s := memory[..], phdrs[segment];
      InRange();
      for i := 0 to n
        invariant forall a :: 0 <= a < memory.Length ==>
                    memory[a] == if curaddr <= a < curaddr + i then data[at + a - curaddr] else mem[a]
      {
        memory[curaddr + i] := data[at + i];
      }
      CopyAhead(mem, memory[..], was, image, phdrs, loc + at, segment, n);
    }

    lemma InRange()
      requires 0 <= segment < |phdrs| && Loads(phdrs[segment]) && Sane(phdrs, image, memory.Length)
      ensures phdrs[segment].paddr + phdrs[segment].filesz <= memory.Length
      ensures phdrs[segment].offset + phdrs[segment].filesz <= |image|
    {
    }

    lemma SegmentEnds()
      requires 0 <= segment < |phdrs| && Loads(phdrs[segment])
      requires Progress(memory[..], was, image, phdrs, phdrs[segment].offset + phdrs[segment].filesz)
      ensures Between(phdrs, phdrs[segment].offset + phdrs[segment].filesz)
    {
      EndIsBetween(phdrs, image, memory.Length, segment);
    }

    /** Looks for the next segment in file order. */
    method FindNext(from: nat) returns (found: int)
      ensures if found == -1 then NoneFrom(phdrs, from) else NextFrom(phdrs, from, found)
    {
      found := -1;
      for i := 0 to |phdrs|
        invariant found == -1 ==> forall j :: 0 <= j < i && Loads(phdrs[j]) ==> phdrs[j].offset < from
        invariant found != -1 ==>
                    && 0 <= found < i && Loads(phdrs[found]) && phdrs[found].offset >= from
                    && forall j :: 0 <= j < i && Loads(phdrs[j]) && phdrs[j].offset >= from ==> phdrs[found].offset <= phdrs[j].offset
      {
        if Loads(phdrs[i]) && phdrs[i].offset >= from && (found == -1 || phdrs[i].offset < phdrs[found].offset) {
          found := i;
        }
      }
    }

    /** Turns to the next segment; if there is none, everything is loaded. */
    method Seek(offset: nat) returns (ok: bool)
      requires segment == -1 && At(offset)
      modifies this`segment, this`curaddr, this`skip, this`toread
      ensures ok ==> segment != -1 && At(offset)
      ensures !ok ==> AllLoaded(memory[..], was, image, phdrs)
    {
      hide Progress, Between;
      segment := FindNext(loc + offset);
      if segment == -1 {
        NothingLeft(memory[..], was, image, phdrs, loc + offset);
        return false;
      }
      SkipAhead(memory[..], was, image, phdrs, loc + offset, segment);
      curaddr := phdrs[segment].paddr;
      skip := phdrs[segment].offset - (loc + offset);
      toread := phdrs[segment].filesz;
      return true;
    }

    /** Loads from data that begins at loc; says how many sectors to skip behind it. */
    method Download(data: seq<byte>, eof: bool) returns (sectors: nat)
      requires !started && At(0) && Passed(data) && (eof ==> loc + |data| == |image|)
      modifies this`segment, this`skip, this`toread, this`curaddr, this`loc, this`started, memory
      ensures started ==> AllLoaded(memory[..], was, image, phdrs)
      ensures eof ==> started
      ensures !started ==> At(0) && segment != -1 && loc == old(loc) + |data| + 512 * sectors
    {
      hide Progress, Between, AllLoaded;
      var offset := 0;
      sectors := 0;
      while true
        invariant 0 <= offset <= |data| && At(offset) && !started && loc == old(loc)
        decreases |data| - offset, segment == -1
      {
        if segment != -1 {
          var next, more := Consume(data, offset);
          if !more {
            break;
          }
          offset := next;
        }
        var found := Seek(offset);
        if !found {
          started := true;
          return;
        }
        if offset >= |data| {
          break;
        }
      }
      EndOfFile(|data|);
      sectors := MoveOn(|data|);
      started := eof;
    }

    /** Splits what is to be skipped into sectors, for the caller, and the rest. */
    method MoveOn(len: nat) returns (sectors: nat)
      requires segment != -1 && At(len)
      modifies this`loc, this`skip
      ensures At(0) && loc == old(loc) + len + 512 * sectors
    {
      hide Progress;
      sectors := skip / 512;
      loc := loc + len + (skip - skip % 512);
      skip := skip % 512;
    }

    /** A segment that is not complete lies beyond the data: the file goes on. */
    lemma EndOfFile(offset: nat)
      requires segment != -1 && At(offset)
      ensures loc + offset + skip < |image|
    {
      InRange();
    }

    /** load_block: drops blocks that are skipped altogether, passes on the rest. */
    method LoadBlock(data: seq<byte>, eof: bool, ghost pos: nat)
      requires !started && Ready(pos) && pos + |data| <= |image| && data == image[pos..pos + |data|]
      requires eof ==> pos + |data| == |image|
      modifies this`segment, this`skip, this`toread, this`curaddr, this`loc, this`started, this`skipSectors, this`skipBytes, memory
      ensures started ==> AllLoaded(memory[..], was, image, phdrs)
      ensures eof ==> started
      ensures !started ==> Ready(pos + |data|)
    {
      hide Progress, Between, AllLoaded, Exceeds, Pending;
      SkipTest(skipSectors, skipBytes, |data|);
      if segment != -1 {
        EndOfFile(0);
      }
      if !eof && Exceeds(skipSectors, skipBytes, |data|) {
        skipSectors, skipBytes := TakeOff(skipSectors, skipBytes, |data|);
      } else {
        var n := Pending(skipSectors, skipBytes);
        assert data[n..] == image[loc..loc + |data[n..]|];
        skipSectors := Download(data[n..], eof);
        skipBytes := 0;
        WholeSectors(skipSectors);
      }
    }
  }

  // ------------------------------------------------------------ the whole image

  predicate Welcome(m: Machine, s: Segment)
  {
    s.load ==> Acceptable(m, s.paddr, s.paddr + s.filesz, s.paddr + s.memsz)
  }

  /** The segment checks of elf32_probe: stops at the first segment that is refused. */
  method PrepareAll(memory: array<byte>, m: Machine, phdrs: seq<Segment>) returns (ok: bool, ghost k: nat)
    requires Backed(m, memory.Length)
    modifies memory
    ensures ok <==> forall i :: 0 <= i < |phdrs| ==> Welcome(m, phdrs[i])
    ensures k <= |phdrs| && (ok ==> k == |phdrs|) && Prepared(memory[..], old(memory[..]), phdrs, k)
    ensures forall i :: 0 <= i < k ==> Welcome(m, phdrs[i])
    ensures InMemory(phdrs, k, memory.Length)
  {
    hide Acceptable, Backed;
    k := 0;
    for i := 0 to |phdrs|
      invariant k == i && Prepared(memory[..], old(memory[..]), phdrs, k) && InMemory(phdrs, k, memory.Length)
      invariant forall j :: 0 <= j < k ==> Welcome(m, phdrs[j])
    {
      ghost var mem := memory[..];
      if phdrs[i].load {
        var s := phdrs[i];
        ok := PrepSegment(memory, m, s.paddr, s.paddr + s.filesz, s.paddr + s.memsz);
        if !ok {
          assert memory[..] == mem;
          assert !Welcome(m, phdrs[i]);
          return;
        }
        NotShrinking(m, s);
      }
      PreparedMore(mem, memory[..], old(memory[..]), phdrs, i);
      k := k + 1;
    }
    ok := true;
  }

  lemma NotShrinking(m: Machine, s: Segment)
    requires Acceptable(m, s.paddr, s.paddr + s.filesz, s.paddr + s.memsz)
    ensures s.filesz <= s.memsz
  {
  }

  lemma {:induction false} ConcatSplit(parts: seq<seq<byte>>, i: nat)
    requires i < |parts|
    ensures |Concat(parts[..i])| + |parts[i]| <= |Concat(parts)|
    ensures Concat(parts)[|Concat(parts[..i])|..|Concat(parts[..i])| + |parts[i]|] == parts[i]
    ensures |Concat(parts[..i + 1])| == |Concat(parts[..i])| + |parts[i]|
    ensures i + 1 == |parts| ==> |Concat(parts[..i])| + |parts[i]| == |Concat(parts)|
    decreases |parts|
  {
    var n := |parts| - 1;
    assert parts[..i + 1][..i] == parts[..i];
    if i == n {
      assert parts[..i + 1] == parts;
    } else {
      assert parts[..n][..i] == parts[..i];
      ConcatSplit(parts[..n], i);
    }
  }

  /** However the image is cut into blocks, loading it ends with every segment in place,
      provided each of them is acceptable; otherwise nothing is loaded. */
  method LoadImage(memory: array<byte>, m: Machine, phdrs: seq<Segment>, blocks: seq<seq<byte>>) returns (ok: bool)
    requires |blocks| > 0 && Backed(m, memory.Length) && Arranged(phdrs, Concat(blocks))
    modifies memory
    ensures ok <==> forall i :: 0 <= i < |phdrs| ==> Welcome(m, phdrs[i])
    ensures ok ==> Loaded(memory[..], old(memory[..]), Concat(blocks), phdrs)
    ensures !ok ==> exists k :: 0 <= k <= |phdrs| && Prepared(memory[..], old(memory[..]), phdrs, k)
                                && forall i :: 0 <= i < k ==> Welcome(m, phdrs[i])
    ensures forall a :: 0 <= a < memory.Length && Owned(m, a) ==> memory[a] == old(memory[a])
  {
    hide Welcome, Prepared, InMemory, Arranged, Loaded, AllLoaded, Concat, Owned;
    ghost var image := Concat(blocks);
    ghost var k;
    ok, k := PrepareAll(memory, m, phdrs);
    if !ok {
      PreparedSpares(memory[..], old(memory[..]), m, phdrs, k);
      return;
    }
    var loader := new Loader(phdrs, memory, image);
    ghost var was := memory[..];
    var i := 0;
    NoBlocks(blocks);
    while !loader.started
      invariant 0 <= i <= |blocks| && (i == |blocks| ==> loader.started)
      invariant loader.memory == memory && loader.phdrs == phdrs && loader.image == image && loader.was == was
      invariant if loader.started then AllLoaded(memory[..], was, image, phdrs) else loader.Ready(|Concat(blocks[..i])|)
      decreases |blocks| - i
    {
      ConcatSplit(blocks, i);
      loader.LoadBlock(blocks[i], i == |blocks| - 1, |Concat(blocks[..i])|);
      i := i + 1;
    }
    LoadedAtLast(memory[..], was, old(memory[..]), image, phdrs);
    LoadedSpares(memory[..], old(memory[..]), image, m, phdrs);
  }

  /** Nothing of etherboot is touched by preparing segments, nor by loading them. */
  lemma PreparedSpares(mem: seq<byte>, was: seq<byte>, m: Machine, phdrs: seq<Segment>, k: nat)
    requires k <= |phdrs| && Prepared(mem, was, phdrs, k) && forall i :: 0 <= i < k ==> Welcome(m, phdrs[i])
    ensures forall a :: 0 <= a < |mem| && Owned(m, a) ==> mem[a] == was[a]
  {
    hide Acceptable, Owned;
    forall a | 0 <= a < |mem| && Owned(m, a) ensures mem[a] == was[a] {
      forall i | 0 <= i < k ensures !InBss(phdrs[i], a) {
        if InBss(phdrs[i], a) {
          NotOwned(m, phdrs[i].paddr, phdrs[i].paddr + phdrs[i].filesz, phdrs[i].paddr + phdrs[i].memsz, a);
        }
      }
    }
  }

  lemma LoadedSpares(mem: seq<byte>, was: seq<byte>, image: seq<byte>, m: Machine, phdrs: seq<Segment>)
    requires Loaded(mem, was, image, phdrs) && forall i :: 0 <= i < |phdrs| ==> Welcome(m, phdrs[i])
    ensures forall a :: 0 <= a < |mem| && Owned(m, a) ==> mem[a] == was[a]
  {
    hide Acceptable, Owned, Sane, ByteLoaded;
    forall a | 0 <= a < |mem| && Owned(m, a) ensures mem[a] == was[a] {
      forall i | 0 <= i < |phdrs| ensures !InSegment(phdrs[i], a) {
        if InSegment(phdrs[i], a) {
          NotOwned(m, phdrs[i].paddr, phdrs[i].paddr + phdrs[i].filesz, phdrs[i].paddr + phdrs[i].memsz, a);
        }
      }
    }
  }

  lemma NoBlocks(blocks: seq<seq<byte>>)
    ensures |Concat(blocks[..0])| == 0
  {
  }

  // ------------------------------------------------------------------- checksum

  /** The contents of the loadable segments among the first k, one after the other. */
  function Contents(mem: seq<byte>, phdrs: seq<Segment>, k: nat): (parts: seq<byte>)
    requires k <= |phdrs| && forall i :: 0 <= i < |phdrs| && phdrs[i].load ==> phdrs[i].paddr + phdrs[i].memsz <= |mem|
  {
    if k == 0 then []
    else Contents(mem, phdrs, k - 1)
         + if phdrs[k - 1].load then mem[phdrs[k - 1].paddr..phdrs[k - 1].paddr + phdrs[k - 1].memsz] else []
  }

  /** The checksum computed before the image is started: that of the ELF header, the program
      headers and the segments in memory as one piece of data. */
  method ImageChecksum(ehdr: seq<byte>, table: seq<byte>, memory: array<byte>, phdrs: seq<Segment>) returns (sum: nat)
    requires forall i :: 0 <= i < |phdrs| && phdrs[i].load ==> phdrs[i].paddr + phdrs[i].memsz <= memory.Length
    ensures sum == ChecksumOf(ehdr + table + Contents(memory[..], phdrs, |phdrs|))
  {
    hide ChecksumOf, AddChecksums;
    sum := IpChecksum(ehdr);
    var bytes := |ehdr|;
    var more := IpChecksum(table);
    ChecksumOfJoin(ehdr, table);
    sum := AddChecksums(bytes, sum, more);
    bytes := bytes + |table|;
    ghost var all := ehdr + table;
    assert all + [] == all;
    for i := 0 to |phdrs|
      invariant all == ehdr + table + Contents(memory[..], phdrs, i)
      invariant sum == ChecksumOf(all) && bytes == |all|
    {
      if phdrs[i].load {
        var part := memory[phdrs[i].paddr..phdrs[i].paddr + phdrs[i].memsz];
        more := IpChecksum(part);
        ChecksumOfJoin(all, part);
        sum := AddChecksums(bytes, sum, more);
        bytes := bytes + |part|;
        all := all + part;
      }
    }
  }
}
