/** The SLAM client: its state for one transaction, what it does with a frame, and the
    status packets it sends. */
module SlamClient {
  import opened Bytes
  import opened SlamCode
  import opened SlamNack
  import opened SlamBitmap
  import opened SlamBlocks

  const ETH_MAX_MTU: nat := 1500
  const HEADERS: nat := 28          // IP and UDP
  const UDP: nat := 8
  const MAX_HDR: nat := 21
  const NACK_ROOM: nat := ETH_MAX_MTU - HEADERS

  /** A received frame from the UDP payload on: the buffer, with whatever it held before
      behind the frame, where the frame ends, and the length field of the UDP header. */
  datatype Frame = Frame(buf: seq<byte>, end: nat, udpLen: nat)

  predicate Buffered(f: Frame)
  {
    f.end <= |f.buf| && MAX_HDR <= |f.buf|
  }

  // --------------------------------------------------------------------- headers

  /** The fields of a header, and how long it is. */
  function Parsed(f: Frame): (r: Option<(nat, nat, nat)>)
    requires Buffered(f)
    ensures r.Some? ==> r.value.2 < f.end && r.value.2 <= 7 + 2 * LONG && r.value.0 < LIMIT && r.value.1 < LIMIT
  {
    var data := f.buf[..f.end];
    match Skipping(data)
    case None => None
    case Some(a) =>
      match Decoding(data[a..])
      case None => None
      case Some(p) =>
        match Decoding(data[a + p.1..])
        case None => None
        case Some(q) => DecodedSmall(data[a..]); DecodedSmall(data[a + p.1..]); Some((p.0, q.0, a + p.1 + q.1))
  }

  /** A header of the server is parsed as it was written, if at least one byte follows. */
  lemma HeaderParsed(f: Frame, h: Header)
    requires Buffered(f) && Fits(h) && h.total < LIMIT && h.block < LIMIT
    requires |HeaderBytes(h)| <= f.end && f.buf[..|HeaderBytes(h)|] == HeaderBytes(h)
    ensures Parsed(f) == if |HeaderBytes(h)| < f.end then Some((h.total, h.block, |HeaderBytes(h)|)) else None
  {
    hide Encoding, Decoding, Skipping;
    var a, b, c := Encoding(h.transaction), Encoding(h.total), Encoding(h.block);
    var data, k := f.buf[..f.end], |HeaderBytes(h)|;
    var rest := data[k..];
    assert data == a + (b + (c + rest)) by {
      assert data == data[..k] + rest;
      assert data[..k] == f.buf[..k];
    }
    SkipEncoding(h.transaction, b + (c + rest));
    assert data[|a|..] == b + (c + rest);
    DecodeEncoding(h.total, c + rest);
    assert data[|a| + |b|..] == c + rest;
    DecodeEncoding(h.block, rest);
  }

  // ----------------------------------------------------------------- data packets

  /** What is to be done with a data packet: give up, ignore it, or take a block. */
  datatype Verdict = GiveUp | Ignore | Take(n: nat, at: nat, len: nat)

  function Judge(f: Frame, at: nat, total: nat, block: nat): (r: Verdict)
    requires Buffered(f) && at <= |f.buf| && block > 0
    ensures r.Take? ==> r.n <= Packets(total, block) && r.at + r.len <= f.end && r.len <= block
  {
    if at >= f.end then GiveUp
    else match Decoding(f.buf[at..f.end])
         case None => GiveUp
         case Some(p) =>
           if p.0 > Packets(total, block) then GiveUp
           else
             var len, start := Expected(p.0, total, block), at + p.1;
             RemainderBelow(total, block);
             if f.udpLen != len + UDP + start || f.end < len + start then Ignore else Take(p.0, start, len)
  }

  lemma RemainderBelow(total: nat, block: nat)
    requires block > 0
    ensures total % block < block
  {
  }

  /** A frame that carries packet n of the file under header h, possibly padded. */
  ghost predicate Carries(f: Frame, h: Header, file: seq<byte>, n: nat)
  {
    && Buffered(f) && Fits(h) && h.total == |file| < LIMIT && 0 < h.block < LIMIT && n < Packets(|file|, h.block)
    && n < LIMIT
    && var payload := HeaderBytes(h) + Encoding(n) + Block(file, n, h.block);
       |payload| <= f.end && f.buf[..|payload|] == payload && f.udpLen == UDP + |payload|
  }

  /** A frame that begins with header h; a request of the server is nothing else, unless padded. */
  predicate Heads(f: Frame, h: Header)
  {
    Buffered(f) && Fits(h) && |HeaderBytes(h)| <= f.end && f.buf[..|HeaderBytes(h)|] == HeaderBytes(h)
  }

  /** The server's packets are taken as they are, except that a last block that is full
      is ignored. */
  lemma CarriedIsTaken(f: Frame, h: Header, file: seq<byte>, n: nat)
    requires Carries(f, h, file, n)
    ensures |HeaderBytes(h)| <= |f.buf|
    ensures var r := Judge(f, |HeaderBytes(h)|, h.total, h.block);
            if n < Packets(|file|, h.block) - 1 || |file| % h.block != 0
            then r.Take? && r.n == n && f.buf[r.at..r.at + r.len] == Block(file, n, h.block)
            else r == Ignore
  {
    hide Encoding, Decoding, HeaderBytes;
    var a, b, data := HeaderBytes(h), Encoding(n), Block(file, n, h.block);
    var payload := a + b + data;
    BlockNotEmpty(n, |file|, h.block);
    var tail := f.buf[|payload|..f.end];
    assert f.buf[|a|..f.end] == b + (data + tail) by {
      assert f.buf[..f.end] == payload + tail by {
        assert f.buf[..f.end] == f.buf[..f.end][..|payload|] + f.buf[..f.end][|payload|..];
      }
      assert f.buf[|a|..f.end] == f.buf[..f.end][|a|..];
    }
    DecodeEncoding(n, data + tail);
    ExpectedIsRight(n, |file|, h.block);
    assert f.buf[|a| + |b|..|payload|] == f.buf[..|payload|][|a| + |b|..] == data;
  }

  lemma BlockNotEmpty(n: nat, total: nat, block: nat)
    requires block > 0 && n < Packets(total, block)
    ensures BlockLength(n, total, block) > 0
  {
    if total == 0 {
      EmptyFile(block);
    } else {
      PacketsBound(total, block);
      if n < Packets(total, block) - 1 {
        MulStep(n, Packets(total, block) - 1, block);
      }
    }
  }

  lemma AtLeast(n: nat, block: nat)
    requires block > 0
    ensures n * block >= n
  {
    assert n * block == n + n * (block - 1);
  }

  lemma PacketsSmall(total: nat, block: nat)
    requires block > 0 && total < LIMIT
    ensures Packets(total, block) <= total < LIMIT
  {
    hide Packets;
    if total == 0 {
      EmptyFile(block);
    } else {
      PacketsBound(total, block);
      AtLeast(Packets(total, block) - 1, block);
    }
  }

  lemma BitmapRoom(packets: nat)
    ensures packets < 8 * ((packets + 1 + 7) / 8) && packets / 8 < (packets + 1 + 7) / 8
  {
  }

  /** Nothing received yet. */
  function Fresh(packets: nat, memory: seq<byte>): (v: Receiver)
  {
    Receiver(seq(packets + 1, _ => false), memory, 0)
  }

  /** Whether a session with this header can begin: what is sent must fit in a frame. */
  predicate Admissible(total: nat, block: nat, hdrLen: nat)
    requires block > 0 && total < LIMIT
  {
    PacketsSmall(total, block);
    block + HEADERS + hdrLen + |Encoding(Packets(total, block))| <= ETH_MAX_MTU
  }

  /** The bit behind the last packet inverted from the last one's. */
  function WithTrailer(v: Receiver): (v': Receiver)
  {
    if |v.bits| < 2 then v else v.(bits := v.bits[|v.bits| - 1 := !v.bits[|v.bits| - 2]])
  }

  /** A status packet holds the first k runs of a bitmap, all of them unless the next does
      not fit. */
  ghost predicate Reported(packet: seq<byte>, bits: seq<bool>, k: nat)
  {
    var runs := Scan(bits, true, 0);
    && k <= |runs| && Small(runs) && packet == NackBytes(runs[..k]) && |packet| <= NACK_ROOM
    && (k < |runs| ==> |packet| + Width(runs[k]) >= NACK_ROOM)
  }

  /** The status packet of a client that has nothing. */
  ghost predicate AsksForAll(packet: seq<byte>, n: nat)
  {
    n < LIMIT && packet == NackBytes([0, n])
  }

  /** What becomes of the receiver when packet n of the file is delivered. */
  function Delivered(v: Receiver, file: seq<byte>, block: nat, n: nat): (v': Receiver)
    requires block > 0 && |v.bits| == Packets(|file|, block) + 1 && |v.image| == |v.bits| * block && n < Packets(|file|, block)
  {
    BlockInside(n, |Block(file, n, block)|, |v.bits|, block);
    if n < Packets(|file|, block) - 1 || |file| % block != 0 then Accept(v, block, n, Block(file, n, block)) else v
  }

  lemma DeliveredKeeps(v: Receiver, file: seq<byte>, memory: seq<byte>, block: nat, n: nat)
    requires Assembled(v, file, memory, block) && n < Packets(|file|, block)
    ensures Assembled(Delivered(v, file, block, n), file, memory, block)
  {
    AcceptKeeps(v, file, memory, block, n);
  }

  datatype Outcome = Continue | Finished | Failed

  class Client {
    const hdr: array<byte>
    var hdrLen: nat
    var active: bool           // whether there is a bitmap
    var blockSize: nat
    var totalBytes: nat
    var totalPackets: nat
    var received: nat
    var bitmap: array<byte>
    var image: array<byte>

    ghost predicate Valid()
      reads this
    {
      && hdr.Length == MAX_HDR && hdrLen <= MAX_HDR && hdr != bitmap && hdr != image && bitmap != image
      && (active ==>
            && blockSize > 0 && totalBytes < LIMIT && totalPackets == Packets(totalBytes, blockSize)
            && bitmap.Length == (totalPackets + 1 + 7) / 8
            && image.Length == (totalPackets + 1) * blockSize)
    }

    ghost function View(): (v: Receiver)
      requires Valid() && active
      reads this, bitmap, image
    {
      BitmapRoom(totalPackets);
      Receiver(SlamBitmap.View(bitmap[..], totalPackets + 1), image[..], received)
    }

    /** init_slam_state */
    constructor ()
      ensures Valid() && !active && hdrLen == MAX_HDR && hdr[..] == seq(MAX_HDR, _ => 0)
      ensures fresh(hdr) && fresh(bitmap) && fresh(image)
    {
      hdr := new byte[MAX_HDR](_ => 0);
      hdrLen, active, blockSize, totalBytes, totalPackets, received := MAX_HDR, false, 0, 0, 0, 0;
      bitmap := new byte[0];
      image := new byte[0];
    }

    method Differs(f: Frame) returns (differs: bool)
      requires Valid() && Buffered(f)
      ensures differs <==> hdr[..hdrLen] != f.buf[..hdrLen]
    {
      var i := 0;
      while i < hdrLen
        invariant 0 <= i <= hdrLen && hdr[..i] == f.buf[..i]
      {
        if hdr[i] != f.buf[i] {
          assert hdr[..hdrLen][i] != f.buf[..hdrLen][i];
          return true;
        }
        i := i + 1;
      }
      return false;
    }

    /** Parses a header, and begins a new session with it if there is room for the file. */
    method Reinit(f: Frame, roomy: bool) returns (at: Option<nat>)
      requires Valid() && Buffered(f)
      requires Parsed(f).Some? ==> Parsed(f).value.1 > 0
      modifies this, hdr
      ensures at == match Parsed(f)
                    case None => None
                    case Some(p) => if roomy && Admissible(p.0, p.1, p.2) then Some(p.2) else None
      ensures at.Some? ==> Valid() && active && hdrLen == at.value && hdr[..hdrLen] == f.buf[..hdrLen]
      ensures at.Some? ==> totalBytes == Parsed(f).value.0 && blockSize == Parsed(f).value.1
      ensures at.Some? ==> View() == Fresh(totalPackets, image[..]) && fresh(bitmap) && fresh(image)
    {
      hide Encoding, Parsed, Packets;
      hdrLen := 0;
      var parsed := ParseHeader(f);
      if parsed == None {
        return None;
      }
      var (total, block, len) := parsed.value;
      PacketsSmall(total, block);
      blockSize, totalBytes, totalPackets, hdrLen, received := block, total, Packets(total, block), len, 0;
      var next := StoreHeader(f);
      if blockSize + HEADERS + hdrLen + next > ETH_MAX_MTU || !roomy {
        return None;
      }
      Allocate();
      return Some(hdrLen);
    }

    /** Saves the header for comparison, and measures the longest packet number. */
    method StoreHeader(f: Frame) returns (next: nat)
      requires hdr.Length == MAX_HDR && hdrLen <= MAX_HDR && Buffered(f) && totalPackets < LIMIT
      modifies hdr
      ensures next == |Encoding(totalPackets)| && hdr[..hdrLen] == f.buf[..hdrLen]
    {
      hide Encoding;
      EncodeFits(totalPackets);
      var fits;
      fits, next := SlamEncode(hdr, 0, MAX_HDR, totalPackets);
      for i := 0 to hdrLen
        invariant hdr[..i] == f.buf[..i]
      {
        hdr[i] := f.buf[i];
      }
    }

    method Allocate()
      requires hdr.Length == MAX_HDR && hdrLen <= MAX_HDR
      requires blockSize > 0 && totalBytes < LIMIT && totalPackets == Packets(totalBytes, blockSize) && received == 0
      modifies this`bitmap, this`image, this`active
      ensures Valid() && active && fresh(bitmap) && fresh(image) && View() == Fresh(totalPackets, image[..])
    {
      hide Packets;
      bitmap := new byte[(totalPackets + 1 + 7) / 8](_ => 0);
      image := new byte[(totalPackets + 1) * blockSize];
      active := true;
      BitmapRoom(totalPackets);
      NothingSet(bitmap[..], totalPackets + 1);
    }

    method ParseHeader(f: Frame) returns (r: Option<(nat, nat, nat)>)
      requires Buffered(f)
      ensures r == Parsed(f)
    {
      hide Encoding, Decoding, Skipping, BeValue;
      ghost var data := f.buf[..f.end];
      var a := SlamSkip(f.buf, 0, f.end);
      assert f.end > 0 ==> f.buf[0..f.end] == data;
      EmptySkip(data);
      if a == None {
        return None;
      }
      var b := SlamDecode(f.buf, a.value, f.end);
      assert f.buf[a.value..f.end] == data[a.value..];
      if b == None {
        return None;
      }
      var c := SlamDecode(f.buf, b.value.1, f.end);
      assert f.buf[b.value.1..f.end] == data[b.value.1..];
      if c == None {
        return None;
      }
      return Some((b.value.0, c.value.0, c.value.1));
    }

    /** Takes a data packet whose number begins at `at`; false if the transfer must stop. */
    method RecvData(f: Frame, at: nat) returns (ok: bool)
      requires Valid() && active && Buffered(f) && at <= |f.buf|
      modifies this`received, bitmap, image
      ensures Valid() && ok == !Judge(f, at, totalBytes, blockSize).GiveUp?
      ensures match Judge(f, at, totalBytes, blockSize)
              case GiveUp => View() == old(View())
              case Ignore => View() == old(View())
              case Take(n, from, len) =>
                && n * blockSize + len <= |old(View()).image|
                && View() == Accept(old(View()), blockSize, n, f.buf[from..from + len])
    {
      hide Decoding, Packets, Accept, Bit, SlamBitmap.View;
      var d := SlamDecode(f.buf, at, f.end);
      if d == None {
        return false;
      }
      var (n, start) := d.value;
      if n > totalPackets {
        return false;
      }
      ok := true;
      var len := if n != totalPackets - 1 then blockSize else totalBytes % blockSize;
      RemainderBelow(totalBytes, blockSize);
      if f.udpLen != len + UDP + start || f.end < len + start {
        return;
      }
      BlockInside(n, len, totalPackets + 1, blockSize);
      Keep(n, f.buf[start..start + len]);
    }

    /** Notes packet n and copies its data, unless it is a duplicate. */
    method Keep(n: nat, data: seq<byte>)
      requires Valid() && active && n <= totalPackets && n * blockSize + |data| <= image.Length
      modifies this`received, bitmap, image
      ensures Valid() && View() == Accept(old(View()), blockSize, n, data)
    {
      hide BitOf, WithBit, Packets;
      BitmapRoom(totalPackets);
      var known := Bit(bitmap[..], n);
      if !known {
        SetBitView(bitmap[..], totalPackets + 1, n, true);
        ghost var b := bitmap[..];
        bitmap[n / 8] := ByteWithBit(bitmap[n / 8], n % 8, true);
        assert bitmap[..] == SetBit(b, n, true);
        Copy(image, n * blockSize, data);
        received := received + 1;
      }
    }

    /** Within the session for this file: header, sizes and receiver are those of the file. */
    ghost predicate InSession(h: Header, file: seq<byte>, memory: seq<byte>)
      reads this, hdr, bitmap, image
    {
      && Valid() && active && Fits(h) && hdr[..hdrLen] == HeaderBytes(h)
      && totalBytes == |file| && blockSize == h.block && Assembled(View(), file, memory, blockSize)
    }

    /** The session is either one with header `was`, or none yet. */
    ghost predicate Knows(was: Header)
      reads this, hdr
    {
      && hdr.Length == MAX_HDR && hdrLen <= MAX_HDR
      && if active then Fits(was) && hdr[..hdrLen] == HeaderBytes(was) else hdrLen == MAX_HDR && hdr[0] == 0
    }

    /** What data packets and requests have in common: if the client is in no session, or in
        another, a new one begins. */
    method Synchronize(f: Frame, roomy: bool, ghost was: Header, ghost before: seq<byte>, ghost h: Header,
                       ghost file: seq<byte>) returns (at: Option<nat>, ghost memory: seq<byte>)
      requires Valid() && Knows(was) && Heads(f, h) && h.total == |file| && 0 < |file| < LIMIT && 0 < h.block < LIMIT
      requires active && was == h ==> InSession(h, file, before)
      modifies this, hdr
      ensures at == None <==> !old(active && was == h)
                              && !(|HeaderBytes(h)| < f.end && roomy && Admissible(|file|, h.block, |HeaderBytes(h)|))
      ensures at.Some? ==> InSession(h, file, memory) && at.value == |HeaderBytes(h)| <= |f.buf|
      ensures at.Some? && old(active && was == h) ==> memory == before && View() == old(View()) && bitmap == old(bitmap) && image == old(image)
      ensures at.Some? && !old(active && was == h) ==>
                View() == Fresh(totalPackets, memory) && fresh(bitmap) && fresh(image)
    {
      hide Assembled, HeaderBytes, Packets, SlamBitmap.View, Parsed, Encoding;
      memory := before;
      if active && was == h {
        assert hdr[..hdrLen] == f.buf[..hdrLen];
      } else {
        OtherHeader(f, h, hdr[..hdrLen], active, was);
      }
      var differs := Differs(f);
      assert differs <==> !(active && was == h);
      at := Some(hdrLen);
      if differs {
        HeaderParsed(f, h);
        at := Reinit(f, roomy);
        if at == None {
          return;
        }
        memory := image[..];
        StartsAssembled(View(), file, memory, h.block);
      }
    }

    /** What the client does with a data packet of the server: begins a session if it is
        in none or in another, and takes the packet. */
    method OnData(f: Frame, roomy: bool, ghost was: Header, ghost before: seq<byte>, ghost h: Header,
                  ghost file: seq<byte>, ghost n: nat)
      returns (outcome: Outcome, ghost memory: seq<byte>)
      requires Valid() && Knows(was) && Carries(f, h, file, n)
      requires active && was == h ==> InSession(h, file, before)
      modifies this, hdr, bitmap, image
      ensures outcome == Failed <==>
                !old(active && was == h) && !(roomy && Admissible(|file|, h.block, |HeaderBytes(h)|))
      ensures outcome != Failed ==> InSession(h, file, memory)
      ensures outcome == Finished ==> received == totalPackets && |file| <= image.Length && image[..|file|] == file
      ensures outcome == Continue ==> received < totalPackets
      ensures outcome != Failed && old(active && was == h) ==>
                memory == before && View() == Delivered(old(View()), file, h.block, n) && bitmap == old(bitmap) && image == old(image)
      ensures outcome != Failed && !old(active && was == h) ==>
                Sized(Fresh(totalPackets, memory), file, memory, h.block)
                && View() == Delivered(Fresh(totalPackets, memory), file, h.block, n) && fresh(bitmap) && fresh(image)
    {
      hide Judge, Assembled, HeaderBytes, Packets, Delivered, Accept, SlamBitmap.View, Knows, Encoding;
      BytesOfHeader(f, h, file, n);
      var at;
      at, memory := Synchronize(f, roomy, was, before, h, file);
      if at == None {
        return Failed, memory;
      }
      ghost var v := View();
      CarriedIsTaken(f, h, file, n);
      DeliveredKeeps(v, file, memory, h.block, n);
      DeliveredIs(v, file, h.block, n);
      var ok := RecvData(f, at.value);
      outcome := Continue;
      if received == totalPackets {
        CompleteIsFile(View(), file, memory, h.block);
        outcome := Finished;
      } else {
        NotTooMany(View(), file, memory, h.block);
      }
    }

    /** What the client does with a request of the server: begins a session if it is in none
        or in another, and reports what it misses; in a new session, everything. */
    method OnRequest(f: Frame, roomy: bool, ghost was: Header, ghost before: seq<byte>, ghost h: Header,
                     ghost file: seq<byte>)
      returns (packet: Option<seq<byte>>, ghost memory: seq<byte>, ghost k: nat)
      requires Valid() && Knows(was) && Heads(f, h) && h.total == |file| && 0 < |file| < LIMIT && 0 < h.block < LIMIT
      requires active && was == h ==> InSession(h, file, before)
      modifies this, hdr, bitmap
      ensures packet == None <==> !old(active && was == h)
                                  && !(|HeaderBytes(h)| < f.end && roomy && Admissible(|file|, h.block, |HeaderBytes(h)|))
      ensures packet.Some? ==> InSession(h, file, memory) && totalPackets > 0
      ensures packet.Some? ==> Reported(packet.value, View().bits[..totalPackets], k)
      ensures packet.Some? && old(active && was == h) ==>
                memory == before && View() == WithTrailer(old(View())) && bitmap == old(bitmap) && image == old(image)
      ensures packet.Some? && !old(active && was == h) ==>
                View() == WithTrailer(Fresh(totalPackets, memory)) && AsksForAll(packet.value, totalPackets) && fresh(bitmap) && fresh(image)
    {
      hide HeaderBytes, Packets, SlamBitmap.View, Knows, Encoding, Assembled, Scan, Reported, Width, NackBytes;
      k := 0;
      var at;
      at, memory := Synchronize(f, roomy, was, before, h, file);
      if at == None {
        return None, memory, k;
      }
      PacketsSome(|file|, h.block);
      ghost var v := View();
      TrailerKeeps(v, file, memory, h.block, !v.bits[totalPackets - 1]);
      var bytes;
      bytes, k := BuildNack();
      packet := Some(bytes);
      if !old(active && was == h) {
        AllMissing(bytes, totalPackets, v.bits[..totalPackets], k);
        assert View().bits[..totalPackets] == v.bits[..totalPackets];
      }
    }

    /** Sets the bit behind the last packet to the opposite of its bit. */
    method SetTrailer()
      requires Valid() && active && totalPackets > 0
      modifies bitmap
      ensures Valid()
      ensures View() == WithTrailer(old(View()))
    {
      hide BitOf, WithBit, Packets;
      var max := totalPackets;
      BitmapRoom(max);
      var value := !Bit(bitmap[..], max - 1);
      SetBitView(bitmap[..], max + 1, max, value);
      ghost var b := bitmap[..];
      bitmap[max / 8] := ByteWithBit(bitmap[max / 8], max % 8, value);
      assert bitmap[..] == SetBit(b, max, value);
    }

    /** The status packet: runs of received and missing packets as far as they fit, and
        a null. Without a session it asks for packet 0. */
    method BuildNack() returns (packet: seq<byte>, ghost k: nat)
      requires Valid() && (active ==> totalPackets > 0)
      modifies bitmap
      ensures Valid()
      ensures !active ==> packet == NackBytes([0, 1])
      ensures active ==> View() == WithTrailer(old(View())) && Reported(packet, View().bits[..totalPackets], k)
    {
      hide Encoding, Width, Codes, Packets, Bit;
      var data := new byte[NACK_ROOM];
      var end := NACK_ROOM - 1;
      var ptr := 0;
      k := 0;
      if !active {
        ptr := PutFirst(data, end);
      } else {
        SetTrailer();
        ptr, k := PutRuns(data, end);
      }
      ghost var codes := data[..ptr];
      data[ptr] := 0;
      ptr := ptr + 1;
      packet := data[..ptr];
      assert packet == codes + [0];
    }

    method PutFirst(data: array<byte>, end: nat) returns (ptr: nat)
      requires 10 < end < data.Length
      modifies data
      ensures ptr <= end && data[..ptr] == Codes([0, 1])
    {
      hide Encoding;
      var ok;
      WidthSmall();
      assert data[..0] == Codes([]);
      ok, ptr := PutRun(data, 0, end, 0, []);
      assert [] + [0] == [0] && |Encoding(0)| <= 5;
      FirstCode();
      ok, ptr := PutRun(data, ptr, end, 1, [0]);
      assert [0] + [1] == [0, 1];
    }

    /** The walk over the bitmap, trailer included. */
    method PutRuns(data: array<byte>, end: nat) returns (ptr: nat, ghost k: nat)
      requires Valid() && active && totalPackets > 0 && end < data.Length && data != bitmap && data != image
      requires View().bits[totalPackets] == !View().bits[totalPackets - 1]
      modifies data
      ensures ptr <= end
      ensures var runs := Scan(View().bits[..totalPackets], true, 0);
              && k <= |runs| && Small(runs) && data[..ptr] == Codes(runs[..k])
              && (k < |runs| ==> ptr + Width(runs[k]) >= end)
    {
      hide Encoding, Width, Codes, Packets, Scan, Bit, SlamBitmap.View, Walked;
      PacketsSmall(totalBytes, blockSize);
      BitmapRoom(totalPackets);
      ghost var all := View().bits;
      ghost var bits := all[..totalPackets];
      ghost var runs := Scan(bits, true, 0);
      RunsAreSmall(bits);
      ghost var done: seq<nat> := [];
      var max, i, len, last, ok := totalPackets, 0, 0, true, true;
      ptr := 0;
      assert Walked(bits, 0, last, len, done) by { WalkStarts(bits); }
      NoCodes(data[..0]);
      while i <= max
        invariant 0 <= i <= max + 1 && ptr <= end && len <= i && View().bits == all
        invariant Small(done) && data[..ptr] == Codes(done)
        invariant i <= max ==> Walked(bits, i, last, len, done) && (i > 0 ==> last == bits[i - 1])
        invariant i == max + 1 ==> done == runs
      {
        BitmapRoom(totalPackets);
        var value := Bit(bitmap[..], i);
        assert value == all[i];
        if i < max {
          WalkedMore(bits, i, last, len, done);
        } else {
          WalkedOut(bits, last, len, done);
        }
        if value == last {
          len := len + 1;
        } else {
          ok, ptr := PutRun(data, ptr, end, len, done);
          if !ok {
            NextRun(bits, i, last, len, done);
            k := |done|;
            return;
          }
          done := done + [len];
          last, len := value, 1;
        }
        i := i + 1;
      }
      k := |done|;
      assert runs[..k] == runs;
    }
  }

  lemma BytesOfHeader(f: Frame, h: Header, file: seq<byte>, n: nat)
    requires Carries(f, h, file, n)
    ensures |HeaderBytes(h)| < f.end && Heads(f, h) && |file| > 0
  {
    hide Encoding, Packets, BlockLength;
    var k := |HeaderBytes(h)|;
    var payload := HeaderBytes(h) + Encoding(n) + Block(file, n, h.block);
    assert f.buf[..k] == f.buf[..|payload|][..k];
    if |file| == 0 {
      EmptyFile(h.block);
    }
  }

  /** A frame of another session, or the first one, differs from the header at hand. */
  lemma OtherHeader(f: Frame, h: Header, hdr: seq<byte>, active: bool, was: Header)
    requires Heads(f, h) && |hdr| <= |f.buf| && |hdr| > 0
    requires if active then Fits(was) && was != h && hdr == HeaderBytes(was) else hdr[0] == 0
    ensures hdr != f.buf[..|hdr|]
  {
    hide Encoding;
    var k := |HeaderBytes(h)|;
    if active {
      if hdr == f.buf[..|hdr|] {
        assert f.buf == hdr + f.buf[|hdr|..] && f.buf == HeaderBytes(h) + f.buf[k..];
        HeaderDetermines(h, was, f.buf[k..], f.buf[|hdr|..]);
      }
    } else {
      LengthInFirst(h.transaction);
      assert f.buf[0] == f.buf[..k][0] == HeaderBytes(h)[0] == Encoding(h.transaction)[0];
      assert f.buf[..|hdr|][0] == f.buf[0];
    }
  }

  lemma PacketsSome(total: nat, block: nat)
    requires block > 0 && total > 0
    ensures Packets(total, block) >= 1
  {
    PacketsBound(total, block);
  }

  lemma StartsAssembled(v: Receiver, file: seq<byte>, memory: seq<byte>, block: nat)
    requires block > 0 && |memory| == (Packets(|file|, block) + 1) * block && v == Fresh(Packets(|file|, block), memory)
    ensures Assembled(v, file, memory, block)
  {
    hide Packets;
    NothingReceived(v, file, memory, block);
  }

  lemma DeliveredIs(v: Receiver, file: seq<byte>, block: nat, n: nat)
    requires block > 0 && |v.bits| == Packets(|file|, block) + 1 && |v.image| == |v.bits| * block && n < Packets(|file|, block)
    ensures n * block + |Block(file, n, block)| <= |v.image|
    ensures Delivered(v, file, block, n) ==
            if n < Packets(|file|, block) - 1 || |file| % block != 0 then Accept(v, block, n, Block(file, n, block)) else v
  {
    hide Packets, BlockLength, Accept;
    BlockInside(n, |Block(file, n, block)|, |v.bits|, block);
  }

  lemma NotTooMany(v: Receiver, file: seq<byte>, memory: seq<byte>, block: nat)
    requires Assembled(v, file, memory, block)
    ensures v.received <= Packets(|file|, block)
  {
  }

  lemma NoCodes(empty: seq<byte>)
    requires empty == []
    ensures Codes([]) == empty
  {
  }

  lemma WalkStarts(bits: seq<bool>)
    ensures Walked(bits, 0, true, 0, [])
  {
    assert bits[0..] == bits;
  }

  lemma WalkedOut(bits: seq<bool>, last: bool, len: nat, done: seq<nat>)
    requires Walked(bits, |bits|, last, len, done)
    ensures done + [len] == Scan(bits, true, 0)
  {
  }

  lemma NextRun(bits: seq<bool>, i: nat, last: bool, len: nat, done: seq<nat>)
    requires i <= |bits| && Walked(bits, i, last, len, done) && (i < |bits| ==> bits[i] != last)
    ensures |done| < |Scan(bits, true, 0)| && Scan(bits, true, 0)[..|done|] == done && Scan(bits, true, 0)[|done|] == len
  {
  }

  lemma WidthSmall()
    ensures Width(0) == 1 && Width(1) == 1
  {
  }

  lemma FirstCode()
    ensures |Codes([0])| <= 5
  {
    assert [0 as nat][1..] == [];
  }

  method Copy(image: array<byte>, at: nat, data: seq<byte>)
    requires at + |data| <= image.Length
    modifies image
    ensures image[..] == Store(old(image[..]), at, data)
  {
    hide Store;
    for i := 0 to |data|
      invariant forall j :: 0 <= j < image.Length ==> image[j] == if at <= j < at + i then data[j - at] else old(image[j])
    {
      image[at + i] := data[i];
    }
  }

  lemma EmptySkip(data: seq<byte>)
    ensures data == [] ==> Skipping(data) == None
  {
  }

  lemma EncodeFits(n: nat)
    requires n < U32
    ensures Width(n) < MAX_HDR
  {
    WidthBound(n);
  }

  lemma NothingSet(b: seq<byte>, count: nat)
    requires count <= 8 * |b| && forall i :: 0 <= i < |b| ==> b[i] == 0
    ensures SlamBitmap.View(b, count) == seq(count, _ => false)
  {
    forall i | 0 <= i < count ensures !Bit(b, i) {
      BitOfZero(i % 8);
    }
  }

  /** Nothing received is reported as two runs. */
  lemma AllMissing(packet: seq<byte>, n: nat, bits: seq<bool>, k: nat)
    requires n > 0 && |bits| == n && Reported(packet, bits, k) && forall i :: 0 <= i < n ==> !bits[i]
    ensures AsksForAll(packet, n)
  {
    hide Encoding, Width, Codes, NackBytes;
    ScanNothing(bits[1..], 1);
    var runs := Scan(bits, true, 0);
    assert runs == [0, n] && runs[1] == n;
    ReportHasTwo(packet, bits, k);
    assert runs[..k] == runs;
  }

  lemma {:induction false} ScanNothing(bits: seq<bool>, len: nat)
    requires forall i :: 0 <= i < |bits| ==> !bits[i]
    ensures Scan(bits, false, len) == [len + |bits|]
    decreases bits
  {
    if bits != [] {
      ScanNothing(bits[1..], len + 1);
    }
  }

  /** There is always room for two runs. */
  lemma ReportHasTwo(packet: seq<byte>, bits: seq<bool>, k: nat)
    requires Reported(packet, bits, k)
    ensures k >= 2 || k == |Scan(bits, true, 0)|
  {
    hide Encoding, Width, Scan;
    var runs := Scan(bits, true, 0);
    if k < |runs| {
      WidthBound(runs[k]);
      CodesLength(runs[..k]);
    }
  }

  lemma {:induction false} CodesLength(runs: seq<nat>)
    requires Small(runs)
    ensures |Codes(runs)| <= 5 * |runs|
    decreases runs
  {
    hide Encoding, Width;
    if runs != [] {
      CodesLength(runs[1..]);
      EncodingLength(runs[0]);
    }
  }

  lemma EncodingLength(v: nat)
    requires v < U32
    ensures |Encoding(v)| <= 5
  {
    WidthBound(v);
  }

  // ------------------------------------------------- the number behind the last one

  /** Whatever the file, a packet with the number behind the last one and a full block is
      taken. */
  lemma TrailerIsTaken(f: Frame, h: Header, data: seq<byte>)
    requires Heads(f, h) && h.total < LIMIT && 0 < h.block < LIMIT && |data| == h.block
    requires Packets(h.total, h.block) < LIMIT
    requires var payload := HeaderBytes(h) + Encoding(Packets(h.total, h.block)) + data;
             |payload| <= f.end && f.buf[..|payload|] == payload && f.udpLen == UDP + |payload|
    ensures var r := Judge(f, |HeaderBytes(h)|, h.total, h.block);
            r.Take? && r.n == Packets(h.total, h.block) && f.buf[r.at..r.at + r.len] == data
  {
    hide Encoding, Decoding, HeaderBytes, Packets;
    var a, b := HeaderBytes(h), Encoding(Packets(h.total, h.block));
    var payload := a + b + data;
    var tail := f.buf[|payload|..f.end];
    assert f.buf[|a|..f.end] == b + (data + tail) by {
      assert f.buf[..f.end] == payload + tail by {
        assert f.buf[..f.end] == f.buf[..f.end][..|payload|] + f.buf[..f.end][|payload|..];
      }
      assert f.buf[|a|..f.end] == f.buf[..f.end][|a|..];
    }
    DecodeEncoding(Packets(h.total, h.block), data + tail);
    assert f.buf[|a| + |b|..|payload|] == f.buf[..|payload|][|a| + |b|..] == data;
  }

  /** Packet 1 of a file that has one byte, in blocks of two. */
  function TrailerFrame(): (f: Frame)
    ensures Buffered(f)
  {
    Frame([32, 33, 34, 33, 8, 9] + seq(15, _ => 0), 6, 14)
  }

  /** The client takes it, counts its only packet as received, and has not got the file. */
  lemma TrailerPacketCounts()
    ensures var f, v := TrailerFrame(), Fresh(1, [0, 0, 0, 0]);
            && Parsed(f) == Some((1, 2, 3)) && Judge(f, 3, 1, 2) == Take(1, 4, 2)
            && Assembled(v, [7], [0, 0, 0, 0], 2)
            && Accept(v, 2, 1, f.buf[4..6]) == Receiver([false, true], [0, 0, 8, 9], 1 as nat)
            && Packets(|[7 as byte]|, 2) == 1 && !Assembled(Accept(v, 2, 1, f.buf[4..6]), [7], [0, 0, 0, 0], 2)
  {
    hide Assembled, CountTrue;
    var f, v := TrailerFrame(), Fresh(1, [0, 0, 0, 0]);
    StartsAssembled(v, [7], [0, 0, 0, 0], 2);
    assert f.buf[4..6] == [8, 9];
    AcceptKeepsExactly(v, [7], [0, 0, 0, 0], 2, 1, [8, 9]);
    assert Store(v.image, 2, [8, 9]) == [0, 0, 8, 9];
    SmallCode(f.buf[..6], 1);
    SmallCode(f.buf[..6][1..], 1);
    SmallCode(f.buf[..6][2..], 2);
    SmallCode(f.buf[3..6], 1);
    SmallSkip(f.buf[..6]);
  }

  lemma SmallCode(data: seq<byte>, v: byte)
    requires |data| >= 2 && v < 32
    ensures data[0] == 32 + v ==> Decoding(data) == Some((v, 1))
  {
    if data[0] == 32 + v {
      assert [data[0] % 32] + data[1..1] == [v];
      assert [v][..0] == [];
      assert BeValue([v]) == v;
    }
  }

  lemma SmallSkip(data: seq<byte>)
    requires |data| >= 2 && data[0] == 32
    ensures Skipping(data) == Some(1)
  {
  }

  /** So does a real client: the transfer counts as complete, and the byte of the file is
      whatever memory held. */
  method Miscounts() returns (client: Client, ghost memory: seq<byte>)
    ensures client.Valid() && client.active && client.totalBytes == 1 && client.received == client.totalPackets == 1
    ensures |memory| == 4 && client.View() == Receiver([false, true], memory[..2] + [8, 9], 1)
  {
    hide Judge, Parsed, SlamBitmap.View, Decoding, Skipping, Admissible;
    client := new Client();
    TrailerPacketCounts();
    SmallEnough();
    var f := TrailerFrame();
    var at := client.Reinit(f, true);
    memory := client.image[..];
    assert client.View() == Fresh(1, memory);
    var ok := client.RecvData(f, at.value);
    assert f.buf[4..6] == [8, 9];
    assert Store(memory, 2, [8, 9]) == memory[..2] + [8, 9];
  }

  lemma SmallEnough()
    ensures Admissible(1, 2, 3)
  {
    EncodingLength(Packets(1, 2));
  }
}
