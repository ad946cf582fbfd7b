/** The SLAM formats in numbers. */
module SlamSample {
  import opened Bytes
  import opened SlamCode
  import opened SlamNack
  import opened SlamBlocks
  import opened SlamClient
  import opened SlamServer

  /** The first three bits say how many bytes there are, the others begin the value, which goes on
      with the highest byte first. */
  lemma EncodingInNumbers(v: nat)
    requires v < U32
    ensures Encoding(v) ==
            if v < 32 then [32 + v]
            else if v < 0x2000 then [64 + v / 0x100, v % 0x100]
            else if v < 0x20_0000 then [96 + v / 0x1_0000, v / 0x100 % 0x100, v % 0x100]
            else if v < 0x2000_0000 then [128 + v / 0x100_0000, v / 0x1_0000 % 0x100, v / 0x100 % 0x100, v % 0x100]
            else [160, v / 0x100_0000, v / 0x1_0000 % 0x100, v / 0x100 % 0x100, v % 0x100]
  {
    hide Width, ShiftBytes, BeBytes;
    FirstShifts(v);
    FirstBytes(v);
    WidthInNumbers(v);
  }

  lemma FirstShifts(v: nat)
    ensures ShiftBytes(v, 0) == v && ShiftBytes(v, 1) == v / 0x100 && ShiftBytes(v, 2) == v / 0x1_0000 && ShiftBytes(v, 3) == v / 0x100_0000
  {
    assert ShiftBytes(v / 0x100, 1) == ShiftBytes(v / 0x1_0000, 0);
    assert ShiftBytes(v / 0x100, 2) == ShiftBytes(v / 0x1_0000, 1) == ShiftBytes(v / 0x100_0000, 0);
  }

  lemma LastByte(v: nat, n: nat)
    ensures BeBytes(v, 0) == [] && BeBytes(v, n + 1) == BeBytes(v / 0x100, n) + [v % 0x100]
  {
  }

  lemma FourBytes(v: nat, a: nat, b: nat, c: nat)
    requires a == v / 0x100 && b == a / 0x100 && c == b / 0x100
    ensures BeBytes(v, 0) == [] && BeBytes(v, 1) == [v % 0x100] && BeBytes(v, 2) == [a % 0x100, v % 0x100]
    ensures BeBytes(v, 3) == [b % 0x100, a % 0x100, v % 0x100]
    ensures BeBytes(v, 4) == [c % 0x100, b % 0x100, a % 0x100, v % 0x100]
  {
    hide BeBytes;
    LastByte(v, 0); LastByte(v, 1); LastByte(v, 2); LastByte(v, 3);
    LastByte(a, 0); LastByte(a, 1); LastByte(a, 2);
    LastByte(b, 0); LastByte(b, 1);
    LastByte(c, 0);
  }

  lemma Quotients(v: nat)
    ensures v / 0x100 / 0x100 == v / 0x1_0000 && v / 0x1_0000 / 0x100 == v / 0x100_0000
  {
  }

  lemma FirstBytes(v: nat)
    ensures BeBytes(v, 0) == [] && BeBytes(v, 1) == [v % 0x100] && BeBytes(v, 2) == [v / 0x100 % 0x100, v % 0x100]
    ensures BeBytes(v, 3) == [v / 0x1_0000 % 0x100, v / 0x100 % 0x100, v % 0x100]
    ensures BeBytes(v, 4) == [v / 0x100_0000 % 0x100, v / 0x1_0000 % 0x100, v / 0x100 % 0x100, v % 0x100]
  {
    hide BeBytes;
    Quotients(v);
    FourBytes(v, v / 0x100, v / 0x1_0000, v / 0x100_0000);
  }

  lemma WidthInNumbers(v: nat)
    requires v < U32
    ensures Width(v) == if v < 0x100 then 1 else if v < 0x1_0000 then 2 else if v < 0x100_0000 then 3 else 4
  {
    assert v >= 0x100 ==> Width(v) == 1 + Width(v / 0x100);
    assert v >= 0x1_0000 ==> Width(v / 0x100) == 1 + Width(v / 0x1_0000);
    assert v >= 0x100_0000 ==> Width(v / 0x1_0000) == 1 + Width(v / 0x100_0000);
  }

  /** Longer numbers have no shorter codes. */
  lemma EncodingGrows(n: nat, m: nat)
    requires n <= m < U32
    ensures |Encoding(n)| <= |Encoding(m)|
  {
    EncodingInNumbers(n);
    EncodingInNumbers(m);
  }

  /** Transaction, size and block size, then the packet number and the block. */
  lemma SamplePacket()
    ensures SLAM_BLOCK_SIZE == 1500 - (20 + 8 + 21)
    ensures DataPacket(Header(7, 3, 1451), [9, 8, 6], 0) == [39, 35, 69, 171, 32, 9, 8, 6]
  {
    hide Encoding;
    EncodingInNumbers(7);
    EncodingInNumbers(3);
    EncodingInNumbers(1451);
    EncodingInNumbers(0);
    assert Block([9, 8, 6], 0, 1451) == [9, 8, 6];
  }

  /** How many are there, how many are missing, and so on, and a null. */
  lemma SampleReport()
    ensures NACK_ROOM == 1472 && NackBytes(Scan([true, false, false, true], true, 0)) == [33, 34, 33, 0]
  {
    hide Encoding;
    var bits := [true, false, false, true];
    assert bits[1..] == [false, false, true] && bits[1..][1..] == [false, true] && [false, true][1..] == [true] && [true][1..] == [];
    assert Scan([], true, 1) == [1];
    assert Scan([true], false, 2) == [2] + Scan([], true, 1);
    assert Scan([false, true], false, 1) == Scan([true], false, 2);
    assert Scan([false, false, true], true, 1) == [1] + Scan([false, true], false, 1);
    assert Scan(bits, true, 0) == [1, 2, 1];
    EncodingInNumbers(1);
    EncodingInNumbers(2);
    assert [1, 2, 1][1..] == [2, 1] && [2, 1][1..] == [1] && [1][1..] == [];
    assert Codes([]) == [] && Codes([1]) == [33] + Codes([]);
    assert Codes([2, 1]) == [34] + Codes([1]);
  }

  /** A session begins only if header, longest packet number, block and the 28 bytes of IP and UDP
      fit in 1500 bytes; then so does every packet of the file. */
  lemma SessionFits(h: Header, file: seq<byte>, n: nat)
    requires Fits(h) && h.total == |file| < LIMIT && 0 < h.block && n <= Packets(|file|, h.block)
    ensures Packets(|file|, h.block) < U32
    ensures Admissible(|file|, h.block, |HeaderBytes(h)|) <==>
              28 + |HeaderBytes(h)| + |Encoding(Packets(|file|, h.block))| + h.block <= 1500
    ensures Admissible(|file|, h.block, |HeaderBytes(h)|) ==>
              28 + |HeaderBytes(h) + Encoding(n) + Block(file, n, h.block)| <= 1500
  {
    hide Encoding, Packets, HeaderBytes;
    PacketsSmall(|file|, h.block);
    EncodingGrows(n, Packets(|file|, h.block));
  }
}
