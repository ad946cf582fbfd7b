/** The self-delimiting integers of SLAM: the top three bits of the first byte say how
    many bytes there are. An unsigned long has four bytes. */
module SlamCode {
  import opened Bytes

  const LONG: nat := 4

  /** The n low bytes of v, most significant first. */
  function BeBytes(v: nat, n: nat): (bytes: seq<byte>)
    ensures |bytes| == n
  {
    if n == 0 then [] else BeBytes(v / 256, n - 1) + [v % 256]
  }

  function BeValue(bytes: seq<byte>): (v: nat)
  {
    if bytes == [] then 0 else 256 * BeValue(bytes[..|bytes| - 1]) + bytes[|bytes| - 1]
  }

  /** How many bytes v needs, at least one. */
  function Width(v: nat): (n: nat)
    ensures n >= 1
  {
    if v < 256 then 1 else 1 + Width(v / 256)
  }

  function Encoding(v: nat): (code: seq<byte>)
    requires v < U32
    ensures 1 <= |code| <= LONG + 1
  {
    WidthBound(v);
    var n := Width(v);
    var top := ShiftBytes(v, n - 1);
    if top < 0x20 then [n * 32 + top] + BeBytes(v, n - 1) else [(n + 1) * 32] + BeBytes(v, n)
  }

  lemma WidthBound(v: nat)
    requires v < U32
    ensures 1 <= Width(v) <= LONG && ShiftBytes(v, Width(v) - 1) < 256
  {
    WidthTop(v, Width(v));
    assert Width(v / 0x100_0000) == 1;
    assert Width(v / 0x1_0000) <= 2;
    assert Width(v / 256) <= 3;
  }

  /** The first byte is the first that is not zero, unless there is only one. */
  lemma {:induction false} WidthTop(v: nat, n: nat)
    requires n == Width(v)
    ensures ShiftBytes(v, n - 1) < 256 && ShiftBytes(v, n) == 0 && (n > 1 ==> ShiftBytes(v, n - 1) > 0)
    ensures forall k :: n <= k ==> ShiftBytes(v, k) == 0
    decreases v
  {
    if v >= 256 {
      WidthTop(v / 256, n - 1);
      forall k | n <= k ensures ShiftBytes(v, k) == 0 {
        assert ShiftBytes(v, k) == ShiftBytes(v / 256, k - 1);
      }
    } else {
      ShiftZero(n);
      forall k | n <= k ensures ShiftBytes(v, k) == 0 {
        ShiftZero(k - 1);
      }
    }
  }

  lemma {:induction false} ShiftZero(k: nat)
    ensures ShiftBytes(0, k) == 0
  {
    if k > 0 {
      ShiftZero(k - 1);
    }
  }

  // -------------------------------------------------------------------- decoding

  /** A code at the front of data: its value and length. At least one byte must follow it. */
  function Decoding(data: seq<byte>): (r: Option<(nat, nat)>)
    ensures r.Some? ==> 1 <= r.value.1 <= LONG && r.value.1 < |data|
  {
    if data == [] then None
    else
      var n := data[0] / 32;
      if n == 0 || n > LONG || n >= |data| then None
      else Some((BeValue([data[0] % 32] + data[1..n]), n))
  }

  lemma DecodedSmall(data: seq<byte>)
    requires Decoding(data).Some?
    ensures Decoding(data).value.0 < LIMIT
  {
    var n := data[0] / 32;
    ValueBelow([data[0] % 32] + data[1..n]);
  }

  lemma ValueBelow(bytes: seq<byte>)
    requires 1 <= |bytes| <= 4 && bytes[0] < 32
    ensures BeValue(bytes) < LIMIT
  {
    var n := |bytes|;
    assert BeValue(bytes[..1]) == bytes[0] by { assert bytes[..1][..0] == []; }
    if n >= 2 { assert bytes[..2][..1] == bytes[..1]; assert BeValue(bytes[..2]) < 32 * 256; }
    if n >= 3 { assert bytes[..3][..2] == bytes[..2]; assert BeValue(bytes[..3]) < 32 * 0x1_0000; }
    assert bytes[..n] == bytes;
    assert bytes[..n][..n - 1] == bytes[..n - 1];
  }

  lemma {:induction false} BeValueOfBytes(v: nat, n: nat)
    requires ShiftBytes(v, n) == 0
    ensures BeValue(BeBytes(v, n)) == v
  {
    if n > 0 {
      BeValueOfBytes(v / 256, n - 1);
      assert BeBytes(v, n)[..n - 1] == BeBytes(v / 256, n - 1);
    }
  }

  /** The n low bytes are the top one of them and the others. */
  lemma {:induction false} BeBytesHead(v: nat, n: nat)
    requires n > 0
    ensures BeBytes(v, n) == [ShiftBytes(v, n - 1) % 256] + BeBytes(v, n - 1)
  {
    if n > 1 {
      BeBytesHead(v / 256, n - 1);
    }
  }

  lemma {:induction false} BeValueZero(bytes: seq<byte>)
    ensures BeValue([0] + bytes) == BeValue(bytes)
  {
    if bytes == [] {
      assert ([0] + bytes)[..0] == [];
    } else {
      var n := |bytes| - 1;
      assert ([0] + bytes)[..n + 1] == [0] + bytes[..n];
      BeValueZero(bytes[..n]);
    }
  }

  /** Values whose code the decoder accepts. */
  const LIMIT: nat := 0x2000_0000

  lemma Narrow(v: nat)
    requires v < U32
    ensures v < LIMIT <==> (Width(v) < LONG || ShiftBytes(v, Width(v) - 1) < 0x20)
  {
    WidthBound(v);
    if v < 256 {
    } else if v < 0x1_0000 {
      assert Width(v / 256) == 1;
    } else if v < 0x100_0000 {
      assert Width(v / 256) == 2 && Width(v / 0x1_0000) == 1;
    } else {
      assert Width(v / 256) == 3 && Width(v / 0x1_0000) == 2 && Width(v / 0x100_0000) == 1;
      assert ShiftBytes(v, 3) == ShiftBytes(v / 256, 2) == ShiftBytes(v / 0x1_0000, 1) == v / 0x100_0000;
    }
  }

  /** No code is the beginning of another. */
  lemma PrefixFree(v: nat, w: nat, x: seq<byte>, y: seq<byte>)
    requires v < U32 && w < U32 && Encoding(v) + x == Encoding(w) + y
    ensures v == w && x == y
  {
    var a, b := Encoding(v), Encoding(w);
    LengthInFirst(v);
    LengthInFirst(w);
    assert a[0] == (a + x)[0] && b[0] == (b + y)[0];
    assert a == (a + x)[..|a|] && b == (b + y)[..|b|] && x == (a + x)[|a|..] && y == (b + y)[|b|..];
    CodeValue(v);
    CodeValue(w);
  }

  lemma LengthInFirst(v: nat)
    requires v < U32
    ensures Encoding(v)[0] / 32 == |Encoding(v)|
  {
    WidthBound(v);
  }

  /** Five bytes are too many for the decoder. */
  lemma CodeWidth(v: nat)
    requires v < U32
    ensures |Encoding(v)| <= LONG <==> v < LIMIT
  {
    hide BeBytes, ShiftBytes, Width;
    WidthBound(v);
    Narrow(v);
  }

  /** The whole code gives the value, even where the decoder refuses it. */
  lemma CodeValue(v: nat)
    requires v < U32
    ensures BeValue([Encoding(v)[0] % 32] + Encoding(v)[1..]) == v
  {
    hide BeValue, ShiftBytes, Width, BeBytes;
    WidthBound(v);
    var n := Width(v);
    WidthTop(v, n);
    BeValueOfBytes(v, n);
    BeBytesHead(v, n);
    var top := ShiftBytes(v, n - 1);
    if top < 0x20 {
      assert Encoding(v)[1..] == BeBytes(v, n - 1);
      assert (n * 32 + top) % 32 == top;
    } else {
      assert Encoding(v)[1..] == BeBytes(v, n);
      BeValueZero(BeBytes(v, n));
    }
  }

  /** slam_decode undoes slam_encode and stops right behind the code, for exactly the
      values below 2^29; at least one byte must follow. */
  lemma DecodeEncoding(v: nat, rest: seq<byte>)
    requires v < U32
    ensures Decoding(Encoding(v) + rest) == (if v < LIMIT && rest != [] then Some((v, |Encoding(v)|)) else None)
  {
    hide Encoding, BeValue;
    var code := Encoding(v);
    var data := code + rest;
    LengthInFirst(v);
    CodeValue(v);
    CodeWidth(v);
    if |code| <= LONG && rest != [] {
      assert data[1..|code|] == code[1..];
    }
  }

  /** Stepping over a code of up to seven bytes without looking at its value. */
  function Skipping(data: seq<byte>): (r: Option<nat>)
    ensures r.Some? ==> 1 <= r.value < |data|
  {
    if data == [] || data[0] / 32 == 0 || data[0] / 32 >= |data| then None else Some(data[0] / 32)
  }

  lemma SkipEncoding(v: nat, rest: seq<byte>)
    requires v < U32
    ensures Skipping(Encoding(v) + rest) == if rest != [] then Some(|Encoding(v)|) else None
  {
    hide Encoding;
    LengthInFirst(v);
  }

  // -------------------------------------------------------------------- headers

  /** Transaction, size of the file in bytes, size of a block. */
  datatype Header = Header(transaction: nat, total: nat, block: nat)

  predicate Fits(h: Header)
  {
    h.transaction < U32 && h.total < U32 && h.block < U32
  }

  function HeaderBytes(h: Header): (bytes: seq<byte>)
    requires Fits(h)
    ensures 3 <= |bytes| <= 3 * (LONG + 1)
  {
    Encoding(h.transaction) + Encoding(h.total) + Encoding(h.block)
  }

  /** A packet that begins with the bytes of one header carries that header: comparing
      bytes compares transaction, size and block size. */
  lemma HeaderDetermines(h: Header, h': Header, x: seq<byte>, y: seq<byte>)
    requires Fits(h) && Fits(h') && HeaderBytes(h) + x == HeaderBytes(h') + y
    ensures h == h' && x == y
  {
    hide Encoding;
    var a, b, c := Encoding(h.transaction), Encoding(h.total), Encoding(h.block);
    var a', b', c' := Encoding(h'.transaction), Encoding(h'.total), Encoding(h'.block);
    assert HeaderBytes(h) + x == a + (b + (c + x));
    assert HeaderBytes(h') + y == a' + (b' + (c' + y));
    PrefixFree(h.transaction, h'.transaction, b + (c + x), b' + (c' + y));
    PrefixFree(h.total, h'.total, c + x, c' + y);
    PrefixFree(h.block, h'.block, x, y);
  }

  // ---------------------------------------------------------------- in a buffer

  /** Counts the leading zero bytes off. */
  method CodeBytes(value: nat) returns (bytes: nat)
    requires value < U32
    ensures bytes == Width(value)
  {
    hide ShiftBytes, Width;
    WidthBound(value);
    WidthTop(value, Width(value));
    bytes := LONG;
    while bytes > 0 && ShiftBytes(value, bytes - 1) % 256 == 0
      invariant 0 <= bytes <= LONG
      invariant bytes >= Width(value) || (bytes == 0 && Width(value) == 1)
    {
      bytes := bytes - 1;
    }
    if bytes <= 0 {
      bytes := 1;
    }
  }

  /** Writes the code of value at ptr, but never at or behind end. */
  method SlamEncode(buf: array<byte>, ptr: nat, end: nat, value: nat) returns (ok: bool, next: nat)
    requires ptr <= end <= buf.Length && value < U32
    modifies buf
    ensures ok <==> ptr + Width(value) < end
    ensures ok ==> next == ptr + |Encoding(value)| <= end
                   && buf[..] == old(buf[..ptr]) + Encoding(value) + old(buf[next..])
    ensures !ok ==> next == ptr && buf[..] == old(buf[..])
  {
    hide ShiftBytes, Width, BeBytes, Encoding;
    WidthBound(value);
    var bytes := CodeBytes(value);
    next := ptr;
    ok := ptr + bytes < end;
    if !ok {
      return;
    }
    var top := ShiftBytes(value, bytes - 1);
    if top < 0x20 {
      buf[next] := bytes * 32 + top;
    } else {
      bytes := bytes + 1;
      buf[next] := bytes * 32;
    }
    bytes := bytes - 1;
    next := next + 1;
    WriteBytes(buf, next, value, bytes);
    next := next + bytes;
    CodeIs(value, Width(value), buf[ptr..next]);
    Spliced(old(buf[..]), buf[..], ptr, next);
  }

  /** The definition of Encoding, byte by byte. */
  lemma CodeIs(v: nat, n: nat, code: seq<byte>)
    requires v < U32 && n == Width(v) && |code| >= 1
    requires var top := ShiftBytes(v, n - 1);
             if top < 0x20 then code[0] == n * 32 + top && code[1..] == BeBytes(v, n - 1)
             else code[0] == (n + 1) * 32 && code[1..] == BeBytes(v, n)
    ensures code == Encoding(v)
  {
    hide ShiftBytes, Width, BeBytes;
    assert code == [code[0]] + code[1..];
  }

  lemma Spliced(was: seq<byte>, now: seq<byte>, ptr: nat, next: nat)
    requires ptr <= next <= |was| == |now| && forall i :: 0 <= i < |was| && !(ptr <= i < next) ==> now[i] == was[i]
    ensures now == was[..ptr] + now[ptr..next] + was[next..]
  {
  }

  method WriteBytes(buf: array<byte>, at: nat, value: nat, n: nat)
    requires at + n <= buf.Length
    modifies buf
    ensures buf[at..at + n] == BeBytes(value, n)
    ensures forall i :: 0 <= i < buf.Length && !(at <= i < at + n) ==> buf[i] == old(buf[i])
  {
    hide ShiftBytes, BeBytes;
    var bytes := n;
    assert buf[at..at] == [];
    while bytes > 0
      invariant 0 <= bytes <= n
      invariant buf[at..at + n - bytes] + BeBytes(value, bytes) == BeBytes(value, n)
      invariant forall i :: 0 <= i < buf.Length && !(at <= i < at + n) ==> buf[i] == old(buf[i])
    {
      BeBytesHead(value, bytes);
      ghost var done := buf[at..at + n - bytes];
      buf[at + n - bytes] := ShiftBytes(value, bytes - 1) % 256;
      assert buf[at..at + n - bytes + 1] == done + [ShiftBytes(value, bytes - 1) % 256];
      bytes := bytes - 1;
    }
  }

  method SlamDecode(data: seq<byte>, ptr: nat, end: nat) returns (r: Option<(nat, nat)>)
    requires ptr <= |data| && end <= |data|
    ensures ptr < end ==> r == match Decoding(data[ptr..end]) case None => None case Some(p) => Some((p.0, ptr + p.1))
    ensures ptr >= end ==> r == None
  {
    if ptr >= end {
      return None;
    }
    hide BeValue;
    var bytes := data[ptr] / 32;
    if bytes == 0 || bytes > LONG || ptr + bytes >= end {
      return None;
    }
    var n: nat := bytes;
    var value := ReadValue(data, ptr, n);
    SliceOfSlice(data, ptr, end, n);
    return Some((value, ptr + n));
  }

  lemma SliceOfSlice(data: seq<byte>, ptr: nat, end: nat, n: nat)
    requires ptr + n <= end <= |data| && 1 <= n
    ensures data[ptr..end][1..n] == data[ptr + 1..ptr + n] && data[ptr..end][0] == data[ptr]
  {
    var a, b := data[ptr..end][1..n], data[ptr + 1..ptr + n];
    assert |a| == |b|;
    forall i | 0 <= i < |a| ensures a[i] == b[i] {
      assert a[i] == data[ptr..end][i + 1];
    }
  }

  /** Five bits of the first byte and all of the others, the first one on top. */
  method ReadValue(data: seq<byte>, ptr: nat, n: nat) returns (value: nat)
    requires 1 <= n && ptr + n <= |data|
    ensures value == BeValue([data[ptr] % 32] + data[ptr + 1..ptr + n])
  {
    hide BeValue;
    var first: byte := data[ptr] % 32;
    value := first;
    var i := 1;
    BeValueOne(first);
    assert [first] + data[ptr + 1..ptr + 1] == [first];
    while i < n
      invariant 1 <= i <= n && value == BeValue([first] + data[ptr + 1..ptr + i])
    {
      ghost var so := [first] + data[ptr + 1..ptr + i];
      BeValueMore(so, data[ptr + i]);
      assert [first] + data[ptr + 1..ptr + i + 1] == so + [data[ptr + i]];
      value := value * 256 + data[ptr + i];
      i := i + 1;
    }
  }

  lemma BeValueOne(x: byte)
    ensures BeValue([x]) == x
  {
    assert [x][..0] == [];
  }

  lemma BeValueMore(bytes: seq<byte>, x: byte)
    ensures BeValue(bytes + [x]) == 256 * BeValue(bytes) + x
  {
    assert (bytes + [x])[..|bytes|] == bytes;
  }

  method SlamSkip(data: seq<byte>, ptr: nat, end: nat) returns (r: Option<nat>)
    requires ptr <= |data| && end <= |data|
    ensures ptr < end ==> r == match Skipping(data[ptr..end]) case None => None case Some(n) => Some(ptr + n)
    ensures ptr >= end ==> r == None
  {
    if ptr >= end {
      return None;
    }
    var bytes := data[ptr] / 32;
    if bytes == 0 || ptr + bytes >= end {
      return None;
    }
    return Some(ptr + bytes);
  }
}
