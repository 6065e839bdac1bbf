/** The uuencoded lines data travels in: 45 bytes a line, three bytes in four characters. */
module Uuencode {
  import opened Bytes
  import opened Text

  const LINE_BYTES: nat := 45

  type i32 = x: int | -0x8000_0000 <= x < 0x8000_0000

  /** Two's complement reduction to a 32-bit `int`. */
  function Wrap(x: int): i32
  {
    Mod32(x + 0x8000_0000) - 0x8000_0000
  }

  // ---------------------------------------------------------------- decoding (the reference)

  predicate IsCode(c: char)
  {
    0x21 <= c as int <= 0x60
  }

  function Sextet(c: char): (r: nat)
    ensures r < 64
  {
    (c as int - 0x20) % 64
  }

  function Triple(t: nat): (r: seq<byte>)
    requires t < 0x100_0000
  {
    [t / 0x1_0000, t / 0x100 % 0x100, t % 0x100]
  }

  function DecodeQuad(q: string): (r: seq<byte>)
    requires |q| == 4
    ensures |r| == 3
  {
    Triple(0x4_0000 * Sextet(q[0]) + 0x1000 * Sextet(q[1]) + 0x40 * Sextet(q[2]) + Sextet(q[3]))
  }

  /** The customary example of the encoding. */
  lemma Cat()
    ensures DecodeQuad("0V%T") == ['C' as int, 'a' as int, 't' as int]
  {
    assert Sextet('0') == 16 && Sextet('V') == 54 && Sextet('%') == 5 && Sextet('T') == 52;
  }

  function DecodePayload(p: string): (r: seq<byte>)
    requires |p| % 4 == 0
    ensures |r| == |p| / 4 * 3
  {
    if p == [] then [] else DecodePayload(p[..|p| - 4]) + DecodeQuad(p[|p| - 4..])
  }

  /** A full line on the wire. */
  predicate IsLine(line: string)
  {
    && |line| == 63 && line[0] as int == 0x20 + LINE_BYTES && line[61..] == "\r\n"
    && forall i | 1 <= i < 61 :: IsCode(line[i])
  }

  function DecodeLine(line: string): (r: seq<byte>)
    requires IsLine(line)
    ensures |r| == LINE_BYTES
  {
    DecodePayload(line[1..61])
  }

  function DecodeLines(lines: seq<string>): (r: seq<byte>)
    requires forall i | 0 <= i < |lines| :: IsLine(lines[i])
    ensures |r| == LINE_BYTES * |lines|
  {
    if lines == [] then [] else DecodeLines(lines[..|lines| - 1]) + DecodeLine(lines[|lines| - 1])
  }

  /** A line survives formatting except that its CR LF becomes LF. */
  lemma LineFormats(line: string)
    requires IsLine(line)
    ensures Format(line) == line[..61] + "\n"
    ensures '\0' !in line
  {
    var body := line[..61];
    assert line == body + "\r\n";
    forall i | 0 <= i < |body|
      ensures !IsBreak(body[i]) && body[i] != '\0'
    {
      assert body[i] == line[i];
      assert i > 0 ==> IsCode(line[i]);
    }
    OneLine(body);
  }

  // ---------------------------------------------------------------- encoding

  function Code(v: nat): (c: char)
    requires v < 64
    ensures IsCode(c) && Sextet(c) == v
  {
    if v == 0 then 0x60 as char else (0x20 + v) as char
  }

  method BuildTable() returns (table: array<char>)
    ensures fresh(table) && table.Length == 64 && forall i | 0 <= i < 64 :: table[i] == Code(i)
    ensures table[0] == '`' && forall i | 1 <= i < 64 :: table[i] == (0x20 + i) as char
  {
    table := new char[64](i => ' ');
    table[0] := 0x60 as char;
    for i := 1 to 64
      invariant forall p | 0 <= p < i :: table[p] == Code(p)
      invariant table[0] == '`' && forall p | 1 <= p < i :: table[p] == (0x20 + p) as char
    {
      table[i] := (0x20 + i) as char;
    }
  }

  /** The low bytes of the accumulator are the bytes shifted in last, whatever was there before. */
  lemma ShiftIn(k: i32, c: byte)
    ensures Wrap(k * 0x100 + c) % 0x100 == c
    ensures Wrap(k * 0x100 + c) % 0x1_0000 == k % 0x100 * 0x100 + c
    ensures Wrap(k * 0x100 + c) % 0x100_0000 == k % 0x1_0000 * 0x100 + c
  {
    var x := k * 0x100 + c;
    var w, q := Wrap(x), (x + 0x8000_0000) / 0x1_0000_0000;
    assert w == x - 0x1_0000_0000 * q;
    DivModUnique(w, 0x100, k - 0x100_0000 * q, c);
    DivModUnique(w, 0x1_0000, k / 0x100 - 0x1_0000 * q, k % 0x100 * 0x100 + c);
    DivModUnique(w, 0x100_0000, k / 0x1_0000 - 0x100 * q, k % 0x1_0000 * 0x100 + c);
  }

  lemma Sextets(k: i32, t: nat)
    requires k % 0x100_0000 == t
    ensures k / 0x4_0000 % 64 == t / 0x4_0000
    ensures k / 0x1000 % 64 == t / 0x1000 % 64
    ensures k / 0x40 % 64 == t / 0x40 % 64
    ensures k % 64 == t % 64
  {
    var q := k / 0x100_0000;
    assert k == 0x100_0000 * q + t;
    DivModUnique(k, 0x4_0000, 64 * q + t / 0x4_0000, t % 0x4_0000);
    DivModUnique(64 * q + t / 0x4_0000, 64, q, t / 0x4_0000);
    DivModUnique(k, 0x1000, 0x1000 * q + t / 0x1000, t % 0x1000);
    SameSextet(0x40 * q, t / 0x1000);
    DivModUnique(k, 0x40, 0x4_0000 * q + t / 0x40, t % 0x40);
    SameSextet(0x1000 * q, t / 0x40);
    SameSextet(0x4_0000 * q, t);
  }

  lemma SameSextet(q: int, u: nat)
    ensures (64 * q + u) % 64 == u % 64
  {
    DivModUnique(64 * q + u, 64, q + u / 64, u % 64);
  }

  lemma SextetsJoin(t: nat)
    requires t < 0x100_0000
    ensures t == 0x4_0000 * (t / 0x4_0000) + 0x1000 * (t / 0x1000 % 64) + 0x40 * (t / 0x40 % 64) + t % 64
  {
    DivModUnique(t / 0x1000, 64, t / 0x4_0000, t % 0x4_0000 / 0x1000);
    DivModUnique(t / 0x40, 64, t / 0x1000, t % 0x1000 / 0x40);
  }

  lemma TripleOf(a: byte, b: byte, c: byte)
    ensures Triple(BigEndian(a, b, c)) == [a, b, c]
  {
    var t := BigEndian(a, b, c);
    DivModUnique(t, 0x1_0000, a, 0x100 * b + c);
    DivModUnique(t, 0x100, 0x100 * a + b, c);
    DivModUnique(0x100 * a + b, 0x100, a, b);
  }

  function QuadOf(k: i32): (q: string)
    ensures |q| == 4 && forall i | 0 <= i < 4 :: IsCode(q[i])
  {
    [Code(k / 0x4_0000 % 64), Code(k / 0x1000 % 64), Code(k / 0x40 % 64), Code(k % 64)]
  }

  lemma QuadDecodes(k: i32, q: string, a: byte, b: byte, c: byte)
    requires k % 0x100_0000 == BigEndian(a, b, c)
    requires q == QuadOf(k)
    ensures DecodeQuad(q) == [a, b, c]
  {
    var t := BigEndian(a, b, c);
    Sextets(k, t);
    SextetsJoin(t);
    assert Sextet(q[0]) == t / 0x4_0000 && Sextet(q[1]) == t / 0x1000 % 64
        && Sextet(q[2]) == t / 0x40 % 64 && Sextet(q[3]) == t % 64;
    TripleOf(a, b, c);
  }

  lemma PayloadSnoc(p: string, q: string)
    requires |p| % 4 == 0 && |q| == 4
    ensures |p + q| % 4 == 0 && DecodePayload(p + q) == DecodePayload(p) + DecodeQuad(q)
  {
    assert (p + q)[..|p + q| - 4] == p && (p + q)[|p + q| - 4..] == q;
  }

  lemma LinesSnoc(lines: seq<string>, line: string)
    requires forall i | 0 <= i < |lines| :: IsLine(lines[i])
    requires IsLine(line)
    ensures forall i | 0 <= i < |lines + [line]| :: IsLine((lines + [line])[i])
    ensures DecodeLines(lines + [line]) == DecodeLines(lines) + DecodeLine(line)
  {
    assert (lines + [line])[..|lines|] == lines;
  }

  /** Encodes the 45 bytes from `from` on. `k0` is whatever earlier lines left in the accumulator. */
  method EncodeLine(image: seq<byte>, from: nat, table: seq<char>, k0: i32, crc0: u32)
    returns (line: string, k: i32, crc: u32)
    requires from + LINE_BYTES <= |image|
    requires |table| == 64 && forall i | 0 <= i < 64 :: table[i] == Code(i)
    requires crc0 + 255 * LINE_BYTES < WORD
    ensures IsLine(line) && DecodeLine(line) == image[from..from + LINE_BYTES]
    ensures |line| == 63 && line[0] == 'M' && line[61] == '\r' && line[62] == '\n'
    ensures crc == crc0 + Sum(image[from..from + LINE_BYTES])
  {
    var payload;
    payload, k, crc := EncodePayload(image, from, table, k0, crc0);
    line := [(0x20 + LINE_BYTES) as char] + payload + "\r\n";
    assert line[1..61] == payload;
  }

  /** Where the last complete group of three before `offset` ends. */
  function GroupEnd(offset: nat): (r: nat)
    ensures r <= offset < r + 3
  {
    offset - offset % 3
  }

  lemma NextGroupEnd(offset: nat)
    ensures offset % 3 == 2 ==> offset == GroupEnd(offset) + 2 && GroupEnd(offset + 1) == offset + 1
    ensures offset % 3 != 2 ==> GroupEnd(offset + 1) == GroupEnd(offset)
  {
  }

  /** The first `offset` bytes of `block` have been read: the complete groups of three are encoded, the
      rest is in the accumulator. */
  predicate Partway(block: seq<byte>, offset: nat, payload: string, k: i32)
  {
    && offset <= |block|
    && Encodes(payload, block[..GroupEnd(offset)]) && Pending(k, block[GroupEnd(offset)..offset])
  }

  /** Shifts one more byte in; every third one completes a group of four characters. */
  method EncodeByte(table: seq<char>, offset: nat, c: byte, payload0: string, k0: i32, ghost block: seq<byte>)
    returns (payload: string, k: i32)
    requires |table| == 64 && forall i | 0 <= i < 64 :: table[i] == Code(i)
    requires Partway(block, offset, payload0, k0) && offset < |block| && c == block[offset]
    ensures Partway(block, offset + 1, payload, k)
  {
    ghost var start := GroupEnd(offset);
    ghost var done, pending := block[..start], block[start..offset];
    payload := payload0;
    k := Wrap(k0 * 0x100 + c);
    PendingStep(k0, pending, c);
    SliceGrows(block, start, offset);
    NextGroupEnd(offset);
    if offset % 3 == 2 {
      var quad := LookUp(table, k);
      EncodesMore(payload0, done, pending, c, k, quad);
      JoinSlices(block, 0, start, offset + 1);
      payload := payload0 + quad;
    }
  }

  lemma SliceGrows(block: seq<byte>, start: nat, offset: nat)
    requires start <= offset < |block|
    ensures block[start..offset] + [block[offset]] == block[start..offset + 1]
  {
  }

  method EncodePayload(image: seq<byte>, from: nat, table: seq<char>, k0: i32, crc0: u32)
    returns (payload: string, k: i32, crc: u32)
    requires from + LINE_BYTES <= |image|
    requires |table| == 64 && forall i | 0 <= i < 64 :: table[i] == Code(i)
    requires crc0 + 255 * LINE_BYTES < WORD
    ensures Encodes(payload, image[from..from + LINE_BYTES]) && |payload| == 60
    ensures crc == crc0 + Sum(image[from..from + LINE_BYTES])
  {
    k, crc, payload := k0, crc0, "";
    var offset := 0;
    ghost var block := image[from..from + LINE_BYTES];
    while offset < LINE_BYTES
      invariant Partway(block, offset, payload, k)
      invariant crc == crc0 + Sum(block[..offset])
    {
      TakeOneMore(block, offset);
      crc := AddToChecksum(crc, image[from + offset], crc0, block[..offset]);
      payload, k := EncodeByte(table, offset, image[from + offset], payload, k, block);
      offset := offset + 1;
    }
    assert block[..offset] == block;
  }

  predicate Encodes(payload: string, bytes: seq<byte>)
  {
    && |payload| % 4 == 0 && DecodePayload(payload) == bytes
    && forall i | 0 <= i < |payload| :: IsCode(payload[i])
  }

  lemma EncodesMore(payload: string, done: seq<byte>, pending: seq<byte>, c: byte, k: i32, quad: string)
    requires Encodes(payload, done) && |pending| == 2
    requires k % 0x100_0000 == BigEndian(pending[0], pending[1], c)
    requires quad == QuadOf(k)
    ensures Encodes(payload + quad, done + (pending + [c]))
  {
    QuadDecodes(k, quad, pending[0], pending[1], c);
    PayloadSnoc(payload, quad);
  }

  method LookUp(table: seq<char>, k: i32) returns (quad: string)
    requires |table| == 64 && forall i | 0 <= i < 64 :: table[i] == Code(i)
    ensures quad == QuadOf(k)
  {
    quad := [table[k / 0x4_0000 % 64], table[k / 0x1000 % 64], table[k / 0x40 % 64], table[k % 64]];
  }

  /** The accumulator ends in the bytes collected since the last complete group of three. */
  predicate Pending(k: i32, collected: seq<byte>)
  {
    && |collected| <= 2
    && (|collected| == 1 ==> k % 0x100 == collected[0])
    && (|collected| == 2 ==> k % 0x1_0000 == BigEndian(0, collected[0], collected[1]))
  }

  lemma PendingStep(k: i32, collected: seq<byte>, c: byte)
    requires Pending(k, collected)
    ensures var k' := Wrap(k * 0x100 + c);
            if |collected| < 2 then Pending(k', collected + [c])
            else k' % 0x100_0000 == BigEndian(collected[0], collected[1], c)
  {
    ShiftIn(k, c);
  }

  method AddToChecksum(crc: u32, c: byte, ghost crc0: nat, ghost sent: seq<byte>) returns (crc': u32)
    requires crc == crc0 + Sum(sent) && |sent| < LINE_BYTES && crc0 + 255 * LINE_BYTES < WORD
    ensures crc' == crc0 + Sum(sent + [c])
  {
    assert (sent + [c])[..|sent|] == sent;
    SumBound(sent + [c]);
    crc' := crc + c;
  }
}
