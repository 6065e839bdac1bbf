/** Intel HEX records ("Hexadecimal Object File Format Specification", Rev. A, 1988): what a line
    means, which lines are accepted, and the printed form of a record. */
module HexRecord {
  import opened Bytes

  const OVERHEAD: nat := 5   // count, two offset bytes, type and checksum

  predicate IsHexDigit(c: char)
  {
    '0' <= c <= '9' || 'A' <= c <= 'F'
  }

  /** A non-blank line of upper-case hexadecimal digits, apart from its first character. */
  predicate HexLine(line: string)
  {
    line != [] && forall i | 1 <= i < |line| :: IsHexDigit(line[i])
  }

  function AsciiToInt(c: char): (r: nat)
    requires IsHexDigit(c)
    ensures r < 16
  {
    if c >= 'A' then (c as int - 'A' as int) + 10 else c as int - '0' as int
  }

  function HexToInt(h: string, at: nat): (r: byte)
    requires HexLine(h) && 1 <= at && at + 2 <= |h|
  {
    AsciiToInt(h[at]) * 0x10 + AsciiToInt(h[at + 1])
  }

  function LongHexToInt(h: string, at: nat): (r: nat)
    requires HexLine(h) && 1 <= at && at + 4 <= |h|
    ensures r < 0x1_0000
  {
    HexToInt(h, at) * 0x100 + HexToInt(h, at + 2)
  }

  // ---------------------------------------------------------------- what a line says

  /** The bytes after the colon. */
  function LineBytes(line: string): (s: seq<byte>)
    requires HexLine(line)
    ensures |s| == (|line| - 1) / 2
    ensures forall i | 0 <= i < |s| :: s[i] == HexToInt(line, 1 + 2 * i)
  {
    seq((|line| - 1) / 2, i requires 0 <= i < (|line| - 1) / 2 => HexToInt(line, 1 + 2 * i))
  }

  /** A colon and `count + 5` bytes, the first of them the count, whose sum vanishes modulo 256. */
  predicate Accepted(line: string)
    requires HexLine(line)
  {
    && line[0] == ':' && |line| % 2 == 1
    && var s := LineBytes(line);
       |s| >= OVERHEAD && |s| == s[0] + OVERHEAD && Sum(s) % 256 == 0
  }

  datatype Record = Record(offset: nat, kind: byte, data: seq<byte>)

  predicate Representable(r: Record)
  {
    r.offset < 0x1_0000 && |r.data| < 256
  }

  function ReadRecord(line: string): (r: Record)
    requires HexLine(line) && Accepted(line)
    ensures Representable(r)
  {
    var s := LineBytes(line);
    Record(BigEndian(0, s[1], s[2]), s[3], s[4..|s| - 1])
  }

  // ---------------------------------------------------------------- the acceptor

  /** The sum of the byte pairs that start at 1, 3, and so on, below `n`. */
  function PairSum(line: string, n: nat): nat
    requires HexLine(line) && n < |line|
  {
    if n <= 1 then 0
    else if n % 2 == 0 then PairSum(line, n - 1) + HexToInt(line, n - 1)
    else PairSum(line, n - 1)
  }

  method CheckSum(line: string) returns (ok: bool)
    requires HexLine(line) && |line| >= 11
    ensures ok <==> HexToInt(line, |line| - 2) == (0x100 - PairSum(line, |line| - 2)) % 256
  {
    var sum := HexToInt(line, |line| - 2);
    var cal, i := 0, 1;
    while i < |line| - 2
      invariant i % 2 == 1 && 1 <= i <= |line| - 1
      invariant cal == PairSum(line, i)
    {
      cal := cal + HexToInt(line, i);
      PairSumStep(line, i);
      i := i + 2;
    }
    assert i == |line| - 2 || (i == |line| - 1 && PairSum(line, i) == PairSum(line, |line| - 2));
    ok := sum == (0x100 - cal) % 256;
  }

  lemma PairSumStep(line: string, i: nat)
    requires HexLine(line) && i % 2 == 1 && i + 2 < |line|
    ensures PairSum(line, i + 2) == PairSum(line, i + 1) == PairSum(line, i) + HexToInt(line, i)
  {
  }

  lemma {:induction false} PairSumIsSum(line: string, s: seq<byte>, n: nat)
    requires HexLine(line) && 1 + 2 * n < |line| && n <= |s|
    requires forall i | 0 <= i < n :: s[i] == HexToInt(line, 1 + 2 * i)
    ensures PairSum(line, 1 + 2 * n) == Sum(s[..n])
  {
    hide HexToInt;
    if n > 0 {
      PairSumIsSum(line, s, n - 1);
      PairSumStep(line, 2 * n - 1);
      TakeOneMore(s, n - 1);
      SumOne(s[..n - 1], s[n - 1]);
    }
  }

  lemma SumOne(s: seq<byte>, b: byte)
    ensures Sum(s + [b]) == Sum(s) + b
  {
    assert (s + [b])[..|s|] == s;
  }

  lemma ChecksumMeans(x: byte, rest: nat)
    ensures x == (0x100 - rest) % 256 <==> (rest + x) % 256 == 0
  {
  }

  /** Accepts exactly the well-formed lines. */
  method CheckHexLine(line: string) returns (ok: bool)
    requires HexLine(line)
    ensures ok <==> Accepted(line)
  {
    if line[0] != ':' || |line| < 11 {
      return false;
    }
    var sumOk := CheckSum(line);
    if !sumOk || HexToInt(line, 1) * 2 + 11 != |line| {
      CountAndSum(line);
      return false;
    }
    CountAndSum(line);
    ok := true;
  }

  lemma CountAndSum(line: string)
    requires HexLine(line) && |line| >= 11
    ensures |line| % 2 == 1 ==>
              (HexToInt(line, |line| - 2) == (0x100 - PairSum(line, |line| - 2)) % 256
               <==> Sum(LineBytes(line)) % 256 == 0)
    ensures |LineBytes(line)| >= OVERHEAD && LineBytes(line)[0] == HexToInt(line, 1)
    ensures HexToInt(line, 1) * 2 + 11 == |line|
       <==> |line| % 2 == 1 && |LineBytes(line)| == HexToInt(line, 1) + OVERHEAD
  {
    hide PairSum;
    var s := LineBytes(line);
    var n := |s| - 1;
    if |line| % 2 == 1 {
      PairSumIsSum(line, s, n);
      assert s[..|s| - 1] == s[..n] && s[n] == HexToInt(line, 1 + 2 * n);
      ChecksumMeans(s[n], Sum(s[..n]));
    }
  }

  // ---------------------------------------------------------------- printing

  function HexDigit(v: nat): (c: char)
    requires v < 16
    ensures IsHexDigit(c) && AsciiToInt(c) == v
  {
    if v < 10 then '0' + v as char else 'A' + (v - 10) as char
  }

  function Hex(s: seq<byte>): (h: string)
    ensures |h| == 2 * |s| && forall i | 0 <= i < |h| :: IsHexDigit(h[i])
  {
    if s == [] then [] else Hex(s[..|s| - 1]) + [HexDigit(s[|s| - 1] / 16), HexDigit(s[|s| - 1] % 16)]
  }

  function Complement(sum: nat): byte
  {
    (256 - sum % 256) % 256
  }

  function RecordBytes(r: Record): (s: seq<byte>)
    requires Representable(r)
  {
    var body := [|r.data|, r.offset / 0x100, r.offset % 0x100, r.kind] + r.data;
    body + [Complement(Sum(body))]
  }

  function PrintRecord(r: Record): (line: string)
    requires Representable(r)
    ensures HexLine(line)
  {
    ":" + Hex(RecordBytes(r))
  }

  lemma {:induction false} HexReads(s: seq<byte>, i: nat)
    requires i < |s|
    ensures HexToInt(":" + Hex(s), 1 + 2 * i) == s[i]
  {
    var last := |s| - 1;
    var line := ":" + Hex(s);
    if i == last {
      assert line[1 + 2 * i] == HexDigit(s[last] / 16) && line[2 + 2 * i] == HexDigit(s[last] % 16);
    } else {
      HexReads(s[..last], i);
      var shorter := ":" + Hex(s[..last]);
      assert line[1 + 2 * i] == shorter[1 + 2 * i] && line[2 + 2 * i] == shorter[2 + 2 * i];
    }
  }

  lemma HexLineBytes(s: seq<byte>)
    ensures LineBytes(":" + Hex(s)) == s
  {
    forall i | 0 <= i < |s|
      ensures LineBytes(":" + Hex(s))[i] == s[i]
    {
      HexReads(s, i);
    }
  }

  lemma ComplementSum(sum: nat)
    ensures (sum + Complement(sum)) % 256 == 0
  {
  }

  /** Every printed record is accepted, and read back field by field. */
  lemma PrintReads(r: Record)
    requires Representable(r)
    ensures Accepted(PrintRecord(r)) && ReadRecord(PrintRecord(r)) == r
  {
    hide Hex;
    var s := RecordBytes(r);
    var body := s[..|s| - 1];
    HexLineBytes(s);
    assert body == [|r.data|, r.offset / 0x100, r.offset % 0x100, r.kind] + r.data;
    ComplementSum(Sum(body));
    assert s[4..|s| - 1] == r.data;
  }

  lemma {:induction false} HexUnique(line: string, s: seq<byte>)
    requires HexLine(line) && |line| == 1 + 2 * |s| && line[0] == ':'
    requires forall i | 0 <= i < |s| :: HexToInt(line, 1 + 2 * i) == s[i]
    ensures line == ":" + Hex(s)
  {
    hide HexDigit;
    if s != [] {
      var last := |s| - 1;
      var shorter := line[..|line| - 2];
      forall i | 0 <= i < last
        ensures HexToInt(shorter, 1 + 2 * i) == s[..last][i]
      {
        assert HexToInt(line, 1 + 2 * i) == s[i];
      }
      HexUnique(shorter, s[..last]);
      DigitsOf(line[1 + 2 * last], line[2 + 2 * last]);
      assert HexToInt(line, 1 + 2 * last) == s[last];
      assert line == shorter + [line[1 + 2 * last], line[2 + 2 * last]];
    } else {
      assert line == ":";
    }
  }

  lemma DigitsOf(a: char, b: char)
    requires IsHexDigit(a) && IsHexDigit(b)
    ensures var v := AsciiToInt(a) * 0x10 + AsciiToInt(b); HexDigit(v / 16) == a && HexDigit(v % 16) == b
  {
    DivModUnique(AsciiToInt(a) * 0x10 + AsciiToInt(b), 16, AsciiToInt(a), AsciiToInt(b));
  }

  lemma ComplementUnique(sum: nat, x: byte)
    requires (sum + x) % 256 == 0
    ensures x == Complement(sum)
  {
  }

  lemma BytesReadBack(s: seq<byte>, r: Record)
    requires |s| >= OVERHEAD && |s| == s[0] + OVERHEAD && Sum(s) % 256 == 0
    requires r == Record(BigEndian(0, s[1], s[2]), s[3], s[4..|s| - 1])
    ensures Representable(r) && s == RecordBytes(r)
  {
    var body := s[..|s| - 1];
    DivModUnique(r.offset, 0x100, s[1], s[2]);
    assert body == [|r.data|, r.offset / 0x100, r.offset % 0x100, r.kind] + r.data;
    ComplementUnique(Sum(body), s[|s| - 1]);
    assert s == body + [s[|s| - 1]];
  }

  /** The accepted lines are exactly the printed records. */
  lemma AcceptedIsPrinted(line: string)
    requires HexLine(line) && Accepted(line)
    ensures PrintRecord(ReadRecord(line)) == line
  {
    var s := LineBytes(line);
    BytesReadBack(s, ReadRecord(line));
    HexUnique(line, s);
  }

  // ---------------------------------------------------------------- damaged lines

  lemma {:induction false} SumOneChanged(s: seq<byte>, t: seq<byte>, i: nat)
    requires |s| == |t| && i < |s| && forall j | 0 <= j < |s| && j != i :: s[j] == t[j]
    ensures Sum(t) + s[i] == Sum(s) + t[i]
  {
    var last := |s| - 1;
    if i == last {
      assert s[..last] == t[..last];
    } else {
      SumOneChanged(s[..last], t[..last], i);
    }
  }

  lemma DifferentResidue(a: nat, b: nat)
    requires a % 256 == 0 && a != b && -256 < b - a < 256
    ensures b % 256 != 0
  {
  }

  /** A line that differs from an accepted one in the value of exactly one byte is rejected. */
  lemma OneByteChanged(line: string, line': string, i: nat)
    requires HexLine(line) && HexLine(line') && |line'| == |line|
    requires Accepted(line) && i < |LineBytes(line)|
    requires LineBytes(line')[i] != LineBytes(line)[i]
    requires forall j | 0 <= j < |LineBytes(line)| && j != i :: LineBytes(line')[j] == LineBytes(line)[j]
    ensures !Accepted(line')
  {
    var s, t := LineBytes(line), LineBytes(line');
    SumOneChanged(s, t, i);
    DifferentResidue(Sum(s), Sum(t));
  }
}
