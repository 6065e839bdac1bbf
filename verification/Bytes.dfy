/** Bytes, machine words and the few facts about them that the other modules share. */
module Bytes {

  type byte = x: int | 0 <= x < 256
  type u32 = x: int | 0 <= x < 0x1_0000_0000

  datatype Option<T> = None | Some(value: T)

  const BLANK: byte := 0xFF
  const BYTE_BITS: nat := 8
  const WORD: int := 0x1_0000_0000

  /** Unsigned 32-bit arithmetic. */
  function Mod32(x: int): u32
  {
    x % 0x1_0000_0000
  }

  /** The largest number that `bits` bits hold. */
  function Ones(bits: nat): (r: nat)
  {
    if bits == 0 then 0 else 2 * Ones(bits - 1) + 1
  }

  /** Bitwise AND of the low `bits` bits. */
  function AndBits(a: nat, b: nat, bits: nat): (r: nat)
    ensures r <= Ones(bits)
  {
    if bits == 0 then 0 else 2 * AndBits(a / 2, b / 2, bits - 1) + (if a % 2 == 1 && b % 2 == 1 then 1 else 0)
  }

  lemma OnesOfByte()
    ensures Ones(BYTE_BITS) == 255
  {
    assert Ones(2) == 3;
    assert Ones(4) == 15;
    assert Ones(6) == 63;
  }

  function And(a: byte, b: byte): byte
  {
    OnesOfByte();
    AndBits(a, b, BYTE_BITS)
  }

  lemma {:induction false} AndOnes(b: nat, bits: nat)
    requires b <= Ones(bits)
    ensures AndBits(Ones(bits), b, bits) == b
  {
    if bits > 0 {
      AndOnes(b / 2, bits - 1);
    }
  }

  /** Programming an erased cell stores the byte itself. */
  lemma AndBlank(b: byte)
    ensures And(BLANK, b) == b
  {
    OnesOfByte();
    AndOnes(b, BYTE_BITS);
  }

  function Sum(s: seq<byte>): nat
  {
    if s == [] then 0 else Sum(s[..|s| - 1]) + s[|s| - 1]
  }

  lemma {:induction false} SumConcat(s: seq<byte>, t: seq<byte>)
    ensures Sum(s + t) == Sum(s) + Sum(t)
  {
    if t == [] {
      assert s + t == s;
    } else {
      assert (s + t)[..|s + t| - 1] == s + t[..|t| - 1];
      SumConcat(s, t[..|t| - 1]);
    }
  }

  lemma {:induction false} SumBound(s: seq<byte>)
    ensures Sum(s) <= 255 * |s|
  {
    if s != [] {
      SumBound(s[..|s| - 1]);
    }
  }

  function LittleEndian(a: int, b: int, c: int, d: int): int
  {
    a + 0x100 * b + 0x1_0000 * c + 0x100_0000 * d
  }

  lemma DigitUnique(m: nat, low: nat, high: nat, low': nat, high': nat)
    requires low < m && low' < m && low + m * high == low' + m * high'
    ensures low == low' && high == high'
  {
    DivModUnique(low + m * high, m, high, low);
    DivModUnique(low' + m * high', m, high', low');
  }

  lemma LittleEndianUnique(a: byte, b: byte, c: byte, d: byte, a': byte, b': byte, c': byte, d': byte)
    requires LittleEndian(a, b, c, d) == LittleEndian(a', b', c', d')
    ensures a == a' && b == b' && c == c' && d == d'
  {
    DigitUnique(0x100_0000, LittleEndian(a, b, c, 0), d, LittleEndian(a', b', c', 0), d');
    DigitUnique(0x1_0000, LittleEndian(a, b, 0, 0), c, LittleEndian(a', b', 0, 0), c');
    DigitUnique(0x100, a, b, a', b');
  }

  /** `value` shifted right by `i` bytes. */
  function Shifted(value: u32, i: nat): nat
  {
    if i == 0 then value else if i == 1 then value / 0x100 else if i == 2 then value / 0x1_0000
    else if i == 3 then value / 0x100_0000 else 0
  }

  lemma LittleEndianJoin(value: u32)
    ensures LittleEndian(Shifted(value, 0) % 0x100, Shifted(value, 1) % 0x100,
                         Shifted(value, 2) % 0x100, Shifted(value, 3) % 0x100) == value
  {
    var b, c, d := value / 0x100, value / 0x1_0000, value / 0x100_0000;
    assert b / 0x100 == c && c / 0x100 == d && d < 0x100;
  }

  function BigEndian(a: int, b: int, c: int): int
  {
    a * 0x1_0000 + b * 0x100 + c
  }

  lemma Associate<T>(a: seq<T>, b: seq<T>, c: seq<T>)
    ensures (a + b) + c == a + (b + c)
    ensures a == [] ==> a + b == b
    ensures b == [] ==> b + c == c
  {
  }

  lemma TwoMore<T>(x: T, y: T, rest: seq<T>)
    ensures [x, y] + rest == [x] + ([y] + rest)
  {
  }

  lemma JoinSlices<T>(data: seq<T>, a: nat, b: nat, c: nat)
    requires a <= b <= c <= |data|
    ensures data[a..b] + data[b..c] == data[a..c]
  {
  }

  /** One element in the middle of nested concatenations, singled out. */
  lemma SingleOut<T>(a: seq<T>, b: seq<T>, h: seq<T>, f: seq<T>, c: T, x: seq<T>, r: seq<T>, k: seq<T>)
    ensures a + (b + ((h + (((f + [c]) + x) + r)) + k)) == (((a + b) + h) + f) + ([c] + (x + (r + k)))
  {
    Associate(f, [c], x);
    Associate(f, [c] + x, r);
    Associate([c], x, r);
    Associate(h, f + ([c] + (x + r)), k);
    Associate(f, [c] + (x + r), k);
    Associate([c], x + r, k);
    Associate(x, r, k);
    var tail := [c] + (x + (r + k));
    Associate(a, b, h + (f + tail));
    Associate(a + b, h, f + tail);
    Associate((a + b) + h, f, tail);
  }

  lemma TakeOneMore<T>(s: seq<T>, n: nat)
    requires n < |s|
    ensures s[..n] + [s[n]] == s[..n + 1]
  {
  }

  lemma MulMono(m: nat, a: int, b: int)
    requires a <= b
    ensures m * a <= m * b
  {
    assert m * (b - a) >= 0;
  }

  /** Two multiples of `m` that differ lie at least `m` apart. */
  lemma MultiplesApart(a: nat, b: nat, m: nat)
    requires 0 < m && a % m == 0 && b % m == 0 && a < b
    ensures a + m <= b
  {
    var p, q := a / m, b / m;
    if q <= p {
      MulMono(m, q, p);
    } else {
      MulMono(m, p + 1, q);
    }
  }

  lemma DivModUnique(x: int, m: nat, q: int, r: nat)
    requires 0 < m && r < m && x == m * q + r
    ensures x / m == q && x % m == r
  {
    var q' := x / m;
    if q > q' {
      MulMono(m, q' + 1, q);
    } else if q < q' {
      MulMono(m, q + 1, q');
    }
  }

  predicate WordAligned(a: int)
  {
    a % 4 == 0
  }

  /** A multiple of a multiple. */
  lemma Multiple(a: nat, m: nat, d: nat)
    requires 0 < m && 0 < d && a % m == 0 && m % d == 0
    ensures a % d == 0
  {
    var q, r := a / m, m / d;
    assert a == m * q && m == d * r;
    assert a == d * (r * q);
    DivModUnique(a, d, r * q, 0);
  }

  lemma SumMultiple(a: nat, b: nat, m: nat)
    requires 0 < m && a % m == 0 && b % m == 0
    ensures (a + b) % m == 0
  {
    DivModUnique(a + b, m, a / m + b / m, 0);
  }

  lemma NextMultiple(a: nat, m: nat)
    requires 0 < m && a % m == 0
    ensures (a + m) % m == 0
  {
    DivModUnique(a + m, m, a / m + 1, 0);
  }
}
