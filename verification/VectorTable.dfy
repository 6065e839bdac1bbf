/** The boot ROM's vector table: eight little-endian words whose sum has to vanish. */
module VectorTable {
  import opened Bytes

  const VECTOR_BYTES: nat := 32
  const VECTOR_WORDS: nat := 8

  function Word(s: seq<byte>, at: nat): nat
    requires at + 4 <= |s|
  {
    LittleEndian(s[at], s[at + 1], s[at + 2], s[at + 3])
  }

  function SumWords(s: seq<byte>, words: nat): nat
    requires 4 * words <= |s|
  {
    if words == 0 then 0 else SumWords(s, words - 1) + Word(s, 4 * (words - 1))
  }

  /** What the boot ROM computes; it starts the program only when this is 0. */
  function VectorSum(s: seq<byte>): u32
    requires VECTOR_BYTES <= |s|
  {
    Mod32(SumWords(s, VECTOR_WORDS))
  }

  predicate SameExceptWord(s: seq<byte>, t: seq<byte>, at: nat)
  {
    |s| == |t| && forall i | 0 <= i < |s| && !(at <= i < at + 4) :: s[i] == t[i]
  }

  lemma SameExceptTwice(s: seq<byte>, t: seq<byte>, u: seq<byte>, at: nat)
    requires SameExceptWord(s, t, at) && SameExceptWord(t, u, at)
    ensures SameExceptWord(s, u, at)
  {
  }

  lemma {:induction false} SumWordsUpdate(s: seq<byte>, t: seq<byte>, words: nat, w: nat)
    requires 4 * words <= |s| && 4 * w + 4 <= |s| && SameExceptWord(s, t, 4 * w)
    ensures SumWords(t, words) - SumWords(s, words) ==
            if w < words then Word(t, 4 * w) - Word(s, 4 * w) else 0
  {
    if words > 0 {
      SumWordsUpdate(s, t, words - 1, w);
    }
  }

  lemma {:induction false} SumWordsPrefix(s: seq<byte>, t: seq<byte>, words: nat)
    requires 4 * words <= |s| && 4 * words <= |t|
    requires forall i | 0 <= i < 4 * words :: s[i] == t[i]
    ensures SumWords(s, words) == SumWords(t, words)
  {
    if words > 0 {
      SumWordsPrefix(s, t, words - 1);
    }
  }

  lemma VectorSumPrefix(s: seq<byte>, t: seq<byte>)
    requires VECTOR_BYTES <= |s| && VECTOR_BYTES <= |t|
    requires forall i | 0 <= i < VECTOR_BYTES :: s[i] == t[i]
    ensures VectorSum(s) == VectorSum(t)
  {
    SumWordsPrefix(s, t, VECTOR_WORDS);
  }

  /** An erased table is invalid. */
  lemma BlankVectorInvalid(s: seq<byte>)
    requires VECTOR_BYTES <= |s| && forall i | 0 <= i < VECTOR_BYTES :: s[i] == BLANK
    ensures VectorSum(s) == WORD - 8
  {
    BlankWords(s, VECTOR_WORDS);
  }

  lemma {:induction false} BlankWords(s: seq<byte>, words: nat)
    requires 4 * words <= |s| && forall i | 0 <= i < 4 * words :: s[i] == BLANK
    ensures SumWords(s, words) == words * (WORD - 1)
  {
    if words > 0 {
      BlankWords(s, words - 1);
    }
  }

  lemma SameResidue(x: nat, y: nat)
    requires Mod32(x) == Mod32(y) && -0x1_0000_0000 < y - x < 0x1_0000_0000
    ensures x == y
  {
    var p, q := x / 0x1_0000_0000, y / 0x1_0000_0000;
    assert y - x == 0x1_0000_0000 * (q - p);
  }

  /** If only word `w` differs and the sums agree, the words agree. */
  lemma SameWord(s: seq<byte>, t: seq<byte>, words: nat, w: nat)
    requires w < words && 4 * words <= |s| && SameExceptWord(s, t, 4 * w)
    requires Mod32(SumWords(s, words)) == Mod32(SumWords(t, words))
    ensures Word(s, 4 * w) == Word(t, 4 * w)
  {
    SumWordsUpdate(s, t, words, w);
    SameResidue(SumWords(s, words), SumWords(t, words));
  }

  /** A table holds one word at a time that makes its sum vanish: two tables that differ in that
      word at most and are both valid are the same table. Patching twice is patching once. */
  lemma PatchUnique(s: seq<byte>, t: seq<byte>, at: nat)
    requires at == 0x14 || at == 0x1C
    requires VECTOR_BYTES <= |s| && SameExceptWord(s, t, at)
    requires VectorSum(s) == 0 && VectorSum(t) == 0
    ensures s == t
  {
    hide Mod32, SumWords;
    var words := VECTOR_WORDS;
    SameWord(s, t, words, at / 4);
    LittleEndianUnique(s[at], s[at + 1], s[at + 2], s[at + 3], t[at], t[at + 1], t[at + 2], t[at + 3]);
  }

  /** `unsigned long` addition. */
  function Add(crc: u32, x: int): u32
  {
    Mod32(crc + x)
  }

  function Times(b: nat, place: nat): nat
  {
    if place == 0 then b else if place == 1 then 0x100 * b else if place == 2 then 0x1_0000 * b else 0x100_0000 * b
  }

  /** Adds one byte, shifted to its place. `wraps` counts how often the sum has wrapped so far. */
  method AddByte(crc0: u32, b: byte, place: nat, ghost wraps0: nat) returns (crc: u32, ghost wraps: nat)
    ensures crc + 0x1_0000_0000 * wraps == crc0 + 0x1_0000_0000 * wraps0 + Times(b, place)
  {
    crc, wraps := Add(crc0, Times(b, place)), wraps0 + (crc0 + Times(b, place)) / 0x1_0000_0000;
  }

  method ClearWord(content: array<byte>, at: nat)
    requires at + 4 <= content.Length
    modifies content
    ensures SameExceptWord(old(content[..]), content[..], at) && Word(content[..], at) == 0
  {
    for i := 0 to 4
      invariant forall p | 0 <= p < content.Length && !(at <= p < at + 4) :: content[p] == old(content[p])
      invariant forall p | at <= p < at + i :: content[p] == 0
    {
      content[at + i] := 0;
    }
  }

  /** Four bytes, each in its place, are one word. */
  lemma FourPlaces(s: seq<byte>, i: nat)
    requires i + 4 <= |s|
    ensures Times(s[i], 0) + Times(s[i + 1], 1) + Times(s[i + 2], 2) + Times(s[i + 3], 3) == Word(s, i)
  {
  }

  /** One turn of the summing loop: four bytes. */
  method AddNextWord(content: array<byte>, i0: nat, crc0: u32, ghost wraps0: nat)
    returns (i: nat, crc: u32, ghost wraps: nat)
    requires i0 + 4 <= content.Length
    ensures i == i0 + 4
    ensures crc + 0x1_0000_0000 * wraps == crc0 + 0x1_0000_0000 * wraps0 + Word(content[..], i0)
  {
    FourPlaces(content[..], i0);
    i := i0;
    crc, wraps := AddByte(crc0, content[i], 0, wraps0);
    i := i + 1;
    crc, wraps := AddByte(crc, content[i], 1, wraps);
    i := i + 1;
    crc, wraps := AddByte(crc, content[i], 2, wraps);
    i := i + 1;
    crc, wraps := AddByte(crc, content[i], 3, wraps);
    i := i + 1;
  }

  method SumVector(content: array<byte>) returns (crc: u32)
    requires VECTOR_BYTES <= content.Length
    ensures crc == VectorSum(content[..])
  {
    ghost var words, wraps := 0, 0;
    var i := 0;
    crc := 0;
    while i < 4 * VECTOR_WORDS
      invariant i == 4 * words && words <= VECTOR_WORDS
      invariant crc + 0x1_0000_0000 * wraps == SumWords(content[..], words)
    {
      i, crc, wraps := AddNextWord(content, i, crc, wraps);
      words := words + 1;
    }
    DivModUnique(SumWords(content[..], words), 0x1_0000_0000, wraps, crc);
  }

  method StoreWord(content: array<byte>, at: nat, value: u32)
    requires at + 4 <= content.Length
    modifies content
    ensures SameExceptWord(old(content[..]), content[..], at) && Word(content[..], at) == value
  {
    for i := 0 to 4
      invariant forall p | 0 <= p < content.Length && !(at <= p < at + 4) :: content[p] == old(content[p])
      invariant forall p | 0 <= p < i :: content[at..at + 4][p] == Shifted(value, p) % 0x100
    {
      content[at + i] := Shifted(value, i) % 0x100;
    }
    ghost var w := content[at..at + 4];
    assert w[0] == content[at] && w[1] == content[at + 1] && w[2] == content[at + 2] && w[3] == content[at + 3];
    LittleEndianJoin(value);
  }

  /** The two's complement. */
  function Negated(crc: u32): (r: u32)
    ensures crc == 0 ==> r == 0
    ensures crc > 0 ==> r == 0x1_0000_0000 - crc
  {
    Mod32(0 - crc)
  }

  lemma NegatedSum(cleared: seq<byte>, patched: seq<byte>, at: nat)
    requires at == 0x14 || at == 0x1C
    requires VECTOR_BYTES <= |cleared| && SameExceptWord(cleared, patched, at)
    requires Word(cleared, at) == 0 && Word(patched, at) == Negated(VectorSum(cleared))
    ensures VectorSum(patched) == 0
  {
    ghost var words := VECTOR_WORDS;
    SumWordsUpdate(cleared, patched, words, at / 4);
    NegatedResidue(SumWords(cleared, words), Word(patched, at));
  }

  lemma NegatedResidue(sum: nat, w: nat)
    requires w == Negated(Mod32(sum))
    ensures Mod32(sum + w) == 0
  {
    var q, r := sum / 0x1_0000_0000, Mod32(sum);
    DivModUnique(sum + w, 0x1_0000_0000, if r == 0 then q else q + 1, 0);
  }

  /** Patches the checksum word at `at` in place. */
  method PatchVector(content: array<byte>, at: nat)
    requires at == 0x14 || at == 0x1C
    requires VECTOR_BYTES <= content.Length
    modifies content
    ensures SameExceptWord(old(content[..]), content[..], at)
    ensures VectorSum(content[..]) == 0
  {
    ghost var image := content[..];
    ClearWord(content, at);
    ghost var cleared := content[..];
    var crc := SumVector(content);
    crc := Negated(crc);
    StoreWord(content, at, crc);
    NegatedSum(cleared, content[..], at);
    SameExceptTwice(image, cleared, content[..], at);
  }
}
