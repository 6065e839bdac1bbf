/** The commands as text: how the programmer prints them and how a bootloader reads them. */
module Commands {
  import opened Bytes
  import opened Text
  import opened Device
  import opened Plan

  // ---------------------------------------------------------------- printing

  function BankWords(row: Row): seq<string>
  {
    if Banked(row.variant) then ["0"] else []
  }

  /** A letter and its numbers. */
  function CommandWords(row: Row, op: Op): (words: seq<string>)
    ensures words != []
  {
    match op
    case Prepare(first, last) => ["P", Decimal(first), Decimal(last)] + BankWords(row)
    case Erase(first, last) => ["E", Decimal(first), Decimal(last)] + BankWords(row)
    case Write(addr, size) => ["W", Decimal(addr), Decimal(size)]
    case Copy(dst, src, count) => ["C", Decimal(dst), Decimal(src), Decimal(count)]
    case Compare(dst, src, span) => ["M", Decimal(dst), Decimal(src), Decimal(span)]
    case SetBank => ["S", "0"]
    case Data(_) => [""]
  }

  function Join(words: seq<string>): string
    requires words != []
  {
    if |words| == 1 then words[0] else words[0] + (" " + Join(words[1..]))
  }

  function CommandBody(row: Row, op: Op): string
  {
    Join(CommandWords(row, op))
  }

  function CommandText(row: Row, op: Op): string
  {
    CommandBody(row, op) + "\r\n"
  }

  /** Numbers are printed from 32-bit variables. */
  predicate Printable(op: Op)
  {
    match op
    case Prepare(first, last) => first < WORD && last < WORD
    case Erase(first, last) => first < WORD && last < WORD
    case Write(addr, size) => addr < WORD && size < WORD
    case Copy(dst, src, count) => dst < WORD && src < WORD && count < WORD
    case Compare(dst, src, span) => dst < WORD && src < WORD && -WORD < span < WORD
    case SetBank => true
    case Data(_) => false
  }

  function Pow10(d: nat): nat
  {
    if d == 0 then 1 else 10 * Pow10(d - 1)
  }

  lemma {:induction false} DigitsShort(n: nat, d: nat)
    requires 1 <= d && n < Pow10(d)
    ensures |Digits(n)| <= d
  {
    assert Pow10(1) == 10 * Pow10(0);
    if n >= 10 {
      DigitsShort(n / 10, d - 1);
    }
  }

  /** A word of a command: no spaces, no line breaks, and short. */
  predicate Plain(word: string)
  {
    ' ' !in word && NoBreaks(word) && '\0' !in word && 0 < |word| <= 11
  }

  lemma DecimalPlain(n: int)
    requires -WORD < n < WORD
    ensures Plain(Decimal(n))
  {
    assert Pow10(10) == 100 * Pow10(8) && Pow10(8) == 100 * Pow10(6) && Pow10(6) == 100 * Pow10(4) && Pow10(4) == 10000;
    DigitsShort(if n < 0 then -n else n, 10);
  }

  lemma WordsPlain(row: Row, op: Op)
    requires Printable(op)
    ensures |CommandWords(row, op)| <= 4 && forall w | w in CommandWords(row, op) :: Plain(w)
  {
    match op
    case Prepare(first, last) => DecimalPlain(first); DecimalPlain(last);
    case Erase(first, last) => DecimalPlain(first); DecimalPlain(last);
    case Write(addr, size) => DecimalPlain(addr); DecimalPlain(size);
    case Copy(dst, src, count) => DecimalPlain(dst); DecimalPlain(src); DecimalPlain(count);
    case Compare(dst, src, span) => DecimalPlain(dst); DecimalPlain(src); DecimalPlain(span);
    case SetBank =>
  }

  lemma {:induction false} JoinPlain(words: seq<string>)
    requires words != [] && forall w | w in words :: Plain(w)
    ensures NoBreaks(Join(words)) && '\0' !in Join(words) && 0 < |Join(words)| < 12 * |words|
  {
    assert words[0] in words;
    if |words| > 1 {
      JoinPlain(words[1..]);
    }
  }

  lemma CommandPlain(row: Row, op: Op)
    requires Printable(op)
    ensures NoBreaks(CommandBody(row, op)) && CommandBody(row, op) != [] && '\0' !in CommandBody(row, op)
    ensures |CommandBody(row, op)| < 48
  {
    WordsPlain(row, op);
    JoinPlain(CommandWords(row, op));
  }

  // ---------------------------------------------------------------- reading

  /** Where the first word of `s` ends. */
  function SpaceAt(s: string): (n: nat)
    ensures n <= |s| && ' ' !in s[..n] && (n < |s| ==> s[n] == ' ')
  {
    if s == [] || s[0] == ' ' then 0 else 1 + SpaceAt(s[1..])
  }

  function Split(s: string): (words: seq<string>)
    decreases |s|
  {
    var n := SpaceAt(s);
    if n == |s| then [s] else [s[..n]] + Split(s[n + 1..])
  }

  predicate AllDigits(s: string)
  {
    s != [] && forall i | 0 <= i < |s| :: IsDigit(s[i])
  }

  function ReadNumber(s: string): Option<int>
  {
    if AllDigits(s) then Some(Number(s, 0))
    else if s != [] && s[0] == '-' && AllDigits(s[1..]) then Some(0 - Number(s[1..], 0))
    else None
  }

  function ReadNat(s: string): Option<nat>
  {
    match ReadNumber(s)
    case None => None
    case Some(n) => if n < 0 then None else Some(n)
  }

  /** P and E with a first and a last sector, and the bank on devices that have banks; W with an address
      and a length; C with a flash address, a RAM address and a count; M with two addresses and a count;
      S with a bank. */
  function ReadWords(row: Row, words: seq<string>): Option<Op>
  {
    if words == [] then None
    else if words[0] == "P" && |words| == 3 + |BankWords(row)| && words[3..] == BankWords(row) then
      match (ReadNat(words[1]), ReadNat(words[2]))
      case (Some(first), Some(last)) => Some(Prepare(first, last))
      case _ => None
    else if words[0] == "E" && |words| == 3 + |BankWords(row)| && words[3..] == BankWords(row) then
      match (ReadNat(words[1]), ReadNat(words[2]))
      case (Some(first), Some(last)) => Some(Erase(first, last))
      case _ => None
    else if words[0] == "W" && |words| == 3 then
      match (ReadNat(words[1]), ReadNat(words[2]))
      case (Some(addr), Some(size)) => Some(Write(addr, size))
      case _ => None
    else if words[0] == "C" && |words| == 4 then
      match (ReadNat(words[1]), ReadNat(words[2]), ReadNat(words[3]))
      case (Some(dst), Some(src), Some(count)) => Some(Copy(dst, src, count))
      case _ => None
    else if words[0] == "M" && |words| == 4 then
      match (ReadNat(words[1]), ReadNat(words[2]), ReadNumber(words[3]))
      case (Some(dst), Some(src), Some(span)) => Some(Compare(dst, src, span))
      case _ => None
    else if words == ["S", "0"] then Some(SetBank)
    else None
  }

  function ReadCommand(row: Row, line: string): Option<Op>
  {
    if |line| >= 2 && line[|line| - 2..] == "\r\n" then ReadWords(row, Split(line[..|line| - 2])) else None
  }

  lemma {:induction false} SpaceBehind(word: string, rest: string)
    requires ' ' !in word && (rest == [] || rest[0] == ' ')
    ensures SpaceAt(word + rest) == |word|
  {
    if word == [] {
      assert word + rest == rest;
    } else {
      assert word[0] in word && (word + rest)[1..] == word[1..] + rest;
      SpaceBehind(word[1..], rest);
    }
  }

  lemma SplitFirst(word: string, rest: string)
    requires ' ' !in word
    ensures Split(word) == [word]
    ensures Split(word + (" " + rest)) == [word] + Split(rest)
  {
    hide SpaceAt;
    SpaceBehind(word, []);
    assert word + [] == word;
    SpaceBehind(word, " " + rest);
    var s := word + (" " + rest);
    assert s[..|word|] == word && s[|word| + 1..] == rest;
  }

  lemma FirstAndRest<T>(s: seq<T>)
    requires s != []
    ensures [s[0]] + s[1..] == s
  {
  }

  lemma {:induction false} SplitJoin(words: seq<string>)
    requires words != [] && forall w | w in words :: ' ' !in w
    ensures Split(Join(words)) == words
  {
    assert words[0] in words;
    FirstAndRest(words);
    if |words| == 1 {
      SplitFirst(words[0], "");
    } else {
      SplitFirst(words[0], Join(words[1..]));
      SplitJoin(words[1..]);
    }
  }

  lemma ReadDecimal(n: int)
    ensures ReadNumber(Decimal(n)) == Some(n)
  {
    var digits := Digits(if n < 0 then -n else n);
    NumberDigits(if n < 0 then -n else n, []);
    assert digits + [] == digits;
    if n < 0 {
      assert Decimal(n)[1..] == digits && !IsDigit(Decimal(n)[0]);
    }
  }

  lemma ReadsSectors(row: Row, op: Op)
    requires op.Prepare? || op.Erase?
    ensures ReadWords(row, CommandWords(row, op)) == Some(op)
  {
    ReadDecimal(op.first);
    ReadDecimal(op.last);
    var words := CommandWords(row, op);
    assert words[3..] == BankWords(row);
  }

  lemma ReadsAddresses(row: Row, op: Op)
    requires op.Write? || op.Copy? || op.Compare? || op.SetBank?
    ensures ReadWords(row, CommandWords(row, op)) == Some(op)
  {
    match op
    case Write(addr, size) => ReadDecimal(addr); ReadDecimal(size);
    case Copy(dst, src, count) => ReadDecimal(dst); ReadDecimal(src); ReadDecimal(count);
    case Compare(dst, src, span) => ReadDecimal(dst); ReadDecimal(src); ReadDecimal(span);
    case SetBank =>
  }

  lemma ReadsWords(row: Row, op: Op)
    requires !op.Data?
    ensures ReadWords(row, CommandWords(row, op)) == Some(op)
  {
    if op.Prepare? || op.Erase? {
      ReadsSectors(row, op);
    } else {
      ReadsAddresses(row, op);
    }
  }

  /** The printed command reads back as the command itself. */
  lemma CommandReads(row: Row, op: Op)
    requires Printable(op)
    ensures ReadCommand(row, CommandText(row, op)) == Some(op)
  {
    var body, line := CommandBody(row, op), CommandText(row, op);
    assert line[..|line| - 2] == body && line[|line| - 2..] == "\r\n";
    WordsPlain(row, op);
    SplitJoin(CommandWords(row, op));
    ReadsWords(row, op);
  }

  // ---------------------------------------------------------------- the texts

  lemma JoinThree(a: string, b: string, c: string)
    ensures Join([a, b, c]) == a + (" " + (b + (" " + c)))
  {
    assert [a, b, c][1..] == [b, c] && [b, c][1..] == [c];
    assert Join([c]) == c && Join([b, c]) == b + (" " + c);
  }

  lemma JoinFour(a: string, b: string, c: string, d: string)
    ensures Join([a, b, c, d]) == a + (" " + (b + (" " + (c + (" " + d)))))
  {
    assert [a, b, c, d][1..] == [b, c, d];
    JoinThree(b, c, d);
  }

  /** A letter, two numbers and what follows them. */
  function TwoNumbers(letter: string, x: int, y: int, tail: string): string
  {
    letter + (" " + (Decimal(x) + (" " + (Decimal(y) + tail))))
  }

  /** The formats the commands are printed with; P and E name bank 0 on LPC18XX and LPC43XX and nowhere else. */
  lemma CommandPrinted(row: Row, op: Op)
    requires !op.Data?
    ensures var bank := if row.variant.LPC18XX? || row.variant.LPC43XX? then " 0\r\n" else "\r\n";
      CommandText(row, op) ==
        match op
        case Prepare(first, last) => TwoNumbers("P", first, last, bank)
        case Erase(first, last) => TwoNumbers("E", first, last, bank)
        case Write(addr, size) => TwoNumbers("W", addr, size, "\r\n")
        case Copy(dst, src, count) => TwoNumbers("C", dst, src, " " + (Decimal(count) + "\r\n"))
        case Compare(dst, src, span) => TwoNumbers("M", dst, src, " " + (Decimal(span) + "\r\n"))
        case SetBank => "S 0\r\n"
        case Data(_) => ""
  {
    match op
    case Prepare(first, last) => SectorsPrinted(row, "P", Decimal(first), Decimal(last));
    case Erase(first, last) => SectorsPrinted(row, "E", Decimal(first), Decimal(last));
    case Write(addr, size) =>
      JoinThree("W", Decimal(addr), Decimal(size));
      Ends("W", Decimal(addr), Decimal(size), "\r\n");
    case Copy(dst, src, count) =>
      JoinFour("C", Decimal(dst), Decimal(src), Decimal(count));
      EndsLater("C", Decimal(dst), Decimal(src), Decimal(count));
    case Compare(dst, src, span) =>
      JoinFour("M", Decimal(dst), Decimal(src), Decimal(span));
      EndsLater("M", Decimal(dst), Decimal(src), Decimal(span));
    case SetBank =>
      assert ["S", "0"][1..] == ["0"] && Join(["0"]) == "0";
      assert Join(["S", "0"]) == "S" + (" " + "0");
      assert "S" + (" " + "0") == "S 0" && "S 0" + "\r\n" == "S 0\r\n";
  }

  lemma SectorsPrinted(row: Row, letter: string, x: string, y: string)
    ensures var bank := if row.variant.LPC18XX? || row.variant.LPC43XX? then " 0\r\n" else "\r\n";
      Join([letter, x, y] + BankWords(row)) + "\r\n" == letter + (" " + (x + (" " + (y + bank))))
  {
    if Banked(row.variant) {
      assert [letter, x, y] + ["0"] == [letter, x, y, "0"];
      JoinFour(letter, x, y, "0");
      EndsLater(letter, x, y, "0");
      assert " " + ("0" + "\r\n") == " 0\r\n";
    } else {
      assert [letter, x, y] + [] == [letter, x, y];
      JoinThree(letter, x, y);
      Ends(letter, x, y, "\r\n");
    }
  }

  lemma Ends(a: string, x: string, y: string, end: string)
    ensures (a + (" " + (x + (" " + y)))) + end == a + (" " + (x + (" " + (y + end))))
  {
  }

  lemma EndsLater(a: string, x: string, y: string, z: string)
    ensures (a + (" " + (x + (" " + (y + (" " + z)))))) + "\r\n" ==
              a + (" " + (x + (" " + (y + (" " + (z + "\r\n"))))))
  {
    Ends(a, x, y + (" " + z), "\r\n");
    Associate(y, " " + z, "\r\n");
    Associate(" ", z, "\r\n");
  }
}
