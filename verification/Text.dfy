/**
 The line-break normalisation every command and answer goes through, the test a good
 answer has to pass, and the error number a bad one carries.
 */
module Text {
  import opened Bytes

  predicate IsBreak(c: char)
  {
    c == '\r' || c == '\n'
  }

  predicate AllBreaks(s: string)
  {
    forall i | 0 <= i < |s| :: IsBreak(s[i])
  }

  predicate NoBreaks(s: string)
  {
    forall i | 0 <= i < |s| :: !IsBreak(s[i])
  }

  // ---------------------------------------------------------------- specification

  function DropBreaks(s: string): string
  {
    if s != [] && IsBreak(s[0]) then DropBreaks(s[1..]) else s
  }

  function Collapse(s: string): string
    decreases |s|
  {
    if s == [] then []
    else if IsBreak(s[0]) then DropShorter(s[1..]); ['\n'] + Collapse(DropBreaks(s[1..]))
    else [s[0]] + Collapse(s[1..])
  }

  /** Leading breaks go, and every later run of breaks becomes one line feed. */
  function Format(s: string): string
  {
    Collapse(DropBreaks(s))
  }

  lemma {:induction false} DropShorter(s: string)
    ensures |DropBreaks(s)| <= |s|
    ensures DropBreaks(s) == [] || !IsBreak(DropBreaks(s)[0])
    ensures AllBreaks(s[..|s| - |DropBreaks(s)|])
    ensures s == s[..|s| - |DropBreaks(s)|] + DropBreaks(s)
  {
    if s != [] && IsBreak(s[0]) {
      DropShorter(s[1..]);
      var rest := s[1..];
      var n := |rest| - |DropBreaks(rest)|;
      assert s == [s[0]] + rest;
      Associate([s[0]], rest[..n], DropBreaks(rest));
      assert s[..n + 1] == [s[0]] + rest[..n];
    }
  }

  // ---------------------------------------------------------------- what formatting guarantees

  /** No carriage return, no leading line feed and no two line feeds in a row. */
  predicate Clean(s: string)
  {
    && (forall i | 0 <= i < |s| :: s[i] != '\r')
    && (s != [] ==> s[0] != '\n')
    && (forall i | 0 <= i < |s| - 1 :: !(s[i] == '\n' && s[i + 1] == '\n'))
  }

  /** The characters that are not breaks, in order. */
  function Others(s: string): string
  {
    if s == [] then [] else (if IsBreak(s[0]) then [] else [s[0]]) + Others(s[1..])
  }

  lemma {:induction false} CollapseClean(s: string)
    ensures var c := Collapse(s);
            && (forall i | 0 <= i < |c| :: c[i] != '\r')
            && (forall i | 0 <= i < |c| - 1 :: !(c[i] == '\n' && c[i + 1] == '\n'))
            && (s == [] <==> c == [])
            && (s != [] && !IsBreak(s[0]) ==> c[0] == s[0])
    decreases |s|
  {
    if s != [] {
      DropShorter(s[1..]);
      if IsBreak(s[0]) {
        var rest := DropBreaks(s[1..]);
        CollapseClean(rest);
        assert rest != [] ==> Collapse(rest)[0] == rest[0] != '\n';
      } else {
        CollapseClean(s[1..]);
      }
    }
  }

  lemma {:induction false} OthersDrop(s: string)
    ensures Others(DropBreaks(s)) == Others(s)
  {
    if s != [] && IsBreak(s[0]) {
      OthersDrop(s[1..]);
    }
  }

  lemma {:induction false} OthersCollapse(s: string)
    ensures Others(Collapse(s)) == Others(s)
    decreases |s|
  {
    if s != [] {
      DropShorter(s[1..]);
      OthersDrop(s[1..]);
      if IsBreak(s[0]) {
        OthersCollapse(DropBreaks(s[1..]));
        assert Collapse(s)[1..] == Collapse(DropBreaks(s[1..]));
      } else {
        OthersCollapse(s[1..]);
        assert Collapse(s)[1..] == Collapse(s[1..]);
      }
    }
  }

  lemma FormatClean(s: string)
    ensures Clean(Format(s)) && Others(Format(s)) == Others(s)
  {
    DropShorter(s);
    CollapseClean(DropBreaks(s));
    OthersDrop(s);
    OthersCollapse(DropBreaks(s));
  }

  lemma {:induction false} CollapseFixed(s: string)
    requires forall i | 0 <= i < |s| :: s[i] != '\r'
    requires forall i | 0 <= i < |s| - 1 :: !(s[i] == '\n' && s[i + 1] == '\n')
    ensures Collapse(s) == s
  {
    if s != [] {
      forall i | 0 <= i < |s[1..]| - 1
        ensures !(s[1..][i] == '\n' && s[1..][i + 1] == '\n')
      {
        assert !(s[i + 1] == '\n' && s[i + 2] == '\n');
      }
      CollapseFixed(s[1..]);
      if IsBreak(s[0]) && |s| > 1 {
        assert !(s[0] == '\n' && s[0 + 1] == '\n');
      }
    }
  }

  /** The formatted strings are exactly the clean ones, so formatting twice is formatting once. */
  lemma FormatFixed(s: string)
    ensures Format(s) == s <==> Clean(s)
    ensures Format(Format(s)) == Format(s)
  {
    FormatClean(s);
    if Clean(s) {
      CollapseFixed(s);
    }
    CollapseFixed(Format(s));
  }

  // ---------------------------------------------------------------- formatting in place

  ghost predicate CString(a: array<char>, s: string)
    reads a
  {
    |s| < a.Length && a[..|s|] == s && a[|s|] == '\0' && '\0' !in s
  }

  /** What remains to be written once `i` characters are out and `tail` is still to be read. */
  function Remaining(i: nat, tail: string): string
  {
    if i == 0 then Format(tail) else Collapse(tail)
  }

  /** `goal` is known up to `i` and its rest is what remains of `tail`. */
  ghost predicate Ahead(goal: string, i: nat, tail: string)
  {
    i <= |goal| && goal[i..] == Remaining(i, tail)
  }

  lemma AheadStep(goal: string, i: nat, tail: string)
    requires Ahead(goal, i, tail) && tail != []
    ensures IsBreak(tail[0]) && i == 0 ==> Ahead(goal, 0, DropBreaks(tail[1..]))
    ensures IsBreak(tail[0]) && i > 0 ==>
              i < |goal| && goal[i] == '\n' && Ahead(goal, i + 1, DropBreaks(tail[1..]))
    ensures !IsBreak(tail[0]) ==>
              i < |goal| && goal[i] == tail[0] && Ahead(goal, i + 1, tail[1..])
  {
    DropShorter(tail[1..]);
    if IsBreak(tail[0]) && i > 0 {
      assert goal[i..] == ['\n'] + Remaining(i + 1, DropBreaks(tail[1..]));
      assert goal[i..][1..] == goal[i + 1..];
    } else if !IsBreak(tail[0]) {
      assert goal[i..] == [tail[0]] + Remaining(i + 1, tail[1..]);
      assert goal[i..][1..] == goal[i + 1..];
    }
  }

  /** Index arithmetic of a 32-bit `size_t`: one below 0 wraps to the top, and one above comes back. */
  method Previous(i: u32) returns (r: u32)
    ensures r == if i == 0 then WORD - 1 else i - 1
  {
    r := Mod32(i - 1);
  }

  method Next(i: u32) returns (r: u32)
    ensures r == if i == WORD - 1 then 0 else i + 1
  {
    r := Mod32(i + 1);
  }

  /** From index `j` on the buffer still holds `s`. */
  ghost predicate Unread(inp: array<char>, j: nat, s: string)
    reads inp
  {
    j <= |s| < inp.Length && inp[|s|] == '\0' && forall p | j <= p < |s| :: inp[p] == s[p] != '\0'
  }

  /** What is known between two steps: `i` characters of the goal are out, `s` is unread from `j` on. */
  ghost predicate Midway(inp: array<char>, out: array<char>, i: nat, j: nat, s: string, goal: string)
    reads inp, out
  {
    && i <= j && Unread(inp, j, s) && |s| < out.Length
    && Ahead(goal, i, s[j..])
    && forall p | 0 <= p < i :: out[p] == goal[p]
  }

  /** Both buffers may be the same array; `s` is the string the input buffer holds. */
  method FormatCommand(inp: array<char>, out: array<char>, ghost s: string)
    requires CString(inp, s) && |s| < out.Length && |s| < WORD - 1
    modifies out
    ensures CString(out, Format(s))
    ensures inp != out ==> inp[..] == old(inp[..])
  {
    ghost var goal := Format(s);
    var i: u32, j := 0, 0;
    assert s[0..] == s;
    while inp[j] != '\0'
      invariant Midway(inp, out, i, j, s, goal)
      invariant inp != out ==> inp[..] == old(inp[..])
      decreases |s| - j
    {
      if inp[j] == '\r' || inp[j] == '\n' {
        i, j := TakeBreaks(inp, out, i, j, s, goal);
      } else {
        i, j := TakeChar(inp, out, i, j, s, goal);
      }
    }
    MidwayDone(inp, out, i, j, s, goal);
    out[i] := '\0';
  }

  lemma MidwayDone(inp: array<char>, out: array<char>, i: nat, j: nat, s: string, goal: string)
    requires Midway(inp, out, i, j, s, goal) && inp[j] == '\0' && goal == Format(s) && '\0' !in s
    ensures i == |goal| < out.Length && out[..i] == goal && '\0' !in goal
  {
    FormatNoNul(s);
    assert s[j..] == [] && goal[i..] == [];
  }

  method TakeChar(inp: array<char>, out: array<char>, i: u32, j: nat, ghost s: string, ghost goal: string)
    returns (i': u32, j': nat)
    requires Midway(inp, out, i, j, s, goal) && inp[j] != '\0' && |s| < WORD - 1 && !IsBreak(inp[j])
    modifies out
    ensures Midway(inp, out, i', j', s, goal) && j < j'
    ensures inp != out ==> inp[..] == old(inp[..])
  {
    AheadStep(goal, i, s[j..]);
    assert s[j..][1..] == s[j + 1..];
    out[i] := inp[j];
    i' := Next(i);
    j' := j + 1;
  }

  /** A run of breaks becomes one line feed, or nothing at the very start, where `i` wraps below 0 and back. */
  method TakeBreaks(inp: array<char>, out: array<char>, i: u32, j: nat, ghost s: string, ghost goal: string)
    returns (i': u32, j': nat)
    requires Midway(inp, out, i, j, s, goal) && |s| < WORD - 1 && IsBreak(inp[j])
    modifies out
    ensures Midway(inp, out, i', j', s, goal) && j < j'
    ensures inp != out ==> inp[..] == old(inp[..])
  {
    AheadStep(goal, i, s[j..]);
    assert s[j..][1..] == s[j + 1..];
    j' := LastOfRun(inp, j, s);
    i' := i;
    if i > 0 {
      out[i] := '\n';
    } else {
      i' := Previous(i);
    }
    i' := Next(i');
    j' := j' + 1;
  }

  /** The inner loop: the index of the last break of the run that starts at `j`. */
  method LastOfRun(inp: array<char>, j: nat, ghost s: string) returns (last: nat)
    requires j < |s| && Unread(inp, j, s)
    ensures j <= last < |s|
    ensures s[last + 1..] == DropBreaks(s[j + 1..])
  {
    last := j;
    while inp[last + 1] == '\r' || inp[last + 1] == '\n'
      invariant j <= last < |s|
      invariant DropBreaks(s[last + 1..]) == DropBreaks(s[j + 1..])
      decreases |s| - last
    {
      last := last + 1;
      assert s[last..][1..] == s[last + 1..];
    }
  }

  lemma {:induction false} OthersHasAll(s: string, c: char)
    requires !IsBreak(c)
    ensures c in s <==> c in Others(s)
  {
    if s != [] {
      OthersHasAll(s[1..], c);
      assert s == [s[0]] + s[1..];
    }
  }

  lemma FormatNoNul(s: string)
    requires '\0' !in s
    ensures '\0' !in Format(s)
    ensures |Format(s)| <= |s|
  {
    FormatClean(s);
    OthersHasAll(s, '\0');
    OthersHasAll(Format(s), '\0');
    DropShorter(s);
    CollapseShorter(DropBreaks(s));
  }

  lemma {:induction false} CollapseShorter(s: string)
    ensures |Collapse(s)| <= |s|
    decreases |s|
  {
    if s != [] {
      DropShorter(s[1..]);
      CollapseShorter(if IsBreak(s[0]) then DropBreaks(s[1..]) else s[1..]);
    }
  }

  // ---------------------------------------------------------------- answers

  /** The answer is the command's echo followed by result code 0. */
  predicate Accepts(command: string, answer: string)
  {
    Format(answer) == Format(command) + "0\n"
  }

  lemma {:induction false} DropLeading(l: string, s: string)
    requires AllBreaks(l)
    ensures DropBreaks(l + s) == DropBreaks(s)
  {
    if l == [] {
      assert l + s == s;
    } else {
      assert (l + s)[1..] == l[1..] + s;
      DropLeading(l[1..], s);
    }
  }

  lemma {:induction false} CollapsePlain(b: string, s: string)
    requires NoBreaks(b)
    ensures Collapse(b + s) == b + Collapse(s)
  {
    if b == [] {
      assert b + s == s;
    } else {
      assert (b + s)[1..] == b[1..] + s;
      CollapsePlain(b[1..], s);
      assert [b[0]] + (b[1..] + Collapse(s)) == b + Collapse(s);
    }
  }

  lemma CollapseRun(m: string, s: string)
    requires AllBreaks(m) && m != []
    ensures Collapse(m + s) == "\n" + Collapse(DropBreaks(s))
  {
    assert (m + s)[1..] == m[1..] + s;
    DropLeading(m[1..], s);
  }

  lemma {:induction false} CollapsePlainInverse(s: string, b: string, rest: string)
    requires NoBreaks(b) && Collapse(s) == b + rest
    ensures |b| <= |s| && s[..|b|] == b && Collapse(s[|b|..]) == rest
  {
    if b == [] {
      assert b + rest == rest && s[0..] == s;
    } else {
      assert (b + rest)[0] == b[0] && (b + rest)[1..] == b[1..] + rest;
      assert !IsBreak(s[0]);
      CollapsePlainInverse(s[1..], b[1..], rest);
      assert s[1..][|b| - 1..] == s[|b|..];
      assert s[..|b|] == [s[0]] + s[1..][..|b| - 1];
    }
  }

  lemma CollapseRunInverse(s: string, rest: string) returns (m: string)
    requires Collapse(s) == "\n" + rest
    ensures AllBreaks(m) && m != [] && s == m + DropBreaks(s) && Collapse(DropBreaks(s)) == rest
  {
    assert IsBreak(s[0]) by {
      assert Collapse(s)[0] == '\n';
    }
    DropShorter(s);
    m := s[..|s| - |DropBreaks(s)|];
    assert Collapse(s)[1..] == rest;
    DropShorter(s[1..]);
  }

  /** The shapes a good answer to the one-line command `body` CR LF can have. */
  ghost predicate EchoVariant(body: string, answer: string)
  {
    exists l, m, t :: Splits(body, answer, l, m, t)
  }

  predicate Splits(body: string, answer: string, l: string, m: string, t: string)
  {
    && AllBreaks(l) && AllBreaks(m) && AllBreaks(t) && m != [] && t != []
    && answer == l + (body + (m + ("0" + t)))
  }

  lemma OneLine(body: string)
    requires NoBreaks(body) && body != []
    ensures Format(body + "\r\n") == body + "\n"
  {
    assert DropBreaks(body + "\r\n") == body + "\r\n";
    CollapsePlain(body, "\r\n");
    CollapseRun("\r\n", []);
    assert "\r\n" + [] == "\r\n";
  }

  lemma VariantAccepted(body: string, answer: string, l: string, m: string, t: string)
    requires NoBreaks(body) && body != [] && Splits(body, answer, l, m, t)
    ensures Accepts(body + "\r\n", answer)
  {
    OneLine(body);
    var tail := "0" + t;
    DropLeading(l, body + (m + tail));
    assert DropBreaks(body + (m + tail)) == body + (m + tail);
    CollapsePlain(body, m + tail);
    CollapseRun(m, tail);
    CollapsePlain("0", t);
    CollapseRun(t, []);
    assert t + [] == t;
    assert Format(answer) == body + ("\n" + ("0" + "\n"));
  }

  lemma AcceptedVariant(body: string, answer: string)
    requires NoBreaks(body) && body != [] && Accepts(body + "\r\n", answer)
    ensures EchoVariant(body, answer)
  {
    OneLine(body);
    DropShorter(answer);
    var a := DropBreaks(answer);
    var l := answer[..|answer| - |a|];
    assert Collapse(a) == body + ("\n" + ("0" + "\n"));
    CollapsePlainInverse(a, body, "\n" + ("0" + "\n"));
    var b := a[|body|..];
    var m := CollapseRunInverse(b, "0" + "\n");
    CollapsePlainInverse(DropBreaks(b), "0", "\n");
    var t := DropBreaks(b)[1..];
    OnlyBreaks(t);
    assert DropBreaks(b) == "0" + t;
    assert a == body + (m + ("0" + t));
    assert Splits(body, answer, l, m, t);
  }

  lemma OnlyBreaks(s: string)
    requires Collapse(s) == "\n"
    ensures AllBreaks(s) && s != []
  {
    var m := CollapseRunInverse(s, "");
    CollapseClean(DropBreaks(s));
    assert m + [] == m;
  }

  /** A one-line command accepts its echo with any breaks before it and any break runs
      after it and after the code 0, and accepts nothing else. */
  lemma AcceptsExactly(body: string, answer: string)
    requires NoBreaks(body) && body != []
    ensures Accepts(body + "\r\n", answer) <==> EchoVariant(body, answer)
  {
    if EchoVariant(body, answer) {
      var l, m, t :| Splits(body, answer, l, m, t);
      VariantAccepted(body, answer, l, m, t);
    }
    if Accepts(body + "\r\n", answer) {
      AcceptedVariant(body, answer);
    }
  }

  // ---------------------------------------------------------------- numbers

  predicate IsDigit(c: char)
  {
    '0' <= c <= '9'
  }

  function Digits(n: nat): (s: string)
    ensures s != [] && forall i | 0 <= i < |s| :: IsDigit(s[i])
  {
    var last := ['0' + (n % 10) as char];
    if n < 10 then last else Digits(n / 10) + last
  }

  lemma DigitsStep(n: nat, d: nat, before: string, after: string)
    requires 0 < n && d < 10 && before == Digits(n) && after == before + ['0' + d as char]
    ensures Digits(10 * n + d) == after
  {
  }

  /** How a number is printed into a command. */
  function Decimal(n: int): (s: string)
    ensures s != [] && NoBreaks(s) && '\0' !in s
  {
    if n < 0 then "-" + Digits(-n) else Digits(n)
  }

  /** The leading digits of `s`, read as a number and appended to `acc`. */
  function Number(s: string, acc: nat): nat
  {
    if s != [] && IsDigit(s[0]) then Number(s[1..], 10 * acc + (s[0] as int - '0' as int)) else acc
  }

  lemma NumberDigits(n: nat, s: string)
    requires s == [] || !IsDigit(s[0])
    ensures Number(Digits(n) + s, 0) == n
  {
    NumberDigitsFrom(n, s);
  }

  lemma {:induction false} NumberDigitsFrom(n: nat, s: string)
    ensures Number(Digits(n) + s, 0) == Number(s, n)
  {
    var last := ['0' + (n % 10) as char];
    assert (last + s)[1..] == s;
    if n >= 10 {
      NumberDigitsFrom(n / 10, last + s);
      assert Digits(n) + s == Digits(n / 10) + (last + s);
    }
  }

  /** The number after the first line feed, as one byte; 255 when there is none. */
  function ErrorNumber(s: string): byte
  {
    if s == [] then 255
    else if s[0] == '\n' then
      if |s| > 1 && IsDigit(s[1]) then Number(s[1..], 0) % 256 else 255
    else ErrorNumber(s[1..])
  }

  /** An echoed line followed by a printed result code gives that code back, reduced to one byte. */
  lemma {:induction false} ErrorNumberRead(line: string, n: nat, rest: string)
    requires forall i | 0 <= i < |line| :: line[i] != '\n'
    requires rest == [] || !IsDigit(rest[0])
    ensures ErrorNumber(line + ("\n" + (Digits(n) + rest))) == n % 256
  {
    var tail := "\n" + (Digits(n) + rest);
    if line == [] {
      NumberDigits(n, rest);
      assert line + tail == tail && tail[1..] == Digits(n) + rest;
      assert tail[1] == Digits(n)[0];
    } else {
      assert (line + tail)[1..] == line[1..] + tail;
      ErrorNumberRead(line[1..], n, rest);
    }
  }

  /** Without a line feed there is no number, and neither is there one when no digit follows the first. */
  lemma {:induction false} NoErrorNumber(line: string, rest: string)
    requires '\n' !in line && (rest == [] || !IsDigit(rest[0]))
    ensures ErrorNumber(line) == 255 && ErrorNumber(line + ("\n" + rest)) == 255
  {
    var tail := "\n" + rest;
    if line == [] {
      assert line + tail == tail && tail[1..] == rest;
    } else {
      assert (line + tail)[1..] == line[1..] + tail;
      assert line[0] in line;
      NoErrorNumber(line[1..], rest);
    }
  }

  /** How an echoed command and a result code come out of formatting. */
  lemma CodeFormats(body: string, code: nat)
    requires NoBreaks(body) && body != []
    ensures Format((body + "\r\n") + (Digits(code) + "\r\n")) == body + ("\n" + (Digits(code) + "\n"))
  {
    var tail := Digits(code) + "\r\n";
    Associate(body, "\r\n", tail);
    assert DropBreaks(body + ("\r\n" + tail)) == body + ("\r\n" + tail);
    CollapsePlain(body, "\r\n" + tail);
    CollapseRun("\r\n", tail);
    CollapsePlain(Digits(code), "\r\n");
    CollapseRun("\r\n", []);
    Associate("\r\n", [], []);
  }

  /** Only the code 0 makes such an answer a good one. */
  lemma CodeAccepted(body: string, code: nat)
    requires NoBreaks(body) && body != []
    ensures Accepts(body + "\r\n", (body + "\r\n") + (Digits(code) + "\r\n")) <==> code == 0
  {
    CodeFormats(body, code);
    OneLine(body);
    NumberDigits(code, "");
    var formatted := body + ("\n" + (Digits(code) + "\n"));
    assert formatted[|body| + 1..] == Digits(code) + "\n";
    assert Digits(0) == "0";
    if Digits(code) + "\n" == "0" + "\n" {
      assert Digits(code) == (Digits(code) + "\n")[..|Digits(code)|];
      assert Digits(code) + "" == "0";
    }
  }

  method GetAndReportErrorNumber(answer: array<char>, ghost s: string) returns (result: byte)
    requires CString(answer, s)
    ensures result == ErrorNumber(s)
    ensures '\n' !in s ==> result == 255
  {
    result := 0xFF;
    var i := 0;
    while true
      invariant 0 <= i <= |s| && result == 0xFF
      invariant ErrorNumber(s[i..]) == ErrorNumber(s)
      decreases |s| - i
    {
      assert i < |s| ==> answer[i] == s[i] && s[i..][1..] == s[i + 1..];
      if answer[i] == '\0' {
        break;
      }
      if answer[i] == '\n' {
        i := i + 1;
        assert i < |s| ==> answer[i] == s[i];
        if answer[i] < '0' || answer[i] > '9' {
          break;
        }
        var number := AsciiToInteger(answer, i, s);
        result := number % 256;
        break;
      }
      i := i + 1;
    }
  }

  method AsciiToInteger(a: array<char>, at: nat, ghost s: string) returns (n: nat)
    requires CString(a, s) && at <= |s|
    ensures n == Number(s[at..], 0)
  {
    n := 0;
    var i := at;
    while '0' <= a[i] <= '9'
      invariant at <= i <= |s|
      invariant Number(s[i..], n) == Number(s[at..], 0)
      decreases |s| - i
    {
      assert i < |s| && a[i] == s[i] && s[i..][1..] == s[i + 1..];
      n := 10 * n + (a[i] as int - '0' as int);
      i := i + 1;
    }
    assert i < |s| ==> a[i] == s[i];
  }

  // ---------------------------------------------------------------- character buffers

  method Store(s: string) returns (a: array<char>)
    requires '\0' !in s
    ensures fresh(a) && CString(a, s) && a.Length == |s| + 1
  {
    a := new char[|s| + 1](i => '\0');
    for i := 0 to |s|
      invariant a[..i] == s[..i] && a[|s|] == '\0'
    {
      a[i] := s[i];
    }
  }

  method Fetch(a: array<char>, ghost s: string) returns (r: string)
    requires CString(a, s)
    ensures r == s
  {
    var n := 0;
    while a[n] != '\0'
      invariant 0 <= n <= |s|
      decreases |s| - n
    {
      n := n + 1;
    }
    assert a[..|s|] == s;
    r := a[..n];
  }
}
