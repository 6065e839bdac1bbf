/**
 The device end of the line. Any command may fail, and a command whose answer is bad may or may not
 have taken effect; an answer that reports success is honest.
 */
module Bootloader {
  import opened Bytes
  import opened Text
  import opened Uuencode
  import opened Device
  import opened Plan
  import opened Commands

  /** A string a receive buffer can hold. */
  predicate Receivable(answer: string)
  {
    '\0' !in answer && |answer| <= 127
  }

  /** The command's echo and a result code 0 make a good answer. */
  predicate GoodEcho(command: string)
  {
    Accepts(command, command + "0\r\n")
  }

  lemma EchoAccepted(body: string)
    requires NoBreaks(body) && body != []
    ensures GoodEcho(body + "\r\n")
  {
    var answer := (body + "\r\n") + "0\r\n";
    assert answer == "" + (body + ("\r\n" + ("0" + "\r\n")));
    VariantAccepted(body, answer, "", "\r\n", "\r\n");
  }

  lemma NoEcho(command: string)
    ensures !Accepts(command, "")
  {
    assert Format("") == "";
  }

  /** What goes over the line: what the programmer sends, and the device's answer to it. */
  datatype Message =
    | Command(text: string, answer: string)
    | Line(text: string, echo: string)              // of an upload, or of a repeated one
    | Checksum(crc: nat, answer: string)
    | Block(bytes: seq<byte>, complete: bool, back: seq<byte>)

  // ---------------------------------------------------------------- checksums

  predicate Confirms(crc: nat, answer: string)
  {
    Format(answer) == Format(Decimal(crc) + "\nOK\n")
  }

  lemma GoodConfirmation(crc: u32)
    ensures Receivable(Decimal(crc) + "\r\nOK\r\n") && Confirms(crc, Decimal(crc) + "\r\nOK\r\n")
    ensures !Confirms(crc, "")
  {
    var d := Decimal(crc);
    DecimalPlain(crc);
    assert d + "\r\nOK\r\n" == d + ("\r\n" + ("OK" + "\r\n"));
    assert d + "\nOK\n" == d + ("\n" + ("OK" + "\n"));
    FormatOk(d, "\r\n", "\r\n");
    FormatOk(d, "\n", "\n");
  }

  /** An answer that is the checksum, breaks, OK and breaks. */
  predicate Confirmation(d: string, answer: string, l: string, m: string, t: string)
  {
    && AllBreaks(l) && AllBreaks(m) && m != [] && AllBreaks(t) && t != []
    && answer == l + (d + (m + ("OK" + t)))
  }

  /** These answers and no others confirm a group; RESEND does not. */
  lemma ConfirmsExactly(crc: u32, answer: string)
    ensures Confirms(crc, answer) <==> exists l, m, t :: Confirmation(Decimal(crc), answer, l, m, t)
    ensures Confirms(crc, answer) ==> 'K' in answer
    ensures !Confirms(crc, "RESEND\r\n")
  {
    hide Confirmation;
    var d := Decimal(crc);
    DecimalPlain(crc);
    assert Format(d + "\nOK\n") == d + ("\n" + ("OK" + "\n")) by {
      assert d + "\nOK\n" == d + ("\n" + ("OK" + "\n"));
      FormatOk(d, "\n", "\n");
    }
    if l, m, t :| Confirmation(d, answer, l, m, t) {
      ConfirmationReads(d, answer, l, m, t);
    }
    if Confirms(crc, answer) {
      ConfirmationFound(d, answer);
    }
    if Confirms(crc, "RESEND\r\n") {
      ConfirmationFound(d, "RESEND\r\n");
      assert false;
    }
  }

  lemma ConfirmationReads(d: string, answer: string, l: string, m: string, t: string)
    requires NoBreaks(d) && d != [] && Confirmation(d, answer, l, m, t)
    ensures Format(answer) == d + ("\n" + ("OK" + "\n"))
  {
    DropLeading(l, d + (m + ("OK" + t)));
    assert DropBreaks(d + (m + ("OK" + t))) == d + (m + ("OK" + t));
    FormatOk(d, m, t);
  }

  lemma ConfirmationFound(d: string, answer: string)
    requires NoBreaks(d) && d != [] && Format(answer) == d + ("\n" + ("OK" + "\n"))
    ensures exists l, m, t :: Confirmation(d, answer, l, m, t)
    ensures 'K' in answer
  {
    DropShorter(answer);
    var a := DropBreaks(answer);
    var l := answer[..|answer| - |a|];
    CollapsePlainInverse(a, d, "\n" + ("OK" + "\n"));
    var b := a[|d|..];
    var m := CollapseRunInverse(b, "OK" + "\n");
    CollapsePlainInverse(DropBreaks(b), "OK", "\n");
    var t := DropBreaks(b)[2..];
    OnlyBreaks(t);
    assert DropBreaks(b) == "OK" + t;
    assert a == d + (m + ("OK" + t));
    assert Confirmation(d, answer, l, m, t);
    var at := |l| + |d| + |m| + 1;
    assert answer[at] == 'K';
  }

  lemma FormatOk(d: string, br: string, end: string)
    requires NoBreaks(d) && d != [] && AllBreaks(br) && br != [] && AllBreaks(end) && end != []
    ensures Format(d + (br + ("OK" + end))) == d + ("\n" + ("OK" + "\n"))
  {
    var tail := "OK" + end;
    assert DropBreaks(d + (br + tail)) == d + (br + tail);
    CollapsePlain(d, br + tail);
    CollapseRun(br, tail);
    CollapsePlain("OK", end);
    CollapseRun(end, []);
    assert end + [] == end;
  }

  // ---------------------------------------------------------------- the device

  const GROUP_LINES: nat := 20

  /** What an honest device does with a command: a good answer means it was acceptable and has been
      carried out; after a bad one it has been carried out or it has not. */
  predicate Outcome(row: Row, capacity: nat, m: Memory, log: seq<Op>, op: Op, good: bool, m': Memory, log': seq<Op>)
  {
    || (Legal(row, capacity, m, op) && m' == Step(row, m, op) && log' == log + [op])
    || (!good && m' == m && log' == log)
  }

  /** `bytes` more of the open upload have arrived; with the last of them the upload closes. */
  predicate Received(row: Row, m: Memory, log: seq<Op>, upload: seq<byte>, bytes: seq<byte>,
                     m': Memory, log': seq<Op>, upload': seq<byte>)
  {
    if |upload + bytes| == m.due then
      m' == Step(row, m, Data(upload + bytes)) && log' == log + [Data(upload + bytes)] && upload' == []
    else
      m' == m && log' == log && upload' == upload + bytes
  }

  class Target {
    const row: Row
    const capacity: nat   // bytes of RAM from the download address on
    const perfect: bool   // never fails, and accepts everything acceptable
    var mem: Memory
    var upload: seq<byte>   // what has arrived of the open upload
    var lines: seq<string>  // lines since the last checksum
    var damaged: bool       // one of those lines arrived broken
    ghost var log: seq<Op>  // the commands that have taken effect
    ghost var traffic: seq<Message>

    constructor (row: Row, capacity: nat, perfect: bool, mem: Memory)
      ensures this.row == row && this.capacity == capacity && this.perfect == perfect && this.mem == mem
      ensures upload == [] && lines == [] && !damaged && log == [] && traffic == []
    {
      this.row, this.capacity, this.perfect, this.mem := row, capacity, perfect, mem;
      upload, lines, damaged, log, traffic := [], [], false, [], [];
    }

    /** Answers a command line. One that cannot be read has no effect and no good answer. */
    method Execute(command: string) returns (answer: string)
      requires '\0' !in command && |command| <= 100
      modifies this
      ensures Receivable(answer) && traffic == old(traffic) + [Command(command, answer)]
      ensures match ReadCommand(row, command)
              case None => !Accepts(command, answer) && mem == old(mem) && log == old(log)
              case Some(op) =>
                && Outcome(row, capacity, old(mem), old(log), op, Accepts(command, answer), mem, log)
                && (perfect && Legal(row, capacity, old(mem), op) && GoodEcho(command) ==> Accepts(command, answer))
                && (Accepts(command, answer) && op.Write? ==> upload == [] && lines == [] && !damaged)
      ensures perfect && !old(damaged) ==> !damaged
    {
      var read := ReadCommand(row, command);
      var carriedOut: bool := *;
      answer := *;
      NoEcho(command);
      if '\0' in answer || |answer| > 127 {
        answer := "";
      }
      if read.None? || !Legal(row, capacity, mem, read.value) {
        if Accepts(command, answer) {
          answer := "";
        }
        traffic := traffic + [Command(command, answer)];
        return;
      }
      if perfect {
        carriedOut := true;
        answer := command + "0\r\n";
      } else if Accepts(command, answer) {
        carriedOut := true;
      }
      traffic := traffic + [Command(command, answer)];
      if carriedOut {
        mem := Step(row, mem, read.value);
        log := log + [read.value];
        if read.value.Write? {
          upload, lines, damaged := [], [], false;
        }
      }
    }

    /** A line of an upload; its echo may be anything unless the device is perfect. */
    method ReceiveLine(line: string) returns (answer: string)
      requires Receivable(line)
      modifies this`lines, this`damaged, this`traffic
      ensures Receivable(answer) && traffic == old(traffic) + [Line(line, answer)]
      ensures lines == old(lines) + [line]
      ensures perfect ==> answer == line && damaged == old(damaged)
    {
      answer := *;
      var broken: bool := *;
      if perfect {
        answer, broken := line, false;
      } else if '\0' in answer || |answer| > 127 {
        answer := "";
      }
      lines, damaged := lines + [line], damaged || broken;
      traffic := traffic + [Line(line, answer)];
    }

    /** A checksum is due after twenty lines, or when the announced length has arrived. An LPC8XX takes
        no lines. */
    predicate GroupGood(crc: nat)
      reads this
    {
      && !row.variant.LPC8XX? && mem.due > 0
      && (forall i | 0 <= i < |lines| :: IsLine(lines[i]))
      && crc == Sum(DecodeLines(lines))
      && var arrived := |upload| + LINE_BYTES * |lines|;
      && (arrived == mem.due || (|lines| == GROUP_LINES && arrived < mem.due))
    }

    /** Commits an intact group and says OK, or discards the group and says something else. */
    method ReceiveChecksum(crc: u32) returns (answer: string)
      modifies this
      ensures Receivable(answer) && traffic == old(traffic) + [Checksum(crc, answer)]
      ensures Confirms(crc, answer) ==>
                && old(GroupGood(crc))
                && Received(row, old(mem), old(log), old(upload), DecodeLines(old(lines)), mem, log, upload)
      ensures !Confirms(crc, answer) ==> mem == old(mem) && log == old(log) && upload == old(upload)
      ensures perfect && !old(damaged) && old(GroupGood(crc)) ==> Confirms(crc, answer)
      ensures lines == [] && !damaged
    {
      GoodConfirmation(crc);
      answer := *;
      var commit: bool := *;
      if !damaged && GroupGood(crc) && (commit || perfect) {
        Take(DecodeLines(lines));
        answer := Decimal(crc) + "\r\nOK\r\n";
      } else if '\0' in answer || |answer| > 127 || Confirms(crc, answer) {
        answer := "";
      }
      lines, damaged := [], false;
      traffic := traffic + [Checksum(crc, answer)];
    }

    /** A block of raw data, which only an LPC8XX takes. The echo is what was stored, so an echo equal to the
        block means it was stored. */
    method ReceiveBlock(data: seq<byte>) returns (complete: bool, echo: seq<byte>)
      modifies this`mem, this`upload, this`log, this`traffic
      ensures traffic == old(traffic) + [Block(data, complete, echo)]
      ensures complete && echo == data ==>
                && row.variant.LPC8XX? && old(mem.due) > 0 && |old(upload)| + |data| <= old(mem.due)
                && Received(row, old(mem), old(log), old(upload), data, mem, log, upload)
      ensures !(complete && echo == data) ==> mem == old(mem) && log == old(log)
      ensures perfect && row.variant.LPC8XX? && old(mem.due) > 0 && |old(upload)| + |data| <= old(mem.due) ==>
                complete && echo == data
    {
      complete, echo := *, *;
      var expected := row.variant.LPC8XX? && mem.due > 0 && |upload| + |data| <= mem.due;
      if !expected {
        complete := false;
      } else if perfect {
        complete, echo := true, data;
      }
      if complete && echo == data {
        Take(data);
      } else {
        upload := upload + echo;
      }
      traffic := traffic + [Block(data, complete, echo)];
    }

    method Take(bytes: seq<byte>)
      modifies this`mem, this`upload, this`log
      ensures Received(row, old(mem), old(log), old(upload), bytes, mem, log, upload)
    {
      upload := upload + bytes;
      if |upload| == mem.due {
        log := log + [Data(upload)];
        mem := Step(row, mem, Data(upload));
        upload := [];
      }
    }
  }
}
