/** What a whole run says over the line, and the values it reports failures with. */
module Reports {
  import opened Bytes
  import opened Text
  import opened Device
  import opened Plan
  import opened Commands
  import opened Bootloader
  import opened Conversation
  import opened Upload

  const WRONG_ANSWER_PREP: int := 0x1200
  const WRONG_ANSWER_ERAS: int := 0x1300
  const WRONG_ANSWER_WRIT: int := 0x1400
  const WRONG_ANSWER_PREP2: int := 0x1500
  const WRONG_ANSWER_COPY: int := 0x1600
  const WRONG_ANSWER_BTBNK: int := 0x1800

  /** The messages from `start` on are those of `op`, and they have ended well. */
  predicate Answered(row: Row, op: Op, traffic: seq<Message>, start: nat)
    requires start <= |traffic|
  {
    if op.Data? then After(row.variant, op.bytes, traffic, start) == Finished(0)
    else
      && |traffic| == start + 1 && traffic[start].Command? && traffic[start].text == CommandText(row, op)
      && Accepts(CommandText(row, op), traffic[start].answer)
  }

  /** All that has been said: each command of `log` once, in order, with a good answer to it, and each upload
      brought to its end. */
  ghost predicate Dialogue(row: Row, log: seq<Op>, traffic: seq<Message>)
    decreases |log|
  {
    if log == [] then traffic == []
    else
      exists cut: nat ::
        && cut <= |traffic| && Dialogue(row, log[..|log| - 1], traffic[..cut])
        && Answered(row, log[|log| - 1], traffic, cut)
  }

  lemma DialogueSnoc(row: Row, log: seq<Op>, traffic: seq<Message>, op: Op, traffic': seq<Message>)
    requires Dialogue(row, log, traffic) && traffic <= traffic' && Answered(row, op, traffic', |traffic|)
    ensures Dialogue(row, log + [op], traffic')
  {
    assert (log + [op])[..|log|] == log && traffic'[..|traffic|] == traffic;
  }

  lemma CommandAnswered(row: Row, op: Op, traffic: seq<Message>, reply: string)
    requires Accepts(CommandText(row, op), reply) && !op.Data?
    ensures Answered(row, op, traffic + [Command(CommandText(row, op), reply)], |traffic|)
  {
  }

  /** The return value that reports a failure of the `i`th command. */
  function ErrorBase(ops: seq<Op>, i: nat): int
    requires i < |ops|
  {
    match ops[i]
    case Prepare(_, _) => if i > 0 && ops[i - 1].Data? then WRONG_ANSWER_PREP2 else WRONG_ANSWER_PREP
    case Erase(_, _) => WRONG_ANSWER_ERAS
    case Write(_, _) => WRONG_ANSWER_WRIT
    case Data(_) => ERROR_WRITE_DATA
    case Copy(_, _, _) => WRONG_ANSWER_COPY
    case Compare(_, _, _) => WRONG_ANSWER_COPY
    case SetBank => WRONG_ANSWER_BTBNK
  }

  /** `reply` is no good answer to the command, and `ret` is the number it carries added to `base`. */
  predicate Reported(row: Row, op: Op, base: int, reply: string, ret: int)
  {
    !Accepts(CommandText(row, op), reply) && ret == base + ErrorNumber(Format(reply))
  }

  /** A device that echoes the command and prints a result code is reported with that code, reduced to
      one byte, exactly when the code is not 0. */
  lemma CodeReported(row: Row, op: Op, code: nat, base: int, ret: int)
    requires Printable(op)
    ensures Reported(row, op, base, CommandText(row, op) + (Digits(code) + "\r\n"), ret)
       <==> code != 0 && ret == base + code % 256
  {
    hide Accepts, Digits, ErrorNumber, Format;
    var body := CommandBody(row, op);
    CommandPlain(row, op);
    CodeFormats(body, code);
    ErrorNumberRead(body, code, "\n");
    CodeAccepted(body, code);
  }

  /** No answer at all is reported with 255, not with the code of a success. */
  lemma SilenceReported(row: Row, op: Op, base: int, ret: int)
    ensures Reported(row, op, base, "", ret) <==> ret == base + 255
  {
    NoEcho(CommandText(row, op));
    NoErrorNumber("", "");
  }

  /** The messages from `start` on are those of the `i`th command, which has failed, and `ret` reports that. */
  predicate Failed(row: Row, ops: seq<Op>, i: nat, traffic: seq<Message>, start: nat, ret: int)
    requires i < |ops| && start <= |traffic|
  {
    if ops[i].Data? then ret != 0 && After(row.variant, ops[i].bytes, traffic, start) == Finished(ret)
    else
      && |traffic| == start + 1 && traffic[start].Command? && traffic[start].text == CommandText(row, ops[i])
      && Reported(row, ops[i], ErrorBase(ops, i), traffic[start].answer, ret)
  }

  lemma CommandFailed(row: Row, ops: seq<Op>, i: nat, traffic: seq<Message>, reply: string, ret: int)
    requires i < |ops| && !ops[i].Data? && Reported(row, ops[i], ErrorBase(ops, i), reply, ret)
    ensures Failed(row, ops, i, traffic + [Command(CommandText(row, ops[i]), reply)], |traffic|, ret) && ret > 0
  {
  }

  /** The return values for a failure of the `i`th command. */
  predicate Coded(ops: seq<Op>, i: nat, ret: int)
    requires i < |ops|
  {
    match ops[i]
    case Prepare(_, _) => if i > 0 && ops[i - 1].Data? then 0x1500 <= ret <= 0x15FF else 0x1200 <= ret <= 0x12FF
    case Erase(_, _) => 0x1300 <= ret <= 0x13FF
    case Write(_, _) => 0x1400 <= ret <= 0x14FF
    case Data(_) => ret in {0x1006, 0x1007, 0x1008}
    case Copy(_, _, _) => 0x1600 <= ret <= 0x16FF
    case Compare(_, _, _) => 0x1600 <= ret <= 0x16FF
    case SetBank => 0x1800 <= ret <= 0x18FF
  }

  lemma FailedCoded(row: Row, ops: seq<Op>, i: nat, traffic: seq<Message>, start: nat, ret: int)
    requires i < |ops| && start <= |traffic| && Failed(row, ops, i, traffic, start, ret)
    ensures Coded(ops, i, ret)
  {
    hide After, Accepts, ErrorNumber, Format, CommandText;
    if ops[i].Data? {
      UploadEnds(row.variant, ops[i].bytes, traffic, start, ret);
    }
  }

  /** The first `i` commands have been answered well, and the next one has failed. */
  ghost predicate StoppedAt(row: Row, ops: seq<Op>, i: nat, traffic: seq<Message>, ret: int)
  {
    i < |ops| && exists start: nat ::
      start <= |traffic| && Dialogue(row, ops[..i], traffic[..start]) && Failed(row, ops, i, traffic, start, ret)
  }

  // ---------------------------------------------------------------- each family in its own way

  /** Only an LPC8XX is sent raw blocks, and it is sent no lines. */
  predicate OwnKind(variant: Variant, traffic: seq<Message>)
  {
    forall i | 0 <= i < |traffic| ::
      && (traffic[i].Block? ==> variant.LPC8XX? && 0 < |traffic[i].bytes| <= 256)
      && (traffic[i].Line? || traffic[i].Checksum? ==> !variant.LPC8XX?)
  }

  lemma NothingSaid(variant: Variant)
    ensures OwnKind(variant, [])
  {
  }

  lemma DataOwn(variant: Variant, data: seq<byte>, traffic: seq<Message>, start: nat, ret: int)
    requires start <= |traffic| && OwnKind(variant, traffic[..start])
    requires After(variant, data, traffic, start) == Finished(ret)
    ensures OwnKind(variant, traffic)
  {
    AlwaysSpoken(variant, data, traffic, start);
    forall i | 0 <= i < start
      ensures traffic[i] == traffic[..start][i]
    {
    }
  }

  lemma CommandOwn(variant: Variant, traffic: seq<Message>, start: nat)
    requires |traffic| == start + 1 && OwnKind(variant, traffic[..start]) && traffic[start].Command?
    ensures OwnKind(variant, traffic)
  {
    forall i | 0 <= i < start
      ensures traffic[i] == traffic[..start][i]
    {
    }
  }

  lemma {:induction false} DialogueOwn(row: Row, log: seq<Op>, traffic: seq<Message>)
    requires Dialogue(row, log, traffic)
    ensures OwnKind(row.variant, traffic)
    decreases |log|
  {
    hide After, OwnKind, Accepts, CommandText;
    if log == [] {
      NothingSaid(row.variant);
    } else {
      var op := log[|log| - 1];
      var cut: nat :| cut <= |traffic| && Dialogue(row, log[..|log| - 1], traffic[..cut])
                      && Answered(row, op, traffic, cut);
      DialogueOwn(row, log[..|log| - 1], traffic[..cut]);
      if op.Data? {
        DataOwn(row.variant, op.bytes, traffic, cut, 0);
      } else {
        CommandOwn(row.variant, traffic, cut);
      }
    }
  }

  /** Whatever the device answers, a stopped run has spoken the family's language, and it has given up on
      a checksum only after three refusals. */
  lemma StoppedOwn(row: Row, ops: seq<Op>, i: nat, traffic: seq<Message>, ret: int)
    requires StoppedAt(row, ops, i, traffic, ret)
    ensures OwnKind(row.variant, traffic)
    ensures ret == 0x1007 || ret == 0x1008 ==> exists start :: 0 <= start <= |traffic| && Refused(traffic, start) == 3
  {
    hide After, OwnKind, Accepts, CommandText, Refused, Dialogue, Format, ErrorNumber;
    var start: nat :| start <= |traffic| && Dialogue(row, ops[..i], traffic[..start])
                      && Failed(row, ops, i, traffic, start, ret);
    DialogueOwn(row, ops[..i], traffic[..start]);
    FailedCoded(row, ops, i, traffic, start, ret);
    if ops[i].Data? {
      DataOwn(row.variant, ops[i].bytes, traffic, start, ret);
      UploadEnds(row.variant, ops[i].bytes, traffic, start, ret);
    } else {
      CommandOwn(row.variant, traffic, start);
    }
  }
}
