/** The programmer: commands with checked answers, chunks, sectors, and the whole download. */
module Programmer {
  import opened Bytes
  import opened Text
  import opened Uuencode
  import opened VectorTable
  import opened Device
  import opened Plan
  import opened Safety
  import opened Runs
  import opened Protocol
  import opened Comparisons
  import opened Verify
  import opened Walk
  import opened Commands
  import opened Bootloader
  import opened Conversation
  import opened Upload
  import opened Reports
  import opened Examples

  const PROGRAM_TOO_LARGE: int := 0x1009

  /** Sends a command and says whether its answer, normalised, is the normalised command followed by "0\n". */
  method SendAndVerify(dev: Target, op: Op) returns (ok: bool, answer: array<char>, ghost reply: string)
    requires Printable(op)
    modifies dev
    ensures dev.traffic == old(dev.traffic) + [Command(CommandText(dev.row, op), reply)]
    ensures fresh(answer) && CString(answer, Format(reply))
    ensures ok <==> Accepts(CommandText(dev.row, op), reply)
    ensures Outcome(dev.row, dev.capacity, old(dev.mem), old(dev.log), op, ok, dev.mem, dev.log)
    ensures dev.perfect && Legal(dev.row, dev.capacity, old(dev.mem), op) ==> ok
    ensures ok && op.Write? ==> dev.upload == [] && dev.lines == [] && !dev.damaged
    ensures dev.perfect && !old(dev.damaged) ==> !dev.damaged
  {
    CommandPlain(dev.row, op);
    CommandReads(dev.row, op);
    EchoAccepted(CommandBody(dev.row, op));
    var command := CommandText(dev.row, op);
    var received := dev.Execute(command);
    reply := received;
    ok, answer := CheckAnswer(command, received);
  }

  /** Normalises a command and its answer, the answer in place, and compares them. */
  method CheckAnswer(command: string, reply: string) returns (ok: bool, answer: array<char>)
    requires '\0' !in command && |command| <= 100 && Receivable(reply)
    ensures fresh(answer) && CString(answer, Format(reply))
    ensures ok <==> Accepts(command, reply)
  {
    var sent := Store(command);
    var formatted := new char[|command| + 1](i => '\0');
    FormatCommand(sent, formatted, command);
    var expected := Fetch(formatted, Format(command));
    answer := Store(reply);
    FormatCommand(answer, answer, reply);
    var got := Fetch(answer, Format(reply));
    ok := expected <= got && got[|expected|..] == "0\n";
    assert ok ==> got == expected + "0\n";
  }

  // ---------------------------------------------------------------- following the plan

  /** The commands that have taken effect, followed by `rest`, are the whole run, and no others were sent. */
  ghost predicate Tracks(job: Job, m0: Memory, capacity: nat, m: Memory, log: seq<Op>, traffic: seq<Message>,
                         rest: seq<Op>)
    requires ValidJob(job)
  {
    && log + rest == Whole(job) && m == Run(job.row, m0, log) && LegalRun(job.row, capacity, m0, log)
    && Dialogue(job.row, log, traffic)
  }

  /** A run cut short: a beginning of the plan has taken effect, and `ret` reports the command it stopped at,
      which is the first one that has not taken effect or the last one that has. */
  ghost predicate Halted(job: Job, m0: Memory, capacity: nat, m: Memory, log: seq<Op>, traffic: seq<Message>, ret: int)
    requires ValidJob(job)
  {
    && log <= Whole(job)
    && m.flash == Run(job.row, m0, log).flash
    && LegalRun(job.row, capacity, m0, log)
    && exists i: nat ::
         |log| <= i + 1 <= |log| + 1 && StoppedAt(job.row, Whole(job), i, traffic, ret) && Coded(Whole(job), i, ret)
  }

  lemma StepOn(job: Job, m0: Memory, capacity: nat, m: Memory, log: seq<Op>, traffic: seq<Message>,
               op: Op, rest: seq<Op>, traffic': seq<Message>)
    requires ValidJob(job) && Tracks(job, m0, capacity, m, log, traffic, [op] + rest)
    requires Legal(job.row, capacity, m, op)
    requires traffic <= traffic' && Answered(job.row, op, traffic', |traffic|)
    ensures Tracks(job, m0, capacity, Step(job.row, m, op), log + [op], traffic', rest)
  {
    hide Dialogue, Answered, Legal;
    StepTaken(job, m0, capacity, m, log, op, rest);
    DialogueSnoc(job.row, log, traffic, op, traffic');
  }

  lemma StepTaken(job: Job, m0: Memory, capacity: nat, m: Memory, log: seq<Op>, op: Op, rest: seq<Op>)
    requires ValidJob(job) && log + ([op] + rest) == Whole(job)
    requires m == Run(job.row, m0, log) && LegalRun(job.row, capacity, m0, log) && Legal(job.row, capacity, m, op)
    ensures (log + [op]) + rest == Whole(job) && log + [op] <= Whole(job)
    ensures Run(job.row, m0, log + [op]) == Step(job.row, m, op) && LegalRun(job.row, capacity, m0, log + [op])
  {
    Associate(log, [op], rest);
    RunConcat(job.row, m0, log, [op]);
    LegalConcat(job.row, capacity, m0, log, [op]);
  }

  /** The next command has failed, with or without having taken effect. */
  lemma Stop(job: Job, m0: Memory, capacity: nat, m: Memory, log: seq<Op>, traffic: seq<Message>, op: Op, rest: seq<Op>,
             m': Memory, log': seq<Op>, traffic': seq<Message>, ret: int)
    requires ValidJob(job) && Tracks(job, m0, capacity, m, log, traffic, [op] + rest)
    requires (m' == m && log' == log)
          || (Legal(job.row, capacity, m, op) && m' == Step(job.row, m, op) && log' == log + [op])
    requires traffic <= traffic' && |log| < |Whole(job)| && Failed(job.row, Whole(job), |log|, traffic', |traffic|, ret)
    ensures Halted(job, m0, capacity, m', log', traffic', ret)
  {
    hide Dialogue, Failed, Legal;
    assert Whole(job)[..|log|] == log && traffic'[..|traffic|] == traffic;
    FailedCoded(job.row, Whole(job), |log|, traffic', |traffic|, ret);
    assert StoppedAt(job.row, Whole(job), |log|, traffic', ret);
    if log' != log {
      StepTaken(job, m0, capacity, m, log, op, rest);
    }
  }

  /** A device that never fails, in the middle of nothing broken. */
  ghost predicate Serving(dev: Target)
    reads dev
  {
    dev.perfect && !dev.damaged
  }

  /** The run has no command that a device with this memory and this much RAM has to refuse. */
  ghost predicate Modest(job: Job, m0: Memory, capacity: nat)
  {
    ValidJob(job) && LegalRun(job.row, capacity, m0, Whole(job))
  }

  /** The next command of the plan is always acceptable. */
  lemma NextLegal(job: Job, m0: Memory, capacity: nat, m: Memory, log: seq<Op>, traffic: seq<Message>,
                  op: Op, rest: seq<Op>)
    requires Modest(job, m0, capacity) && Tracks(job, m0, capacity, m, log, traffic, [op] + rest)
    ensures Legal(job.row, capacity, m, op)
  {
    assert Whole(job)[|log|] == op && Whole(job)[..|log|] == log;
    LegalAt(job.row, capacity, m0, Whole(job), |log|);
  }

  /** Sends the next command of the plan. `base` is the error value for it. */
  method Perform(dev: Target, op: Op, base: int, ghost job: Job, ghost m0: Memory, ghost rest: seq<Op>)
    returns (ret: int)
    requires ValidJob(job) && dev.row == job.row && Printable(op)
    requires Tracks(job, m0, dev.capacity, dev.mem, dev.log, dev.traffic, [op] + rest)
    requires |dev.log| < |Whole(job)| && base == ErrorBase(Whole(job), |dev.log|)
    modifies dev
    ensures ret == 0 ==> Tracks(job, m0, dev.capacity, dev.mem, dev.log, dev.traffic, rest)
    ensures ret == 0 ==> dev.log == old(dev.log) + [op] && dev.mem == Step(job.row, old(dev.mem), op)
    ensures ret != 0 ==> Halted(job, m0, dev.capacity, dev.mem, dev.log, dev.traffic, ret)
    ensures |dev.traffic| == |old(dev.traffic)| + 1 && dev.traffic[|old(dev.traffic)|].Command?
    ensures dev.traffic[|old(dev.traffic)|].answer == "" ==> ret == base + 255
    ensures old(Serving(dev)) && Modest(job, m0, dev.capacity) ==> ret == 0 && Serving(dev)
    ensures ret == 0 && op.Write? ==> dev.upload == [] && dev.lines == [] && !dev.damaged
  {
    hide After, Legal, Accepts, ErrorNumber, CommandText, LegalRun, Dialogue, Answered, Failed, Halted, ErrorBase;
    if Serving(dev) && Modest(job, m0, dev.capacity) {
      NextLegal(job, m0, dev.capacity, dev.mem, dev.log, dev.traffic, op, rest);
    }
    ghost var m, log, traffic := dev.mem, dev.log, dev.traffic;
    NextOps(job, m0, dev.capacity, m, log, traffic, op, rest);
    NoEcho(CommandText(dev.row, op));
    var ok, answer, reply := SendAndVerify(dev, op);
    if ok {
      CommandAnswered(dev.row, op, traffic, reply);
      StepOn(job, m0, dev.capacity, m, log, traffic, op, rest, dev.traffic);
      return 0;
    }
    var number := GetAndReportErrorNumber(answer, Format(reply));
    ret := base + number;
    CommandFailed(dev.row, Whole(job), |log|, traffic, reply, ret);
    Stop(job, m0, dev.capacity, m, log, traffic, op, rest, dev.mem, dev.log, dev.traffic, ret);
    SilenceReported(dev.row, op, base, ret);
  }

  // ---------------------------------------------------------------- one chunk

  /** What 32-bit variables and printed commands can hold. */
  predicate InRange(job: Job)
    requires ValidJob(job)
  {
    job.offset + FlashSize(job.row) < WORD && |job.content| < WORD - 8192
  }

  function LoadWrite(job: Job, p: Piece): Op
  {
    Write(RamBase(job.row.variant), p.upload)
  }

  function LoadData(job: Job, p: Piece): Op
    requires p.at + p.upload <= |job.content|
  {
    Data(job.content[p.at..p.at + p.upload])
  }

  function LoadOps(job: Job, p: Piece): (ops: seq<Op>)
    requires p.at + p.upload <= |job.content|
  {
    [LoadWrite(job, p), LoadData(job, p)]
  }

  /** A piece of the image that can be uploaded: whole groups of lines, where lines are used. */
  predicate Uploadable(job: Job, p: Piece)
    requires ValidJob(job)
  {
    && p.at < job.length && 0 < p.upload && p.at + p.upload < job.length + GROUP_BYTES
    && (!job.row.variant.LPC8XX? ==> p.upload % GROUP_BYTES == 0)
  }

  lemma DataDone(job: Job, m0: Memory, capacity: nat, m: Memory, log: seq<Op>, traffic: seq<Message>, p: Piece,
                 rest: seq<Op>, m': Memory, log': seq<Op>, traffic': seq<Message>)
    requires ValidJob(job) && p.at + p.upload <= |job.content| && m.due == p.upload
    requires Tracks(job, m0, capacity, m, log, traffic, [LoadData(job, p)] + rest)
    requires Landed(job.row, m, log, job.content[p.at..p.at + p.upload], m', log')
    requires traffic <= traffic' && Answered(job.row, LoadData(job, p), traffic', |traffic|)
    ensures Tracks(job, m0, capacity, m', log', traffic', rest) && log' == log + [LoadData(job, p)]
  {
    hide Tracks, Answered;
    StepOn(job, m0, capacity, m, log, traffic, LoadData(job, p), rest, traffic');
  }

  lemma DataFailed(job: Job, m0: Memory, capacity: nat, m: Memory, log: seq<Op>, traffic: seq<Message>, p: Piece,
                   rest: seq<Op>, traffic': seq<Message>, ret: int)
    requires ValidJob(job) && p.at + p.upload <= |job.content|
    requires Tracks(job, m0, capacity, m, log, traffic, [LoadData(job, p)] + rest)
    requires traffic <= traffic' && ret != 0
    requires After(job.row.variant, job.content[p.at..p.at + p.upload], traffic', |traffic|) == Finished(ret)
    ensures Halted(job, m0, capacity, m, log, traffic', ret)
  {
    hide Tracks, After, Halted;
    NextOps(job, m0, capacity, m, log, traffic, LoadData(job, p), rest);
    Stop(job, m0, capacity, m, log, traffic, LoadData(job, p), rest, m, log, traffic', ret);
  }

  /** Brings a piece into RAM, the way the device's family wants it. */
  method UploadChunk(dev: Target, job: Job, p: Piece, table: seq<char>, acc0: i32,
                     ghost m0: Memory, ghost rest: seq<Op>)
    returns (ret: int, acc: i32)
    requires ValidJob(job) && dev.row == job.row && Uploadable(job, p)
    requires dev.mem.due == p.upload && dev.upload == [] && dev.lines == []
    requires |table| == 64 && forall i | 0 <= i < 64 :: table[i] == Code(i)
    requires Tracks(job, m0, dev.capacity, dev.mem, dev.log, dev.traffic, [LoadData(job, p)] + rest)
    modifies dev
    ensures ret == 0 ==> Tracks(job, m0, dev.capacity, dev.mem, dev.log, dev.traffic, rest)
    ensures ret == 0 ==> dev.log == old(dev.log) + [LoadData(job, p)]
    ensures ret != 0 ==> Halted(job, m0, dev.capacity, dev.mem, dev.log, dev.traffic, ret)
    ensures old(Serving(dev)) && Modest(job, m0, dev.capacity) ==> ret == 0 && Serving(dev)
  {
    hide Tracks, Halted, Modest, LegalRun, After;
    ghost var m, log, traffic := dev.mem, dev.log, dev.traffic;
    ret, acc := Transfer(dev, job, p, table, acc0);
    if ret == 0 {
      DataDone(job, m0, dev.capacity, m, log, traffic, p, rest, dev.mem, dev.log, dev.traffic);
    } else {
      DataFailed(job, m0, dev.capacity, m, log, traffic, p, rest, dev.traffic, ret);
    }
  }

  /** Both kinds of transfer meet one specification. */
  method Transfer(dev: Target, job: Job, p: Piece, table: seq<char>, acc0: i32) returns (ret: int, acc: i32)
    requires ValidJob(job) && dev.row == job.row && Uploadable(job, p)
    requires dev.mem.due == p.upload && dev.upload == [] && dev.lines == []
    requires |table| == 64 && forall i | 0 <= i < 64 :: table[i] == Code(i)
    modifies dev
    ensures ret == 0 ==>
              Landed(dev.row, old(dev.mem), old(dev.log), job.content[p.at..p.at + p.upload], dev.mem, dev.log)
    ensures ret != 0 ==> dev.mem == old(dev.mem) && dev.log == old(dev.log)
    ensures Said(dev, old(dev.traffic), job.content[p.at..p.at + p.upload], Finished(ret))
    ensures Spoken(dev.row.variant, dev.traffic, |old(dev.traffic)|)
    ensures ret in {0, 0x1006, 0x1007, 0x1008}
    ensures ret == 0x1007 || ret == 0x1008 <==> Refused(dev.traffic, |old(dev.traffic)|) == 3
    ensures old(Serving(dev)) ==> ret == 0 && Serving(dev)
  {
    hide After, Landed, Spoken, Refused;
    acc := acc0;
    if job.row.variant.LPC8XX? {
      ret := UploadBlocks(dev, job.content, p.at, p.upload);
    } else {
      ret, acc := UploadLines(dev, job.content, p.at, p.upload, job.length, table, acc0);
    }
    UploadEnds(dev.row.variant, job.content[p.at..p.at + p.upload], dev.traffic, |old(dev.traffic)|, ret);
  }

  /** The rounding of an upload to whole groups of four lines. */
  method RoundToGroups(variant: Variant, chunk: nat) returns (size: nat)
    ensures size == UploadSize(variant, chunk)
  {
    size := chunk;
    if !variant.LPC8XX? {
      if size % (45 * 4) != 0 {
        size := size + ((45 * 4) - (size % (45 * 4)));
      }
    }
  }

  /** The rounding of a copy to a size the device knows, capped by its largest copy: enough for the chunk. */
  method RoundToCopy(row: Row, upload: nat, sectorLength: nat, ghost chunk: nat) returns (count: nat)
    requires chunk <= upload && chunk <= sectorLength && chunk <= row.maxCopySize <= 8192
    ensures chunk <= count <= row.maxCopySize && count in {512, 1024, 4096, 8192, row.maxCopySize}
    ensures upload < 512 ==> count <= 512
    ensures 512 <= upload ==> 1024 <= count || count == row.maxCopySize
    ensures 512 <= upload ==> sectorLength < count || count == 8192 || count == row.maxCopySize
    ensures sectorLength < 1024 ==> count <= 1024
    ensures sectorLength < 4096 ==> count <= 4096
    ensures count == CopySize(row, upload, sectorLength)
  {
    count := upload;
    if count < 512 {
      count := 512;
    } else if sectorLength < 1024 {
      count := 1024;
    } else if sectorLength < 4096 {
      count := 4096;
    } else {
      count := 8192;
    }
    if count > row.maxCopySize {
      count := row.maxCopySize;
    }
  }

  function CompareOps(job: Job, p: Piece): (ops: seq<Op>)
  {
    if job.verify then [CompareOp(job, p.at, p.count)] else []
  }

  function BurnOps(job: Job, sector: nat, p: Piece): (ops: seq<Op>)
  {
    [Prepare(sector, sector), Copy(job.offset + p.at, RamBase(job.row.variant), p.count)] + CompareOps(job, p)
  }

  /** Announces the piece and uploads it. */
  method LoadPiece(dev: Target, job: Job, p: Piece, table: seq<char>, acc0: i32, ghost m0: Memory, ghost rest: seq<Op>)
    returns (ret: int, acc: i32)
    requires ValidJob(job) && InRange(job) && dev.row == job.row && Uploadable(job, p)
    requires |table| == 64 && forall i | 0 <= i < 64 :: table[i] == Code(i)
    requires Tracks(job, m0, dev.capacity, dev.mem, dev.log, dev.traffic, LoadOps(job, p) + rest)
    modifies dev
    ensures ret == 0 ==> Tracks(job, m0, dev.capacity, dev.mem, dev.log, dev.traffic, rest)
    ensures ret == 0 ==> |dev.log| > 0 && dev.log[|dev.log| - 1].Data?
    ensures ret != 0 ==> Halted(job, m0, dev.capacity, dev.mem, dev.log, dev.traffic, ret)
    ensures old(Serving(dev)) && Modest(job, m0, dev.capacity) ==> ret == 0 && Serving(dev)
  {
    hide Tracks, Halted, Modest, Whole, Legal, LegalRun;
    var write := LoadWrite(job, p);
    ghost var left := [LoadData(job, p)] + rest;
    TwoMore(write, LoadData(job, p), rest);
    acc := acc0;
    NextOps(job, m0, dev.capacity, dev.mem, dev.log, dev.traffic, write, left);
    ret := Perform(dev, write, WRONG_ANSWER_WRIT, job, m0, left);
    if ret == 0 {
      ret, acc := UploadChunk(dev, job, p, table, acc0, m0, rest);
    }
  }

  lemma CopyPrintable(job: Job, p: Piece)
    requires ValidJob(job) && InRange(job) && p.at + p.count <= FlashSize(job.row) && p.count <= 8192
    ensures Printable(Copy(job.offset + p.at, RamBase(job.row.variant), p.count))
    ensures job.verify ==> Printable(CompareOp(job, p.at, p.count))
  {
  }

  /** Copies the piece to flash and compares it. */
  method CopyPiece(dev: Target, job: Job, p: Piece, ghost m0: Memory, ghost rest: seq<Op>) returns (ret: int)
    requires ValidJob(job) && InRange(job) && dev.row == job.row
    requires p.at + p.count <= FlashSize(job.row) && p.count <= 8192
    requires Tracks(job, m0, dev.capacity, dev.mem, dev.log, dev.traffic,
                    [Copy(job.offset + p.at, RamBase(job.row.variant), p.count)] + (CompareOps(job, p) + rest))
    modifies dev
    ensures ret == 0 ==> Tracks(job, m0, dev.capacity, dev.mem, dev.log, dev.traffic, rest) && LastNotData(dev.log)
    ensures ret != 0 ==> Halted(job, m0, dev.capacity, dev.mem, dev.log, dev.traffic, ret)
    ensures old(Serving(dev)) && Modest(job, m0, dev.capacity) ==> ret == 0 && Serving(dev)
  {
    hide Tracks, Halted, Modest, Legal, LegalRun, CompareOps, InRange, Printable;
    CopyPrintable(job, p);
    var copy := Copy(job.offset + p.at, RamBase(job.row.variant), p.count);
    ghost var left := CompareOps(job, p) + rest;
    NextOps(job, m0, dev.capacity, dev.mem, dev.log, dev.traffic, copy, left);
    ret := Perform(dev, copy, WRONG_ANSWER_COPY, job, m0, left);
    if ret == 0 {
      ret := ComparePiece(dev, job, p, m0, rest);
    }
  }

  /** Compares the piece, where that is asked for. */
  method ComparePiece(dev: Target, job: Job, p: Piece, ghost m0: Memory, ghost rest: seq<Op>) returns (ret: int)
    requires ValidJob(job) && InRange(job) && dev.row == job.row
    requires p.at + p.count <= FlashSize(job.row) && p.count <= 8192 && LastNotData(dev.log)
    requires Tracks(job, m0, dev.capacity, dev.mem, dev.log, dev.traffic, CompareOps(job, p) + rest)
    modifies dev
    ensures ret == 0 ==> Tracks(job, m0, dev.capacity, dev.mem, dev.log, dev.traffic, rest) && LastNotData(dev.log)
    ensures ret != 0 ==> Halted(job, m0, dev.capacity, dev.mem, dev.log, dev.traffic, ret)
    ensures old(Serving(dev)) && Modest(job, m0, dev.capacity) ==> ret == 0 && Serving(dev)
  {
    hide Tracks, Halted, Modest, LegalRun, InRange, Printable;
    CopyPrintable(job, p);
    if job.verify {
      var compare := CompareOp(job, p.at, p.count);
      NextOps(job, m0, dev.capacity, dev.mem, dev.log, dev.traffic, compare, rest);
      ret := Perform(dev, compare, WRONG_ANSWER_COPY, job, m0, rest);
    } else {
      Associate([], [], rest);
      ret := 0;
    }
  }

  lemma BurnSplits(job: Job, sector: nat, p: Piece, rest: seq<Op>)
    ensures BurnOps(job, sector, p) + rest ==
            [Prepare(sector, sector)] + ([Copy(job.offset + p.at, RamBase(job.row.variant), p.count)]
                                         + (CompareOps(job, p) + rest))
  {
    var prepare, copy := Prepare(sector, sector), Copy(job.offset + p.at, RamBase(job.row.variant), p.count);
    Associate([prepare, copy], CompareOps(job, p), rest);
    TwoMore(prepare, copy, CompareOps(job, p) + rest);
  }

  /** Prepares the sector again and copies the piece. */
  method BurnPiece(dev: Target, job: Job, sector: nat, p: Piece, ghost m0: Memory, ghost rest: seq<Op>)
    returns (ret: int)
    requires ValidJob(job) && InRange(job) && dev.row == job.row && sector < job.row.flashSectors < WORD
    requires p.at + p.count <= FlashSize(job.row) && p.count <= 8192
    requires |dev.log| > 0 && dev.log[|dev.log| - 1].Data?
    requires Tracks(job, m0, dev.capacity, dev.mem, dev.log, dev.traffic, BurnOps(job, sector, p) + rest)
    modifies dev
    ensures ret == 0 ==> Tracks(job, m0, dev.capacity, dev.mem, dev.log, dev.traffic, rest) && LastNotData(dev.log)
    ensures ret != 0 ==> Halted(job, m0, dev.capacity, dev.mem, dev.log, dev.traffic, ret)
    ensures old(Serving(dev)) && Modest(job, m0, dev.capacity) ==> ret == 0 && Serving(dev)
  {
    hide Tracks, Halted, Modest, LegalRun;
    var prepare := Prepare(sector, sector);
    ghost var left := [Copy(job.offset + p.at, RamBase(job.row.variant), p.count)] + (CompareOps(job, p) + rest);
    BurnSplits(job, sector, p, rest);
    NextOps(job, m0, dev.capacity, dev.mem, dev.log, dev.traffic, prepare, left);
    ret := Perform(dev, prepare, WRONG_ANSWER_PREP2, job, m0, left);
    if ret == 0 {
      ret := CopyPiece(dev, job, p, m0, rest);
    }
  }

  lemma PieceSplits(job: Job, sector: nat, p: Piece, rest: seq<Op>)
    requires p.at + p.upload <= |job.content|
    ensures PieceOps(job, sector, p) + rest == LoadOps(job, p) + (BurnOps(job, sector, p) + rest)
  {
  }

  /** The command at the head of what remains is the next one of the plan. */
  lemma NextOps(job: Job, m0: Memory, capacity: nat, m: Memory, log: seq<Op>, traffic: seq<Message>,
                op: Op, rest: seq<Op>)
    requires ValidJob(job) && Tracks(job, m0, capacity, m, log, traffic, [op] + rest)
    ensures |log| < |Whole(job)| && Whole(job)[|log|] == op
    ensures |log| > 0 ==> Whole(job)[|log| - 1] == log[|log| - 1]
  {
  }

  // ---------------------------------------------------------------- one sector

  /** Whether sector bytes are all 0xFF, found by scanning up to the first that is not. */
  method AllBlank(image: seq<byte>, start: nat, length: nat) returns (blank: bool)
    requires start + length <= |image|
    ensures blank <==> OnlyBlank(image[start..start + length])
  {
    ghost var sector := image[start..start + length];
    var offset := 0;
    while offset < length
      invariant 0 <= offset <= length && OnlyBlank(sector[..offset])
    {
      assert sector[offset] == image[start + offset];
      if image[start + offset] != 0xFF {
        return false;
      }
      assert sector[..offset + 1] == sector[..offset] + [sector[offset]];
      offset := offset + 1;
    }
    assert sector[..offset] == sector;
    blank := true;
  }

  /** The commands left in a sector once its first `offset` bytes are done. */
  function BodyFrom(job: Job, sector: nat, offset: nat): (ops: seq<Op>)
    requires ValidJob(job) && sector < |job.row.sectorTable| && Start(job.row, sector) <= job.length
    requires offset % job.row.maxCopySize == 0 || offset >= SectorLength(job, sector)
  {
    var ps := Pieces(job, sector, offset);
    PiecesTiled(job, sector, offset);
    TiledBounds(ps, Start(job.row, sector) + offset, Start(job.row, sector) + SectorLength(job, sector),
                Start(job.row, sector + 1), |job.content|);
    PiecesOps(job, sector, ps)
  }

  /** What the rest of the chunk loop relies on about the piece cut off at `offset`. */
  ghost predicate NextPiece(job: Job, sector: nat, offset: nat, p: Piece)
    requires ValidJob(job) && sector < job.row.flashSectors && Start(job.row, sector) <= job.length
    requires offset % job.row.maxCopySize == 0
  {
    && 0 < p.chunk && Uploadable(job, p) && p.at + p.count <= FlashSize(job.row) && p.count <= 8192
    && ((offset + p.chunk) % job.row.maxCopySize == 0 || offset + p.chunk >= SectorLength(job, sector))
    && BodyFrom(job, sector, offset) == PieceOps(job, sector, p) + BodyFrom(job, sector, offset + p.chunk)
  }

  lemma BodyStep(job: Job, sector: nat, offset: nat, p: Piece)
    requires ValidJob(job) && sector < job.row.flashSectors && Start(job.row, sector) <= job.length
    requires offset % job.row.maxCopySize == 0 && offset < SectorLength(job, sector)
    requires p.at == Start(job.row, sector) + offset && p.chunk == ChunkSize(job.row, SectorLength(job, sector), offset)
    requires p.upload == UploadSize(job.row.variant, p.chunk)
    requires p.count == CopySize(job.row, p.upload, SectorLength(job, sector))
    ensures NextPiece(job, sector, offset, p)
  {
    ChunkGeometry(job.row, sector, SectorLength(job, sector), offset);
    StartMono(job.row, sector + 1, job.row.flashSectors);
    assert p == Pieces(job, sector, offset)[0];
    assert Pieces(job, sector, offset)[1..] == Pieces(job, sector, offset + p.chunk);
  }

  lemma ChunkSplits(job: Job, sector: nat, offset: nat, p: Piece, rest: seq<Op>)
    requires ValidJob(job) && sector < job.row.flashSectors && Start(job.row, sector) <= job.length
    requires offset % job.row.maxCopySize == 0 && NextPiece(job, sector, offset, p)
    ensures BodyFrom(job, sector, offset) + rest ==
            LoadOps(job, p) + (BurnOps(job, sector, p) + (BodyAt(job, sector, offset + p.chunk) + rest))
  {
    var left := BodyFrom(job, sector, offset + p.chunk);
    PieceSplits(job, sector, p, left + rest);
    Associate(PieceOps(job, sector, p), left, rest);
  }

  /** What a sector still needs when its first `offset` bytes are done. */
  function BodyAt(job: Job, sector: nat, offset: nat): (ops: seq<Op>)
    requires ValidJob(job) && sector < |job.row.sectorTable| && Start(job.row, sector) <= job.length
    requires offset % job.row.maxCopySize == 0 || offset >= SectorLength(job, sector)
  {
    if offset == 0 then SectorBody(job, sector) else BodyFrom(job, sector, offset)
  }

  lemma BodySkipped(job: Job, sector: nat, rest: seq<Op>)
    requires ValidJob(job) && sector < job.row.flashSectors && Start(job.row, sector) <= job.length
    requires OnlyBlank(job.content[Start(job.row, sector)..Start(job.row, sector) + SectorLength(job, sector)])
    ensures SectorBody(job, sector) + rest == rest
  {
    Associate([], [], rest);
  }

  lemma BodyStarts(job: Job, sector: nat)
    requires ValidJob(job) && sector < job.row.flashSectors && Start(job.row, sector) <= job.length
    requires !OnlyBlank(job.content[Start(job.row, sector)..Start(job.row, sector) + SectorLength(job, sector)])
    ensures SectorBody(job, sector) == BodyFrom(job, sector, 0)
  {
  }

  lemma BodyEnds(job: Job, sector: nat, offset: nat, rest: seq<Op>)
    requires ValidJob(job) && sector < job.row.flashSectors && Start(job.row, sector) <= job.length
    requires 0 < offset && offset >= SectorLength(job, sector)
    ensures BodyAt(job, sector, offset) + rest == rest
  {
    Associate([], [], rest);
  }

  /** The chunk loop of one sector. */
  method ProgramChunks(dev: Target, job: Job, sector: nat, sectorStart: nat, sectorLength: nat,
                       table: seq<char>, acc0: i32, ghost m0: Memory, ghost rest: seq<Op>)
    returns (ret: int, acc: i32)
    requires ValidJob(job) && InRange(job) && dev.row == job.row && sector < job.row.flashSectors < WORD
    requires sectorStart == Start(job.row, sector) < job.length && sectorLength == SectorLength(job, sector)
    requires |table| == 64 && forall i | 0 <= i < 64 :: table[i] == Code(i)
    requires LastNotData(dev.log)
    requires Tracks(job, m0, dev.capacity, dev.mem, dev.log, dev.traffic, SectorBody(job, sector) + rest)
    modifies dev
    ensures ret == 0 ==> Tracks(job, m0, dev.capacity, dev.mem, dev.log, dev.traffic, rest) && LastNotData(dev.log)
    ensures ret != 0 ==> Halted(job, m0, dev.capacity, dev.mem, dev.log, dev.traffic, ret)
    ensures old(Serving(dev)) && Modest(job, m0, dev.capacity) ==> ret == 0 && Serving(dev)
  {
    hide Tracks, Halted, Modest, LegalRun;
    ret, acc := 0, acc0;
    var sectorOffset := 0;
    assert GoodSector(job.row, sector);
    while sectorOffset < sectorLength
      invariant 0 <= sectorOffset && ret == 0 && LastNotData(dev.log)
      invariant sectorOffset % job.row.maxCopySize == 0 || sectorOffset >= sectorLength
      invariant Tracks(job, m0, dev.capacity, dev.mem, dev.log, dev.traffic, BodyAt(job, sector, sectorOffset) + rest)
      invariant old(Serving(dev)) && Modest(job, m0, dev.capacity) ==> Serving(dev)
    {
      ret, acc, sectorOffset :=
        ChunkTurn(dev, job, sector, sectorStart, sectorOffset, sectorLength, table, acc, m0, rest);
      if ret != 0 {
        return;
      }
    }
    BodyEnds(job, sector, sectorOffset, rest);
  }

  /** One turn of the chunk loop: the first one skips over a sector that is all 0xFF. */
  method ChunkTurn(dev: Target, job: Job, sector: nat, sectorStart: nat, sectorOffset: nat, sectorLength: nat,
                   table: seq<char>, acc0: i32, ghost m0: Memory, ghost rest: seq<Op>)
    returns (ret: int, acc: i32, next: nat)
    requires ValidJob(job) && InRange(job) && dev.row == job.row && sector < job.row.flashSectors < WORD
    requires sectorStart == Start(job.row, sector) < job.length && sectorLength == SectorLength(job, sector)
    requires sectorOffset % job.row.maxCopySize == 0 && sectorOffset < sectorLength && LastNotData(dev.log)
    requires |table| == 64 && forall i | 0 <= i < 64 :: table[i] == Code(i)
    requires Tracks(job, m0, dev.capacity, dev.mem, dev.log, dev.traffic, BodyAt(job, sector, sectorOffset) + rest)
    modifies dev
    ensures sectorOffset < next && (next % job.row.maxCopySize == 0 || next >= sectorLength)
    ensures ret == 0 ==> Tracks(job, m0, dev.capacity, dev.mem, dev.log, dev.traffic, BodyAt(job, sector, next) + rest)
    ensures ret == 0 ==> LastNotData(dev.log)
    ensures ret != 0 ==> Halted(job, m0, dev.capacity, dev.mem, dev.log, dev.traffic, ret)
    ensures old(Serving(dev)) && Modest(job, m0, dev.capacity) ==> ret == 0 && Serving(dev)
  {
    hide Tracks, Halted, Modest, LegalRun;
    if sectorOffset == 0 {
      var blank := AllBlank(job.content, sectorStart, sectorLength);
      if blank {
        BodySkipped(job, sector, rest);
        BodyEnds(job, sector, sectorLength, rest);
        return 0, acc0, sectorLength;
      }
      BodyStarts(job, sector);
    }
    ret, acc, next := ProgramChunk(dev, job, sector, sectorStart, sectorOffset, sectorLength, table, acc0, m0, rest);
  }

  ghost predicate LastNotData(log: seq<Op>)
  {
    |log| > 0 && !log[|log| - 1].Data?
  }

  /** One turn of the chunk loop. */
  method ProgramChunk(dev: Target, job: Job, sector: nat, sectorStart: nat, sectorOffset: nat, sectorLength: nat,
                      table: seq<char>, acc0: i32, ghost m0: Memory, ghost rest: seq<Op>)
    returns (ret: int, acc: i32, next: nat)
    requires ValidJob(job) && InRange(job) && dev.row == job.row && sector < job.row.flashSectors < WORD
    requires sectorStart == Start(job.row, sector) < job.length && sectorLength == SectorLength(job, sector)
    requires sectorOffset % job.row.maxCopySize == 0 && sectorOffset < sectorLength
    requires |table| == 64 && forall i | 0 <= i < 64 :: table[i] == Code(i)
    requires Tracks(job, m0, dev.capacity, dev.mem, dev.log, dev.traffic, BodyFrom(job, sector, sectorOffset) + rest)
    modifies dev
    ensures sectorOffset < next && (next % job.row.maxCopySize == 0 || next >= sectorLength)
    ensures ret == 0 ==> Tracks(job, m0, dev.capacity, dev.mem, dev.log, dev.traffic, BodyAt(job, sector, next) + rest)
    ensures ret == 0 ==> LastNotData(dev.log)
    ensures ret != 0 ==> Halted(job, m0, dev.capacity, dev.mem, dev.log, dev.traffic, ret)
    ensures old(Serving(dev)) && Modest(job, m0, dev.capacity) ==> ret == 0 && Serving(dev)
  {
    hide Tracks, Halted, Modest, LegalRun;
    var p := CutChunk(job, sector, sectorStart, sectorOffset, sectorLength);
    next := sectorOffset + p.chunk;
    ghost var left := BodyAt(job, sector, next) + rest;
    ChunkSplits(job, sector, sectorOffset, p, rest);
    ret, acc := LoadPiece(dev, job, p, table, acc0, m0, BurnOps(job, sector, p) + left);
    if ret == 0 {
      ret := BurnPiece(dev, job, sector, p, m0, left);
    }
  }

  /** The next piece of a sector: as much as one copy takes, with the sizes rounded for upload and copy. */
  method CutChunk(job: Job, sector: nat, sectorStart: nat, sectorOffset: nat, sectorLength: nat) returns (p: Piece)
    requires ValidJob(job) && sector < job.row.flashSectors
    requires sectorStart == Start(job.row, sector) < job.length && sectorLength == SectorLength(job, sector)
    requires sectorOffset % job.row.maxCopySize == 0 && sectorOffset < sectorLength
    ensures NextPiece(job, sector, sectorOffset, p)
  {
    var sectorChunk := sectorLength - sectorOffset;
    if sectorChunk > job.row.maxCopySize {
      sectorChunk := job.row.maxCopySize;
    }
    var upload := RoundToGroups(job.row.variant, sectorChunk);
    var count := RoundToCopy(job.row, upload, sectorLength, sectorChunk);
    p := Piece(sectorStart + sectorOffset, sectorChunk, upload, count);
    BodyStep(job, sector, sectorOffset, p);
  }

  /** Prepares a sector and erases it where that is still to be done. */
  method OpenSector(dev: Target, job: Job, sector: nat, ghost m0: Memory, ghost rest: seq<Op>) returns (ret: int)
    requires ValidJob(job) && dev.row == job.row && sector < job.row.flashSectors < WORD
    requires LastNotData(dev.log)
    requires Tracks(job, m0, dev.capacity, dev.mem, dev.log, dev.traffic, SectorHead(job, sector) + rest)
    modifies dev
    ensures ret == 0 ==> Tracks(job, m0, dev.capacity, dev.mem, dev.log, dev.traffic, rest) && LastNotData(dev.log)
    ensures ret != 0 ==> Halted(job, m0, dev.capacity, dev.mem, dev.log, dev.traffic, ret)
    ensures old(Serving(dev)) && Modest(job, m0, dev.capacity) ==> ret == 0 && Serving(dev)
  {
    hide Tracks, Halted, Modest, LegalRun;
    var prepare := Prepare(sector, sector);
    ghost var left := EraseOps(job, sector) + rest;
    Associate([prepare], EraseOps(job, sector), rest);
    NextOps(job, m0, dev.capacity, dev.mem, dev.log, dev.traffic, prepare, left);
    ret := Perform(dev, prepare, WRONG_ANSWER_PREP, job, m0, left);
    if ret == 0 {
      ret := EraseWhereDue(dev, job, sector, m0, rest);
    }
  }

  function EraseOps(job: Job, sector: nat): (ops: seq<Op>)
  {
    if !job.wipe && sector != 0 then [Erase(sector, sector)] else []
  }

  method EraseWhereDue(dev: Target, job: Job, sector: nat, ghost m0: Memory, ghost rest: seq<Op>) returns (ret: int)
    requires ValidJob(job) && dev.row == job.row && sector < job.row.flashSectors < WORD
    requires LastNotData(dev.log)
    requires Tracks(job, m0, dev.capacity, dev.mem, dev.log, dev.traffic, EraseOps(job, sector) + rest)
    modifies dev
    ensures ret == 0 ==> Tracks(job, m0, dev.capacity, dev.mem, dev.log, dev.traffic, rest) && LastNotData(dev.log)
    ensures ret != 0 ==> Halted(job, m0, dev.capacity, dev.mem, dev.log, dev.traffic, ret)
    ensures old(Serving(dev)) && Modest(job, m0, dev.capacity) ==> ret == 0 && Serving(dev)
  {
    hide Tracks, Halted, Modest, LegalRun;
    if !job.wipe && sector != 0 {
      var erase := Erase(sector, sector);
      NextOps(job, m0, dev.capacity, dev.mem, dev.log, dev.traffic, erase, rest);
      ret := Perform(dev, erase, WRONG_ANSWER_ERAS, job, m0, rest);
    } else {
      Associate([], [], rest);
      ret := 0;
    }
  }

  lemma SectorSplits(job: Job, sector: nat, rest: seq<Op>)
    requires ValidJob(job) && sector < |job.row.sectorTable| && Start(job.row, sector) <= job.length
    ensures SectorOps(job, sector) + rest == SectorHead(job, sector) + (SectorBody(job, sector) + rest)
  {
  }

  /** The image bytes in a sector; the subtraction does not wrap. */
  method CutSector(job: Job, sector: nat, sectorStart: nat) returns (sectorLength: u32)
    requires ValidJob(job) && InRange(job) && sector < job.row.flashSectors
    requires sectorStart == Start(job.row, sector) < job.length
    ensures sectorLength == SectorLength(job, sector)
  {
    var left: u32 := job.length - sectorStart;
    StartMono(job.row, sector + 1, job.row.flashSectors);
    sectorLength := job.row.sectorTable[sector];
    if sectorLength > left {
      sectorLength := left;
    }
  }

  /** Prepares, erases where that is still to be done, and programs one sector. */
  method ProgramSector(dev: Target, job: Job, sector: nat, sectorStart: nat,
                       table: seq<char>, acc0: i32, ghost m0: Memory, ghost rest: seq<Op>)
    returns (ret: int, acc: i32, sectorLength: u32)
    requires ValidJob(job) && InRange(job) && dev.row == job.row && sector < job.row.flashSectors < WORD
    requires sectorStart == Start(job.row, sector) < job.length
    requires |table| == 64 && forall i | 0 <= i < 64 :: table[i] == Code(i)
    requires LastNotData(dev.log)
    requires Tracks(job, m0, dev.capacity, dev.mem, dev.log, dev.traffic, SectorOps(job, sector) + rest)
    modifies dev
    ensures ret == 0 ==> Tracks(job, m0, dev.capacity, dev.mem, dev.log, dev.traffic, rest) && LastNotData(dev.log)
    ensures ret == 0 ==> sectorLength == SectorLength(job, sector)
    ensures ret != 0 ==> Halted(job, m0, dev.capacity, dev.mem, dev.log, dev.traffic, ret)
    ensures old(Serving(dev)) && Modest(job, m0, dev.capacity) ==> ret == 0 && Serving(dev)
  {
    hide Tracks, Halted, Modest, LegalRun;
    acc, sectorLength := acc0, 0;
    SectorSplits(job, sector, rest);
    ret := OpenSector(dev, job, sector, m0, SectorBody(job, sector) + rest);
    if ret != 0 {
      return;
    }
    sectorLength := CutSector(job, sector, sectorStart);
    ret, acc := ProgramChunks(dev, job, sector, sectorStart, sectorLength, table, acc, m0, rest);
  }

  // ---------------------------------------------------------------- the whole download

  /** What the sector loop still has to do when it is about to look at `sector`. */
  function StillAhead(job: Job, sector: nat): (ops: seq<Op>)
    requires ValidJob(job) && sector <= job.row.flashSectors
  {
    if sector == 0 then Closing(job) else Upward(job, sector) + Closing(job)
  }

  function VisitsAhead(job: Job, sector: nat): (s: seq<nat>)
    requires ValidJob(job) && sector <= job.row.flashSectors
  {
    if sector == 0 then [0] else Climb(job, sector) + (if Fits(job) then [0] else [])
  }

  /** The commands after sector 0 and, in a banked device, before the end. */
  function BankOps(job: Job): (ops: seq<Op>)
  {
    if Banked(job.row.variant) then [SetBank] else []
  }

  /** Where the loop goes after sector `k` above 0: down to 0 once the image ends, else up. */
  function NextOf(job: Job, k: nat): nat
    requires ValidJob(job) && 0 < k < job.row.flashSectors && Start(job.row, k) < job.length
  {
    if Start(job.row, k + 1) >= job.length then 0 else k + 1
  }

  lemma NextAhead(job: Job, k: nat)
    requires ValidJob(job) && 0 < k < job.row.flashSectors && Start(job.row, k) < job.length
    ensures StillAhead(job, k) == SectorOps(job, k) + StillAhead(job, NextOf(job, k))
  {
    Associate(SectorOps(job, k), Upward(job, k + 1), Closing(job));
  }

  lemma NextVisits(job: Job, k: nat)
    requires ValidJob(job) && 0 < k < job.row.flashSectors && Start(job.row, k) < job.length
    ensures VisitsAhead(job, k) == [k] + VisitsAhead(job, NextOf(job, k))
    ensures NextOf(job, k) == 0 ==> Fits(job)
  {
    hide GoodSector, SectorLength;
    StartMono(job.row, k + 1, job.row.flashSectors);
    assert Climb(job, k) == [k] + Climb(job, k + 1);
    if NextOf(job, k) != 0 {
      Associate([k], Climb(job, k + 1), if Fits(job) then [0] else []);
    }
  }

  /** The sector loop starts at 1, or at 0 when the image ends in sector 0. */
  lemma FirstSector(job: Job)
    requires ValidJob(job)
    ensures var sector := if Start(job.row, 1) >= job.length then 0 else 1;
            && Whole(job) == Opening(job) + StillAhead(job, sector)
            && Visits(job) == VisitsAhead(job, sector)
            && (sector == 0 ==> Fits(job))
  {
    VectorsFit(job.row);
    if Start(job.row, 1) >= job.length {
      assert Upward(job, 1) + Closing(job) == Closing(job);
    }
  }

  /** Running past the last sector means the image does not fit and nothing is left to do. */
  lemma PastTheEnd(job: Job)
    requires ValidJob(job) && FlashSize(job.row) < job.length
    ensures !Fits(job) && StillAhead(job, job.row.flashSectors) == [] && VisitsAhead(job, job.row.flashSectors) == []
  {
  }

  /** Prepares and erases sector 0, or the whole device. */
  method OpenRun(dev: Target, job: Job, ghost m0: Memory, ghost rest: seq<Op>) returns (ret: int)
    requires ValidJob(job) && dev.row == job.row && job.row.flashSectors < WORD && dev.log == []
    requires Tracks(job, m0, dev.capacity, dev.mem, dev.log, dev.traffic, Opening(job) + rest)
    modifies dev
    ensures ret == 0 ==> Tracks(job, m0, dev.capacity, dev.mem, dev.log, dev.traffic, rest) && LastNotData(dev.log)
    ensures ret != 0 ==> Halted(job, m0, dev.capacity, dev.mem, dev.log, dev.traffic, ret)
    ensures old(Serving(dev)) && Modest(job, m0, dev.capacity) ==> ret == 0 && Serving(dev)
  {
    hide Tracks, Halted, Modest, LegalRun;
    var last := if job.wipe then job.row.flashSectors - 1 else 0;
    var prepare, erase := Prepare(0, last), Erase(0, last);
    TwoMore(prepare, erase, rest);
    NextOps(job, m0, dev.capacity, dev.mem, dev.log, dev.traffic, prepare, [erase] + rest);
    ret := Perform(dev, prepare, WRONG_ANSWER_PREP, job, m0, [erase] + rest);
    if ret != 0 {
      return;
    }
    NextOps(job, m0, dev.capacity, dev.mem, dev.log, dev.traffic, erase, rest);
    ret := Perform(dev, erase, WRONG_ANSWER_ERAS, job, m0, rest);
  }

  /** The sector loop: upward from 1, then 0. */
  method ProgramSectors(dev: Target, job: Job, table: seq<char>, ghost m0: Memory)
    returns (ret: int, ghost visits: seq<nat>)
    requires ValidJob(job) && InRange(job) && dev.row == job.row && job.row.flashSectors < WORD
    requires |table| == 64 && forall i | 0 <= i < 64 :: table[i] == Code(i)
    requires LastNotData(dev.log) && dev.log == Opening(job)
    requires Tracks(job, m0, dev.capacity, dev.mem, dev.log, dev.traffic, Upward(job, 1) + Closing(job))
    modifies dev
    ensures ret == 0 ==> Fits(job) && visits == Visits(job)
    ensures ret == 0 ==> Tracks(job, m0, dev.capacity, dev.mem, dev.log, dev.traffic, BankOps(job))
    ensures ret == 0 ==> LastNotData(dev.log)
    ensures ret == PROGRAM_TOO_LARGE ==> !Fits(job) && Tracks(job, m0, dev.capacity, dev.mem, dev.log, dev.traffic, [])
    ensures ret != 0 && ret != PROGRAM_TOO_LARGE ==> Halted(job, m0, dev.capacity, dev.mem, dev.log, dev.traffic, ret)
    ensures old(Serving(dev)) && Modest(job, m0, dev.capacity) ==>
              Serving(dev) && (ret == if Fits(job) then 0 else PROGRAM_TOO_LARGE)
  {
    hide Tracks, Halted, Modest, LegalRun;
    var sector: nat, sectorStart: u32, acc: i32, done := 0, 0, 0, false;
    if job.row.sectorTable[0] < job.length {
      sectorStart, sector := job.row.sectorTable[0], 1;
    }
    visits := [];
    LoopStarts(job, m0, dev.capacity, dev.mem, dev.log, dev.traffic, sector, sectorStart);
    while !done
      invariant LoopState(job, m0, dev.capacity, dev.mem, dev.log, dev.traffic, visits, sector, sectorStart, done)
      invariant old(Serving(dev)) && Modest(job, m0, dev.capacity) ==> Serving(dev)
      decreases !done, if sector == 0 then 0 else job.row.flashSectors + 1 - sector
    {
      if sector >= job.row.flashSectors {
        PastTheEnd(job);
        ret := PROGRAM_TOO_LARGE;
        return;
      }
      ret, acc, sector, sectorStart, done, visits :=
        ProgramOneSector(dev, job, sector, sectorStart, table, acc, m0, visits);
      if ret != 0 {
        return;
      }
    }
    assert visits + [] == visits;
    ret := 0;
  }

  /** The sector loop is about to look at `sector`, or is done. */
  ghost predicate LoopState(job: Job, m0: Memory, capacity: nat, m: Memory, log: seq<Op>, traffic: seq<Message>,
                            visits: seq<nat>, sector: nat, sectorStart: nat, done: bool)
    requires ValidJob(job)
  {
    && sector <= job.row.flashSectors && sectorStart == Start(job.row, sector) < job.length
    && (sector == 0 ==> Fits(job)) && (done ==> sector == 0) && LastNotData(log)
    && Tracks(job, m0, capacity, m, log, traffic, if done then BankOps(job) else StillAhead(job, sector))
    && visits + (if done then [] else VisitsAhead(job, sector)) == Visits(job)
  }

  lemma LoopStarts(job: Job, m0: Memory, capacity: nat, m: Memory, log: seq<Op>, traffic: seq<Message>,
                   sector: nat, sectorStart: nat)
    requires ValidJob(job) && LastNotData(log) && log == Opening(job)
    requires Tracks(job, m0, capacity, m, log, traffic, Upward(job, 1) + Closing(job))
    requires sector == if Start(job.row, 1) >= job.length then 0 else 1
    requires sectorStart == Start(job.row, sector)
    ensures LoopState(job, m0, capacity, m, log, traffic, [], sector, sectorStart, false)
  {
    FirstSector(job);
    assert [] + VisitsAhead(job, sector) == VisitsAhead(job, sector);
  }

  /** Sector 0 done, or another sector done and the loop moved on. */
  lemma LoopSteps(job: Job, m0: Memory, capacity: nat, m: Memory, log: seq<Op>, traffic: seq<Message>,
                  visits: seq<nat>, sector: nat, sector': nat, sectorStart': nat, done: bool)
    requires ValidJob(job) && sector < job.row.flashSectors && Start(job.row, sector) < job.length && LastNotData(log)
    requires sector == 0 ==> Fits(job)
    requires visits + VisitsAhead(job, sector) == Visits(job)
    requires done == (sector == 0) && sector' == (if done then 0 else NextOf(job, sector))
    requires sectorStart' == Start(job.row, sector')
    requires Tracks(job, m0, capacity, m, log, traffic, if done then BankOps(job) else StillAhead(job, sector'))
    ensures LoopState(job, m0, capacity, m, log, traffic, visits + [sector], sector', sectorStart', done)
  {
    if done {
      assert (visits + [sector]) + [] == visits + [sector];
    } else {
      NextVisits(job, sector);
      Associate(visits, [sector], VisitsAhead(job, sector'));
    }
  }

  /** Programs a sector and finds the next one: the rest of one turn of the sector loop. */
  method ProgramOneSector(dev: Target, job: Job, sector: nat, sectorStart: nat, table: seq<char>, acc0: i32,
                          ghost m0: Memory, ghost visits: seq<nat>)
    returns (ret: int, acc: i32, sector': nat, sectorStart': u32, done: bool, ghost visits': seq<nat>)
    requires ValidJob(job) && InRange(job) && dev.row == job.row && job.row.flashSectors < WORD
    requires |table| == 64 && forall i | 0 <= i < 64 :: table[i] == Code(i)
    requires LoopState(job, m0, dev.capacity, dev.mem, dev.log, dev.traffic, visits, sector, sectorStart, false)
    requires sector < job.row.flashSectors
    modifies dev
    ensures ret == 0 ==>
              LoopState(job, m0, dev.capacity, dev.mem, dev.log, dev.traffic, visits', sector', sectorStart', done)
    ensures done == (sector == 0) && (!done ==> sector' == 0 || sector' > sector)
    ensures ret != 0 ==> ret != PROGRAM_TOO_LARGE && Halted(job, m0, dev.capacity, dev.mem, dev.log, dev.traffic, ret)
    ensures old(Serving(dev)) && Modest(job, m0, dev.capacity) ==> ret == 0 && Serving(dev)
  {
    visits' := visits + [sector];
    ghost var rest := if sector == 0 then BankOps(job) else StillAhead(job, NextOf(job, sector));
    if sector != 0 {
      NextAhead(job, sector);
    }
    var sectorLength;
    ret, acc, sectorLength := ProgramSector(dev, job, sector, sectorStart, table, acc0, m0, rest);
    sector', sectorStart', done := 0, 0, sector == 0;
    if ret != 0 {
      HaltedCode(job, m0, dev.capacity, dev.mem, dev.log, dev.traffic, ret);
      return;
    }
    if sectorStart + sectorLength >= job.length && sector != 0 {
      sector', sectorStart' := 0, 0;
    } else if sector == 0 {
      done := true;
    } else {
      sectorStart' := sectorStart + job.row.sectorTable[sector];
      sector' := sector + 1;
    }
    LoopSteps(job, m0, dev.capacity, dev.mem, dev.log, dev.traffic, visits, sector, sector', sectorStart', done);
  }

  /** The return values for failed commands are neither 0 nor the one for an image that is too large. */
  lemma HaltedCode(job: Job, m0: Memory, capacity: nat, m: Memory, log: seq<Op>, traffic: seq<Message>, ret: int)
    requires ValidJob(job) && Halted(job, m0, capacity, m, log, traffic, ret)
    ensures ret != 0 && ret != PROGRAM_TOO_LARGE
  {
    hide Whole, Tracks, LegalRun, Dialogue, Failed;
    var i: nat :| |log| <= i + 1 <= |log| + 1 && StoppedAt(job.row, Whole(job), i, traffic, ret)
                  && Coded(Whole(job), i, ret);
  }

  /** Where a run can end: with everything done, with an image that is too large, or halted. */
  ghost predicate Ended(job: Job, m0: Memory, capacity: nat, m: Memory, log: seq<Op>, traffic: seq<Message>, ret: int)
    requires ValidJob(job)
  {
    if ret == 0 then Fits(job) && Tracks(job, m0, capacity, m, log, traffic, [])
    else if ret == PROGRAM_TOO_LARGE then !Fits(job) && Tracks(job, m0, capacity, m, log, traffic, [])
    else Halted(job, m0, capacity, m, log, traffic, ret)
  }

  /** The programming run proper: open, program the sectors, and select the bank. */
  method ProgramImage(dev: Target, job: Job, ghost m0: Memory) returns (ret: int, ghost visits: seq<nat>)
    requires ValidJob(job) && InRange(job) && dev.row == job.row && job.row.flashSectors < WORD
    requires dev.log == [] && dev.traffic == [] && dev.mem == m0
    modifies dev
    ensures Ended(job, m0, dev.capacity, dev.mem, dev.log, dev.traffic, ret)
    ensures ret == 0 ==> visits == Visits(job)
    ensures old(Serving(dev)) && Modest(job, m0, dev.capacity) ==> ret == if Fits(job) then 0 else PROGRAM_TOO_LARGE
  {
    hide Tracks, Halted, Modest, LegalRun, BankOps;
    var uuencodeTable := BuildTable();
    var table := uuencodeTable[..];
    visits := [];
    RunStarts(job, m0, dev.capacity);
    ret := OpenRun(dev, job, m0, Upward(job, 1) + Closing(job));
    if ret != 0 {
      HaltedCode(job, m0, dev.capacity, dev.mem, dev.log, dev.traffic, ret);
      return;
    }
    OpeningLogged(job, m0, dev.capacity, dev.mem, dev.log, dev.traffic);
    ret, visits := ProgramSectors(dev, job, table, m0);
    if ret == 0 {
      ret := SelectBank(dev, job, m0);
    }
  }

  lemma RunStarts(job: Job, m0: Memory, capacity: nat)
    requires ValidJob(job)
    ensures Tracks(job, m0, capacity, m0, [], [], Opening(job) + (Upward(job, 1) + Closing(job)))
  {
    Associate([], [], Whole(job));
  }

  lemma OpeningLogged(job: Job, m0: Memory, capacity: nat, m: Memory, log: seq<Op>, traffic: seq<Message>)
    requires ValidJob(job) && Tracks(job, m0, capacity, m, log, traffic, Upward(job, 1) + Closing(job))
    ensures log == Opening(job)
  {
    var rest := Upward(job, 1) + Closing(job);
    assert |log| == |Opening(job)|;
    assert (log + rest)[..|log|] == log && (Opening(job) + rest)[..|log|] == Opening(job);
  }

  /** The last command on devices with banks. */
  method SelectBank(dev: Target, job: Job, ghost m0: Memory) returns (ret: int)
    requires ValidJob(job) && dev.row == job.row && LastNotData(dev.log)
    requires Tracks(job, m0, dev.capacity, dev.mem, dev.log, dev.traffic, BankOps(job))
    modifies dev
    ensures ret == 0 ==> Tracks(job, m0, dev.capacity, dev.mem, dev.log, dev.traffic, [])
    ensures ret != 0 ==>
              ret != PROGRAM_TOO_LARGE && Halted(job, m0, dev.capacity, dev.mem, dev.log, dev.traffic, ret)
    ensures old(Serving(dev)) && Modest(job, m0, dev.capacity) ==> ret == 0
  {
    hide Tracks, Halted, Modest, LegalRun;
    ret := 0;
    if Banked(job.row.variant) {
      assert BankOps(job) == [SetBank] + [];
      NextOps(job, m0, dev.capacity, dev.mem, dev.log, dev.traffic, SetBank, []);
      ret := Perform(dev, SetBank, WRONG_ANSWER_BTBNK, job, m0, []);
      if ret != 0 {
        HaltedCode(job, m0, dev.capacity, dev.mem, dev.log, dev.traffic, ret);
      }
    }
  }

  /** What a run that has ended means for flash, whatever the device did on the way. */
  lemma EndedMeans(job: Job, m0: Memory, capacity: nat, m: Memory, log: seq<Op>, traffic: seq<Message>, ret: int)
    requires ValidJob(job) && ForDevice(job, m0) && Ended(job, m0, capacity, m, log, traffic, ret)
    ensures |m.flash| == FlashSize(job.row)
    ensures m0.faults == [] ==> SafeStop(job, m0.flash, m.flash)
    ensures m0.faults == [] && ret == 0 ==> Holds(job, m.flash, 0, job.length)
    ensures m0.faults == [] && |log| >= 2 && (Fits(job) ==> OneCopyEnough(job)) ==> CompleteIfValid(job, m.flash)
    ensures !job.wipe ==> Untouched(job, m0.flash, m.flash)
    ensures job.wipe && |log| >= 2 ==> Cleared(job, m.flash)
    ensures job.verify && job.offset == 0 && ret == 0 ==> Vouched(job, m.flash, 0, job.length)
    ensures ret == 0 || ret == PROGRAM_TOO_LARGE ==>
              Served(job, capacity) && LegalRun(job.row, capacity, m0, Whole(job))
  {
    assert log + [] == log;
    assert log <= Whole(job) && log == Whole(job)[..|log|];
    assert m.flash == StateAfter(job, m0, |log|).flash;
    WholeFrame(job, m0, |log|);
    if m0.faults == [] {
      InterruptionSafe(job, m0, |log|);
      if |log| >= 2 && (Fits(job) ==> OneCopyEnough(job)) {
        OneCopySuffices(job, m0, |log|);
      }
      if ret == 0 {
        EndToEnd(job, m0);
      }
    }
    if !job.wipe {
      UnmetSectorsKept(job, m0, |log|);
    } else if |log| >= 2 {
      UnmetSectorsCleared(job, m0, |log|);
    }
    if ret == 0 || ret == PROGRAM_TOO_LARGE {
      RunNeeds(job, m0, capacity);
    }
    if job.verify && job.offset == 0 && ret == 0 {
      VerifiedRun(job, m0, capacity);
    }
  }

  /** No patched image that fits is ever programmed completely on the devices with 256 bytes of room. */
  lemma NeverOn1110(job: Job, m0: Memory, m: Memory, log: seq<Op>, traffic: seq<Message>, ret: int)
    requires ValidJob(job) && ForDevice(job, m0) && job.row == ROW_1110 && VectorSum(job.content) == 0
    requires Ended(job, m0, RamRoom(job.row), m, log, traffic, ret)
    ensures ret != 0
  {
    if ret == 0 {
      EndedMeans(job, m0, RamRoom(job.row), m, log, traffic, ret);
      NoRoomOn1110(job);
    }
  }

  lemma EndedOwn(job: Job, m0: Memory, capacity: nat, m: Memory, log: seq<Op>, traffic: seq<Message>, ret: int)
    requires ValidJob(job) && Ended(job, m0, capacity, m, log, traffic, ret)
    ensures OwnKind(job.row.variant, traffic)
    ensures ret == 0x1007 || ret == 0x1008 ==> exists start :: 0 <= start <= |traffic| && Refused(traffic, start) == 3
  {
    hide OwnKind, Refused, Dialogue, Whole, LegalRun, StoppedAt;
    if ret == 0 || ret == PROGRAM_TOO_LARGE {
      DialogueOwn(job.row, log, traffic);
    } else {
      var i: nat :| |log| <= i + 1 <= |log| + 1 && StoppedAt(job.row, Whole(job), i, traffic, ret);
      StoppedOwn(job.row, Whole(job), i, traffic, ret);
    }
  }

  lemma WholeFrame(job: Job, m0: Memory, n: nat)
    requires ValidJob(job) && n <= |Whole(job)|
    ensures |StateAfter(job, m0, n).flash| == |m0.flash|
  {
    SizeKept(job.row, m0, Whole(job)[..n]);
  }

  /**
   Patches the image's vector table in place and programs the image. Whatever the device does, the
   commands that took effect are a beginning of the planned run and flash is what they make of it.
   */
  method Download(dev: Target, content: array<byte>, length: nat, offset: nat, wipe: bool, verify: bool)
    returns (ret: int, ghost job: Job, ghost visits: seq<nat>)
    requires ValidRow(dev.row) && VECTORS <= length && length + GROUP_BYTES <= content.Length < WORD - 8192
    requires dev.row.flashSectors < WORD && offset + FlashSize(dev.row) < WORD
    requires dev.mem.base == offset && dev.mem.ramBase == RamBase(dev.row.variant)
    requires |dev.mem.flash| == FlashSize(dev.row) && FlashMode(dev.row, offset)
    requires dev.log == [] && dev.traffic == []
    modifies dev, content
    ensures VectorSum(content[..]) == 0
    ensures dev.row.variant.LPC2XXX? ==> SameExceptWord(old(content[..]), content[..], 0x14)
    ensures !dev.row.variant.LPC2XXX? ==> SameExceptWord(old(content[..]), content[..], 0x1C)
    ensures job == Job(dev.row, content[..], length, offset, wipe, verify) && ValidJob(job)
    ensures Ended(job, old(dev.mem), dev.capacity, dev.mem, dev.log, dev.traffic, ret)
    ensures forall i | 0 <= i < |dev.traffic| ::
              && (dev.traffic[i].Block? ==> dev.row.variant.LPC8XX? && 0 < |dev.traffic[i].bytes| <= 256)
              && (dev.traffic[i].Line? || dev.traffic[i].Checksum? ==> !dev.row.variant.LPC8XX?)
    ensures ret == 0x1007 || ret == 0x1008 ==>
              exists start :: 0 <= start <= |dev.traffic| && Refused(dev.traffic, start) == 3
    ensures ret == 0 ==> visits == Visits(job)
    ensures |dev.mem.flash| == FlashSize(dev.row)
    ensures old(dev.mem.faults) == [] ==> SafeStop(job, old(dev.mem.flash), dev.mem.flash)
    ensures old(dev.mem.faults) == [] && ret == 0 ==> Holds(job, dev.mem.flash, 0, length)
    ensures old(dev.mem.faults) == [] && |dev.log| >= 2 && (Fits(job) ==> OneCopyEnough(job)) ==>
              CompleteIfValid(job, dev.mem.flash)
    ensures !wipe ==> Untouched(job, old(dev.mem.flash), dev.mem.flash)
    ensures wipe && |dev.log| >= 2 ==> Cleared(job, dev.mem.flash)
    ensures verify && offset == 0 && ret == 0 ==> Vouched(job, dev.mem.flash, 0, length)
    ensures ret == 0 || ret == 0x1009 ==> Served(job, dev.capacity)
    ensures old(Serving(dev)) ==>
              (ret == 0 || ret == 0x1009 <==> LegalRun(job.row, dev.capacity, old(dev.mem), Whole(job)))
    ensures ret == 0 || ret == 0x1009 ==> (ret == 0 <==> length <= FlashSize(dev.row))
    ensures old(Serving(dev)) && old(dev.mem.faults) == [] && old(dev.mem.due) == 0 && ClearOfFlash(job) ==>
              (ret == 0 || ret == 0x1009 <==> Acceptable(job, old(dev.mem), dev.capacity))
  {
    hide LegalRun, Whole, Untouched, Cleared, Vouched, CompleteIfValid, SafeStop, Holds, Halted, Tracks;
    hide Served, Mirrored, Refused, VectorSum;
    ghost var m0 := dev.mem;
    PatchVector(content, VectorAt(dev.row.variant));
    var environment := Job(dev.row, content[..], length, offset, wipe, verify);
    job := environment;
    ret, visits := ProgramImage(dev, environment, m0);
    EndedMeans(job, m0, dev.capacity, dev.mem, dev.log, dev.traffic, ret);
    EndedOwn(job, m0, dev.capacity, dev.mem, dev.log, dev.traffic, ret);
    if m0.faults == [] && m0.due == 0 && ClearOfFlash(job) {
      LegalExactly(job, m0, dev.capacity);
    }
  }
}
