/** Devices of the table and images that show where the code does less than it promises. */
module Examples {
  import opened Bytes
  import opened Text
  import opened Commands
  import opened Device
  import opened Plan
  import opened Safety
  import opened Runs
  import opened Protocol
  import opened Comparisons
  import opened Verify
  import opened VectorTable

  lemma ZeroTableValid(s: seq<byte>)
    requires VECTOR_BYTES <= |s| && forall i | 0 <= i < VECTOR_BYTES :: s[i] == 0
    ensures VectorSum(s) == 0
  {
    ZeroWords(s, VECTOR_WORDS);
  }

  lemma {:induction false} ZeroWords(s: seq<byte>, words: nat)
    requires 4 * words <= |s| && forall i | 0 <= i < 4 * words :: s[i] == 0
    ensures SumWords(s, words) == 0
  {
    if words > 0 {
      ZeroWords(s, words - 1);
    }
  }

  /** The device at line 131 of the device table: 810M021FN8, 1 kB of RAM, four sectors of 1 kB, copies
      of 256 bytes. */
  const ROW_810: Row := Row(1, 4, 256, seq(16, _ => 1024), LPC8XX)

  /** A job for it whose image ends in sector 0. */
  lemma Row810(content: seq<byte>, length: nat, offset: nat, verify: bool) returns (job: Job)
    requires |content| == length + GROUP_BYTES && VECTORS <= length <= 1024
    ensures job == Job(ROW_810, content, length, offset, false, verify) && ValidJob(job) && Fits(job)
    ensures End(job, 0) == SectorLength(job, 0) == length && Start(ROW_810, 1) == 1024
    ensures RamRoom(ROW_810) == 400
  {
    var row := ROW_810;
    job := Job(row, content, length, offset, false, verify);
    assert forall k | 0 <= k < |row.sectorTable| :: GoodSector(row, k);
    assert Start(row, 1) == Start(row, 0) + row.sectorTable[0];
    StartMono(row, 1, row.flashSectors);
  }

  /** Erased flash at the job's address, and nothing mapped below it. */
  function Erased810(job: Job): Memory
    requires job.row == ROW_810
  {
    Memory(job.offset, RamBase(LPC8XX), seq(FlashSize(ROW_810), _ => BLANK), [], [], (0, 0), 0, [])
  }

  /** A device of the table and an image on which it fails: a run cut after sector 0's first copy leaves
      a valid vector table in front of a quarter of the image. The device accepts every command up to there. */
  lemma QuarterOfAnImage() returns (job: Job, m0: Memory, n: nat)
    ensures job.row == ROW_810 && ValidJob(job) && ForDevice(job, m0) && m0.faults == [] && 2 <= n <= |Whole(job)|
    ensures LegalRun(job.row, RamRoom(job.row), m0, Whole(job)[..n])
    ensures VectorSum(job.content) == 0 && !ValidMeansComplete(job, m0, n)
  {
    job := Row810(seq(1204, _ => 0), 1024, 0, false);
    m0 := Erased810(job);
    ZeroTableValid(job.content);
    RoomForAll(job, 400);
    LegalExactly(job, m0, 400);
    n := TooEarly(job, m0, 256);
    LegalTake(job.row, 400, m0, Whole(job), n);
  }

  lemma LegalTake(row: Row, capacity: nat, m: Memory, ops: seq<Op>, n: nat)
    requires n <= |ops| && LegalRun(row, capacity, m, ops)
    ensures LegalRun(row, capacity, m, ops[..n])
  {
    assert ops == ops[..n] + ops[n..];
    LegalConcat(row, capacity, m, ops[..n], ops[n..]);
  }

  /** On the same device an image of 33 bytes cannot be programmed: there is room for it, but its upload
      would not be a whole number of words. */
  lemma OddImage() returns (job: Job)
    ensures job.row == ROW_810 && job.length == 33 && ValidJob(job) && VectorSum(job.content) == 0 && Fits(job)
    ensures UploadSize(job.row.variant, job.row.maxCopySize) <= RamRoom(job.row)
    ensures !Served(job, RamRoom(job.row))
    ensures forall m0 | ForDevice(job, m0) :: !LegalRun(job.row, RamRoom(job.row), m0, Whole(job))
  {
    hide LegalRun, Whole, Served, ForDevice;
    job := Row810(seq(213, _ => 0), 33, 0, false);
    ZeroTableValid(job.content);
    PartOfAWord(job, 400);
    forall m0 | ForDevice(job, m0)
      ensures !LegalRun(job.row, 400, m0, Whole(job))
    {
      NeverServed(job, m0, 400);
    }
  }

  lemma PartOfAWord(job: Job, capacity: nat)
    requires ValidJob(job) && Fits(job) && VectorSum(job.content) == 0
    requires job.row.variant.LPC8XX? && !WordAligned(SectorLength(job, 0))
    ensures !Served(job, capacity)
  {
    SectorZeroProgrammed(job);
    assert Visited(job, 0) && !SectorServed(job, 0, capacity);
  }

  lemma NeverServed(job: Job, m0: Memory, capacity: nat)
    requires ValidJob(job) && ForDevice(job, m0) && !Served(job, capacity)
    ensures !LegalRun(job.row, capacity, m0, Whole(job))
  {
    hide LegalRun, Whole, Served;
    if LegalRun(job.row, capacity, m0, Whole(job)) {
      RunNeeds(job, m0, capacity);
      assert false;
    }
  }

  /** When flash starts inside the compared addresses, a device that never fails and has all the room
      it needs can refuse a verifying run: with flash at address 1, the comparison of this image meets
      the cell before the one it means. */
  lemma ComparedElsewhere() returns (job: Job, m0: Memory)
    ensures job.row == ROW_810 && ValidJob(job) && ForDevice(job, m0) && m0.faults == [] && m0.due == 0
    ensures job.verify && job.offset == 1 && VectorSum(job.content) == 0 && Fits(job)
    ensures Served(job, RamRoom(job.row)) && !LegalRun(job.row, RamRoom(job.row), m0, Whole(job))
  {
    job := Row810(seq(436, i => if i == 100 then 1 else 0), 256, 1, true);
    m0 := Erased810(job);
    ZeroTableValid(job.content);
    RoomForAll(job, 400);
    var ps := CutUpZero(job);
    if LegalRun(job.row, 400, m0, Whole(job)) {
      FirstComparison(job, m0, 400, 100);
      assert false;
    }
  }

  /** The devices at lines 139 and 140 of the device table: 1 kB of RAM, one sector, copies of 1024 bytes. */
  const ROW_1110: Row := Row(1, 1, 1024, seq(32, _ => 4096), LPC11XX)

  /** Their RAM leaves 256 bytes from the download address on, and the smallest copy is larger than that. */
  lemma NoRoomOn1110(job: Job)
    requires ValidJob(job) && job.row == ROW_1110 && VectorSum(job.content) == 0 && Fits(job)
    ensures RamRoom(job.row) == 256 && !Served(job, RamRoom(job.row))
  {
    assert job.row.sectorTable[0] == 4096;
    SectorZeroProgrammed(job);
    assert Visited(job, 0) && !SectorServed(job, 0, 256);
  }

  // ---------------------------------------------------------------- a command by its characters

  lemma RamDigits()
    ensures Digits(0x1000_0270) == "268436080"
  {
    hide Digits;
    FirstDigits();
    DigitsStep(2, 6, "2", "26");
    DigitsStep(26, 8, "26", "268");
    DigitsStep(268, 4, "268", "2684");
    DigitsStep(2684, 3, "2684", "26843");
    DigitsStep(26843, 6, "26843", "268436");
    DigitsStep(268436, 0, "268436", "2684360");
    DigitsStep(2684360, 8, "2684360", "26843608");
    DigitsStep(26843608, 0, "26843608", "268436080");
  }

  lemma FirstDigits()
    ensures Digits(2) == "2" && Digits(25) == "25" && Digits(7) == "7" && Digits(76) == "76"
  {
  }

  /** The copy of the last quarter of a sector on that device. */
  lemma CopyText()
    ensures CommandText(ROW_810, Copy(768, RamBase(LPC8XX), 256)) == "C 768 268436080 256\r\n"
  {
    hide Digits;
    RamDigits();
    FirstDigits();
    DigitsStep(25, 6, "25", "256");
    DigitsStep(76, 8, "76", "768");
    CommandPrinted(ROW_810, Copy(768, RamBase(LPC8XX), 256));
    CopyWords();
  }

  lemma CountWord()
    ensures "268436080" + (" " + ("256" + "\r\n")) == "268436080 256\r\n"
  {
    assert " " + ("256" + "\r\n") == " 256\r\n";
  }

  lemma CopyWords()
    ensures "C" + (" " + ("768" + (" " + ("268436080" + (" " + ("256" + "\r\n")))))) == "C 768 268436080 256\r\n"
  {
    CountWord();
    assert "768" + (" " + "268436080 256\r\n") == "768 268436080 256\r\n";
  }
}
