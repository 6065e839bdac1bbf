/** A row of the device table, the geometry of its sectors, and the sizes a run works with. */
module Device {
  import opened Bytes

  datatype Variant = LPC43XX | LPC2XXX | LPC18XX | LPC17XX | LPC13XX | LPC11XX | LPC8XX

  /** `ramSize` is in kB. */
  datatype Row = Row(ramSize: nat, flashSectors: nat, maxCopySize: nat, sectorTable: seq<nat>, variant: Variant)

  const GROUP_BYTES: nat := 180
  const VECTORS: nat := 32

  /** A sector has room for a vector table and is a whole number of largest copies. */
  predicate GoodSector(row: Row, k: nat)
    requires k < |row.sectorTable| && 0 < row.maxCopySize
  {
    VECTORS <= row.sectorTable[k] && row.sectorTable[k] % row.maxCopySize == 0
  }

  /** What the program relies on about a table row. */
  predicate ValidRow(row: Row)
  {
    && 0 < row.flashSectors <= |row.sectorTable|
    && 0 < row.maxCopySize <= 8192 && WordAligned(row.maxCopySize)
    && (forall k | 0 <= k < |row.sectorTable| :: GoodSector(row, k))
  }

  /** The download address lies behind what the bootloader keeps at the start of RAM for itself. */
  function RamBase(variant: Variant): (r: nat)
    ensures variant.LPC2XXX? || variant.LPC17XX? || variant.LPC18XX? || variant.LPC43XX? ==>
              r == RamStart(variant) + 0x200
    ensures variant.LPC11XX? || variant.LPC13XX? ==> r == RamStart(variant) + 0x300
    ensures variant.LPC8XX? ==> r == RamStart(variant) + 0x270
  {
    match variant
    case LPC43XX => 0x1000_0200
    case LPC2XXX => 0x4000_0200
    case LPC18XX => 0x1000_0200
    case LPC17XX => 0x1000_0200
    case LPC13XX => 0x1000_0300
    case LPC11XX => 0x1000_0300
    case LPC8XX => 0x1000_0270
  }

  function RamStart(variant: Variant): (r: nat)
    ensures variant.LPC2XXX? <==> r == 0x4000_0000
    ensures !variant.LPC2XXX? <==> r == 0x1000_0000
  {
    if variant.LPC2XXX? then 0x4000_0000 else 0x1000_0000
  }

  function RamEnd(row: Row): nat
  {
    RamStart(row.variant) + 1024 * row.ramSize
  }

  /** Bytes of RAM from the download address on. */
  function RamRoom(row: Row): nat
  {
    if RamEnd(row) <= RamBase(row.variant) then 0 else RamEnd(row) - RamBase(row.variant)
  }

  /** The image goes to flash: its address is not one of RAM. */
  predicate FlashMode(row: Row, offset: nat)
  {
    offset < RamStart(row.variant) || RamEnd(row) <= offset
  }

  lemma RamAligned(variant: Variant)
    ensures WordAligned(RamBase(variant))
  {
  }

  function VectorAt(variant: Variant): nat
  {
    if variant.LPC2XXX? then 0x14 else 0x1C
  }

  /** Families whose flash has banks; their commands name bank 0. */
  predicate Banked(variant: Variant)
  {
    variant.LPC43XX? || variant.LPC18XX?
  }

  /** Flash offset of the first byte of sector `k`. */
  function Start(row: Row, k: nat): nat
    requires k <= |row.sectorTable|
  {
    if k == 0 then 0 else Start(row, k - 1) + row.sectorTable[k - 1]
  }

  function FlashSize(row: Row): nat
    requires row.flashSectors <= |row.sectorTable|
  {
    Start(row, row.flashSectors)
  }

  lemma {:induction false} StartMono(row: Row, a: nat, b: nat)
    requires a <= b <= |row.sectorTable|
    ensures Start(row, a) <= Start(row, b)
  {
    if a < b {
      StartMono(row, a, b - 1);
    }
  }

  lemma StartStep(row: Row, k: nat)
    requires k < |row.sectorTable|
    ensures Start(row, k + 1) == Start(row, k) + row.sectorTable[k]
  {
  }

  lemma SectorMultiple(row: Row, k: nat)
    requires ValidRow(row) && k < |row.sectorTable|
    ensures 0 < row.maxCopySize && row.sectorTable[k] % row.maxCopySize == 0 && row.maxCopySize % 4 == 0
  {
    assert GoodSector(row, k);
  }

  lemma {:induction false} StartMultiple(row: Row, k: nat)
    requires ValidRow(row) && k <= |row.sectorTable|
    ensures 0 < row.maxCopySize && Start(row, k) % row.maxCopySize == 0
  {
    if k == 0 {
      DivModUnique(0, row.maxCopySize, 0, 0);
    } else {
      hide ValidRow, Start;
      StartMultiple(row, k - 1);
      SectorMultiple(row, k - 1);
      SumMultiple(Start(row, k - 1), row.sectorTable[k - 1], row.maxCopySize);
      StartStep(row, k - 1);
    }
  }

  lemma PlaceAligned(row: Row, k: nat, offset: nat)
    requires ValidRow(row) && k < |row.sectorTable| && offset % row.maxCopySize == 0
    ensures WordAligned(offset) && WordAligned(Start(row, k) + offset) && WordAligned(row.maxCopySize)
  {
    hide ValidRow;
    StartMultiple(row, k);
    SectorMultiple(row, k);
    SumMultiple(Start(row, k), offset, row.maxCopySize);
    Multiple(Start(row, k) + offset, row.maxCopySize, 4);
    Multiple(offset, row.maxCopySize, 4);
  }

  lemma SectorAligned(row: Row, k: nat)
    requires ValidRow(row) && k < |row.sectorTable|
    ensures WordAligned(Start(row, k)) && WordAligned(row.sectorTable[k])
  {
    StartMultiple(row, k);
    SectorMultiple(row, k);
    Multiple(Start(row, k), row.maxCopySize, 4);
    Multiple(row.sectorTable[k], row.maxCopySize, 4);
  }

  /** Sector 0 holds the vector table and lies in flash. */
  lemma VectorsFit(row: Row)
    requires ValidRow(row)
    ensures VECTORS <= Start(row, 1) <= FlashSize(row)
  {
    assert GoodSector(row, 0);
    StartMono(row, 1, row.flashSectors);
  }

  function Min(a: nat, b: nat): nat
  {
    if a <= b then a else b
  }

  // ---------------------------------------------------------------- sizes of one chunk

  /** Bytes of the sector still to be written, but no more than one copy can take. */
  function ChunkSize(row: Row, sectorLength: nat, offset: nat): nat
    requires offset <= sectorLength
  {
    Min(sectorLength - offset, row.maxCopySize)
  }

  /** The length announced for an upload: uuencoded data comes in whole groups of four lines. */
  function UploadSize(variant: Variant, chunk: nat): (r: nat)
    ensures chunk <= r < chunk + GROUP_BYTES
    ensures !variant.LPC8XX? ==> r % GROUP_BYTES == 0
    ensures variant.LPC8XX? ==> r == chunk
  {
    if variant.LPC8XX? || chunk % GROUP_BYTES == 0 then chunk
    else RoundUp(chunk); chunk + (GROUP_BYTES - chunk % GROUP_BYTES)
  }

  lemma RoundUp(chunk: nat)
    ensures chunk % GROUP_BYTES != 0 ==> (chunk + (GROUP_BYTES - chunk % GROUP_BYTES)) % GROUP_BYTES == 0
  {
    DivModUnique(chunk + (GROUP_BYTES - chunk % GROUP_BYTES), GROUP_BYTES, chunk / GROUP_BYTES + 1, 0);
  }

  /** The count of the copy command: 512, 1024, 4096 or 8192, but at most the largest copy. */
  function CopySize(row: Row, upload: nat, sectorLength: nat): nat
  {
    var rounded := if upload < 512 then 512 else if sectorLength < 1024 then 1024
                   else if sectorLength < 4096 then 4096 else 8192;
    if rounded > row.maxCopySize then row.maxCopySize else rounded
  }

  /** The counts a copy can have: four fixed ones, and the largest the device knows. */
  predicate Permitted(row: Row, count: nat)
  {
    count == 512 || count == 1024 || count == 4096 || count == 8192 || count == row.maxCopySize
  }

  lemma CountAligned(row: Row, upload: nat, sectorLength: nat)
    requires WordAligned(row.maxCopySize)
    ensures WordAligned(CopySize(row, upload, sectorLength)) && Permitted(row, CopySize(row, upload, sectorLength))
  {
  }

  lemma UploadAligned(row: Row, sectorLength: nat, offset: nat)
    requires offset < sectorLength && WordAligned(row.maxCopySize) && WordAligned(offset)
    requires !row.variant.LPC8XX? || WordAligned(sectorLength)
    ensures WordAligned(UploadSize(row.variant, ChunkSize(row, sectorLength, offset)))
  {
    if !row.variant.LPC8XX? {
      Multiple(UploadSize(row.variant, ChunkSize(row, sectorLength, offset)), GROUP_BYTES, 4);
    }
  }

  /** Chunks start on word boundaries and are copied in whole words. They are also uploaded in whole
      words, unless raw data ends in the middle of one. */
  lemma WholeWords(row: Row, k: nat, sectorLength: nat, offset: nat)
    requires ValidRow(row) && k < |row.sectorTable|
    requires offset < sectorLength <= row.sectorTable[k] && offset % row.maxCopySize == 0
    ensures var upload := UploadSize(row.variant, ChunkSize(row, sectorLength, offset));
            var count := CopySize(row, upload, sectorLength);
            && WordAligned(Start(row, k) + offset) && WordAligned(count) && Permitted(row, count)
            && (!row.variant.LPC8XX? || WordAligned(sectorLength) ==> WordAligned(upload))
  {
    hide ValidRow, UploadSize, CopySize, ChunkSize, Permitted, WordAligned;
    PlaceAligned(row, k, offset);
    CountAligned(row, UploadSize(row.variant, ChunkSize(row, sectorLength, offset)), sectorLength);
    if !row.variant.LPC8XX? || WordAligned(sectorLength) {
      UploadAligned(row, sectorLength, offset);
    }
  }

  /** A copy covers its chunk and stays in the sector, and only the last chunk of a sector is short. */
  lemma ChunkGeometry(row: Row, k: nat, sectorLength: nat, offset: nat)
    requires ValidRow(row) && k < |row.sectorTable|
    requires offset < sectorLength <= row.sectorTable[k] && offset % row.maxCopySize == 0
    ensures var chunk := ChunkSize(row, sectorLength, offset);
            var count := CopySize(row, UploadSize(row.variant, chunk), sectorLength);
            && 0 < chunk <= count <= row.maxCopySize
            && offset + count <= row.sectorTable[k]
            && (offset + chunk == sectorLength || (chunk == count == row.maxCopySize
                                                  && (offset + chunk) % row.maxCopySize == 0))
  {
    assert GoodSector(row, k);
    MultiplesApart(offset, row.sectorTable[k], row.maxCopySize);
    NextMultiple(offset, row.maxCopySize);
  }
}
