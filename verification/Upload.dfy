/** The two ways the programmer brings a chunk of the image into the device's RAM. */
module Upload {
  import opened Bytes
  import opened Text
  import opened Uuencode
  import opened Device
  import opened Plan
  import opened Commands
  import opened Bootloader
  import opened Conversation

  const ERROR_WRITE_DATA: int := 0x1006
  const ERROR_WRITE_CRC: int := 0x1007
  const ERROR_WRITE_CRC2: int := 0x1008

  /** The transfer `data` is complete: RAM holds it and the device has closed the upload. */
  ghost predicate Landed(row: Row, m0: Memory, log0: seq<Op>, data: seq<byte>, m: Memory, log: seq<Op>)
  {
    m == Step(row, m0, Data(data)) && log == log0 + [Data(data)]
  }

  /** RAM starts with exactly the bytes sent; nothing else on the device has changed. */
  lemma LandedMeans(row: Row, m0: Memory, log0: seq<Op>, data: seq<byte>, m: Memory, log: seq<Op>)
    requires Landed(row, m0, log0, data, m, log)
    ensures |data| <= |m.ram| && m.ram[..|data|] == data && m.due == 0
    ensures forall i | |data| <= i < |m0.ram| :: i < |m.ram| && m.ram[i] == m0.ram[i]
    ensures m.flash == m0.flash && m.unlocked == m0.unlocked
  {
  }

  // ---------------------------------------------------------------- uuencoded lines

  /** `sent` bytes of `data` have been encoded, of which the lines of the current group hold the last ones
      and `upload` all before them; `crc` is the sum of the group's bytes. */
  ghost predicate Group(data: seq<byte>, upload: seq<byte>, lines: seq<string>, crc: nat, sent: nat)
  {
    && (forall i | 0 <= i < |lines| :: IsLine(lines[i]))
    && LINE_BYTES * |lines| <= sent <= |data|
    && upload == data[..sent - LINE_BYTES * |lines|]
    && DecodeLines(lines) == data[sent - LINE_BYTES * |lines|..sent]
    && crc == Sum(DecodeLines(lines)) <= 255 * LINE_BYTES * |lines|
  }

  lemma GroupGrows(data: seq<byte>, upload: seq<byte>, lines: seq<string>, crc: nat, sent: nat, text: string)
    requires Group(data, upload, lines, crc, sent)
    requires sent + LINE_BYTES <= |data| && IsLine(text) && DecodeLine(text) == data[sent..sent + LINE_BYTES]
    ensures Group(data, upload, lines + [text], crc + Sum(data[sent..sent + LINE_BYTES]), sent + LINE_BYTES)
  {
    hide IsLine, DecodeLine;
    var from := sent - LINE_BYTES * |lines|;
    var more := data[sent..sent + LINE_BYTES];
    LinesSnoc(lines, text);
    JoinSlices(data, from, sent, sent + LINE_BYTES);
    SumConcat(data[from..sent], more);
    SumBound(more);
  }

  lemma GroupEnds(data: seq<byte>, upload: seq<byte>, lines: seq<string>, crc: nat, sent: nat)
    requires Group(data, upload, lines, crc, sent)
    ensures upload + DecodeLines(lines) == data[..sent]
    ensures Group(data, data[..sent], [], 0, sent)
    ensures sent == |data| ==> data[..sent] == data
  {
  }

  /** The current group is in the resend buffer and with the device; nothing else has changed there. */
  ghost predicate Sending(dev: Target, m0: Memory, log0: seq<Op>, t0: seq<Message>, data: seq<byte>,
                          sendbuf: seq<string>, line: nat, crc: nat, sent: nat)
    reads dev
  {
    && |sendbuf| == GROUP_LINES && line <= GROUP_LINES && dev.lines == sendbuf[..line]
    && dev.mem == m0 && dev.log == log0 && m0.due == |data| > 0 && !dev.row.variant.LPC8XX?
    && Group(data, dev.upload, dev.lines, crc, sent)
    && Said(dev, t0, data, Collected(data, sent, dev.lines))
  }

  /** What has been said since `t0` has brought the upload of `data` to `phase`. */
  ghost predicate Said(dev: Target, t0: seq<Message>, data: seq<byte>, phase: Phase)
    reads dev
  {
    t0 <= dev.traffic && After(dev.row.variant, data, dev.traffic, |t0|) == phase
  }

  /** The upload has ended without success, and the device's memory is as before. */
  ghost predicate GivenUp(dev: Target, m0: Memory, log0: seq<Op>, t0: seq<Message>, data: seq<byte>, ret: int)
    reads dev
  {
    ret != 0 && dev.mem == m0 && dev.log == log0 && Said(dev, t0, data, Finished(ret))
  }

  /** The upload has ended and the data is in RAM. */
  ghost predicate Through(dev: Target, m0: Memory, log0: seq<Op>, t0: seq<Message>, data: seq<byte>)
    reads dev
  {
    Landed(dev.row, m0, log0, data, dev.mem, dev.log) && Said(dev, t0, data, Finished(0))
  }

  /** The echo of a line starts with the line. */
  method EchoMatches(line: string, answer: string) returns (ok: bool)
    requires '\0' !in line && |line| < 1000 && Receivable(answer)
    ensures ok <==> Format(line) <= Format(answer)
  {
    var tmpString := Store(line);
    FormatCommand(tmpString, tmpString, line);
    var buffer := Store(answer);
    FormatCommand(buffer, buffer, answer);
    var expected := Fetch(tmpString, Format(line));
    var got := Fetch(buffer, Format(answer));
    ok := expected <= got;
  }

  method AnswerConfirms(crc: u32, answer: string) returns (ok: bool)
    requires Receivable(answer)
    ensures ok <==> Confirms(crc, answer)
  {
    var text := Decimal(crc) + "\nOK\n";
    DecimalPlain(crc);
    var tmpString := Store(text);
    FormatCommand(tmpString, tmpString, text);
    var buffer := Store(answer);
    FormatCommand(buffer, buffer, answer);
    var expected := Fetch(tmpString, Format(text));
    var got := Fetch(buffer, Format(answer));
    ok := got == expected;
  }

  lemma LineReceivable(line: string)
    requires IsLine(line)
    ensures Receivable(line) && Format(line) <= Format(line)
  {
    LineFormats(line);
  }

  /** Sends one more line and compares its echo. */
  method SendLine(dev: Target, sendbuf: seq<string>, line: nat, text: string,
                  ghost m0: Memory, ghost log0: seq<Op>, ghost t0: seq<Message>, ghost data: seq<byte>,
                  ghost crc: nat, ghost sent: nat)
    returns (ok: bool, sendbuf': seq<string>)
    requires Sending(dev, m0, log0, t0, data, sendbuf, line, crc, sent) && line < GROUP_LINES
    requires IsLine(text) && sent + LINE_BYTES <= |data| && DecodeLine(text) == data[sent..sent + LINE_BYTES]
    requires sent < |data|
    modifies dev`lines, dev`damaged, dev`traffic
    ensures |dev.traffic| == |old(dev.traffic)| + 1 && dev.traffic[|old(dev.traffic)|].Line?
    ensures dev.traffic[|old(dev.traffic)|].text == text
    ensures ok <==> Format(text) <= Format(dev.traffic[|old(dev.traffic)|].echo)
    ensures ok ==> Sending(dev, m0, log0, t0, data, sendbuf', line + 1,
                           crc + Sum(data[sent..sent + LINE_BYTES]), sent + LINE_BYTES)
    ensures !ok ==> GivenUp(dev, m0, log0, t0, data, 0x1006)
    ensures dev.perfect ==> ok && dev.damaged == old(dev.damaged)
  {
    hide IsLine, DecodeLine, Format, After, Group;
    LineReceivable(text);
    sendbuf' := sendbuf[line := text];
    NotYetDue(data, sent, dev.lines);
    var answer := dev.ReceiveLine(text);
    ok := EchoMatches(text, answer);
    OneMore(dev.row.variant, data, old(dev.traffic), |t0|, Line(text, answer));
    GroupGrows(data, dev.upload, old(dev.lines), crc, sent, text);
    assert sendbuf'[..line + 1] == sendbuf[..line] + [text];
  }

  lemma NotYetDue(data: seq<byte>, sent: nat, lines: seq<string>)
    requires |lines| < GROUP_LINES && sent < |data|
    ensures Collected(data, sent, lines) == Collecting(sent, lines)
  {
  }

  /** A refused group of which the first `n` lines have been sent again. */
  function Repeated(sent: nat, lines: seq<string>, refused: nat, n: nat): Phase
  {
    if n < |lines| then Resending(sent, lines, refused, n)
    else if refused < 3 then Offering(sent, lines, refused)
    else Finished(if |lines| == 20 then 0x1007 else 0x1008)
  }

  lemma RepeatedStep(data: seq<byte>, sent: nat, lines: seq<string>, refused: nat, n: nat, echo: string)
    requires n < |lines|
    ensures Heard(data, Repeated(sent, lines, refused, n), Line(lines[n], echo)) ==
            Repeated(sent, lines, refused, n + 1)
  {
    hide IsLine, DecodeLine, Format, Sum, Confirms;
  }

  /** Sends the group's lines again; their echoes are not looked at. */
  method ResendLines(dev: Target, sendbuf: seq<string>, line: nat,
                     ghost t0: seq<Message>, ghost data: seq<byte>, ghost sent: nat, ghost refused: nat)
    requires 0 < line <= |sendbuf| && dev.lines == []
    requires forall i | 0 <= i < line :: IsLine(sendbuf[i])
    requires Said(dev, t0, data, Resending(sent, sendbuf[..line], refused, 0))
    modifies dev`lines, dev`damaged, dev`traffic
    ensures dev.lines == sendbuf[..line]
    ensures |dev.traffic| == |old(dev.traffic)| + line && old(dev.traffic) <= dev.traffic
    ensures forall i | |old(dev.traffic)| <= i < |dev.traffic| :: dev.traffic[i].Line?
    ensures Said(dev, t0, data, if refused < 3 then Offering(sent, sendbuf[..line], refused)
                                else Finished(if line == 20 then 0x1007 else 0x1008))
    ensures dev.perfect ==> dev.damaged == old(dev.damaged)
  {
    hide IsLine, After, Heard;
    for i := 0 to line
      invariant dev.lines == sendbuf[..i]
      invariant |dev.traffic| == |old(dev.traffic)| + i && old(dev.traffic) <= dev.traffic
      invariant forall j | |old(dev.traffic)| <= j < |dev.traffic| :: dev.traffic[j].Line?
      invariant Said(dev, t0, data, Repeated(sent, sendbuf[..line], refused, i))
      invariant dev.perfect ==> dev.damaged == old(dev.damaged)
    {
      LineReceivable(sendbuf[i]);
      ghost var before := dev.traffic;
      var echo := dev.ReceiveLine(sendbuf[i]);
      OneMore(dev.row.variant, data, before, |t0|, Line(sendbuf[i], echo));
      RepeatedStep(data, sent, sendbuf[..line], refused, i, echo);
      TakeOneMore(sendbuf, i);
    }
  }

  /** After the group's checksum has been accepted. */
  ghost predicate Confirmed(dev: Target, m0: Memory, log0: seq<Op>, t0: seq<Message>, data: seq<byte>,
                            sendbuf: seq<string>, sent: nat)
    reads dev
  {
    if sent == |data| then Through(dev, m0, log0, t0, data)
    else Sending(dev, m0, log0, t0, data, sendbuf, 0, 0, sent)
  }

  /** Offers a finished group's checksum up to three times, sending the lines again after each refusal. */
  method ConfirmGroup(dev: Target, sendbuf: seq<string>, line: nat, crc: u32,
                      ghost m0: Memory, ghost log0: seq<Op>, ghost t0: seq<Message>, ghost data: seq<byte>,
                      ghost sent: nat)
    returns (ok: bool)
    requires Sending(dev, m0, log0, t0, data, sendbuf, line, crc, sent) && line > 0
    requires line == GROUP_LINES || sent == |data|
    modifies dev
    ensures old(dev.traffic) <= dev.traffic
    ensures ok ==> 1 <= Offers(dev.traffic, |old(dev.traffic)|) <= 3 && Refused(dev.traffic, |old(dev.traffic)|) == 0
    ensures !ok ==> Offers(dev.traffic, |old(dev.traffic)|) == 3 && Refused(dev.traffic, |old(dev.traffic)|) == 3
    ensures ok ==> Confirmed(dev, m0, log0, t0, data, sendbuf, sent)
    ensures !ok ==> GivenUp(dev, m0, log0, t0, data, if line == 20 then 0x1007 else 0x1008)
    ensures dev.perfect && !old(dev.damaged) ==> ok && !dev.damaged
  {
    hide Offers, Refused, IsLine, Landed;
    ghost var start := |old(dev.traffic)|;
    NothingOffered(dev.traffic);
    var repeat := 0;
    while repeat < 3
      invariant old(dev.traffic) <= dev.traffic
      invariant Offers(dev.traffic, start) == Refused(dev.traffic, start) == repeat <= 3
      invariant dev.mem == m0 && dev.log == log0
      invariant repeat < 3 ==> Trying(dev, m0, log0, t0, data, sendbuf, line, crc, sent, repeat)
      invariant repeat == 3 ==> Said(dev, t0, data, Finished(if line == 20 then 0x1007 else 0x1008))
      invariant dev.perfect && !old(dev.damaged) ==> repeat == 0 && !dev.damaged
    {
      ok := OneTry(dev, sendbuf, line, crc, m0, log0, t0, data, sent, repeat, start);
      if ok {
        return;
      }
      repeat := repeat + 1;
    }
    ok := false;
  }

  lemma NothingOffered(traffic: seq<Message>)
    ensures Offers(traffic, |traffic|) == Refused(traffic, |traffic|) == 0
  {
  }

  /** The group is with the device again after `refused` refusals. */
  ghost predicate Trying(dev: Target, m0: Memory, log0: seq<Op>, t0: seq<Message>, data: seq<byte>,
                         sendbuf: seq<string>, line: nat, crc: nat, sent: nat, refused: nat)
    reads dev
  {
    && |sendbuf| == GROUP_LINES && 0 < line <= GROUP_LINES && dev.lines == sendbuf[..line]
    && dev.mem == m0 && dev.log == log0 && m0.due == |data| > 0 && (line == GROUP_LINES || sent == |data|)
    && !dev.row.variant.LPC8XX?
    && Group(data, dev.upload, dev.lines, crc, sent)
    && Said(dev, t0, data, Offering(sent, dev.lines, refused))
  }

  /** One turn of the repeat loop. */
  method OneTry(dev: Target, sendbuf: seq<string>, line: nat, crc: u32,
                ghost m0: Memory, ghost log0: seq<Op>, ghost t0: seq<Message>, ghost data: seq<byte>,
                ghost sent: nat, ghost refused: nat, ghost start: nat)
    returns (ok: bool)
    requires Trying(dev, m0, log0, t0, data, sendbuf, line, crc, sent, refused) && refused < 3
    requires start <= |dev.traffic|
    modifies dev
    ensures old(dev.traffic) <= dev.traffic
    ensures Offers(dev.traffic, start) == old(Offers(dev.traffic, start)) + 1
    ensures Refused(dev.traffic, start) == if ok then 0 else old(Refused(dev.traffic, start)) + 1
    ensures ok ==> Confirmed(dev, m0, log0, t0, data, sendbuf, sent)
    ensures !ok ==> dev.mem == m0 && dev.log == log0
    ensures !ok && refused < 2 ==> Trying(dev, m0, log0, t0, data, sendbuf, line, crc, sent, refused + 1)
    ensures !ok && refused == 2 ==> Said(dev, t0, data, Finished(if line == 20 then 0x1007 else 0x1008))
    ensures dev.perfect && !old(dev.damaged) ==> ok
    ensures dev.perfect ==> !dev.damaged
  {
    hide Offers, Refused, IsLine, Landed, After;
    ok := OfferChecksum(dev, sendbuf, line, crc, m0, log0, t0, data, sent, refused, start);
    if !ok {
      ghost var before := dev.traffic;
      ResendLines(dev, sendbuf, line, t0, data, sent, refused + 1);
      assert dev.traffic == before + dev.traffic[|before|..];
      LinesOnly(before, dev.traffic[|before|..], start);
    }
  }

  /** Sends the checksum once: the group is committed, or it is gone and nothing else has changed. */
  method OfferChecksum(dev: Target, sendbuf: seq<string>, line: nat, crc: u32,
                       ghost m0: Memory, ghost log0: seq<Op>, ghost t0: seq<Message>, ghost data: seq<byte>,
                       ghost sent: nat, ghost refused: nat, ghost start: nat)
    returns (ok: bool)
    requires Trying(dev, m0, log0, t0, data, sendbuf, line, crc, sent, refused) && start <= |dev.traffic|
    modifies dev
    ensures old(dev.traffic) <= dev.traffic
    ensures Offers(dev.traffic, start) == old(Offers(dev.traffic, start)) + 1
    ensures Refused(dev.traffic, start) == if ok then 0 else old(Refused(dev.traffic, start)) + 1
    ensures ok ==> Confirmed(dev, m0, log0, t0, data, sendbuf, sent)
    ensures !ok ==> dev.mem == m0 && dev.log == log0 && dev.upload == old(dev.upload) && dev.lines == []
    ensures !ok ==> Said(dev, t0, data, Resending(sent, sendbuf[..line], refused + 1, 0))
    ensures dev.perfect && !old(dev.damaged) ==> ok
    ensures !dev.damaged
  {
    hide Offers, Refused, IsLine, Confirms, Step, Sum, After, DecodeLine;
    GroupEnds(data, dev.upload, dev.lines, crc, sent);
    ghost var before := dev.traffic;
    var answer := dev.ReceiveChecksum(crc);
    ok := AnswerConfirms(crc, answer);
    OneMore(dev.row.variant, data, before, |t0|, Checksum(crc, answer));
    OffersSnoc(before, start, Checksum(crc, answer));
    RefusedSnoc(before, start, Checksum(crc, answer));
    assert sendbuf[..0] == [];
  }

  /** Sends a line and, when it is the twentieth, has the group confirmed. */
  method SendAndCount(dev: Target, sendbuf: seq<string>, line: nat, text: string, crc: u32,
                      ghost m0: Memory, ghost log0: seq<Op>, ghost t0: seq<Message>, ghost data: seq<byte>,
                      ghost sent: nat, ghost crc0: nat)
    returns (ret: int, sendbuf': seq<string>, line': nat, crc': u32)
    requires sent + LINE_BYTES <= |data| && IsLine(text) && DecodeLine(text) == data[sent..sent + LINE_BYTES]
    requires crc == crc0 + Sum(data[sent..sent + LINE_BYTES])
    requires Underway(dev, m0, log0, t0, data, sendbuf, line, crc0, sent)
    modifies dev
    ensures ret == 0 ==> Underway(dev, m0, log0, t0, data, sendbuf', line', crc', sent + LINE_BYTES)
    ensures ret != 0 ==> GivenUp(dev, m0, log0, t0, data, ret)
    ensures dev.perfect && !old(dev.damaged) ==> ret == 0 && !dev.damaged
  {
    hide IsLine, DecodeLine, Sum;
    line', crc' := line, crc;
    var ok;
    ok, sendbuf' := SendLine(dev, sendbuf, line, text, m0, log0, t0, data, crc0, sent);
    if !ok {
      ret := ERROR_WRITE_DATA;
      return;
    }
    ret, line' := 0, line + 1;
    if line' == GROUP_LINES {
      ok := ConfirmGroup(dev, sendbuf', line', crc, m0, log0, t0, data, sent + LINE_BYTES);
      if !ok {
        ret := ERROR_WRITE_CRC;
      }
      line', crc' := 0, 0;
    }
  }

  lemma SameSlice(image: seq<byte>, from: nat, size: nat, sent: nat, n: nat)
    requires from + size <= |image| && sent + n <= size
    ensures image[from..from + size][sent..sent + n] == image[from + sent..from + sent + n]
  {
    var a, b := image[from..from + size][sent..sent + n], image[from + sent..from + sent + n];
    forall i | 0 <= i < n
      ensures a[i] == b[i]
    {
    }
    assert a == b;
  }

  /** The checksum of a group is far from wrapping. */
  lemma ChecksumRoom(dev: Target, m0: Memory, log0: seq<Op>, t0: seq<Message>, data: seq<byte>,
                     sendbuf: seq<string>, line: nat, crc: nat, sent: nat)
    requires Underway(dev, m0, log0, t0, data, sendbuf, line, crc, sent) && sent < |data|
    ensures crc + 255 * LINE_BYTES < WORD
  {
  }

  /** One turn of the block loop: encode the 45 bytes after the first `sent` and send them. */
  method EncodeAndSend(dev: Target, image: seq<byte>, from: nat, sent: nat, table: seq<char>, k0: i32,
                       sendbuf: seq<string>, line: nat, crc: u32,
                       ghost m0: Memory, ghost log0: seq<Op>, ghost t0: seq<Message>, ghost data: seq<byte>)
    returns (ret: int, k: i32, sendbuf': seq<string>, line': nat, crc': u32, sent': nat)
    requires |table| == 64 && forall i | 0 <= i < 64 :: table[i] == Code(i)
    requires from + |data| <= |image| && data == image[from..from + |data|] && sent + LINE_BYTES <= |data|
    requires Underway(dev, m0, log0, t0, data, sendbuf, line, crc, sent)
    modifies dev
    ensures sent' == sent + LINE_BYTES
    ensures ret == 0 ==> Underway(dev, m0, log0, t0, data, sendbuf', line', crc', sent')
    ensures ret != 0 ==> GivenUp(dev, m0, log0, t0, data, ret)
    ensures dev.perfect && !old(dev.damaged) ==> ret == 0 && !dev.damaged
  {
    hide Landed, IsLine, DecodeLine, Underway, GivenUp, After, Sum;
    var text, sum;
    ChecksumRoom(dev, m0, log0, t0, data, sendbuf, line, crc, sent);
    text, k, sum := EncodeLine(image, from + sent, table, k0, crc);
    SameSlice(image, from, |data|, sent, LINE_BYTES);
    ret, sendbuf', line', crc' := SendAndCount(dev, sendbuf, line, text, sum, m0, log0, t0, data, sent, crc);
    sent' := sent + LINE_BYTES;
  }

  /** Four lines, 180 bytes: one turn of the position loop. */
  method FourLines(dev: Target, image: seq<byte>, from: nat, sent: nat, table: seq<char>, k0: i32,
                   sendbuf0: seq<string>, line0: nat, crc0: u32,
                   ghost m0: Memory, ghost log0: seq<Op>, ghost t0: seq<Message>, ghost data: seq<byte>)
    returns (ret: int, k: i32, sendbuf: seq<string>, line: nat, crc: u32)
    requires |table| == 64 && forall i | 0 <= i < 64 :: table[i] == Code(i)
    requires from + |data| <= |image| && data == image[from..from + |data|] && sent + GROUP_BYTES <= |data|
    requires Underway(dev, m0, log0, t0, data, sendbuf0, line0, crc0, sent)
    modifies dev
    ensures ret == 0 ==> Underway(dev, m0, log0, t0, data, sendbuf, line, crc, sent + GROUP_BYTES)
    ensures ret != 0 ==> GivenUp(dev, m0, log0, t0, data, ret)
    ensures dev.perfect && !old(dev.damaged) ==> ret == 0 && !dev.damaged
  {
    hide Underway;
    ret, k, sendbuf, line, crc := 0, k0, sendbuf0, line0, crc0;
    var block, at := 0, sent;
    while block < 4
      invariant 0 <= block <= 4 && at == sent + 45 * block
      invariant ret == 0 && Underway(dev, m0, log0, t0, data, sendbuf, line, crc, at)
      invariant dev.perfect && !old(dev.damaged) ==> !dev.damaged
    {
      ret, k, sendbuf, line, crc, at :=
        EncodeAndSend(dev, image, from, at, table, k, sendbuf, line, crc, m0, log0, t0, data);
      if ret != 0 {
        return;
      }
      block := block + 1;
    }
    assert at == sent + GROUP_BYTES;
  }

  /** Uuencoded upload of `image[from..from + size]`, `size` being the announced length. */
  method UploadLines(dev: Target, image: seq<byte>, from: nat, size: nat, length: nat, table: seq<char>, k0: i32)
    returns (ret: int, k: i32)
    requires from < length && from + size < length + GROUP_BYTES <= |image| && size % GROUP_BYTES == 0
    requires dev.mem.due == size > 0 && dev.upload == [] && dev.lines == [] && !dev.row.variant.LPC8XX?
    requires |table| == 64 && forall i | 0 <= i < 64 :: table[i] == Code(i)
    modifies dev
    ensures ret == 0 ==> Landed(dev.row, old(dev.mem), old(dev.log), image[from..from + size], dev.mem, dev.log)
    ensures ret != 0 ==> dev.mem == old(dev.mem) && dev.log == old(dev.log)
    ensures Said(dev, old(dev.traffic), image[from..from + size], Finished(ret))
    ensures dev.perfect && !old(dev.damaged) ==> ret == 0 && !dev.damaged
  {
    hide Underway, Landed, After;
    ghost var data, m0, log0, t0 := image[from..from + size], dev.mem, dev.log, dev.traffic;
    var sendbuf := seq(GROUP_LINES, i => "");
    k := k0;
    var crc: u32, line, pos := 0, 0, from;
    ghost var sent := 0;
    UnderwayStarts(dev, data, sendbuf);
    while pos < from + size && pos < length
      invariant pos == from + sent && sent <= size && sent % GROUP_BYTES == 0
      invariant Underway(dev, m0, log0, t0, data, sendbuf, line, crc, sent)
      invariant dev.perfect && !old(dev.damaged) ==> !dev.damaged
      decreases size - sent
    {
      OneMoreGroup(sent, size);
      ret, k, sendbuf, line, crc :=
        FourLines(dev, image, from, pos - from, table, k, sendbuf, line, crc, m0, log0, t0, data);
      if ret != 0 {
        return;
      }
      pos := pos + 4 * LINE_BYTES;
      sent := sent + GROUP_BYTES;
    }
    WholeGroups(sent, size, length - from);
    ret := LastGroup(dev, sendbuf, line, crc, m0, log0, t0, data);
  }

  /** The checksum of the lines that are left when all data has been sent. */
  method LastGroup(dev: Target, sendbuf: seq<string>, line: nat, crc: u32,
                   ghost m0: Memory, ghost log0: seq<Op>, ghost t0: seq<Message>, ghost data: seq<byte>)
    returns (ret: int)
    requires Underway(dev, m0, log0, t0, data, sendbuf, line, crc, |data|)
    modifies dev
    ensures ret == 0 ==> Through(dev, m0, log0, t0, data)
    ensures ret != 0 ==> GivenUp(dev, m0, log0, t0, data, ret)
    ensures dev.perfect && !old(dev.damaged) ==> ret == 0 && !dev.damaged
  {
    hide Group, Landed, After;
    ret := 0;
    if line != 0 {
      var ok := ConfirmGroup(dev, sendbuf, line, crc, m0, log0, t0, data, |data|);
      if !ok {
        ret := ERROR_WRITE_CRC2;
      }
    }
  }

  lemma UnderwayStarts(dev: Target, data: seq<byte>, sendbuf: seq<string>)
    requires dev.mem.due == |data| > 0 && dev.upload == [] && dev.lines == [] && !dev.row.variant.LPC8XX?
    requires |sendbuf| == GROUP_LINES
    ensures Underway(dev, dev.mem, dev.log, dev.traffic, data, sendbuf, 0, 0, 0)
  {
    assert sendbuf[..0] == [];
  }

  lemma OneMoreGroup(sent: nat, size: nat)
    requires sent % GROUP_BYTES == 0 && size % GROUP_BYTES == 0 && sent < size
    ensures sent + GROUP_BYTES <= size && (sent + GROUP_BYTES) % GROUP_BYTES == 0
  {
    MultiplesApart(sent, size, GROUP_BYTES);
    NextMultiple(sent, GROUP_BYTES);
  }

  /** The second guard of the position loop never ends it early: the announced length is less than a
      group above the image's end. */
  lemma WholeGroups(sent: nat, size: nat, left: nat)
    requires sent % GROUP_BYTES == 0 && size % GROUP_BYTES == 0 && sent <= size < left + GROUP_BYTES
    requires sent >= size || sent >= left
    ensures sent == size
  {
    if sent < size {
      OneMoreGroup(sent, size);
    }
  }

  /** Between two lines of an upload: still sending, or everything confirmed. */
  ghost predicate Underway(dev: Target, m0: Memory, log0: seq<Op>, t0: seq<Message>, data: seq<byte>,
                           sendbuf: seq<string>, line: nat, crc: nat, sent: nat)
    reads dev
  {
    && sent <= |data|
    && if line == 0 && sent == |data| then Through(dev, m0, log0, t0, data)
       else line < GROUP_LINES && Sending(dev, m0, log0, t0, data, sendbuf, line, crc, sent)
  }

  // ---------------------------------------------------------------- raw blocks

  lemma StreamStarts(variant: Variant, data: seq<byte>, traffic: seq<Message>)
    requires variant.LPC8XX?
    ensures After(variant, data, traffic, |traffic|) == Streaming(0)
  {
  }

  lemma StreamStep(data: seq<byte>, sent: nat, count: nat, complete: bool, back: seq<byte>)
    requires sent < |data| && count == Least(|data| - sent, 256)
    ensures var block := data[sent..sent + count];
      Heard(data, Streaming(sent), Block(block, complete, back)) ==
        if !complete || back != block then Finished(0x1006)
        else if sent + count == |data| then Finished(0) else Streaming(sent + count)
  {
  }

  /** Raw upload in blocks of at most 256 bytes, each compared with its echo. */
  method UploadBlocks(dev: Target, image: seq<byte>, from: nat, size: nat) returns (ret: int)
    requires from + size <= |image|
    requires dev.mem.due == size > 0 && dev.upload == [] && dev.row.variant.LPC8XX?
    modifies dev`mem, dev`upload, dev`log, dev`traffic
    ensures ret == 0 ==> Landed(dev.row, old(dev.mem), old(dev.log), image[from..from + size], dev.mem, dev.log)
    ensures ret != 0 ==> dev.mem == old(dev.mem) && dev.log == old(dev.log)
    ensures Said(dev, old(dev.traffic), image[from..from + size], Finished(ret))
    ensures dev.perfect ==> ret == 0
  {
    hide After, Heard, Step;
    ghost var data, m0, log0, t0 := image[from..from + size], dev.mem, dev.log, dev.traffic;
    StreamStarts(dev.row.variant, data, t0);
    var offset := 0;
    while offset < size
      invariant 0 <= offset <= size
      invariant offset < size ==> dev.mem == m0 && dev.log == log0 && dev.upload == data[..offset]
      invariant offset < size ==> Said(dev, t0, data, Streaming(offset))
      invariant offset == size ==> Through(dev, m0, log0, t0, data)
    {
      var count := size - offset;
      if count > 256 {
        count := 256;
      }
      var block := image[from + offset..from + offset + count];
      ghost var before := dev.traffic;
      SameSlice(image, from, size, offset, count);
      var complete, echo := dev.ReceiveBlock(block);
      OneMore(dev.row.variant, data, before, |t0|, Block(block, complete, echo));
      StreamStep(data, offset, count, complete, echo);
      if !complete {
        return ERROR_WRITE_DATA;
      }
      if echo != block {
        return ERROR_WRITE_DATA;
      }
      JoinSlices(data, 0, offset, offset + count);
      assert data[..size] == data;
      offset := offset + count;
    }
    ret := 0;
  }
}
