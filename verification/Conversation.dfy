/**
 What the programmer may say during an upload and what each answer makes of it, told apart from the loops
 that say it: three bytes in four characters, 45 bytes a line, a checksum after twenty lines or at the end,
 three tries for every checksum; blocks of at most 256 bytes to an LPC8XX (src/DFU/lpcprog.c:1213-1460).
 */
module Conversation {
  import opened Bytes
  import opened Text
  import opened Uuencode
  import opened Device
  import opened Bootloader

  /** Where an upload stands. `sent` counts the bytes sent for the first time; `lines` are those the next
      checksum is for, and `refused` of its answers have not confirmed it. */
  datatype Phase =
    | Collecting(sent: nat, lines: seq<string>)
    | Offering(sent: nat, lines: seq<string>, refused: nat)
    | Resending(sent: nat, lines: seq<string>, refused: nat, again: nat)
    | Streaming(sent: nat)
    | Finished(ret: int)
    | Astray

  function Beginning(variant: Variant): Phase
  {
    if variant.LPC8XX? then Streaming(0) else Collecting(0, [])
  }

  function Heard(data: seq<byte>, phase: Phase, m: Message): Phase
  {
    match phase
    case Collecting(sent, lines) =>
      if !m.Line? || |data| < sent + 45 || !IsLine(m.text) || DecodeLine(m.text) != data[sent..sent + 45] then Astray
      else if !(Format(m.text) <= Format(m.echo)) then Finished(0x1006)
      else Collected(data, sent + 45, lines + [m.text])
    case Offering(sent, lines, refused) =>
      if !m.Checksum? || !(45 * |lines| <= sent <= |data|) || m.crc != Sum(data[sent - 45 * |lines|..sent]) then Astray
      else if !Confirms(m.crc, m.answer) then Resending(sent, lines, refused + 1, 0)
      else if sent == |data| then Finished(0)
      else Collecting(sent, [])
    case Resending(sent, lines, refused, again) =>
      if !m.Line? || |lines| <= again || m.text != lines[again] then Astray
      else if again + 1 < |lines| then Resending(sent, lines, refused, again + 1)
      else if refused < 3 then Offering(sent, lines, refused)
      else Finished(if |lines| == 20 then 0x1007 else 0x1008)
    case Streaming(sent) =>
      var count := |data| - sent;
      if !m.Block? || count <= 0 || m.bytes != data[sent..sent + Least(count, 256)] then Astray
      else if !m.complete || m.back != m.bytes then Finished(0x1006)
      else if count <= 256 then Finished(0)
      else Streaming(sent + 256)
    case _ => Astray
  }

  /** The checksum is due after twenty lines and at the end of the data. */
  function Collected(data: seq<byte>, sent: nat, lines: seq<string>): Phase
  {
    if |lines| == 20 || (lines != [] && sent == |data|) then Offering(sent, lines, 0) else Collecting(sent, lines)
  }

  function Least(a: int, b: int): int
  {
    if a <= b then a else b
  }

  /** The upload of `data` after the messages from `start` on. */
  function After(variant: Variant, data: seq<byte>, traffic: seq<Message>, start: nat): Phase
    requires start <= |traffic|
    decreases |traffic|
  {
    if |traffic| == start then Beginning(variant)
    else Heard(data, After(variant, data, traffic[..|traffic| - 1], start), traffic[|traffic| - 1])
  }

  lemma OneMore(variant: Variant, data: seq<byte>, traffic: seq<Message>, start: nat, m: Message)
    requires start <= |traffic|
    ensures After(variant, data, traffic + [m], start) == Heard(data, After(variant, data, traffic, start), m)
  {
    assert (traffic + [m])[..|traffic|] == traffic;
  }

  // ---------------------------------------------------------------- what it amounts to

  /** How many of the last checksums since `start` have been refused in a row. */
  function Refused(traffic: seq<Message>, start: nat): nat
    decreases |traffic|
  {
    if |traffic| <= start then 0
    else
      var last, before := traffic[|traffic| - 1], traffic[..|traffic| - 1];
      if !last.Checksum? then Refused(before, start)
      else if Confirms(last.crc, last.answer) then 0
      else 1 + Refused(before, start)
  }

  /** How many checksums have been sent since `start`. */
  function Offers(traffic: seq<Message>, start: nat): nat
    decreases |traffic|
  {
    if |traffic| <= start then 0
    else Offers(traffic[..|traffic| - 1], start) + (if traffic[|traffic| - 1].Checksum? then 1 else 0)
  }

  lemma OffersSnoc(traffic: seq<Message>, start: nat, m: Message)
    requires start <= |traffic|
    ensures Offers(traffic + [m], start) == Offers(traffic, start) + if m.Checksum? then 1 else 0
  {
    assert (traffic + [m])[..|traffic|] == traffic;
  }

  /** Sending lines leaves both counts alone. */
  lemma {:induction false} LinesOnly(traffic: seq<Message>, more: seq<Message>, start: nat)
    requires start <= |traffic| && forall i | 0 <= i < |more| :: more[i].Line?
    ensures Offers(traffic + more, start) == Offers(traffic, start)
    ensures Refused(traffic + more, start) == Refused(traffic, start)
    decreases |more|
  {
    if more == [] {
      assert traffic + more == traffic;
    } else {
      var before, last := more[..|more| - 1], more[|more| - 1];
      LinesOnly(traffic, before, start);
      assert traffic + more == (traffic + before) + [last];
      OffersSnoc(traffic + before, start, last);
      RefusedSnoc(traffic + before, start, last);
    }
  }

  /** The last `n` messages are lines, and before them came a checksum. */
  predicate LinesSince(traffic: seq<Message>, n: nat)
  {
    && n < |traffic| && traffic[|traffic| - 1 - n].Checksum?
    && forall i | |traffic| - n <= i < |traffic| :: traffic[i].Line?
  }

  /** Each family is spoken to in its own way, and all blocks but the last are full. */
  predicate Spoken(variant: Variant, traffic: seq<Message>, start: nat)
  {
    forall i | start <= i < |traffic| ::
      if variant.LPC8XX? then
        traffic[i].Block? && 0 < |traffic[i].bytes| <= 256 && (i + 1 < |traffic| ==> |traffic[i].bytes| == 256)
      else traffic[i].Line? || traffic[i].Checksum?
  }

  /** Twenty lines to a checksum, and fewer only at the end. */
  predicate Regular(data: seq<byte>, phase: Phase)
  {
    match phase
    case Collecting(sent, lines) =>
      sent == 45 * (sent / 45) && |lines| == sent / 45 % 20 && (lines != [] ==> sent != |data|)
    case Offering(sent, lines, refused) => Batch(data, sent, lines) && refused <= 2
    case Resending(sent, lines, refused, again) => Batch(data, sent, lines) && 1 <= refused <= 3 && again < |lines|
    case _ => true
  }

  predicate Batch(data: seq<byte>, sent: nat, lines: seq<string>)
  {
    && 0 < |lines| <= 20 && sent == 45 * (sent / 45) && |lines| % 20 == sent / 45 % 20
    && (|lines| == 20 || sent == |data|)
  }

  lemma LineCount(sent: nat, n: nat)
    requires sent == 45 * (sent / 45) && n == sent / 45 % 20
    ensures (sent + 45) / 45 == sent / 45 + 1 && (n + 1) % 20 == (sent + 45) / 45 % 20
  {
    DivModUnique(sent + 45, 45, sent / 45 + 1, 0);
  }

  lemma HeardRegular(data: seq<byte>, phase: Phase, m: Message)
    requires Regular(data, phase)
    ensures Regular(data, Heard(data, phase, m))
  {
    hide IsLine, DecodeLine, Confirms, Format, Sum;
    if phase.Collecting? {
      LineCount(phase.sent, |phase.lines|);
    }
  }

  lemma {:induction false} AlwaysRegular(variant: Variant, data: seq<byte>, traffic: seq<Message>, start: nat)
    requires start <= |traffic|
    ensures Regular(data, After(variant, data, traffic, start))
    decreases |traffic|
  {
    hide Heard, Batch;
    if |traffic| > start {
      AlwaysRegular(variant, data, traffic[..|traffic| - 1], start);
      HeardRegular(data, After(variant, data, traffic[..|traffic| - 1], start), traffic[|traffic| - 1]);
    }
  }

  /** The answers that have been refused, and the lines sent again, are those the phase says. */
  predicate Counted(phase: Phase, traffic: seq<Message>, start: nat)
  {
    match phase
    case Collecting(_, _) => Refused(traffic, start) == 0
    case Offering(_, _, refused) => Refused(traffic, start) == refused
    case Resending(_, _, refused, again) => Refused(traffic, start) == refused && LinesSince(traffic, again)
    case Streaming(_) => Refused(traffic, start) == 0
    case Finished(ret) =>
      if ret == 0x1007 then Refused(traffic, start) == 3 && LinesSince(traffic, 20)
      else if ret == 0x1008 then Refused(traffic, start) == 3 && exists n :: 0 < n < 20 && LinesSince(traffic, n)
      else ret in {0, 0x1006} && Refused(traffic, start) == 0
    case Astray => true
  }

  lemma RefusedSnoc(traffic: seq<Message>, start: nat, m: Message)
    requires start <= |traffic|
    ensures Refused(traffic + [m], start) ==
              if !m.Checksum? then Refused(traffic, start) else if Confirms(m.crc, m.answer) then 0
              else 1 + Refused(traffic, start)
    ensures m.Checksum? ==> LinesSince(traffic + [m], 0)
    ensures forall n: nat | LinesSince(traffic, n) && m.Line? :: LinesSince(traffic + [m], n + 1)
  {
    assert (traffic + [m])[..|traffic|] == traffic;
  }

  lemma HeardCounted(data: seq<byte>, phase: Phase, traffic: seq<Message>, start: nat, m: Message)
    requires start <= |traffic| && Regular(data, phase) && Counted(phase, traffic, start)
    ensures Counted(Heard(data, phase, m), traffic + [m], start)
  {
    hide IsLine, DecodeLine, Confirms, Format, Sum, Refused, LinesSince;
    RefusedSnoc(traffic, start, m);
  }

  lemma {:induction false} AlwaysCounted(variant: Variant, data: seq<byte>, traffic: seq<Message>, start: nat)
    requires start <= |traffic|
    ensures Counted(After(variant, data, traffic, start), traffic, start)
    decreases |traffic|
  {
    hide Heard, LinesSince, Regular;
    if |traffic| > start {
      var before, last := traffic[..|traffic| - 1], traffic[|traffic| - 1];
      AlwaysCounted(variant, data, before, start);
      AlwaysRegular(variant, data, before, start);
      HeardCounted(data, After(variant, data, before, start), before, start, last);
      assert before + [last] == traffic;
    }
  }

  predicate Kind(variant: Variant, phase: Phase)
  {
    if variant.LPC8XX? then phase.Streaming? || phase.Finished? || phase.Astray? else !phase.Streaming?
  }

  /** What has been said so far, when more is to come or not. */
  predicate SoFar(variant: Variant, phase: Phase, traffic: seq<Message>, start: nat)
  {
    && Kind(variant, phase)
    && (!phase.Astray? ==> Spoken(variant, traffic, start))
    && (phase.Streaming? && start < |traffic| ==>
          traffic[|traffic| - 1].Block? && |traffic[|traffic| - 1].bytes| == 256)
  }

  lemma HeardSpoken(variant: Variant, data: seq<byte>, phase: Phase, traffic: seq<Message>, start: nat, m: Message)
    requires start <= |traffic| && SoFar(variant, phase, traffic, start)
    ensures SoFar(variant, Heard(data, phase, m), traffic + [m], start)
  {
    hide IsLine, DecodeLine, Confirms, Format, Sum;
  }

  lemma {:induction false} AlwaysSpoken(variant: Variant, data: seq<byte>, traffic: seq<Message>, start: nat)
    requires start <= |traffic|
    ensures SoFar(variant, After(variant, data, traffic, start), traffic, start)
    decreases |traffic|
  {
    hide Heard, SoFar;
    if |traffic| > start {
      var before, last := traffic[..|traffic| - 1], traffic[|traffic| - 1];
      AlwaysSpoken(variant, data, before, start);
      HeardSpoken(variant, data, After(variant, data, before, start), before, start, last);
      assert before + [last] == traffic;
    } else {
      StartSpoken(variant, traffic);
    }
  }

  lemma StartSpoken(variant: Variant, traffic: seq<Message>)
    ensures SoFar(variant, Beginning(variant), traffic, |traffic|)
  {
  }

  /** An upload that has ended has spoken the family's language. It gives up on a checksum after exactly
      three refusals in a row, and with 0x1007 if that was for twenty lines, with 0x1008 if for fewer. */
  lemma UploadEnds(variant: Variant, data: seq<byte>, traffic: seq<Message>, start: nat, ret: int)
    requires start <= |traffic| && After(variant, data, traffic, start) == Finished(ret)
    ensures ret in {0, 0x1006, 0x1007, 0x1008} && Spoken(variant, traffic, start)
    ensures ret == 0x1007 || ret == 0x1008 <==> Refused(traffic, start) == 3
    ensures ret == 0x1007 ==> LinesSince(traffic, 20)
    ensures ret == 0x1008 ==> exists n :: 0 < n < 20 && LinesSince(traffic, n)
  {
    AlwaysCounted(variant, data, traffic, start);
    AlwaysSpoken(variant, data, traffic, start);
  }
}
