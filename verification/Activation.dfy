/**
 * Activation of a type A card (nfc_iso14443a_open in libs/nfc/iso14443a.c): wake-up, the
 * cascade levels that bring in the UID, and the first exchange of the block protocol. Also a
 * card that takes part as sections 6.5.3 and 6.5.4 of ISO/IEC 14443-3:2011 say.
 */
module Activation {
  import opened Bytes
  import opened Blocks
  import opened CrcA
  import opened Link

  const WUPA: Byte := 0x52
  const QUERY: Byte := 0x20   // NVB of the anticollision command
  const SELECT: Byte := 0x70  // NVB of the select command
  const RATS: Byte := 0xE0
  const CASCADE_TAG: Byte := 0x88

  function SelCode(level: nat): Byte {
    if level == 0 then 0x93 else if level == 1 then 0x95 else 0x97
  }

  function Xor4(s: seq<Byte>): Byte
    requires |s| >= 4
  {
    s[0] ^ s[1] ^ s[2] ^ s[3]
  }

  /** The cascade bit of a SAK: the UID is not complete. */
  predicate Cascades(sak: Byte) { sak & 0x04 != 0 }

  predicate SupportsTcl(sak: Byte) { sak & 0x24 == 0x20 }

  // ----- The loop over the cascade levels -----------------------------------------------

  /** The answer to select at one level: an error, or what it adds to the UID. */
  datatype Level = Refused | Partial(bytes: seq<Byte>) | Final(bytes: seq<Byte>, sak: Byte)

  /** `uid` holds the level's four bytes and their check byte, `sak` the three answer bytes. */
  function JudgeSak(uid: seq<Byte>, sak: seq<Byte>): Level
    requires |uid| == 5 && |sak| == 3
  {
    if Cascades(sak[0]) then Partial(uid[1..4])
    else if Crc([sak[0]]) != Word(sak[1], sak[2]) then Refused
    else Final(uid[..4], sak[0])
  }

  /** Where the loop ends: `id` and `sak` as far as they were read, the requests sent and the
      answers not used. */
  datatype Selection = Selection(ok: bool, id: seq<Byte>, sak: Byte,
                                 sent: seq<Request>, script: seq<Answer>)

  function Before(request: Request, s: Selection): Selection {
    s.(sent := [request] + s.sent)
  }

  /** The command buffer with the anticollision command of a level. */
  function QueryBuffer(buf: seq<Byte>, level: nat): (b: seq<Byte>)
    requires |buf| == 8
    ensures |b| == 8
  {
    buf[0 := SelCode(level)][1 := QUERY]
  }

  /** The loop from `level` on. `buf` is the command buffer; `stack[level]` is what the
      level's answer buffer happens to hold. */
  function SelectFrom(level: nat, size: nat, buf: seq<Byte>, id: seq<Byte>, sak: Byte,
                      script: seq<Answer>, stack: seq<seq<Byte>>): Selection
    requires level <= size <= 3 && |buf| == 8
    requires |stack| == 3 && forall i :: 0 <= i < 3 ==> |stack[i]| == 3
    decreases size - level
  {
    if level == size then Selection(true, id, sak, [], script)
    else
      var b := QueryBuffer(buf, level);
      var query := Full(b[..if level == 0 then 2 else 7]);
      var a := Next(script);
      var c := Overwrite(b, 2, Heard(a, 5));
      if Returned(a, 5) < 0 || Xor4(c[2..6]) != c[6] then
        Before(query, Selection(false, id, sak, [], Later(script)))
      else
        var d := c[1 := SELECT];
        Before(query, Before(Full(WithCrc(d[..7])),
          SelectAnswered(level, size, d, id, sak, Later(script), stack)))
  }

  /** The answer to the select command, and the levels after it. */
  function SelectAnswered(level: nat, size: nat, buf: seq<Byte>, id: seq<Byte>, sak: Byte,
                          script: seq<Answer>, stack: seq<seq<Byte>>): Selection
    requires level < size <= 3 && |buf| == 8
    requires |stack| == 3 && forall i :: 0 <= i < 3 ==> |stack[i]| == 3
    decreases size - level, 0
  {
    var a := Next(script);
    var judged := JudgeSak(buf[2..7], Overwrite(stack[level], 0, Heard(a, 3)));
    if Returned(a, 3) < 0 || judged.Refused? then Selection(false, id, sak, [], Later(script))
    else
      SelectFrom(level + 1, size, buf, id + judged.bytes, if judged.Final? then judged.sak else sak,
                 Later(script), stack)
  }

  // ----- The whole activation -----------------------------------------------------------

  /** The driver's fields that activation writes. */
  datatype Profile = Profile(atqa: seq<Byte>, id: seq<Byte>, sak: Byte, ats: seq<Byte>,
                             fsc: nat, fwt: nat)

  datatype Activated = Activated(ret: int, profile: Profile, sent: seq<Request>, script: seq<Answer>)

  function UidSize(atqa: Byte): nat {
    if atqa & 0xC0 == 0 then 1 else if atqa & 0xC0 == 0x40 then 2
    else if atqa & 0xC0 == 0x80 then 3 else 4
  }

  function LowNibble(b: Byte): nat { (b & 0x0F) as nat }

  function HighNibble(b: Byte): nat { (b >> 4) as nat }

  /** The parameter byte of RATS: the code in the high half, card number 0 in the low half. */
  function RatsByte(fsdi: nat): Byte
    requires fsdi <= 8
  {
    (fsdi as Byte) << 4
  }

  /** What the driver takes from an answer to select: FSC when the format byte is there, FWT
      from the interface byte TB(1) or, when there is none, from the code 8. */
  function FromAts(p: Profile): Profile
    requires |p.ats| == 7
  {
    if p.ats[0] > 1 then
      var fwi := if p.ats[1] & 0x20 != 0
                 then HighNibble(p.ats[if p.ats[1] & 0x10 != 0 then 3 else 2]) else 8;
      p.(fsc := SizeOfCode(LowNibble(p.ats[1])), fwt := TimeOfCode(fwi))
    else p.(fwt := TimeOfCode(8))
  }

  function RatsFrame(fsdi: nat): Request
    requires fsdi <= 8
  {
    Full(WithCrc([RATS, RatsByte(fsdi)]))
  }

  /** The exchange of the answer to select, for a card that supports the block protocol. */
  function FinishActivation(p: Profile, fsdi: nat, script: seq<Answer>): Activated
    requires |p.ats| == 7 && fsdi <= 8
  {
    if !SupportsTcl(p.sak) then Activated(0, p, [], script)
    else
      var a := Next(script);
      var q := p.(ats := Overwrite(p.ats, 0, Heard(a, 7)));
      if Returned(a, 7) < 0 then Activated(Returned(a, 7), q, [RatsFrame(fsdi)], Later(script))
      else Activated(0, FromAts(q), [RatsFrame(fsdi)], Later(script))
  }

  /** All of it; `buf` is what the command buffer happens to hold. */
  function Activate(p: Profile, fsdi: nat, script: seq<Answer>, buf: seq<Byte>, stack: seq<seq<Byte>>)
    : Activated
    requires |p.ats| == 7 && fsdi <= 8 && |buf| == 8
    requires |stack| == 3 && forall i :: 0 <= i < 3 ==> |stack[i]| == 3
  {
    var a, wake := Next(script), [Short(WUPA)];
    if Returned(a, 8) < 0 then Activated(ENODEV, p, wake, Later(script))
    else
      var b := Overwrite(buf, 0, Heard(a, 8));
      var q := p.(atqa := b[..2]);
      if b[0] & 0x1F == 0 then Activated(EPROTO, q, wake, Later(script))
      else if UidSize(b[0]) > 3 then Activated(EIO, q, wake, Later(script))
      else
        var s := SelectFrom(0, UidSize(b[0]), b, [], p.sak, Later(script), stack);
        var t := q.(id := s.id, sak := s.sak);
        if !s.ok then Activated(EIO, t, wake + s.sent, s.script)
        else
          var e := FinishActivation(t, fsdi, s.script);
          e.(sent := wake + s.sent + e.sent)
  }

  // ----- Properties against any card ----------------------------------------------------

  /** How many levels of a run have the cascade bit set in their SAK. */
  function CascadedLevels(level: nat, size: nat, buf: seq<Byte>, script: seq<Answer>,
                          stack: seq<seq<Byte>>): nat
    requires level <= size <= 3 && |buf| == 8
    requires |stack| == 3 && forall i :: 0 <= i < 3 ==> |stack[i]| == 3
    decreases size - level
  {
    if level == size then 0
    else
      var b := Overwrite(QueryBuffer(buf, level), 2, Heard(Next(script), 5));
      var sak := Overwrite(stack[level], 0, Heard(Next(Later(script)), 3));
      (if Cascades(sak[0]) then 1 else 0)
        + CascadedLevels(level + 1, size, b[1 := SELECT], Later(Later(script)), stack)
  }

  /** A complete run adds four bytes for every level, less one for every cascade bit. So the ten
      bytes kept for the UID suffice unless there are three levels and fewer than two such bits. */
  lemma {:induction false} IdLength(level: nat, size: nat, buf: seq<Byte>, id: seq<Byte>, sak: Byte,
                                    script: seq<Answer>, stack: seq<seq<Byte>>)
    requires level <= size <= 3 && |buf| == 8
    requires |stack| == 3 && forall i :: 0 <= i < 3 ==> |stack[i]| == 3
    ensures var s := SelectFrom(level, size, buf, id, sak, script, stack);
      s.ok ==> |s.id| == |id| + 4 * (size - level) - CascadedLevels(level, size, buf, script, stack)
    decreases size - level
  {
    hide BitsOf, Xor4, SelCode, WithCrc, Cascades, Crc, Word;
    if level == size {
    } else {
      var c := Overwrite(QueryBuffer(buf, level), 2, Heard(Next(script), 5));
      var d, a2 := c[1 := SELECT], Next(Later(script));
      var judged := JudgeSak(d[2..7], Overwrite(stack[level], 0, Heard(a2, 3)));
      if !judged.Refused? {
        IdLength(level + 1, size, d, id + judged.bytes, if judged.Final? then judged.sak else sak,
                 Later(Later(script)), stack);
      }
    }
  }

  lemma IdFits(size: nat, buf: seq<Byte>, sak: Byte, script: seq<Answer>, stack: seq<seq<Byte>>)
    requires size <= 3 && |buf| == 8
    requires |stack| == 3 && forall i :: 0 <= i < 3 ==> |stack[i]| == 3
    ensures var s := SelectFrom(0, size, buf, [], sak, script, stack);
      s.ok ==> (|s.id| <= 10 <==> size < 3 || CascadedLevels(0, size, buf, script, stack) >= 2)
  {
    IdLength(0, size, buf, [], sak, script, stack);
  }

  /** The reader's tests, bit by bit: bit 3 and bit 6 of the SAK, and bits 1 to 5, 7 and 8 of the
      ATQA. */
  lemma SakBits(sak: Byte)
    ensures Cascades(sak) <==> BitsOf(sak)[2]
    ensures SupportsTcl(sak) <==> BitsOf(sak)[5] && !BitsOf(sak)[2]
  {
  }

  /** One of the five lowest bits of the ATQA: the card takes part in anticollision. */
  predicate AnticollisionBit(b: Byte) {
    var bits := BitsOf(b);
    bits[0] || bits[1] || bits[2] || bits[3] || bits[4]
  }

  lemma AtqaBits(b: Byte)
    ensures b & 0x1F != 0 <==> AnticollisionBit(b)
    ensures UidSize(b) == 1 + (if BitsOf(b)[6] then 1 else 0) + (if BitsOf(b)[7] then 2 else 0)
  {
  }

  /** The SAK is taken exactly when it closes the UID and the frame's residue is zero. */
  lemma SakCheck(uid: seq<Byte>, sak: seq<Byte>)
    requires |uid| == 5 && |sak| == 3 && !Cascades(sak[0])
    ensures JudgeSak(uid, sak).Final? <==> Crc(sak) == ZERO
  {
    assert sak == [sak[0]] + [sak[1], sak[2]];
    ResidueIffMatch([sak[0]], sak[1], sak[2]);
  }

  /** The driver's nibbles are the hexadecimal digits of the byte's number. */
  lemma Nibbles(b: Byte)
    ensures LowNibble(b) == ValueOf(b) % 16 && HighNibble(b) == ValueOf(b) / 16
  {
    BinaryOfEight(BitsOf(b));
    HalvesOfByte(b);
    HalfByte(b & 0x0F);
    HalfByte(b >> 4);
    var lo, hi := LowNibble(b), HighNibble(b);
    assert ValueOf(b) == lo + 16 * hi;
  }

  lemma SameFrom(c: seq<Byte>, i: nat, b: Byte)
    requires i < 2 && |c| == 8
    ensures c[i := b][2..6] == c[2..6] && c[i := b][3..6] == c[3..6]
  {
  }

  /** The check byte of the standard: the exclusive or of the four bytes. */
  function CheckByte(a: Byte, b: Byte, c: Byte, d: Byte): Byte { a ^ b ^ c ^ d }

  /** The check byte fits the level's bytes. */
  predicate ChecksOut(c: seq<Byte>)
    requires |c| == 8
  {
    c[6] == CheckByte(c[2], c[3], c[4], c[5])
  }

  lemma BccCheck(c: seq<Byte>)
    requires |c| == 8
    ensures Xor4(c[2..6]) == c[6] <==> ChecksOut(c)
  {
    assert Xor4(c[2..6]) == CheckByte(c[2], c[3], c[4], c[5]);
  }

  lemma QueryPassed(level: nat, size: nat, buf: seq<Byte>, id: seq<Byte>, sak: Byte,
                    script: seq<Answer>, stack: seq<seq<Byte>>)
    requires level < size <= 3 && |buf| == 8
    requires |stack| == 3 && forall i :: 0 <= i < 3 ==> |stack[i]| == 3
    ensures var s := SelectFrom(level, size, buf, id, sak, script, stack);
      var c := Overwrite(QueryBuffer(buf, level), 2, Heard(Next(script), 5));
      if Returned(Next(script), 5) < 0 || !ChecksOut(c) then
        s == Selection(false, id, sak, s.sent, Later(script))
      else s == SelectAnswered(level, size, c[1 := SELECT], id, sak, Later(script), stack).(sent := s.sent)
  {
    hide WithCrc, SelCode, SelectAnswered, Overwrite, Xor4, ChecksOut;
    BccCheck(Overwrite(QueryBuffer(buf, level), 2, Heard(Next(script), 5)));
  }

  lemma LevelAnswered(level: nat, size: nat, d: seq<Byte>, id: seq<Byte>, sak: Byte,
                      script: seq<Answer>, stack: seq<seq<Byte>>)
    requires level < size <= 3 && |d| == 8
    requires |stack| == 3 && forall i :: 0 <= i < 3 ==> |stack[i]| == 3
    ensures var s := SelectAnswered(level, size, d, id, sak, script, stack);
      var k := Overwrite(stack[level], 0, Heard(Next(script), 3));
      if Returned(Next(script), 3) < 0 || (!Cascades(k[0]) && Crc(k) != ZERO) then
        s == Selection(false, id, sak, [], Later(script))
      else
        s == SelectFrom(level + 1, size, d, id + (if Cascades(k[0]) then d[3..6] else d[2..6]),
                        if Cascades(k[0]) then sak else k[0], Later(script), stack)
  {
    hide Crc, Cascades, JudgeSak, SelectFrom, Overwrite;
    LevelJudged(d, Overwrite(stack[level], 0, Heard(Next(script), 3)));
  }

  lemma LevelJudged(d: seq<Byte>, k: seq<Byte>)
    requires |d| == 8 && |k| == 3
    ensures JudgeSak(d[2..7], k)
      == if Cascades(k[0]) then Partial(d[3..6]) else if Crc(k) != ZERO then Refused else Final(d[2..6], k[0])
  {
    hide Crc, Cascades;
    SliceWithin(d, 2, 7, 1, 4);
    SliceWithin(d, 2, 7, 0, 4);
    assert d[2..7][..4] == d[2..7][0..4];
    if !Cascades(k[0]) {
      SakCheck(d[2..7], k);
    }
  }

  /** A level is passed exactly when the device answers both commands, the check byte fits the
      level's bytes, and the SAK has its cascade bit or a frame of residue
      zero. It adds the three bytes after the cascade tag, or all four and the SAK. */
  lemma LevelPassed(level: nat, size: nat, buf: seq<Byte>, id: seq<Byte>, sak: Byte,
                    script: seq<Answer>, stack: seq<seq<Byte>>)
    requires level < size <= 3 && |buf| == 8
    requires |stack| == 3 && forall i :: 0 <= i < 3 ==> |stack[i]| == 3
    ensures var s := SelectFrom(level, size, buf, id, sak, script, stack);
      var uid, code := Next(script), Next(Later(script));
      var c := Overwrite(QueryBuffer(buf, level), 2, Heard(uid, 5));
      var k := Overwrite(stack[level], 0, Heard(code, 3));
      var cascade := BitsOf(k[0])[2];
      if Returned(uid, 5) < 0 || !ChecksOut(c) then
        !s.ok && s.id == id && s.sak == sak && s.script == Later(script)
      else if Returned(code, 3) < 0 || (!cascade && Crc(k) != ZERO) then
        !s.ok && s.id == id && s.sak == sak && s.script == Later(Later(script))
      else
        var t := SelectFrom(level + 1, size, c[1 := SELECT], id + (if cascade then c[3..6] else c[2..6]),
                            if cascade then sak else k[0], Later(Later(script)), stack);
        s == t.(sent := s.sent)
  {
    hide BitsOf, ChecksOut, Crc, SelectFrom, SelectAnswered, Overwrite;
    var c := Overwrite(QueryBuffer(buf, level), 2, Heard(Next(script), 5));
    var k := Overwrite(stack[level], 0, Heard(Next(Later(script)), 3));
    QueryPassed(level, size, buf, id, sak, script, stack);
    SakBits(k[0]);
    if Returned(Next(script), 5) >= 0 && ChecksOut(c) {
      LevelAnswered(level, size, c[1 := SELECT], id, sak, Later(script), stack);
      SameFrom(c, 1, SELECT);
    }
  }

  /** The errors of activation, and what it has sent when they show before the first level. */
  lemma ActivationErrors(p: Profile, fsdi: nat, script: seq<Answer>, buf: seq<Byte>, stack: seq<seq<Byte>>)
    requires |p.ats| == 7 && fsdi <= 8 && |buf| == 8
    requires |stack| == 3 && forall i :: 0 <= i < 3 ==> |stack[i]| == 3
    ensures var r, a := Activate(p, fsdi, script, buf, stack), Next(script);
      var atqa := Overwrite(buf, 0, Heard(a, 8))[0];
      var bits := BitsOf(atqa);
      && (Returned(a, 8) < 0 ==> r == Activated(-19, p, [Short(0x52)], Later(script)))
      && (Returned(a, 8) >= 0 && !AnticollisionBit(atqa) ==>
            r.ret == -71 && r.sent == [Short(0x52)])
      && (Returned(a, 8) >= 0 && AnticollisionBit(atqa) && bits[6] && bits[7] ==>
            r.ret == -5 && r.sent == [Short(0x52)])
      && (r.sent != [Short(0x52)] ==>
            var s := SelectFrom(0, 1 + (if bits[6] then 1 else 0) + (if bits[7] then 2 else 0),
                                Overwrite(buf, 0, Heard(a, 8)), [], p.sak, Later(script), stack);
            if !s.ok then r.ret == -5
            else if !BitsOf(s.sak)[5] || BitsOf(s.sak)[2] then r.ret == 0
            else r.ret == if Returned(Next(s.script), 7) < 0 then Returned(Next(s.script), 7) else 0)
  {
    hide BitsOf, UidSize, SelectFrom, SupportsTcl, WithCrc, FromAts, Overwrite;
    var b := Overwrite(buf, 0, Heard(Next(script), 8));
    AtqaBits(b[0]);
    if UidSize(b[0]) <= 3 {
      SakBits(SelectFrom(0, UidSize(b[0]), b, [], p.sak, Later(script), stack).sak);
    }
  }

  /** FSC is the card's exactly when the card supports the block protocol, answers, and announces
      more than the length byte; otherwise it keeps the value it had. After an ATS of its length
      byte alone the waiting time is the one of code 8, and without an ATS it is what it was. */
  lemma FscWritten(p: Profile, fsdi: nat, script: seq<Answer>)
    requires |p.ats| == 7 && fsdi <= 8
    ensures var r := FinishActivation(p, fsdi, script);
      var a := Next(script);
      var ats := Overwrite(p.ats, 0, Heard(a, 7));
      if SupportsTcl(p.sak) && Returned(a, 7) >= 0 && ats[0] > 1
      then r.profile.ats == ats && r.profile.fsc == SizeOfCode(ValueOf(ats[1]) % 16) >= 16
      else
        && r.profile.fsc == p.fsc
        && r.profile.fwt == if SupportsTcl(p.sak) && Returned(a, 7) >= 0 then 80 else p.fwt
  {
    Nibbles(Overwrite(p.ats, 0, Heard(Next(script), 7))[1]);
  }

  // ----- A conforming card --------------------------------------------------------------

  /** `partial` is its SAK while the UID is incomplete. */
  datatype Tag = Tag(uid: seq<Byte>, atqa: seq<Byte>, partial: Byte, sak: Byte, ats: seq<Byte>)
  {
    function Levels(): nat { if |uid| == 4 then 1 else if |uid| == 7 then 2 else 3 }

    /** Bits 7 and 8 of its ATQA give the size of the UID (section 6.5.2 of ISO/IEC 14443-3:
        00, 01 and 10 for 4, 7 and 10 bytes), one of the five lowest is for anticollision; bit 3
        of its SAK says that the UID is not complete. */
    predicate Conforming() {
      && |uid| in {4, 7, 10} && |atqa| == 2
      && BitsOf(atqa[0])[6] == (|uid| == 7) && BitsOf(atqa[0])[7] == (|uid| == 10)
      && AnticollisionBit(atqa[0])
      && BitsOf(partial)[2] && !BitsOf(sak)[2]
    }

    /** Bit 6 of a SAK that closes the UID: the block protocol. */
    predicate HasBlockProtocol() { BitsOf(sak)[5] && !BitsOf(sak)[2] }

    /** The four bytes of one cascade level: all that is left of the UID if it fits, otherwise
        the cascade tag and three bytes of it. */
    function LevelBytes(level: nat): (b: seq<Byte>)
      requires Conforming() && level < Levels()
      ensures |b| == 4
    {
      if level + 1 == Levels() then uid[3 * level..]
      else [CASCADE_TAG] + uid[3 * level..3 * level + 3]
    }

    /** With their check byte. */
    function Checked(level: nat): (b: seq<Byte>)
      requires Conforming() && level < Levels()
      ensures |b| == 5
    {
      var b := LevelBytes(level);
      b + [CheckByte(b[0], b[1], b[2], b[3])]
    }
  }

  datatype Stage = Idle | Ready(level: nat) | Active

  datatype Reaction = Reaction(stage: Stage, answer: Answer)

  /** The select codes of the cascade levels. */
  const LEVEL_CODES: seq<Byte> := [0x93, 0x95, 0x97]

  /** The tag answers the anticollision command on its first two bytes, the select command when
      it carries its own bytes, and RATS once it is selected. */
  function React(t: Tag, stage: Stage, request: Request): Reaction
    requires t.Conforming()
  {
    match request
    case Short(c) =>
      if c == 0x52 && stage.Idle? then Reaction(Ready(0), Frame(t.atqa)) else Reaction(stage, SILENCE)
    case Full(f) =>
      if stage.Ready? && stage.level < t.Levels() then
        var l := stage.level;
        if 2 <= |f| && f[0] == LEVEL_CODES[l] && f[1] == 0x20 then Reaction(stage, Frame(t.Checked(l)))
        else if f == WithCrc([LEVEL_CODES[l], 0x70] + t.Checked(l)) then
          if l + 1 == t.Levels() then Reaction(Active, Frame(WithCrc([t.sak])))
          else Reaction(Ready(l + 1), Frame(WithCrc([t.partial])))
        else Reaction(stage, SILENCE)
      else if stage.Active? && |f| == 4 && f[0] == 0xE0 && Crc(f) == ZERO && t.HasBlockProtocol() then
        Reaction(stage, Frame(WithCrc(t.ats)))
      else Reaction(stage, SILENCE)
  }

  /** The first answers of `script` are the tag's to the requests `sent`. */
  predicate Says(t: Tag, stage: Stage, sent: seq<Request>, script: seq<Answer>)
    requires t.Conforming()
    decreases |sent|
  {
    sent == [] ||
    (script != [] &&
     var r := React(t, stage, sent[0]);
     script[0] == r.answer && Says(t, r.stage, sent[1..], script[1..]))
  }

  // The reader's tests are those of the tag's bits.

  lemma TagRead(t: Tag)
    requires t.Conforming()
    ensures t.atqa[0] & 0x1F != 0 && UidSize(t.atqa[0]) == t.Levels()
    ensures Cascades(t.partial) && !Cascades(t.sak) && (SupportsTcl(t.sak) <==> t.HasBlockProtocol())
  {
    hide BitsOf, CheckByte, AnticollisionBit, UidSize, Cascades, SupportsTcl;
    AtqaBits(t.atqa[0]);
    SakBits(t.partial);
    SakBits(t.sak);
  }

  lemma ReactToQuery(t: Tag, level: nat, f: seq<Byte>)
    requires t.Conforming() && level < t.Levels()
    requires 2 <= |f| && f[0] == SelCode(level) && f[1] == QUERY
    ensures React(t, Ready(level), Full(f)) == Reaction(Ready(level), Frame(t.Checked(level)))
  {
  }

  lemma ReactToSelect(t: Tag, level: nat)
    requires t.Conforming() && level < t.Levels()
    ensures var last := level + 1 == t.Levels();
      React(t, Ready(level), Full(WithCrc([SelCode(level), SELECT] + t.Checked(level))))
        == Reaction(if last then Active else Ready(level + 1),
                    Frame(WithCrc([if last then t.sak else t.partial])))
  {
    var f := WithCrc([SelCode(level), SELECT] + t.Checked(level));
    assert f[1] == SELECT;
  }

  lemma QueryAnswered(t: Tag, level: nat, buf: seq<Byte>, a: Answer)
    requires t.Conforming() && level < t.Levels() && |buf| == 8
    requires a == Frame(t.Checked(level))
    ensures var c := Overwrite(QueryBuffer(buf, level), 2, Heard(a, 5));
      && Returned(a, 5) == 5 && c[2..7] == t.Checked(level) && Xor4(c[2..6]) == c[6]
      && c[1 := SELECT][..7] == [SelCode(level), SELECT] + t.Checked(level)
      && c[1 := SELECT][2..7] == t.Checked(level)
  {
    hide BitsOf, AnticollisionBit;
    var c := Overwrite(QueryBuffer(buf, level), 2, Heard(a, 5));
    assert c[2..7] == t.Checked(level);
    assert c[2..6] == c[2..7][..4] && c[6] == c[2..7][4];
    assert c[2..6] == t.LevelBytes(level);
  }

  /** The loop from one level on reads the rest of this tag's UID; `more` are requests sent
      after the loop. */
  lemma {:induction false} SelectReadsUid(t: Tag, level: nat, buf: seq<Byte>, id: seq<Byte>, sak: Byte,
                                          script: seq<Answer>, stack: seq<seq<Byte>>,
                                          more: seq<Request>)
    requires t.Conforming() && level < t.Levels() && |buf| == 8
    requires |stack| == 3 && forall i :: 0 <= i < 3 ==> |stack[i]| == 3
    requires id == t.uid[..3 * level]
    requires var s := SelectFrom(level, t.Levels(), buf, id, sak, script, stack);
      Says(t, Ready(level), s.sent + more, script)
    ensures var s := SelectFrom(level, t.Levels(), buf, id, sak, script, stack);
      s.ok && s.id == t.uid && s.sak == t.sak && Says(t, Active, more, s.script)
    decreases t.Levels() - level
  {
    hide BitsOf, AnticollisionBit, CheckByte, React, Says, Xor4, SelCode, WithCrc, SelectFrom, SelectAnswered, Overwrite, Cascades, UidSize, Before;
    var size := t.Levels();
    var f := QueryBuffer(buf, level)[..if level == 0 then 2 else 7];
    var s := SelectFrom(level, size, buf, id, sak, script, stack);
    QueryFirst(level, size, buf, id, sak, script, stack);
    SaysNext(t, Ready(level), Full(f), s.sent[1..] + more, s.sent + more, script);
    ReactToQuery(t, level, f);
    ThenSelect(t, level, buf, id, sak, script, stack);
    QueryAnswered(t, level, buf, script[0]);
    var d := Overwrite(QueryBuffer(buf, level), 2, Heard(script[0], 5))[1 := SELECT];
    var select := Full(WithCrc([SelCode(level), SELECT] + t.Checked(level)));
    var after := SelectAnswered(level, size, d, id, sak, script[1..], stack);
    TwoSent(Full(f), select, after, more);
    SaysNext(t, Ready(level), select, after.sent + more, s.sent[1..] + more, script[1..]);
    ReactToSelect(t, level);
    SelectSelected(t, level, d, id, sak, script[1..], stack, more);
  }

  lemma TwoSent(first: Request, second: Request, s: Selection, more: seq<Request>)
    ensures var t := Before(first, Before(second, s));
      && t == s.(sent := t.sent)
      && t.sent[1..] + more == [second] + (s.sent + more)
      && t.sent + more == [first] + ([second] + (s.sent + more))
  {
  }

  lemma SaysNext(t: Tag, stage: Stage, request: Request, rest: seq<Request>, sent: seq<Request>,
                 script: seq<Answer>)
    requires t.Conforming() && sent == [request] + rest && Says(t, stage, sent, script)
    ensures script != [] && script[0] == React(t, stage, request).answer
    ensures Says(t, React(t, stage, request).stage, rest, script[1..])
  {
    assert sent[1..] == rest;
  }

  lemma QueryFirst(level: nat, size: nat, buf: seq<Byte>, id: seq<Byte>, sak: Byte,
                   script: seq<Answer>, stack: seq<seq<Byte>>)
    requires level < size <= 3 && |buf| == 8
    requires |stack| == 3 && forall i :: 0 <= i < 3 ==> |stack[i]| == 3
    ensures var sent := SelectFrom(level, size, buf, id, sak, script, stack).sent;
      |sent| > 0 && sent[0] == Full(QueryBuffer(buf, level)[..if level == 0 then 2 else 7])
  {
    hide Xor4, SelectAnswered, WithCrc, SelCode;
  }

  lemma ThenSelect(t: Tag, level: nat, buf: seq<Byte>, id: seq<Byte>, sak: Byte,
                   script: seq<Answer>, stack: seq<seq<Byte>>)
    requires t.Conforming() && level < t.Levels() && |buf| == 8
    requires |stack| == 3 && forall i :: 0 <= i < 3 ==> |stack[i]| == 3
    requires script != [] && script[0] == Frame(t.Checked(level))
    ensures var d := Overwrite(QueryBuffer(buf, level), 2, Heard(script[0], 5))[1 := SELECT];
      var f := QueryBuffer(buf, level)[..if level == 0 then 2 else 7];
      var after := SelectAnswered(level, t.Levels(), d, id, sak, script[1..], stack);
      SelectFrom(level, t.Levels(), buf, id, sak, script, stack)
        == Before(Full(f), Before(Full(WithCrc([SelCode(level), SELECT] + t.Checked(level))), after))
  {
    hide Xor4, SelectAnswered, WithCrc, SelCode, Overwrite;
    QueryAnswered(t, level, buf, script[0]);
  }

  lemma HeardWhole(memory: seq<Byte>, frame: seq<Byte>)
    requires |frame| == |memory| == 3
    ensures var a := Frame(frame); Returned(a, 3) == 3 && Overwrite(memory, 0, Heard(a, 3)) == frame
  {
  }

  lemma SakAnswered(t: Tag, level: nat, uid: seq<Byte>, junk: seq<Byte>, id: seq<Byte>, a: Answer)
    requires t.Conforming() && level < t.Levels() && uid == t.Checked(level) && |junk| == 3
    requires id == t.uid[..3 * level]
    requires a == Frame(WithCrc([if level + 1 == t.Levels() then t.sak else t.partial]))
    ensures Returned(a, 3) == 3
    ensures var judged := JudgeSak(uid, Overwrite(junk, 0, Heard(a, 3)));
      if level + 1 == t.Levels()
      then judged.Final? && judged.sak == t.sak && id + judged.bytes == t.uid
      else judged.Partial? && id + judged.bytes == t.uid[..3 * (level + 1)]
  {
    hide Cascades, JudgeSak, Xor4, WithCrc, BitsOf, CheckByte, AnticollisionBit, UidSize, SupportsTcl,
      Overwrite, Heard, Returned;
    TagRead(t);
    var code := if level + 1 == t.Levels() then t.sak else t.partial;
    HeardWhole(junk, WithCrc([code]));
    GoodSakJudged(uid, code);
    IdGrows(t, level, uid);
  }

  lemma GoodSakJudged(uid: seq<Byte>, code: Byte)
    requires |uid| == 5
    ensures JudgeSak(uid, WithCrc([code]))
      == if Cascades(code) then Partial(uid[1..4]) else Final(uid[..4], code)
  {
    var answer, crc := WithCrc([code]), Crc([code]);
    assert answer[0] == code && answer[1] == Low(crc) && answer[2] == High(crc);
    WordOfHalves(crc);
  }

  lemma IdGrows(t: Tag, level: nat, uid: seq<Byte>)
    requires t.Conforming() && level < t.Levels() && uid == t.Checked(level)
    ensures if level + 1 == t.Levels() then t.uid[..3 * level] + uid[..4] == t.uid
            else t.uid[..3 * level] + uid[1..4] == t.uid[..3 * (level + 1)]
  {
    assert uid[..4] == t.LevelBytes(level);
    assert uid[1..4] == t.LevelBytes(level)[1..];
  }

  lemma {:induction false} SelectSelected(t: Tag, level: nat, d: seq<Byte>, id: seq<Byte>, sak: Byte,
                                          script: seq<Answer>, stack: seq<seq<Byte>>,
                                          more: seq<Request>)
    requires t.Conforming() && level < t.Levels() && |d| == 8
    requires |stack| == 3 && forall i :: 0 <= i < 3 ==> |stack[i]| == 3
    requires id == t.uid[..3 * level] && d[2..7] == t.Checked(level)
    requires script != []
    requires var last := level + 1 == t.Levels();
      && script[0] == Frame(WithCrc([if last then t.sak else t.partial]))
      && Says(t, if last then Active else Ready(level + 1),
              SelectAnswered(level, t.Levels(), d, id, sak, script, stack).sent + more, script[1..])
    ensures var s := SelectAnswered(level, t.Levels(), d, id, sak, script, stack);
      s.ok && s.id == t.uid && s.sak == t.sak && Says(t, Active, more, s.script)
    decreases t.Levels() - level, 0
  {
    hide BitsOf, AnticollisionBit, CheckByte, React, Xor4, SelCode, WithCrc, Cascades, UidSize, JudgeSak, Says;
    var judged := JudgeSak(d[2..7], Overwrite(stack[level], 0, Heard(script[0], 3)));
    SakAnswered(t, level, d[2..7], stack[level], id, script[0]);
    if level + 1 == t.Levels() {
      assert [] + more == more;
    } else {
      SelectReadsUid(t, level + 1, d, id + judged.bytes, sak, script[1..], stack, more);
    }
  }

  /** Activation of a conforming card: whatever the buffers hold at first, it succeeds and reads
      the card's UID and SAK; a card with the block protocol is then asked for its ATS. */
  lemma UidRoundTrip(t: Tag, p: Profile, fsdi: nat, script: seq<Answer>,
                     buf: seq<Byte>, stack: seq<seq<Byte>>)
    requires t.Conforming() && |p.ats| == 7 && fsdi <= 8 && |buf| == 8
    requires |stack| == 3 && forall i :: 0 <= i < 3 ==> |stack[i]| == 3
    ensures var r := Activate(p, fsdi, script, buf, stack);
      Says(t, Idle, r.sent, script) ==>
        && r.ret == 0 && r.profile.atqa == t.atqa
        && r.profile.id == t.uid && r.profile.sak == t.sak
        && (t.HasBlockProtocol() ==>
              r.profile == FromAts(r.profile.(fsc := p.fsc, fwt := p.fwt))
              && r.profile.ats == Overwrite(p.ats, 0, Take(WithCrc(t.ats), 7)))
        && (!t.HasBlockProtocol() ==> r.profile == p.(atqa := t.atqa, id := t.uid, sak := t.sak))
  {
    hide React, Says, SelectFrom, WithCrc, BitsOf, CheckByte, AnticollisionBit, UidSize, Cascades,
      SupportsTcl, RatsByte, LowNibble, HighNibble, SizeOfCode, TimeOfCode;
    var r := Activate(p, fsdi, script, buf, stack);
    if Says(t, Idle, r.sent, script) {
      TagRead(t);
      SaysNext(t, Idle, Short(WUPA), r.sent[1..], r.sent, script);
      WakesUp(t);
      var b := Overwrite(buf, 0, t.atqa);
      assert Heard(Next(script), 8) == t.atqa && b[..2] == t.atqa;
      var s := SelectFrom(0, t.Levels(), b, [], p.sak, script[1..], stack);
      var more := if s.ok && SupportsTcl(s.sak) then [RatsFrame(fsdi)] else [];
      assert r.sent[1..] == s.sent + more;
      SelectReadsUid(t, 0, b, [], p.sak, script[1..], stack, more);
      if SupportsTcl(t.sak) {
        SaysNext(t, Active, RatsFrame(fsdi), [], more, s.script);
        ReactToRats(t, fsdi);
      }
    }
  }

  lemma WakesUp(t: Tag)
    requires t.Conforming()
    ensures React(t, Idle, Short(WUPA)) == Reaction(Ready(0), Frame(t.atqa))
  {
  }

  lemma ReactToRats(t: Tag, fsdi: nat)
    requires t.Conforming() && SupportsTcl(t.sak) && fsdi <= 8
    ensures React(t, Active, RatsFrame(fsdi)) == Reaction(Active, Frame(WithCrc(t.ats)))
  {
    SakBits(t.sak);
    FrameResidue([RATS, RatsByte(fsdi)], 0, 0);
  }

  // That such an exchange takes place.

  /** The tag's part from one level on. */
  function LevelScript(t: Tag, level: nat): seq<Answer>
    requires t.Conforming() && level <= t.Levels()
    decreases t.Levels() - level
  {
    if level == t.Levels() then [Frame(WithCrc(t.ats))]
    else
      [Frame(t.Checked(level)), Frame(WithCrc([if level + 1 == t.Levels() then t.sak else t.partial]))]
        + LevelScript(t, level + 1)
  }

  function TagScript(t: Tag): seq<Answer>
    requires t.Conforming()
  {
    [Frame(t.atqa)] + LevelScript(t, 0)
  }

  lemma SaysMore(t: Tag, stage: Stage, request: Request, rest: seq<Request>, sent: seq<Request>,
                 script: seq<Answer>)
    requires t.Conforming() && sent == [request] + rest
    requires script != [] && script[0] == React(t, stage, request).answer
    requires Says(t, React(t, stage, request).stage, rest, script[1..])
    ensures Says(t, stage, sent, script)
  {
    assert sent[1..] == rest;
  }

  lemma ScriptOfLevel(t: Tag, level: nat)
    requires t.Conforming() && level < t.Levels()
    ensures var script := LevelScript(t, level);
      && |script| >= 2 && script[0] == Frame(t.Checked(level))
      && script[1] == Frame(WithCrc([if level + 1 == t.Levels() then t.sak else t.partial]))
  {
    hide BitsOf, AnticollisionBit, CheckByte, WithCrc;
  }

  lemma {:induction false} CanSelect(t: Tag, level: nat, buf: seq<Byte>, id: seq<Byte>, sak: Byte,
                                     stack: seq<seq<Byte>>, more: seq<Request>)
    requires t.Conforming() && level < t.Levels() && |buf| == 8
    requires |stack| == 3 && forall i :: 0 <= i < 3 ==> |stack[i]| == 3
    requires id == t.uid[..3 * level]
    requires Says(t, Active, more, LevelScript(t, t.Levels()))
    ensures var s := SelectFrom(level, t.Levels(), buf, id, sak, LevelScript(t, level), stack);
      Says(t, Ready(level), s.sent + more, LevelScript(t, level))
    decreases t.Levels() - level
  {
    hide BitsOf, AnticollisionBit, CheckByte, React, Says, Xor4, SelCode, WithCrc, SelectFrom,
      SelectAnswered, Overwrite, Heard, Cascades, UidSize, Before, QueryBuffer, LevelScript;
    ScriptOfLevel(t, level);
    var size, script := t.Levels(), LevelScript(t, level);
    var f := QueryBuffer(buf, level)[..if level == 0 then 2 else 7];
    ThenSelect(t, level, buf, id, sak, script, stack);
    QueryAnswered(t, level, buf, script[0]);
    QueryStarts(buf, level);
    var d := Overwrite(QueryBuffer(buf, level), 2, Heard(script[0], 5))[1 := SELECT];
    CanBeSelected(t, level, d, id, sak, stack, more);
    SaysLevel(t, level, f, SelectAnswered(level, size, d, id, sak, script[1..], stack), more, script);
  }

  lemma QueryStarts(buf: seq<Byte>, level: nat)
    requires |buf| == 8
    ensures var b := QueryBuffer(buf, level); b[0] == SelCode(level) && b[1] == QUERY
  {
  }

  /** Both commands of a level, and what is said after them. */
  lemma SaysLevel(t: Tag, level: nat, f: seq<Byte>, after: Selection, more: seq<Request>, script: seq<Answer>)
    requires t.Conforming() && level < t.Levels()
    requires 2 <= |f| && f[0] == SelCode(level) && f[1] == QUERY
    requires |script| >= 2 && script[0] == Frame(t.Checked(level))
    requires script[1] == Frame(WithCrc([if level + 1 == t.Levels() then t.sak else t.partial]))
    requires Says(t, if level + 1 == t.Levels() then Active else Ready(level + 1), after.sent + more,
                  script[1..][1..])
    ensures var select := Full(WithCrc([SelCode(level), SELECT] + t.Checked(level)));
      Says(t, Ready(level), Before(Full(f), Before(select, after)).sent + more, script)
  {
    hide BitsOf, AnticollisionBit, CheckByte, React, Says, SelCode, WithCrc, Before;
    var select := Full(WithCrc([SelCode(level), SELECT] + t.Checked(level)));
    ReactToQuery(t, level, f);
    ReactToSelect(t, level);
    TwoSent(Full(f), select, after, more);
    var rest := [select] + (after.sent + more);
    SaysMore(t, Ready(level), select, after.sent + more, rest, script[1..]);
    SaysMore(t, Ready(level), Full(f), rest, Before(Full(f), Before(select, after)).sent + more, script);
  }

  lemma {:induction false} CanBeSelected(t: Tag, level: nat, d: seq<Byte>, id: seq<Byte>, sak: Byte,
                                         stack: seq<seq<Byte>>, more: seq<Request>)
    requires t.Conforming() && level < t.Levels() && |d| == 8
    requires |stack| == 3 && forall i :: 0 <= i < 3 ==> |stack[i]| == 3
    requires id == t.uid[..3 * level] && d[2..7] == t.Checked(level)
    requires Says(t, Active, more, LevelScript(t, t.Levels()))
    ensures var script := LevelScript(t, level)[1..];
      var after := SelectAnswered(level, t.Levels(), d, id, sak, script, stack);
      Says(t, if level + 1 == t.Levels() then Active else Ready(level + 1), after.sent + more, script[1..])
    decreases t.Levels() - level, 0
  {
    hide BitsOf, AnticollisionBit, CheckByte, React, Says, Xor4, SelCode, WithCrc, SelectFrom, JudgeSak, Cascades;
    var size, script := t.Levels(), LevelScript(t, level)[1..];
    SakAnswered(t, level, d[2..7], stack[level], id, script[0]);
    var judged := JudgeSak(d[2..7], Overwrite(stack[level], 0, Heard(script[0], 3)));
    var id', sak' := id + judged.bytes, if judged.Final? then judged.sak else sak;
    assert script[1..] == LevelScript(t, level + 1);
    if level + 1 == size {
      SelectEnds(size, d, id', sak', script[1..], stack);
      assert [] + more == more;
    } else {
      CanSelect(t, level + 1, d, id', sak', stack, more);
    }
  }

  lemma SelectEnds(size: nat, buf: seq<Byte>, id: seq<Byte>, sak: Byte, script: seq<Answer>,
                   stack: seq<seq<Byte>>)
    requires size <= 3 && |buf| == 8
    requires |stack| == 3 && forall i :: 0 <= i < 3 ==> |stack[i]| == 3
    ensures SelectFrom(size, size, buf, id, sak, script, stack) == Selection(true, id, sak, [], script)
  {
  }

  /** Run against a conforming card, activation succeeds and reads its UID. */
  lemma ActivationSucceeds(t: Tag, p: Profile, fsdi: nat, buf: seq<Byte>, stack: seq<seq<Byte>>)
    requires t.Conforming() && |p.ats| == 7 && fsdi <= 8 && |buf| == 8
    requires |stack| == 3 && forall i :: 0 <= i < 3 ==> |stack[i]| == 3
    ensures var r := Activate(p, fsdi, TagScript(t), buf, stack);
      && Says(t, Idle, r.sent, TagScript(t))
      && r.ret == 0 && r.profile.id == t.uid && r.profile.sak == t.sak
  {
    hide React, Says, SelectFrom, WithCrc, BitsOf, CheckByte, AnticollisionBit, UidSize, Cascades, SupportsTcl;
    TagRead(t);
    var script, b := TagScript(t), Overwrite(buf, 0, t.atqa);
    assert script[1..] == LevelScript(t, 0);
    assert Heard(script[0], 8) == t.atqa && b[..2] == t.atqa;
    var more := if SupportsTcl(t.sak) then [RatsFrame(fsdi)] else [];
    RatsSaid(t, fsdi);
    CanSelect(t, 0, b, [], p.sak, stack, more);
    SelectReadsUid(t, 0, b, [], p.sak, script[1..], stack, more);
    WakesUp(t);
    var r := Activate(p, fsdi, script, buf, stack);
    var s := SelectFrom(0, t.Levels(), b, [], p.sak, script[1..], stack);
    assert r.sent == [Short(WUPA)] + (s.sent + more);
    SaysMore(t, Idle, Short(WUPA), s.sent + more, r.sent, script);
    UidRoundTrip(t, p, fsdi, script, buf, stack);
  }

  lemma RatsSaid(t: Tag, fsdi: nat)
    requires t.Conforming() && fsdi <= 8
    ensures Says(t, Active, [], LevelScript(t, t.Levels()))
    ensures SupportsTcl(t.sak) ==> Says(t, Active, [RatsFrame(fsdi)], LevelScript(t, t.Levels()))
  {
    if SupportsTcl(t.sak) {
      ReactToRats(t, fsdi);
    }
  }

  // ----- The answer to select -----------------------------------------------------------

  /** The format byte T0: the card's FSCI, plus 16, 32 and 64 for the interface bytes TA(1), TB(1)
      and TC(1) that are there. */
  function FormatNumber(fsci: nat, ta: bool, tb: bool, tc: bool): nat {
    fsci + (if ta then 16 else 0) + (if tb then 32 else 0) + (if tc then 64 else 0)
  }

  /** An ATS: its length byte, the format byte, the interface bytes (each present or absent) and
      historical bytes. */
  function AtsOf(length: Byte, fsci: nat, ta: seq<Byte>, tb: seq<Byte>, tc: seq<Byte>,
                 history: seq<Byte>): seq<Byte>
  {
    [length, OfNat(FormatNumber(fsci, ta != [], tb != [], tc != []))] + ta + tb + tc + history
  }

  lemma FormatByte(fsci: nat, ta: bool, tb: bool, tc: bool)
    requires fsci < 16
    ensures var t0 := OfNat(FormatNumber(fsci, ta, tb, tc));
      LowNibble(t0) == fsci && (t0 & 0x10 != 0) == ta && (t0 & 0x20 != 0) == tb
  {
    hide OfBits, BitsOf, CheckByte, AnticollisionBit, Digits, ValueOf, LowNibble, HighNibble;
    var n := FormatNumber(fsci, ta, tb, tc);
    var t0 := OfNat(n);
    ByteRoundTrip(n);
    Nibbles(t0);
    BitsRoundTrip(Digits(n, 8));
    DigitsAt(n);
    FlagBits(t0);
  }

  lemma FlagBits(b: Byte)
    ensures BitsOf(b)[4] == (b & 0x10 != 0) && BitsOf(b)[5] == (b & 0x20 != 0)
  {
  }

  lemma DigitsAt(n: nat)
    ensures Digits(n, 8)[4] == (n / 16 % 2 == 1) && Digits(n, 8)[5] == (n / 32 % 2 == 1)
  {
    var d1 := Digits(n / 2, 7);
    var d2 := Digits(n / 4, 6);
    var d3 := Digits(n / 8, 5);
    var d4 := Digits(n / 16, 4);
    var d5 := Digits(n / 32, 3);
    assert n / 2 / 2 == n / 4 && n / 4 / 2 == n / 8 && n / 8 / 2 == n / 16 && n / 16 / 2 == n / 32;
    assert d4[1..] == d5 && d3[1..] == d4 && d2[1..] == d3 && d1[1..] == d2 && Digits(n, 8)[1..] == d1;
  }

  /** The driver reads the card's frame size and waiting time off every such ATS, wherever the
      optional bytes put TB(1), whose high half is the FWI. */
  lemma AtsDecoded(p: Profile, length: Byte, fsci: nat, ta: seq<Byte>, tb: seq<Byte>, tc: seq<Byte>,
                   history: seq<Byte>)
    requires |p.ats| == 7 && length > 1 && fsci < 16
    requires |ta| <= 1 && |tb| <= 1 && |tc| <= 1
    ensures var ats := AtsOf(length, fsci, ta, tb, tc, history);
      var q := FromAts(p.(ats := Overwrite(p.ats, 0, Take(WithCrc(ats), 7))));
      && q.fsc == SizeOfCode(fsci)
      && q.fwt == TimeOfCode(if tb != [] then ValueOf(tb[0]) / 16 else 8)
  {
    hide OfNat, ValueOf, SizeOfCode, TimeOfCode, LowNibble, HighNibble, FormatNumber, Overwrite, Take, WithCrc;
    var ats := AtsOf(length, fsci, ta, tb, tc, history);
    AtsHeard(p.ats, ats);
    FormatByte(fsci, ta != [], tb != [], tc != []);
    if tb != [] {
      Nibbles(tb[0]);
      assert ats[2 + |ta|] == tb[0];
    }
  }

  lemma AtsHeard(memory: seq<Byte>, ats: seq<Byte>)
    requires |memory| == 7
    ensures var a := Overwrite(memory, 0, Take(WithCrc(ats), 7));
      |a| == 7 && forall k :: 0 <= k < |ats| && k < 7 ==> a[k] == ats[k]
  {
    hide Crc;
  }

  // ----- A UID without room -------------------------------------------------------------

  /** One level of a card whose UID bytes are zero and whose SAK closes the UID. */
  const ZERO_UID := Frame([0, 0, 0, 0, 0])

  const CLOSING_SAK := Frame(WithCrc([0]))

  lemma SelectionDone(buf: seq<Byte>, id: seq<Byte>, sak: Byte, script: seq<Answer>, stack: seq<seq<Byte>>)
    requires |buf| == 8 && |stack| == 3 && forall i :: 0 <= i < 3 ==> |stack[i]| == 3
    ensures SelectFrom(3, 3, buf, id, sak, script, stack) == Selection(true, id, sak, [], script)
  {
  }

  lemma ZeroUidTaken(level: nat, buf: seq<Byte>, id: seq<Byte>, sak: Byte, script: seq<Answer>,
                     stack: seq<seq<Byte>>)
    requires level < 3 && |buf| == 8 && script != [] && script[0] == ZERO_UID
    requires |stack| == 3 && forall i :: 0 <= i < 3 ==> |stack[i]| == 3
    ensures var d := Overwrite(QueryBuffer(buf, level), 2, [0, 0, 0, 0, 0])[1 := SELECT];
      var s := SelectFrom(level, 3, buf, id, sak, script, stack);
      d[2..7] == [0, 0, 0, 0, 0]
      && s == SelectAnswered(level, 3, d, id, sak, script[1..], stack).(sent := s.sent)
  {
    hide SelectAnswered, WithCrc, SelCode;
    var c := Overwrite(QueryBuffer(buf, level), 2, [0, 0, 0, 0, 0]);
    assert Heard(ZERO_UID, 5) == [0, 0, 0, 0, 0];
    assert c[2..7] == [0, 0, 0, 0, 0];
    assert c[2..6] == c[2..7][..4] && c[6] == c[2..7][4];
  }

  lemma ClosingSakTaken(level: nat, d: seq<Byte>, id: seq<Byte>, sak: Byte, script: seq<Answer>,
                        stack: seq<seq<Byte>>)
    requires level < 3 && |d| == 8 && d[2..7] == [0, 0, 0, 0, 0] && script != [] && script[0] == CLOSING_SAK
    requires |stack| == 3 && forall i :: 0 <= i < 3 ==> |stack[i]| == 3
    ensures SelectAnswered(level, 3, d, id, sak, script, stack)
      == SelectFrom(level + 1, 3, d, id + [0, 0, 0, 0], 0, script[1..], stack)
  {
    hide SelectFrom, JudgeSak, WithCrc;
    assert Overwrite(stack[level], 0, Heard(CLOSING_SAK, 3)) == WithCrc([0]);
    GoodSakJudged(d[2..7], 0);
    assert d[2..7][..4] == [0, 0, 0, 0];
  }

  lemma TwelveBytes(b: seq<Byte>, sak: Byte, script: seq<Answer>, stack: seq<seq<Byte>>)
    requires |b| == 8 && |stack| == 3 && forall i :: 0 <= i < 3 ==> |stack[i]| == 3
    requires script == [ZERO_UID, CLOSING_SAK, ZERO_UID, CLOSING_SAK, ZERO_UID, CLOSING_SAK]
    ensures var s := SelectFrom(0, 3, b, [], sak, script, stack);
      s.ok && |s.id| == 12 && s.sak == 0
  {
    hide SelectFrom, SelectAnswered, Overwrite;
    var four := [0, 0, 0, 0];
    var d := Overwrite(QueryBuffer(b, 0), 2, [0, 0, 0, 0, 0])[1 := SELECT];
    ZeroUidTaken(0, b, [], sak, script, stack);
    ClosingSakTaken(0, d, [], sak, script[1..], stack);
    var e := Overwrite(QueryBuffer(d, 1), 2, [0, 0, 0, 0, 0])[1 := SELECT];
    ZeroUidTaken(1, d, [] + four, 0, script[2..], stack);
    ClosingSakTaken(1, e, [] + four, 0, script[3..], stack);
    var f := Overwrite(QueryBuffer(e, 2), 2, [0, 0, 0, 0, 0])[1 := SELECT];
    ZeroUidTaken(2, e, [] + four + four, 0, script[4..], stack);
    ClosingSakTaken(2, f, [] + four + four, 0, script[5..], stack);
    SelectionDone(f, [] + four + four + four, 0, script[6..], stack);
  }

  /** A card that announces three levels and sets no cascade bit: activation succeeds with twelve
      bytes of UID, two more than there is room for. */
  lemma IdOverflows(p: Profile, fsdi: nat, buf: seq<Byte>, stack: seq<seq<Byte>>)
    requires |p.ats| == 7 && fsdi <= 8 && |buf| == 8
    requires |stack| == 3 && forall i :: 0 <= i < 3 ==> |stack[i]| == 3
    ensures var script := [Frame([0x81, 0]), ZERO_UID, CLOSING_SAK, ZERO_UID, CLOSING_SAK,
                           ZERO_UID, CLOSING_SAK];
      var r := Activate(p, fsdi, script, buf, stack);
      r.ret == 0 && |r.profile.id| == 12
  {
    hide SelectFrom, SelectAnswered;
    var script := [Frame([0x81, 0]), ZERO_UID, CLOSING_SAK, ZERO_UID, CLOSING_SAK, ZERO_UID, CLOSING_SAK];
    var b := Overwrite(buf, 0, [0x81, 0]);
    assert Heard(script[0], 8) == [0x81, 0] && b[0] == 0x81;
    TwelveBytes(b, p.sak, script[1..], stack);
  }
}
