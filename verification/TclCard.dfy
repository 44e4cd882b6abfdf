/**
 * A conforming card: the rules of sections 7.5.2 to 7.5.4 of ISO/IEC 14443-4 that bind the
 * PICC (2, 3, 9 to 13, C, D and E). What it replies, how it cuts its replies and when it asks
 * for more time are plans fixed in advance; as the plans are arbitrary, so is its behaviour.
 */
module TclCard {
  import opened Bytes
  import opened Blocks
  import opened CrcA
  import opened Link

  /** A block held back until an S(WTX) request, with this byte in it, has been answered. */
  datatype Due = Nothing | After(block: seq<Byte>, power: Byte)

  /** `number` is the current block number, `part` the request assembled so far, `got` the
      requests completed, `out` the pieces of the reply still to be sent, `last` the last block
      sent. `waits[0]` lists the S(WTX) requests to come before the next block, `replies[0]` the
      pieces of the next reply. */
  datatype Picc = Picc(number: bool, part: seq<Byte>, got: seq<seq<Byte>>, out: seq<seq<Byte>>,
                       last: seq<Byte>, due: Due,
                       waits: seq<seq<Byte>>, replies: seq<seq<seq<Byte>>>)

  datatype Turn = Speak(card: Picc, block: seq<Byte>) | Mute(card: Picc)

  /** A card that has just been activated: rule C sets its block number to 1. */
  function FreshCard(waits: seq<seq<Byte>>, replies: seq<seq<seq<Byte>>>): Picc {
    Picc(true, [], [], [], [], Nothing, waits, replies)
  }

  /** The pieces of the next reply; a reply has at least one, possibly empty, piece. */
  function NextReply(c: Picc): (reply: seq<seq<Byte>>)
    ensures |reply| > 0
  {
    if c.replies == [] || c.replies[0] == [] then [[]] else c.replies[0]
  }

  function LaterReplies(c: Picc): seq<seq<seq<Byte>>> {
    if c.replies == [] then [] else c.replies[1..]
  }

  /** Sends a block, or asks for more time first (rule 9). */
  function Say(c: Picc, block: seq<Byte>): Turn {
    if c.waits != [] && c.waits[0] != [] then
      var power := c.waits[0][0];
      Speak(c.(due := After(block, power), waits := [c.waits[0][1..]] + c.waits[1..]), [WTX, power])
    else
      Speak(c.(due := Nothing, last := block, waits := if c.waits == [] then [] else c.waits[1..]),
            block)
  }

  /** Sends the next piece of the reply under a new block number. */
  function SayPiece(c: Picc, pieces: seq<seq<Byte>>): Turn
    requires pieces != []
  {
    var next := c.(number := !c.number, out := pieces[1..]);
    Say(next, [IHeader(|pieces| > 1, next.number)] + pieces[0])
  }

  /** An undamaged block. */
  function Hear(c: Picc, f: seq<Byte>): Turn
    requires f != []
  {
    if c.due.After? then
      // Rules 3 and 9: the response repeats the multiplier, without the power level bits.
      if f == [WTX, c.due.power & 0x3F] then Say(c, c.due.block) else Mute(c)
    else if IsIBlock(f[0]) && !HasCid(f[0]) && !HasNad(f[0]) then
      if IsChained(f[0]) then
        // Rules D and 2.
        var next := c.(number := !c.number, part := c.part + f[1..]);
        Say(next, [AckHeader(next.number)])
      else
        // Rules D and 10.
        SayPiece(c.(part := [], got := c.got + [c.part + f[1..]], replies := LaterReplies(c)),
                 NextReply(c))
    else if IsRBlock(f[0]) && |f| == 1 then
      // Rules 11, E, 12 and 13.
      if Toggle(f[0]) == c.number then Speak(c, c.last)
      else if !IsAck(f[0]) then Speak(c, [AckHeader(c.number)])
      else if c.out != [] then SayPiece(c, c.out)
      else Mute(c)
    else Mute(c)
  }

  /** A frame from the air: damaged ones are ignored. */
  function HearFrame(c: Picc, frame: seq<Byte>): Turn {
    if |frame| < 3 || Crc(frame) != ZERO then Mute(c) else Hear(c, frame[..|frame| - 2])
  }

  /** What the reader's device makes of the card's turn, on a link that loses nothing. */
  function AnswerOf(t: Turn): Answer {
    match t
    case Speak(_, block) => Frame(WithCrc(block))
    case Mute(_) => SILENCE
  }

  lemma HearIntactFrame(c: Picc, block: seq<Byte>)
    requires block != []
    ensures HearFrame(c, WithCrc(block)) == Hear(c, block)
  {
    FrameResidue(block, 0, 0);
    assert WithCrc(block)[..|block|] == block;
  }
}
