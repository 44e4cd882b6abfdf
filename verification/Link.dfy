/**
 * The contactless device the protocol layers talk through (libs/nfc/include/nfc.h): one
 * request goes out, one answer or failure comes back. What comes back is fixed by a list of
 * answers given in advance; as the list is arbitrary, it covers every card and every fault.
 */
module Link {
  import opened Bytes

  type Negative = x: int | x < 0 witness -1

  const EIO: Negative := -5
  const ENODEV: Negative := -19
  const EPROTO: Negative := -71

  /** Bytes that arrived, then either the end of the frame or a failure. */
  datatype Answer = Frame(bytes: seq<Byte>) | Failure(code: Negative, bytes: seq<Byte>)

  /** What went out: seven bits, or whole bytes. */
  datatype Request = Short(command: Byte) | Full(frame: seq<Byte>)

  /** What a device says when no card speaks any more. */
  const SILENCE := Failure(-116, [])

  /** The bytes that reach a caller with `capacity` bytes of room. */
  function Heard(a: Answer, capacity: nat): (h: seq<Byte>)
    ensures |h| <= capacity
  {
    Take(a.bytes, capacity)
  }

  /** The device's return value: a count or a negative error. */
  function Returned(a: Answer, capacity: nat): int {
    match a
    case Frame(_) => |Heard(a, capacity)|
    case Failure(code, _) => code
  }

  function Next(script: seq<Answer>): Answer {
    if script == [] then SILENCE else script[0]
  }

  function Later(script: seq<Answer>): seq<Answer> {
    if script == [] then [] else script[1..]
  }

  function NextOpening(openings: seq<int>): int {
    if openings == [] then 0 else openings[0]
  }

  function LaterOpenings(openings: seq<int>): seq<int> {
    if openings == [] then [] else openings[1..]
  }

  /** Power events: a device was opened, refused to open, or was closed. */
  datatype Event = Opened | OpenFailed | Closed

  class Device {
    const frameSize: nat
    var script: seq<Answer>
    var sent: seq<Request>
    var openings: seq<int>
    var events: seq<Event>

    /** `openings` are the results of the calls to `Open`; further ones succeed. */
    constructor (frameSize: nat, answers: seq<Answer>, openings: seq<int>)
      ensures this.frameSize == frameSize && script == answers && this.openings == openings
      ensures sent == [] && events == []
    {
      this.frameSize, script, sent := frameSize, answers, [];
      this.openings, events := openings, [];
    }

    method Open() returns (ret: int)
      modifies this`openings, this`events
      ensures ret == NextOpening(old(openings))
      ensures openings == LaterOpenings(old(openings))
      ensures events == old(events) + [if ret == 0 then Opened else OpenFailed]
    {
      ret := NextOpening(openings);
      openings := LaterOpenings(openings);
      events := events + [if ret == 0 then Opened else OpenFailed];
    }

    method Close() returns (ret: int)
      modifies this`events
      ensures ret == 0 && events == old(events) + [Closed]
    {
      events := events + [Closed];
      ret := 0;
    }

    /** Sends a request and writes the answer to `rx` from `offset` on. */
    method Transceive(request: Request, rx: array<Byte>, offset: nat, capacity: nat) returns (n: int)
      requires offset + capacity <= rx.Length
      modifies this`sent, this`script, rx
      ensures sent == old(sent) + [request]
      ensures script == Later(old(script))
      ensures n == Returned(Next(old(script)), capacity)
      ensures rx[..] == Overwrite(old(rx[..]), offset, Heard(Next(old(script)), capacity))
    {
      var answer := Next(script);
      var heard := Heard(answer, capacity);
      script, sent := Later(script), sent + [request];
      n := Returned(answer, capacity);
      forall i | 0 <= i < |heard| {
        rx[offset + i] := heard[i];
      }
    }
  }
}
