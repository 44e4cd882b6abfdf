/** The session states of the ISO/IEC 14443 driver (libs/nfc/iso14443.c) and the power events
    they go with, over any sequence of calls. */
module Lifecycle {
  import opened Link

  datatype State = PowerOff | Idle | Selected | Halted

  /** A call, with what the device and the activation of the card would answer if asked. */
  datatype Call = OpenCall(device: int, activation: int) | TransceiveCall | CloseCall

  datatype CallResult = CallResult(state: State, ret: int, events: seq<Event>)

  /** nfc_iso14443_open. */
  function AfterOpen(s: State, device: int, activation: int): CallResult {
    if s.PowerOff? && device != 0 then CallResult(s, device, [OpenFailed])
    else
      var powered := if s.PowerOff? then [Opened] else [];
      if s.Selected? then CallResult(s, 0, [])
      else if activation != 0 then CallResult(PowerOff, activation, powered + [Closed])
      else CallResult(Selected, 0, powered)
  }

  function After(s: State, call: Call): CallResult {
    match call
    case OpenCall(device, activation) => AfterOpen(s, device, activation)
    case TransceiveCall => CallResult(s, 0, [])
    case CloseCall => CallResult(PowerOff, 0, [Closed])
  }

  function EndState(s: State, calls: seq<Call>): State
    decreases |calls|
  {
    if calls == [] then s else EndState(After(s, calls[0]).state, calls[1..])
  }

  function PowerTrace(s: State, calls: seq<Call>): seq<Event>
    decreases |calls|
  {
    if calls == [] then [] else After(s, calls[0]).events + PowerTrace(After(s, calls[0]).state, calls[1..])
  }

  // ----- Properties ---------------------------------------------------------------------

  /** The states in which a caller can find the driver between two calls. */
  predicate Settled(s: State) { s.PowerOff? || s.Selected? }

  /** No sequence of calls leaves the driver half open. */
  lemma {:induction false} StaysSettled(s: State, calls: seq<Call>)
    requires Settled(s)
    ensures Settled(EndState(s, calls))
    decreases |calls|
  {
    if calls == [] {
    } else {
      StaysSettled(After(s, calls[0]).state, calls[1..]);
    }
  }

  /** An open leaves a card selected exactly when it returns 0, and the driver off otherwise; a
      second one does nothing, and one after a close does it all again. */
  lemma OpenSelects(s: State, device: int, activation: int, device': int, activation': int)
    requires Settled(s)
    ensures var o := AfterOpen(s, device, activation);
      && (o.ret == 0 <==> o.state.Selected?) && (o.ret != 0 <==> o.state.PowerOff?)
      && (o.ret == 0 ==> AfterOpen(o.state, device', activation') == CallResult(o.state, 0, []))
      && (s.PowerOff? && device != 0 ==> o.ret == device && o.events == [OpenFailed])
      && (s.PowerOff? && device == 0 && activation != 0 ==>
            o.ret == activation && o.events == [Opened, Closed])
      && (s.PowerOff? && device == 0 && activation == 0 ==> o.events == [Opened])
      && (device == 0 && activation == 0 ==>
            var closed := After(o.state, CloseCall);
            closed.ret == 0 && AfterOpen(closed.state, device, activation) == AfterOpen(PowerOff, 0, 0))
  {
  }

  /** No device is opened twice without being closed in between; `open` says whether it is. */
  predicate NeverOpenedTwice(open: bool, events: seq<Event>)
    decreases |events|
  {
    events == [] ||
    (match events[0]
     case Opened => !open && NeverOpenedTwice(true, events[1..])
     case OpenFailed => NeverOpenedTwice(open, events[1..])
     case Closed => NeverOpenedTwice(false, events[1..]))
  }

  /** Opens and closes strictly alternate. */
  predicate Alternates(open: bool, events: seq<Event>)
    decreases |events|
  {
    events == [] ||
    (match events[0]
     case Opened => !open && Alternates(true, events[1..])
     case OpenFailed => !open && Alternates(open, events[1..])
     case Closed => open && Alternates(false, events[1..]))
  }

  /** The caller closes only what a successful open has left open. */
  predicate ClosesWhatItOpened(s: State, calls: seq<Call>)
    decreases |calls|
  {
    calls == [] ||
    ((calls[0].CloseCall? ==> s.Selected?)
     && ClosesWhatItOpened(After(s, calls[0]).state, calls[1..]))
  }

  lemma {:induction false} DeviceNeverOpenedTwice(s: State, calls: seq<Call>)
    requires Settled(s)
    ensures NeverOpenedTwice(s.Selected?, PowerTrace(s, calls))
    decreases |calls|
  {
    if calls == [] {
    } else {
      var o := After(s, calls[0]);
      var rest := PowerTrace(o.state, calls[1..]);
      DeviceNeverOpenedTwice(o.state, calls[1..]);
      assert |o.events| > 0 ==> (o.events + rest)[1..] == o.events[1..] + rest;
      assert |o.events| > 1 ==> (o.events + rest)[1..][1..] == rest;
      assert |o.events| <= 1 ==> (o.events + rest)[|o.events|..] == rest;
    }
  }

  lemma CallAlternates(s: State, call: Call, rest: seq<Event>)
    requires Settled(s)
    ensures var o := After(s, call);
      && Settled(o.state)
      && (Alternates(s.Selected?, o.events + rest)
          <==> (call.CloseCall? ==> s.Selected?) && Alternates(o.state.Selected?, rest))
  {
    var o := After(s, call);
    assert |o.events| > 0 ==> (o.events + rest)[1..] == o.events[1..] + rest;
    assert |o.events| > 1 ==> (o.events + rest)[1..][1..] == rest;
    assert |o.events| <= 1 ==> (o.events + rest)[|o.events|..] == rest;
  }

  /** The device is opened and closed in strict alternation exactly when callers close only what
      they opened. */
  lemma {:induction false} AlternatesIffDisciplined(s: State, calls: seq<Call>)
    requires Settled(s)
    ensures Alternates(s.Selected?, PowerTrace(s, calls)) <==> ClosesWhatItOpened(s, calls)
    decreases |calls|
  {
    hide After, Settled;
    if calls == [] {
    } else {
      var o := After(s, calls[0]);
      CallAlternates(s, calls[0], PowerTrace(o.state, calls[1..]));
      AlternatesIffDisciplined(o.state, calls[1..]);
    }
  }
}
