/** xcout: the client side of one selection transfer, a four-state machine
    driven one event at a time. A direct transfer is a single property read;
    an INCR transfer (section 2.7.2 of the ICCCM, "INCR Properties") appends
    property chunks until a zero-size one arrives. */
module Transfer {
  import opened Wire

  datatype Context = XcoutNone | SentConvSel | Incr | BadTarget

  /** What one call observes: the event handed in, and the replies to the
      property reads it may make (a zero-length probe, then a full read).
      A call that makes fewer reads ignores the rest. */
  datatype Input = Input(evt: Event, probe: Reply, full: Reply)

  /** The transfer context, the assembled buffer (its length is the
      buffer length) and the type of the last property read. */
  datatype State = State(context: Context, txt: seq<byte>, selType: Atom)

  /** The state after a call, whether the call returned 1, and the
      requests it issued. */
  datatype StepResult = StepResult(state: State, complete: bool, sent: seq<Request>)

  /** One call of xcout on selection `sel` and target `target`. */
  function Next(s: State, sel: Atom, target: Atom, inp: Input): (r: StepResult)
    // 1 is returned exactly when a transfer in progress comes back to idle
    ensures r.complete <==> s.context != XcoutNone && r.state.context == XcoutNone
    // the selection is requested only from idle, and then with the current target
    ensures Targets(r.sent) == if s.context == XcoutNone then [target] else []
    // an INCR transfer only ever adds to the end of what it has assembled
    ensures s.context == Incr ==> s.txt <= r.state.txt
  {
    match s.context
    case XcoutNone =>
      StepResult(State(SentConvSel, [], s.selType), false, [ConvertSelection(sel, target, ClipOutAtom)])
    case SentConvSel =>
      if !inp.evt.SelectionNotify? then StepResult(s, false, [])
      else if inp.evt.propertyIsNone then StepResult(s.(context := BadTarget), false, [])
      else if inp.probe.actualType == IncrAtom then
        assert Targets([Flush]) == [];
        StepResult(s.(context := Incr, selType := inp.probe.actualType), false, [DeleteProperty(ClipOutAtom), Flush])
      else
        StepResult(State(XcoutNone, Payload(inp.full), inp.full.actualType), true, [DeleteProperty(ClipOutAtom)])
    case Incr =>
      if !inp.evt.PropertyNotify? || !inp.evt.isNewValue then StepResult(s, false, [])
      else if inp.probe.bytesAfter == 0 then
        StepResult(s.(context := XcoutNone, selType := inp.probe.actualType), true, [DeleteProperty(ClipOutAtom)])
      else
        assert Targets([Flush]) == [];
        StepResult(s.(txt := s.txt + Payload(inp.full), selType := inp.full.actualType), false,
                   [DeleteProperty(ClipOutAtom), Flush])
    case BadTarget =>
      StepResult(s, false, [])
  }

  /** Idle: whatever was assembled before is discarded, one conversion of
      `sel` to `target` into XCLIP_OUT is requested, and the machine waits. */
  lemma IdleRequestsConversion(s: State, sel: Atom, target: Atom, inp: Input)
    requires s.context == XcoutNone
    ensures var r := Next(s, sel, target, inp);
      r.state.context == SentConvSel && |r.state.txt| == 0 && !r.complete &&
      r.sent == [ConvertSelection(sel, target, ClipOutAtom)]
  {
  }

  /** Waiting for the answer: any other event changes nothing. */
  lemma AwaitIgnoresOtherEvents(s: State, sel: Atom, target: Atom, inp: Input)
    requires s.context == SentConvSel && !inp.evt.SelectionNotify?
    ensures Next(s, sel, target, inp) == StepResult(s, false, [])
  {
  }

  /** The owner declined the target: BadTarget, nothing assembled. */
  lemma DeclinedTargetIsBad(s: State, sel: Atom, target: Atom, inp: Input)
    requires s.context == SentConvSel && inp.evt == SelectionNotify(true)
    ensures var r := Next(s, sel, target, inp);
      r.state.context == BadTarget && r.state.txt == s.txt && !r.complete && r.sent == []
  {
  }

  /** A direct answer: the buffer is exactly `items * MachItemSize(format)`
      bytes of the full read, the property is deleted, and the call completes. */
  lemma DirectAnswerCompletes(s: State, sel: Atom, target: Atom, inp: Input)
    requires s.context == SentConvSel && inp.evt == SelectionNotify(false)
    requires inp.probe.actualType != IncrAtom
    ensures var r := Next(s, sel, target, inp);
      r.complete && r.state.context == XcoutNone &&
      |r.state.txt| == inp.full.items * MachItemSize(inp.full.format) &&
      r.state.txt == inp.full.data[..|r.state.txt|] &&
      r.state.selType == inp.full.actualType &&
      r.sent == [DeleteProperty(ClipOutAtom)]
  {
  }

  /** An INCR answer: the property is deleted to start the chunks, and no
      buffer is made. */
  lemma IncrAnswerStartsTransfer(s: State, sel: Atom, target: Atom, inp: Input)
    requires s.context == SentConvSel && inp.evt == SelectionNotify(false)
    requires inp.probe.actualType == IncrAtom
    ensures var r := Next(s, sel, target, inp);
      !r.complete && r.state.context == Incr && r.state.txt == s.txt &&
      r.state.selType == IncrAtom && r.sent == [DeleteProperty(ClipOutAtom), Flush]
  {
  }

  /** During INCR, anything but a new value of a property changes nothing. */
  lemma IncrIgnoresOtherEvents(s: State, sel: Atom, target: Atom, inp: Input)
    requires s.context == Incr && inp.evt != PropertyNotify(true)
    ensures Next(s, sel, target, inp) == StepResult(s, false, [])
  {
  }

  /** A non-empty chunk lands at [old len, new len); the old prefix stays. */
  lemma IncrChunkAppends(s: State, sel: Atom, target: Atom, inp: Input)
    requires s.context == Incr && inp.evt == PropertyNotify(true) && inp.probe.bytesAfter != 0
    ensures var r := Next(s, sel, target, inp);
      var n := inp.full.items * MachItemSize(inp.full.format);
      !r.complete && r.state.context == Incr &&
      |r.state.txt| == |s.txt| + n &&
      r.state.txt[..|s.txt|] == s.txt &&
      r.state.txt[|s.txt|..] == inp.full.data[..n] &&
      r.state.selType == inp.full.actualType &&
      r.sent == [DeleteProperty(ClipOutAtom), Flush]
  {
  }

  /** A zero-size chunk ends the transfer; the buffer is untouched, and the
      type is that reported by the terminating probe. */
  lemma IncrTerminatorCompletes(s: State, sel: Atom, target: Atom, inp: Input)
    requires s.context == Incr && inp.evt == PropertyNotify(true) && inp.probe.bytesAfter == 0
    ensures var r := Next(s, sel, target, inp);
      r.complete && r.state.context == XcoutNone && r.state.txt == s.txt &&
      r.state.selType == inp.probe.actualType && r.sent == [DeleteProperty(ClipOutAtom)]
  {
  }

  /** xcout's persistent context as the caller holds it: the fields it
      updates through pointers, and the requests sent on the connection. */
  class Machine {
    var context: Context
    var txt: seq<byte>
    var len: nat
    var selType: Atom
    var sent: seq<Request>

    ghost predicate Valid()
      reads this
    {
      len == |txt|
    }

    function Snapshot(): (s: State)
      reads this
    {
      State(context, txt, selType)
    }

    constructor ()
      ensures Valid() && Snapshot() == State(XcoutNone, [], NoneAtom) && sent == []
    {
      context := XcoutNone;
      txt := [];
      len := 0;
      selType := NoneAtom;
      sent := [];
    }

    method Xcout(evt: Event, sel: Atom, target: Atom, probe: Reply, full: Reply) returns (complete: bool)
      requires Valid()
      modifies this
      ensures Valid()
      ensures var r := Next(old(Snapshot()), sel, target, Input(evt, probe, full));
        Snapshot() == r.state && complete == r.complete && sent == old(sent) + r.sent
    {
      match context
      case XcoutNone =>
        if len > 0 {
          txt := [];
          len := 0;
        }
        sent := sent + [ConvertSelection(sel, target, ClipOutAtom)];
        context := SentConvSel;
        return false;
      case SentConvSel =>
        if !evt.SelectionNotify? {
          return false;
        }
        if evt.propertyIsNone {
          context := BadTarget;
          return false;
        }
        selType := probe.actualType;
        if selType == IncrAtom {
          sent := sent + [DeleteProperty(ClipOutAtom), Flush];
          context := Incr;
          return false;
        }
        selType := full.actualType;
        sent := sent + [DeleteProperty(ClipOutAtom)];
        var machSize := full.items * MachItemSize(full.format);
        txt := full.data[..machSize];
        len := machSize;
        context := XcoutNone;
        return true;
      case Incr =>
        if !evt.PropertyNotify? {
          return false;
        }
        if !evt.isNewValue {
          return false;
        }
        selType := probe.actualType;
        if probe.bytesAfter == 0 {
          sent := sent + [DeleteProperty(ClipOutAtom)];
          context := XcoutNone;
          return true;
        }
        selType := full.actualType;
        var machSize := full.items * MachItemSize(full.format);
        if len == 0 {
          len := machSize;
          txt := full.data[..machSize];
        } else {
          len := len + machSize;
          txt := txt + full.data[..machSize];
        }
        sent := sent + [DeleteProperty(ClipOutAtom), Flush];
        return false;
      case BadTarget =>
        return false;
    }
  }
}
