/** doOut: the retrieval driver. It feeds events to xcout until a transfer
    completes, falls back once from UTF8_STRING to STRING when the owner
    declines, trims one trailing newline, and prints the buffer unless it
    is empty. */
module Driver {
  import opened Wire
  import opened Transfer
  import opened Format

  /** The context doOut starts from: idle, nothing assembled, type None. */
  const Idle: State := State(XcoutNone, [], NoneAtom)

  /** What xcout sees when called idle: no event is fetched then, and idle
      xcout reads neither the event nor any property. */
  const Unread: Input := Input(OtherEvent, NoReply, NoReply)

  /** How a run of the event loop ends: a completed transfer (with the
      target last asked for and the events not consumed), a target nobody
      converts, or waiting for an event that the inputs do not hold. */
  datatype End =
    | Done(state: State, target: Atom, rest: seq<Input>)
    | Declined(target: Atom)
    | Blocked

  datatype Run = Run(end: End, sent: seq<Request>)

  function Then(sent: seq<Request>, r: Run): (t: Run)
  {
    Run(r.end, sent + r.sent)
  }

  /** The event loop of doOut from context `s` with current target `target`;
      every call made with a non-idle context consumes one input. */
  function Drive(sel: Atom, target: Atom, s: State, inputs: seq<Input>): (r: Run)
    ensures r.end.Done? ==>
      r.end.state.context == XcoutNone && |r.end.rest| < |inputs| &&
      r.end.rest == inputs[|inputs| - |r.end.rest|..]
    ensures r.end.Declined? ==> r.end.target != Utf8StringAtom
    decreases |inputs|, if s.context == XcoutNone then 1 else 0
  {
    if s.context != XcoutNone && inputs == [] then Run(Blocked, [])
    else
      var idle := s.context == XcoutNone;
      var inp := if idle then Unread else inputs[0];
      var rest := if idle then inputs else inputs[1..];
      var o := Next(s, sel, target, inp);
      if o.state.context == BadTarget then
        if target == Utf8StringAtom then Then(o.sent, Drive(sel, StringAtom, o.state.(context := XcoutNone), rest))
        else Run(Declined(target), o.sent)
      else if o.state.context == XcoutNone then Run(Done(o.state, target, rest), o.sent)
      else Then(o.sent, Drive(sel, target, o.state, rest))
  }

  lemma ThenThen(a: seq<Request>, b: seq<Request>, r: Run)
    ensures Then(a, Then(b, r)) == Then(a + b, r)
  {
    assert a + (b + r.sent) == (a + b) + r.sent;
  }

  /** One turn of the event loop, read off the definition of Drive. */
  lemma DriveStep(sel: Atom, target: Atom, s: State, inputs: seq<Input>, inp: Input, rest: seq<Input>)
    requires s.context == XcoutNone ==> inp == Unread && rest == inputs
    requires s.context != XcoutNone ==> inputs != [] && inp == inputs[0] && rest == inputs[1..]
    ensures var o := Next(s, sel, target, inp);
      var d := Drive(sel, target, s, inputs);
      && (o.state.context == BadTarget && target == Utf8StringAtom ==>
            d == Then(o.sent, Drive(sel, StringAtom, o.state.(context := XcoutNone), rest)))
      && (o.state.context == BadTarget && target != Utf8StringAtom ==> d == Run(Declined(target), o.sent))
      && (o.state.context == XcoutNone ==> d == Run(Done(o.state, target, rest), o.sent))
      && (o.state.context != BadTarget && o.state.context != XcoutNone ==>
            d == Then(o.sent, Drive(sel, target, o.state, rest)))
  {
  }

  /** The trailing-newline policy: drop one final line feed when enabled. */
  function TrimNewline(frmnl: bool, buf: seq<byte>): (r: seq<byte>)
    ensures r <= buf && |buf| - 1 <= |r|
    ensures |r| < |buf| <==> frmnl && |buf| > 0 && buf[|buf| - 1] == LineFeed
  {
    if frmnl && |buf| > 0 && buf[|buf| - 1] == LineFeed then buf[..|buf| - 1] else buf
  }

  datatype Outcome =
    | Printed(output: seq<Token>)     // EXIT_SUCCESS, after writing `output`
    | TargetUnavailable(target: Atom) // EXIT_FAILURE, "target ... not available"
    | Waiting                         // still blocked in XNextEvent

  /** What doOut does with a finished buffer of type `selType`. */
  function Emit(frmnl: bool, selType: Atom, buf: seq<byte>): (o: Outcome)
    ensures o.Printed?
    ensures o.output == [] <==> TrimNewline(frmnl, buf) == []
    ensures o.output != [] ==>
      o.output[..|o.output| - 1] == Render(selType, TrimNewline(frmnl, buf)) &&
      o.output[|o.output| - 1] == Newline && Newline !in o.output[..|o.output| - 1]
  {
    var b := TrimNewline(frmnl, buf);
    if b == [] then Printed([]) else Printed(Render(selType, b) + [Newline])
  }

  /** doOut for selection `sseln` and initial target `target`. The cut
      buffer (selection STRING) is an opaque input. */
  function Retrieve(sseln: Atom, target: Atom, frmnl: bool, cutBuffer: seq<byte>, inputs: seq<Input>): (o: Outcome)
    // the cut buffer is always printed, and UTF8_STRING is never reported unavailable
    ensures sseln == StringAtom ==> o.Printed?
    ensures o.TargetUnavailable? ==> sseln != StringAtom && o.target != Utf8StringAtom
  {
    if sseln == StringAtom then Emit(frmnl, NoneAtom, cutBuffer)
    else
      match Drive(sseln, target, Idle, inputs).end
      case Done(st, _, _) => Emit(frmnl, st.selType, st.txt)
      case Declined(t) => TargetUnavailable(t)
      case Blocked => Waiting
  }

  /** The `while (1)` loop of doOut, on a fresh xcout context. */
  method EventLoop(sseln: Atom, target0: Atom, inputs: seq<Input>) returns (r: Run)
    ensures r == Drive(sseln, target0, Idle, inputs)
  {
    var m := new Machine();
    var target := target0;
    var i := 0;
    ghost var whole := Drive(sseln, target0, Idle, inputs);
    assert inputs[0..] == inputs;
    assert whole == Then(m.sent, Drive(sseln, target, m.Snapshot(), inputs[i..]));
    while true
      invariant m.Valid() && 0 <= i <= |inputs|
      invariant whole == Then(m.sent, Drive(sseln, target, m.Snapshot(), inputs[i..]))
      decreases |inputs| - i, if m.context == XcoutNone then 1 else 0
    {
      ghost var s0, i0, sent0 := m.Snapshot(), i, m.sent;
      var inp := Unread;
      if m.context != XcoutNone {
        if i == |inputs| {
          return Run(Blocked, m.sent);
        }
        inp := inputs[i];
        i := i + 1;
        assert inputs[i0..][1..] == inputs[i..];
      }
      ghost var before := inputs[i0..];
      var _ := m.Xcout(inp.evt, sseln, target, inp.probe, inp.full);
      ghost var o := Next(s0, sseln, target, inp);
      assert m.Snapshot() == o.state && m.sent == sent0 + o.sent;
      if m.context == BadTarget {
        if target == Utf8StringAtom {
          m.context := XcoutNone;
          target := StringAtom;
          assert whole == Then(m.sent, Drive(sseln, target, m.Snapshot(), inputs[i..])) by {
            DriveStep(sseln, Utf8StringAtom, s0, before, inp, inputs[i..]);
            ThenThen(sent0, o.sent, Drive(sseln, StringAtom, o.state.(context := XcoutNone), inputs[i..]));
          }
          continue;
        } else {
          assert whole == Run(Declined(target), m.sent) by {
            DriveStep(sseln, target, s0, before, inp, inputs[i..]);
          }
          return Run(Declined(target), m.sent);
        }
      }
      if m.context == XcoutNone {
        assert whole == Run(Done(m.Snapshot(), target, inputs[i..]), m.sent) by {
          DriveStep(sseln, target, s0, before, inp, inputs[i..]);
        }
        return Run(Done(m.Snapshot(), target, inputs[i..]), m.sent);
      }
      assert whole == Then(m.sent, Drive(sseln, target, m.Snapshot(), inputs[i..])) by {
        DriveStep(sseln, target, s0, before, inp, inputs[i..]);
        ThenThen(sent0, o.sent, Drive(sseln, target, o.state, inputs[i..]));
      }
    }
  }

  method DoOut(sseln: Atom, target0: Atom, frmnl: bool, cutBuffer: seq<byte>, inputs: seq<Input>)
    returns (outcome: Outcome, requests: seq<Request>)
    ensures outcome == Retrieve(sseln, target0, frmnl, cutBuffer, inputs)
    ensures requests == if sseln == StringAtom then [] else Drive(sseln, target0, Idle, inputs).sent
  {
    var selType := NoneAtom;
    var selBuf: seq<byte>;
    requests := [];
    if sseln == StringAtom {
      selBuf := cutBuffer;
    } else {
      var r := EventLoop(sseln, target0, inputs);
      requests := r.sent;
      match r.end
      case Declined(t) =>
        return TargetUnavailable(t), requests;
      case Blocked =>
        return Waiting, requests;
      case Done(st, _, _) =>
        selType, selBuf := st.selType, st.txt;
    }
    var selLen := |selBuf|;
    if frmnl && selLen > 0 && selBuf[selLen - 1] == LineFeed {
      selLen := selLen - 1;
    }
    assert selBuf[..selLen] == TrimNewline(frmnl, selBuf);
    outcome := Printed([]);
    if selLen > 0 {
      var out := PrintSelBuf(selType, selBuf[..selLen]);
      outcome := Printed(out + [Newline]);
    }
    assert outcome == Emit(frmnl, selType, selBuf);
  }
}
