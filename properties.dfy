/** Properties of whole retrievals: direct and INCR transfers, the single
    target fallback, and what ends up on stdout. */
module DriverProperties {
  import opened Wire
  import opened Native
  import opened Transfer
  import opened Format
  import opened Driver

  // ---------------------------------------------------------------------
  // Waiting for the owner's answer

  /** While the conversion is pending, events other than SelectionNotify
      are consumed without effect. */
  lemma {:induction false} SkipUntilAnswer(sel: Atom, target: Atom, s: State, inputs: seq<Input>, k: nat)
    requires s.context == SentConvSel && k <= |inputs|
    requires forall j :: 0 <= j < k ==> !inputs[j].evt.SelectionNotify?
    ensures Drive(sel, target, s, inputs) == Drive(sel, target, s, inputs[k..])
    decreases |inputs|
  {
    if k > 0 {
      DriveStep(sel, target, s, inputs, inputs[0], inputs[1..]);
      assert Drive(sel, target, s, inputs) == Then([], Drive(sel, target, s, inputs[1..]));
      SkipUntilAnswer(sel, target, s, inputs[1..], k - 1);
      assert inputs[1..][k - 1..] == inputs[k..];
    }
  }

  /** The context after the conversion is requested. */
  const Awaiting: State := State(SentConvSel, [], NoneAtom)

  /** From idle the selection is requested and the answer is awaited. */
  lemma IdleStep(sel: Atom, target: Atom, inputs: seq<Input>)
    ensures Drive(sel, target, Idle, inputs) ==
      Then([ConvertSelection(sel, target, ClipOutAtom)], Drive(sel, target, Awaiting, inputs))
  {
    DriveStep(sel, target, Idle, inputs, Unread, inputs);
  }

  /** A direct transfer from idle: one conversion request, the answer at
      index k, a buffer of exactly `items * MachItemSize(format)` bytes of
      the full read, and nothing after the answer is consumed. */
  lemma DirectTransfer(sel: Atom, target: Atom, inputs: seq<Input>, k: nat)
    requires k < |inputs| && inputs[k].evt == SelectionNotify(false) && inputs[k].probe.actualType != IncrAtom
    requires forall j :: 0 <= j < k ==> !inputs[j].evt.SelectionNotify?
    ensures var full := inputs[k].full;
      var r := Drive(sel, target, Idle, inputs);
      r == Run(Done(State(XcoutNone, Payload(full), full.actualType), target, inputs[k + 1..]),
               [ConvertSelection(sel, target, ClipOutAtom), DeleteProperty(ClipOutAtom)]) &&
      |r.end.state.txt| == full.items * MachItemSize(full.format)
  {
    var s := State(SentConvSel, [], NoneAtom);
    DriveStep(sel, target, Idle, inputs, Unread, inputs);
    SkipUntilAnswer(sel, target, s, inputs, k);
    var tail := inputs[k..];
    DriveStep(sel, target, s, tail, tail[0], tail[1..]);
    assert tail[1..] == inputs[k + 1..];
  }

  // ---------------------------------------------------------------------
  // INCR transfers

  predicate NewValue(i: Input)
  {
    i.evt == PropertyNotify(true)
  }

  /** A new property value whose probe reports no bytes: the end of INCR. */
  predicate IsTerminator(i: Input)
  {
    NewValue(i) && i.probe.bytesAfter == 0
  }

  predicate IsChunk(i: Input)
  {
    NewValue(i) && i.probe.bytesAfter != 0
  }

  /** The bytes the chunks among `inputs` carry, in order. */
  function Chunks(inputs: seq<Input>): (bytes: seq<byte>)
  {
    if inputs == [] then []
    else (if IsChunk(inputs[0]) then Payload(inputs[0].full) else []) + Chunks(inputs[1..])
  }

  /** The sum of the chunk sizes `items * MachItemSize(format)`. */
  function ChunkSizes(inputs: seq<Input>): (n: nat)
  {
    if inputs == [] then 0
    else (if IsChunk(inputs[0]) then PayloadLength(inputs[0].full) else 0) + ChunkSizes(inputs[1..])
  }

  /** The requests that acknowledge the chunks: each is deleted, then flushed. */
  function ChunkAcks(inputs: seq<Input>): (acks: seq<Request>)
  {
    if inputs == [] then []
    else (if IsChunk(inputs[0]) then [DeleteProperty(ClipOutAtom), Flush] else []) + ChunkAcks(inputs[1..])
  }

  lemma {:induction false} ChunksLength(inputs: seq<Input>)
    ensures |Chunks(inputs)| == ChunkSizes(inputs)
  {
    if inputs != [] {
      ChunksLength(inputs[1..]);
    }
  }

  /** The context an INCR transfer is in after consuming a non-terminating
      input: a chunk is appended and its type recorded, anything else is
      ignored. */
  function IncrAfter(s: State, i: Input): (s1: State)
  {
    if IsChunk(i) then s.(txt := s.txt + Payload(i.full), selType := i.full.actualType) else s
  }

  /** One turn of the event loop in an INCR context. */
  lemma IncrDriveStep(sel: Atom, target: Atom, s: State, inputs: seq<Input>)
    requires s.context == Incr && inputs != []
    ensures IsTerminator(inputs[0]) ==>
      Drive(sel, target, s, inputs) ==
      Run(Done(s.(context := XcoutNone, selType := inputs[0].probe.actualType), target, inputs[1..]),
          [DeleteProperty(ClipOutAtom)])
    ensures !IsTerminator(inputs[0]) ==>
      Drive(sel, target, s, inputs) ==
      Then(ChunkAcks(inputs[..1]), Drive(sel, target, IncrAfter(s, inputs[0]), inputs[1..]))
  {
    DriveStep(sel, target, s, inputs, inputs[0], inputs[1..]);
    assert ChunkAcks(inputs[..1]) == (if IsChunk(inputs[0]) then [DeleteProperty(ClipOutAtom), Flush] else []) by {
      assert inputs[..1][1..] == [];
    }
  }

  /** The result INCR reassembly promises for a terminator at index k. */
  function Assembled(target: Atom, s: State, inputs: seq<Input>, k: nat): (r: Run)
    requires k < |inputs|
  {
    Run(Done(State(XcoutNone, s.txt + Chunks(inputs[..k]), inputs[k].probe.actualType), target, inputs[k + 1..]),
        ChunkAcks(inputs[..k]) + [DeleteProperty(ClipOutAtom)])
  }

  /** A non-terminating input in front of a reassembly adds its chunk and
      its acknowledgement in front. */
  lemma AssembledCons(target: Atom, s: State, inputs: seq<Input>, k: nat)
    requires 0 < k < |inputs|
    ensures Assembled(target, s, inputs, k) ==
      Then(ChunkAcks(inputs[..1]), Assembled(target, IncrAfter(s, inputs[0]), inputs[1..], k - 1))
  {
    var pre, tail := inputs[..k], inputs[1..];
    assert pre[0] == inputs[0] && inputs[..1][1..] == [];
    assert pre[1..] == tail[..k - 1] && tail[k - 1 + 1..] == inputs[k + 1..];
    assert s.txt + Chunks(pre) == IncrAfter(s, inputs[0]).txt + Chunks(tail[..k - 1]);
    assert ChunkAcks(pre) == ChunkAcks(inputs[..1]) + ChunkAcks(tail[..k - 1]);
  }

  /** INCR reassembly: from an INCR context, the transfer ends exactly at
      the first terminator; the buffer is the old one followed by every
      chunk before it, the type is the one the terminator's probe reported,
      and no later event is consumed. */
  lemma {:induction false} IncrAssembly(sel: Atom, target: Atom, s: State, inputs: seq<Input>, k: nat)
    requires s.context == Incr
    requires k < |inputs| && IsTerminator(inputs[k])
    requires forall j :: 0 <= j < k ==> !IsTerminator(inputs[j])
    ensures Drive(sel, target, s, inputs) == Assembled(target, s, inputs, k)
    decreases |inputs|
  {
    IncrDriveStep(sel, target, s, inputs);
    if k == 0 {
      assert inputs[..0] == [];
    } else {
      IncrAssembly(sel, target, IncrAfter(s, inputs[0]), inputs[1..], k - 1);
      AssembledCons(target, s, inputs, k);
    }
  }

  /** Without a terminator the INCR transfer never completes: doOut stays
      blocked waiting for the next event. */
  lemma {:induction false} IncrWaitsForTerminator(sel: Atom, target: Atom, s: State, inputs: seq<Input>)
    requires s.context == Incr
    requires forall j :: 0 <= j < |inputs| ==> !IsTerminator(inputs[j])
    ensures Drive(sel, target, s, inputs).end == Blocked
    decreases |inputs|
  {
    if inputs != [] {
      DriveStep(sel, target, s, inputs, inputs[0], inputs[1..]);
      IncrWaitsForTerminator(sel, target, Next(s, sel, target, inputs[0]).state, inputs[1..]);
    }
  }

  /** An answer of type INCR moves the awaiting machine to INCR. */
  lemma IncrAnswerStep(sel: Atom, target: Atom, s: State, inputs: seq<Input>)
    requires s.context == SentConvSel && inputs != []
    requires inputs[0].evt == SelectionNotify(false) && inputs[0].probe.actualType == IncrAtom
    ensures Drive(sel, target, s, inputs) ==
      Then([DeleteProperty(ClipOutAtom), Flush], Drive(sel, target, s.(context := Incr, selType := IncrAtom), inputs[1..]))
  {
    DriveStep(sel, target, s, inputs, inputs[0], inputs[1..]);
  }

  /** From idle, an answer of type INCR at index a leaves the machine in an
      INCR context with nothing assembled, after requesting the conversion
      and deleting the property. */
  lemma IncrStart(sel: Atom, target: Atom, inputs: seq<Input>, a: nat)
    requires a < |inputs|
    requires inputs[a].evt == SelectionNotify(false) && inputs[a].probe.actualType == IncrAtom
    requires forall j :: 0 <= j < a ==> !inputs[j].evt.SelectionNotify?
    ensures Drive(sel, target, Idle, inputs) ==
      Then([ConvertSelection(sel, target, ClipOutAtom), DeleteProperty(ClipOutAtom), Flush],
           Drive(sel, target, State(Incr, [], IncrAtom), inputs[a + 1..]))
  {
    var tail := inputs[a..];
    var incr := Drive(sel, target, State(Incr, [], IncrAtom), inputs[a + 1..]);
    IdleStep(sel, target, inputs);
    assert Drive(sel, target, Awaiting, inputs) == Then([DeleteProperty(ClipOutAtom), Flush], incr) by {
      SkipUntilAnswer(sel, target, Awaiting, inputs, a);
      assert tail[0] == inputs[a] && tail[1..] == inputs[a + 1..];
      assert Awaiting.(context := Incr, selType := IncrAtom) == State(Incr, [], IncrAtom);
      IncrAnswerStep(sel, target, Awaiting, tail);
    }
    ThenThen([ConvertSelection(sel, target, ClipOutAtom)], [DeleteProperty(ClipOutAtom), Flush], incr);
    assert [ConvertSelection(sel, target, ClipOutAtom)] + [DeleteProperty(ClipOutAtom), Flush] ==
      [ConvertSelection(sel, target, ClipOutAtom), DeleteProperty(ClipOutAtom), Flush];
  }

  /** An INCR transfer from idle: the owner answers with type INCR at index
      a, then chunks follow until the terminator at index a + 1 + k. The
      final length is the sum of all chunk sizes before the terminator. */
  lemma IncrTransfer(sel: Atom, target: Atom, inputs: seq<Input>, a: nat, k: nat)
    requires a + 1 + k < |inputs|
    requires inputs[a].evt == SelectionNotify(false) && inputs[a].probe.actualType == IncrAtom
    requires forall j :: 0 <= j < a ==> !inputs[j].evt.SelectionNotify?
    requires IsTerminator(inputs[a + 1 + k])
    requires forall j :: a + 1 <= j < a + 1 + k ==> !IsTerminator(inputs[j])
    ensures var r := Drive(sel, target, Idle, inputs);
      r.end == Done(State(XcoutNone, Chunks(inputs[a + 1..a + 1 + k]), inputs[a + 1 + k].probe.actualType),
                    target, inputs[a + k + 2..]) &&
      |r.end.state.txt| == ChunkSizes(inputs[a + 1..a + 1 + k])
  {
    IncrStart(sel, target, inputs, a);
    IncrAssembly(sel, target, State(Incr, [], IncrAtom), inputs[a + 1..], k);
    AssembledFromIdle(target, inputs, a, k);
  }

  lemma AssembledFromIdle(target: Atom, inputs: seq<Input>, a: nat, k: nat)
    requires a + 1 + k < |inputs|
    ensures var e := Assembled(target, State(Incr, [], IncrAtom), inputs[a + 1..], k).end;
      e == Done(State(XcoutNone, Chunks(inputs[a + 1..a + 1 + k]), inputs[a + 1 + k].probe.actualType),
                target, inputs[a + k + 2..]) &&
      |e.state.txt| == ChunkSizes(inputs[a + 1..a + 1 + k])
  {
    var chunks := inputs[a + 1..];
    assert chunks[..k] == inputs[a + 1..a + 1 + k];
    assert chunks[k + 1..] == inputs[a + k + 2..];
    assert [] + Chunks(chunks[..k]) == Chunks(chunks[..k]);
    ChunksLength(chunks[..k]);
  }

  // ---------------------------------------------------------------------
  // The UTF8_STRING to STRING fallback

  /** With a target other than UTF8_STRING, a pending transfer never asks
      again: no conversion is requested, and the result names that target. */
  lemma {:induction false} NoRetry(sel: Atom, t: Atom, s: State, inputs: seq<Input>)
    requires t != Utf8StringAtom && s.context != XcoutNone
    ensures var r := Drive(sel, t, s, inputs);
      Targets(r.sent) == [] && (r.end.Done? || r.end.Declined? ==> r.end.target == t)
    decreases |inputs|
  {
    if inputs != [] {
      DriveStep(sel, t, s, inputs, inputs[0], inputs[1..]);
      var o := Next(s, sel, t, inputs[0]);
      if o.state.context != BadTarget && o.state.context != XcoutNone {
        NoRetry(sel, t, o.state, inputs[1..]);
        TargetsAppend(o.sent, Drive(sel, t, o.state, inputs[1..]).sent);
      }
    }
  }

  /** With UTF8_STRING pending, at most one retry happens, with STRING, and
      a failure is only ever reported for STRING. */
  lemma {:induction false} RetryOnce(sel: Atom, s: State, inputs: seq<Input>)
    requires s.context != XcoutNone
    ensures var r := Drive(sel, Utf8StringAtom, s, inputs);
      || (Targets(r.sent) == [] && !r.end.Declined? && (r.end.Done? ==> r.end.target == Utf8StringAtom))
      || (Targets(r.sent) == [StringAtom] && (r.end.Done? || r.end.Declined? ==> r.end.target == StringAtom))
    decreases |inputs|
  {
    if inputs != [] {
      DriveStep(sel, Utf8StringAtom, s, inputs, inputs[0], inputs[1..]);
      var o := Next(s, sel, Utf8StringAtom, inputs[0]);
      var rest := inputs[1..];
      if o.state.context == BadTarget {
        var s2 := o.state.(context := XcoutNone);
        DriveStep(sel, StringAtom, s2, rest, Unread, rest);
        var o2 := Next(s2, sel, StringAtom, Unread);
        var r3 := Drive(sel, StringAtom, o2.state, rest);
        NoRetry(sel, StringAtom, o2.state, rest);
        TargetsAppend(o2.sent, r3.sent);
        TargetsAppend(o.sent, o2.sent + r3.sent);
        assert Drive(sel, Utf8StringAtom, s, inputs) == Then(o.sent, Then(o2.sent, r3));
      } else if o.state.context != XcoutNone {
        RetryOnce(sel, o.state, rest);
        TargetsAppend(o.sent, Drive(sel, Utf8StringAtom, o.state, rest).sent);
      }
    }
  }

  /** doOut requests the selection with the initial target and, at most
      once and only when that was UTF8_STRING, again with STRING. A
      completed or failed retrieval names the last target requested, and a
      failure is never reported for UTF8_STRING. */
  lemma AtMostOneFallback(sel: Atom, t: Atom, inputs: seq<Input>)
    ensures var r := Drive(sel, t, Idle, inputs);
      var ts := Targets(r.sent);
      && (ts == [t] || (t == Utf8StringAtom && ts == [Utf8StringAtom, StringAtom]))
      && (r.end.Done? || r.end.Declined? ==> r.end.target == ts[|ts| - 1])
      && (r.end.Declined? ==> r.end.target != Utf8StringAtom)
  {
    DriveStep(sel, t, Idle, inputs, Unread, inputs);
    var o := Next(Idle, sel, t, Unread);
    var r1 := Drive(sel, t, o.state, inputs);
    if t == Utf8StringAtom {
      RetryOnce(sel, o.state, inputs);
    } else {
      NoRetry(sel, t, o.state, inputs);
    }
    TargetsAppend(o.sent, r1.sent);
  }

  /** The owner's first answer, at index k, declines the target. */
  ghost predicate FirstAnswerDeclines(inputs: seq<Input>, k: nat)
  {
    && k < |inputs| && inputs[k].evt == SelectionNotify(true)
    && forall j :: 0 <= j < k ==> !inputs[j].evt.SelectionNotify?
  }

  /** From idle a declined target sends only the conversion request and
      leaves the machine back in NONE, with the events after the decline
      still to come. */
  lemma DeclineStep(sel: Atom, t: Atom, inputs: seq<Input>, k: nat)
    requires FirstAnswerDeclines(inputs, k)
    ensures var o := Next(Awaiting, sel, t, inputs[k]);
      o.state == Awaiting.(context := BadTarget) && o.sent == [] &&
      Drive(sel, t, Idle, inputs) ==
        Then([ConvertSelection(sel, t, ClipOutAtom)], Drive(sel, t, Awaiting, inputs[k..]))
  {
    IdleStep(sel, t, inputs);
    SkipUntilAnswer(sel, t, Awaiting, inputs, k);
  }

  /** A declined UTF8_STRING is requested again as STRING, from idle, on
      the events after the decline. */
  lemma DeclineFallsBack(sel: Atom, inputs: seq<Input>, k: nat)
    requires FirstAnswerDeclines(inputs, k)
    ensures Drive(sel, Utf8StringAtom, Idle, inputs) ==
      Then([ConvertSelection(sel, Utf8StringAtom, ClipOutAtom)], Drive(sel, StringAtom, Idle, inputs[k + 1..]))
  {
    var tail := inputs[k..];
    var retry := Drive(sel, StringAtom, Idle, inputs[k + 1..]);
    DeclineStep(sel, Utf8StringAtom, inputs, k);
    assert Drive(sel, Utf8StringAtom, Awaiting, tail) == retry by {
      assert tail[0] == inputs[k] && tail[1..] == inputs[k + 1..];
      assert Awaiting.(context := BadTarget).(context := XcoutNone) == Idle;
      DriveStep(sel, Utf8StringAtom, Awaiting, tail, tail[0], tail[1..]);
      assert [] + retry.sent == retry.sent;
    }
  }

  /** Any other declined target ends the retrieval with that target
      reported unavailable, after one conversion request. */
  lemma DeclineFails(sel: Atom, t: Atom, inputs: seq<Input>, k: nat)
    requires t != Utf8StringAtom && FirstAnswerDeclines(inputs, k)
    ensures Drive(sel, t, Idle, inputs) == Run(Declined(t), [ConvertSelection(sel, t, ClipOutAtom)])
  {
    var tail := inputs[k..];
    DeclineStep(sel, t, inputs, k);
    assert Drive(sel, t, Awaiting, tail) == Run(Declined(t), []) by {
      assert tail[0] == inputs[k] && tail[1..] == inputs[k + 1..];
      DriveStep(sel, t, Awaiting, tail, tail[0], tail[1..]);
    }
    assert [ConvertSelection(sel, t, ClipOutAtom)] + [] == [ConvertSelection(sel, t, ClipOutAtom)];
  }

  /** UTF8_STRING declined, then STRING declined: doOut fails naming STRING,
      after requesting both targets. */
  lemma DoubleDecline(sel: Atom, frmnl: bool, cutBuffer: seq<byte>, inputs: seq<Input>, k: nat, m: nat)
    requires sel != StringAtom
    requires FirstAnswerDeclines(inputs, k) && FirstAnswerDeclines(inputs[k + 1..], m)
    ensures Retrieve(sel, Utf8StringAtom, frmnl, cutBuffer, inputs) == TargetUnavailable(StringAtom)
    ensures Targets(Drive(sel, Utf8StringAtom, Idle, inputs).sent) == [Utf8StringAtom, StringAtom]
  {
    DeclineFallsBack(sel, inputs, k);
    DeclineFails(sel, StringAtom, inputs[k + 1..], m);
    assert [ConvertSelection(sel, Utf8StringAtom, ClipOutAtom)] + [ConvertSelection(sel, StringAtom, ClipOutAtom)] ==
      [ConvertSelection(sel, Utf8StringAtom, ClipOutAtom), ConvertSelection(sel, StringAtom, ClipOutAtom)];
    TargetsAppend([ConvertSelection(sel, Utf8StringAtom, ClipOutAtom)], [ConvertSelection(sel, StringAtom, ClipOutAtom)]);
  }

  // ---------------------------------------------------------------------
  // Scenarios

  const Hello: seq<byte> := [104, 101, 108, 108, 111]  // "hello"
  const OkLine: seq<byte> := [111, 107, 10]            // "ok\n"

  /** A direct answer: the probe reports |data| bytes, the full read returns
      `items` items of type `t` in format `format`. */
  function Answer(t: Atom, format: int, items: nat, data: seq<byte>): (i: Input)
    requires |data| >= items * MachItemSize(format)
  {
    Input(SelectionNotify(false), PropertyReply(t, format, 0, |data|, []), PropertyReply(t, format, items, 0, data))
  }

  /** The owner's answer announcing an INCR transfer of at least 8 bytes. */
  const IncrAnswer: Input := Input(SelectionNotify(false), PropertyReply(IncrAtom, 32, 0, 8, []), NoReply)

  /** One INCR chunk of STRING bytes. */
  function Chunk(data: seq<byte>): (i: Input)
  {
    Input(PropertyNotify(true), PropertyReply(StringAtom, 8, 0, |data|, []), PropertyReply(StringAtom, 8, |data|, 0, data))
  }

  /** The zero-size chunk that ends an INCR transfer. */
  const Terminator: Input := Input(PropertyNotify(true), PropertyReply(StringAtom, 8, 0, 0, []), NoReply)

  /** A retrieval answered directly prints the answer's payload with the
      answer's type, whatever came before the answer or comes after it. */
  lemma DirectRetrieve(sel: Atom, target: Atom, frmnl: bool, cutBuffer: seq<byte>, inputs: seq<Input>, k: nat)
    requires sel != StringAtom
    requires k < |inputs| && inputs[k].evt == SelectionNotify(false) && inputs[k].probe.actualType != IncrAtom
    requires forall j :: 0 <= j < k ==> !inputs[j].evt.SelectionNotify?
    ensures Retrieve(sel, target, frmnl, cutBuffer, inputs) ==
      Emit(frmnl, inputs[k].full.actualType, Payload(inputs[k].full))
  {
    DirectTransfer(sel, target, inputs, k);
  }

  /** The owner answers directly with format 8, five items "hello": the
      output is "hello" followed by doOut's newline. */
  lemma HelloScenario()
    ensures Retrieve(PrimaryAtom, Utf8StringAtom, true, [], [Answer(Utf8StringAtom, 8, 5, Hello)])
      == Printed([RawBytes(Hello), Newline])
  {
    DirectRetrieve(PrimaryAtom, Utf8StringAtom, true, [], [Answer(Utf8StringAtom, 8, 5, Hello)], 0);
    assert Hello[..5] == Hello;
  }

  /** UTF8_STRING is declined, STRING is answered with "ok\n": the trailing
      newline is dropped and doOut adds its own. */
  lemma FallbackScenario()
    ensures var inputs := [Input(SelectionNotify(true), NoReply, NoReply), Answer(StringAtom, 8, 3, OkLine)];
      && Retrieve(PrimaryAtom, Utf8StringAtom, true, [], inputs) == Printed([RawBytes(OkLine[..2]), Newline])
      && Targets(Drive(PrimaryAtom, Utf8StringAtom, Idle, inputs).sent) == [Utf8StringAtom, StringAtom]
  {
    var inputs := [Input(SelectionNotify(true), NoReply, NoReply), Answer(StringAtom, 8, 3, OkLine)];
    var retry := Drive(PrimaryAtom, StringAtom, Idle, inputs[1..]);
    assert Drive(PrimaryAtom, Utf8StringAtom, Idle, inputs).end == retry.end by {
      IdleStep(PrimaryAtom, Utf8StringAtom, inputs);
      DriveStep(PrimaryAtom, Utf8StringAtom, Awaiting, inputs, inputs[0], inputs[1..]);
      assert Awaiting.(context := XcoutNone) == Idle;
    }
    assert retry.end == Done(State(XcoutNone, OkLine, StringAtom), StringAtom, []) by {
      DirectTransfer(PrimaryAtom, StringAtom, inputs[1..], 0);
      assert OkLine[..3] == OkLine;
    }
    assert Emit(true, StringAtom, OkLine) == Printed([RawBytes(OkLine[..2]), Newline]);
    AtMostOneFallback(PrimaryAtom, Utf8StringAtom, inputs);
  }

  /** INCR with chunks of 4, 4 and 0 bytes: 8 bytes are assembled, and the
      event after the terminator is left unread. */
  lemma IncrScenario(extra: Input)
    ensures var r := Drive(PrimaryAtom, StringAtom, Idle,
                           [IncrAnswer, Chunk([1, 2, 3, 4]), Chunk([5, 6, 7, 8]), Terminator, extra]);
      r.end.Done? && r.end.state.txt == [1, 2, 3, 4, 5, 6, 7, 8] && r.end.rest == [extra]
  {
    var c1, c2 := Chunk([1, 2, 3, 4]), Chunk([5, 6, 7, 8]);
    var inputs := [IncrAnswer, c1, c2, Terminator, extra];
    assert Chunks([c1, c2]) == [1, 2, 3, 4, 5, 6, 7, 8] by {
      assert Payload(c1.full) == [1, 2, 3, 4];
      assert Payload(c2.full) == [5, 6, 7, 8];
      assert [c1, c2][1..] == [c2];
      assert Chunks([c2]) == [5, 6, 7, 8] by {
        assert [c2][1..] == [];
      }
    }
    assert inputs[1..3] == [c1, c2];
    assert inputs[4..] == [extra];
    IncrTransfer(PrimaryAtom, StringAtom, inputs, 0, 2);
  }

  /** Two atoms, UTF8_STRING and STRING, as native unsigned longs. */
  const TwoAtoms: seq<byte> := [69, 0, 0, 0, 0, 0, 0, 0, 31, 0, 0, 0, 0, 0, 0, 0]

  lemma LowByteValue(x: byte)
    ensures Unsigned([x, 0, 0, 0, 0, 0, 0, 0]) == x as nat
  {
    var b: seq<byte> := [x, 0, 0, 0, 0, 0, 0, 0];
    assert Unsigned(b[8..]) == 0;
    assert Unsigned(b[7..]) == 0;
    assert Unsigned(b[6..]) == 0;
    assert Unsigned(b[5..]) == 0;
    assert Unsigned(b[4..]) == 0;
    assert Unsigned(b[3..]) == 0;
    assert Unsigned(b[2..]) == 0;
    assert Unsigned(b[1..]) == 0;
  }

  lemma TwoAtomsRender()
    ensures Render(AtomAtom, TwoAtoms) == [AtomLine(Utf8StringAtom), AtomLine(StringAtom)]
  {
    assert Item(TwoAtoms, AtomSize, 0) == [69, 0, 0, 0, 0, 0, 0, 0];
    assert Item(TwoAtoms, AtomSize, 1) == [31, 0, 0, 0, 0, 0, 0, 0];
    LowByteValue(69);
    LowByteValue(31);
  }

  lemma TwoAtomsEmit()
    ensures Emit(true, AtomAtom, TwoAtoms) == Printed([AtomLine(Utf8StringAtom), AtomLine(StringAtom), Newline])
  {
    assert TrimNewline(true, TwoAtoms) == TwoAtoms;
    TwoAtomsRender();
  }

  /** A list of two atoms prints one name per line, and doOut adds one more
      newline after the list. */
  lemma AtomListScenario(target: Atom)
    ensures Retrieve(PrimaryAtom, target, true, [], [Answer(AtomAtom, 32, 2, TwoAtoms)])
      == Printed([AtomLine(Utf8StringAtom), AtomLine(StringAtom), Newline])
  {
    var inputs := [Answer(AtomAtom, 32, 2, TwoAtoms)];
    DirectRetrieve(PrimaryAtom, target, true, [], inputs, 0);
    assert Payload(inputs[0].full) == TwoAtoms;
    TwoAtomsEmit();
  }

  /** One native long whose top byte is 0x0A. */
  const LongEndingInLineFeed: seq<byte> := [0, 0, 0, 0, 0, 0, 0, 10]

  lemma LongEndingInLineFeedValue()
    ensures DecodeLong(LongEndingInLineFeed) == 0x0A00_0000_0000_0000
  {
    var b := LongEndingInLineFeed;
    assert Unsigned(b[8..]) == 0;
    assert Unsigned(b[7..]) == 10;
    assert Unsigned(b[6..]) == 0xA00;
    assert Unsigned(b[5..]) == 0xA_0000;
    assert Unsigned(b[4..]) == 0xA00_0000;
    assert Unsigned(b[3..]) == 0xA_0000_0000;
    assert Unsigned(b[2..]) == 0xA00_0000_0000;
    assert Unsigned(b[1..]) == 0xA_0000_0000_0000;
  }

  /** With the trim enabled the long is cut to seven bytes, too short for
      an item; without it the long is printed. */
  lemma LongEndingInLineFeedEmits()
    ensures Emit(true, IntegerAtom, LongEndingInLineFeed) == Printed([Newline])
    ensures Emit(false, IntegerAtom, LongEndingInLineFeed) == Printed([IntegerLine(0x0A00_0000_0000_0000), Newline])
  {
    var b := LongEndingInLineFeed;
    assert Render(IntegerAtom, TrimNewline(true, b)) == [] by {
      assert |TrimNewline(true, b)| == 7;
    }
    assert Render(IntegerAtom, b) == [IntegerLine(0x0A00_0000_0000_0000)] by {
      assert Item(b, LongSize, 0) == b;
      LongEndingInLineFeedValue();
    }
  }

  /** The newline trim does not look at the type: an INTEGER answer sent
      as eight format-8 items whose last byte is a line feed loses its only
      long, and only doOut's newline is printed. (A format-32 item is never
      affected on this platform: its upper bytes are a sign extension.) */
  lemma TrimCutsIntegerItem(target: Atom)
    ensures Retrieve(PrimaryAtom, target, true, [], [Answer(IntegerAtom, 8, 8, LongEndingInLineFeed)])
      == Printed([Newline])
    ensures Retrieve(PrimaryAtom, target, false, [], [Answer(IntegerAtom, 8, 8, LongEndingInLineFeed)])
      == Printed([IntegerLine(0x0A00_0000_0000_0000), Newline])
  {
    assert LongEndingInLineFeed[..8 * MachItemSize(8)] == LongEndingInLineFeed;
    DirectRetrieve(PrimaryAtom, target, true, [], [Answer(IntegerAtom, 8, 8, LongEndingInLineFeed)], 0);
    DirectRetrieve(PrimaryAtom, target, false, [], [Answer(IntegerAtom, 8, 8, LongEndingInLineFeed)], 0);
    LongEndingInLineFeedEmits();
  }
}
