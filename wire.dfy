/** What the selection-retrieval client exchanges with the X server: atoms,
    the events it waits for, the replies to its property reads, and the
    requests it issues. The server itself is not modelled; its answers are
    inputs and the client's requests are appended to a log. */
module Wire {

  newtype byte = x: int | 0 <= x < 256

  const LineFeed: byte := 10

  /** An X atom: a server-interned identifier (None is 0). */
  type Atom = nat

  // Atoms predefined by the X protocol.
  const NoneAtom: Atom := 0
  const PrimaryAtom: Atom := 1
  const AtomAtom: Atom := 4
  const IntegerAtom: Atom := 19
  const StringAtom: Atom := 31

  // Atoms interned once at run time. Their values are chosen by the server;
  // the model fixes them to distinct values above the last predefined atom (68).
  const Utf8StringAtom: Atom := 69
  /** "XCLIP_OUT", the property of our window the owner writes into. */
  const ClipOutAtom: Atom := 70
  /** "INCR", the type that announces an incremental transfer. */
  const IncrAtom: Atom := 71

  // Native C type widths on an LP64 platform.
  const ShortSize: nat := 2
  const LongSize: nat := 8
  /** An Atom is an unsigned long in Xlib. */
  const AtomSize: nat := LongSize

  /** The number of bytes Xlib uses in memory for one item of the given
      property format: format-32 items are delivered as native longs. */
  function MachItemSize(format: int): (n: nat)
    ensures format == 8 || format == 16 ==> 8 * n == format
    ensures format == 32 ==> n == LongSize && 8 * n >= format
    ensures format != 8 && format != 16 && format != 32 ==> n == 0
  {
    if format == 8 then 1
    else if format == 16 then ShortSize
    else if format == 32 then LongSize
    else 0
  }

  /** The events the client distinguishes. */
  datatype Event =
    | SelectionNotify(propertyIsNone: bool)
    | PropertyNotify(isNewValue: bool)
    | OtherEvent

  /** The out-parameters of one XGetWindowProperty call: the actual type, the
      format, the number of items returned, the number of bytes left after
      them, and the returned buffer. */
  datatype PropertyReply = PropertyReply(actualType: Atom, format: int, items: nat, bytesAfter: nat, data: seq<byte>)

  /** The payload size of a reply in bytes, as xcout computes it. */
  function PayloadLength(r: PropertyReply): (n: nat)
    ensures n == 0 <==> r.items == 0 || (r.format != 8 && r.format != 16 && r.format != 32)
  {
    r.items * MachItemSize(r.format)
  }

  /** Xlib's guarantee: the returned buffer holds `items` native-width items. */
  predicate Delivers(r: PropertyReply)
  {
    |r.data| >= PayloadLength(r)
  }

  type Reply = r: PropertyReply | Delivers(r) witness PropertyReply(NoneAtom, 0, 0, 0, [])

  const NoReply: Reply := PropertyReply(NoneAtom, 0, 0, 0, [])

  /** The bytes xcout copies out of a reply. */
  function Payload(r: Reply): (p: seq<byte>)
    ensures |p| == r.items * MachItemSize(r.format) && p <= r.data
  {
    r.data[..PayloadLength(r)]
  }

  /** A request the client sends to the server. */
  datatype Request =
    | ConvertSelection(selection: Atom, target: Atom, property: Atom)
    | DeleteProperty(property: Atom)
    | Flush

  /** The targets of the conversion requests in a log, in order. */
  function Targets(log: seq<Request>): (ts: seq<Atom>)
  {
    if log == [] then []
    else (if log[0].ConvertSelection? then [log[0].target] else []) + Targets(log[1..])
  }

  lemma {:induction false} TargetsAppend(a: seq<Request>, b: seq<Request>)
    ensures Targets(a + b) == Targets(a) + Targets(b)
  {
    if a == [] {
      assert a + b == b;
    } else {
      var head := if a[0].ConvertSelection? then [a[0].target] else [];
      assert (a + b)[0] == a[0] && (a + b)[1..] == a[1..] + b;
      assert Targets(a + b) == head + Targets(a[1..] + b);
      TargetsAppend(a[1..], b);
      assert Targets(a) == head + Targets(a[1..]);
      assert head + (Targets(a[1..]) + Targets(b)) == (head + Targets(a[1..])) + Targets(b);
    }
  }

  /** A format outside 8, 16 and 32 yields an empty payload, whatever the item count. */
  lemma UnknownFormatIsEmpty(r: Reply)
    requires r.format != 8 && r.format != 16 && r.format != 32
    ensures PayloadLength(r) == 0 && Payload(r) == []
  {
  }
}
