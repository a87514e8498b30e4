/** printSelBuf: writes the assembled selection according to its type, as
    decimal integers, as atom names, or as the raw bytes. Output is a
    sequence of tokens standing for what is written to stdout. */
module Format {
  import opened Wire
  import opened Native

  datatype Token =
    | RawBytes(bytes: seq<byte>)    // fwrite of the buffer
    | IntegerLine(value: int)       // "%ld\n"
    | AtomLine(atom: Atom)          // the atom's name, then "\n"
    | Newline                       // "\n"

  /** The bytes of the k-th item of `width` bytes in `buf`. */
  function Item(buf: seq<byte>, width: nat, k: nat): (b: seq<byte>)
    requires width > 0 && k < |buf| / width
    ensures |b| == width
  {
    assert (k + 1) * width <= (|buf| / width) * width <= |buf|;
    buf[k * width .. k * width + width]
  }

  /** The integer branch: every whole native long of the buffer, one per
      line; trailing bytes short of a long are not printed. */
  function IntegerLines(buf: seq<byte>): (out: seq<Token>)
  {
    seq(|buf| / LongSize, k requires 0 <= k < |buf| / LongSize => IntegerLine(DecodeLong(Item(buf, LongSize, k))))
  }

  /** The atom branch: every whole Atom of the buffer, one name per line. */
  function AtomLines(buf: seq<byte>): (out: seq<Token>)
  {
    seq(|buf| / AtomSize, k requires 0 <= k < |buf| / AtomSize => AtomLine(DecodeAtom(Item(buf, AtomSize, k))))
  }

  /** What printSelBuf writes for a buffer of the given type. */
  function Render(selType: Atom, buf: seq<byte>): (out: seq<Token>)
    ensures Newline !in out
  {
    if selType == IntegerAtom then IntegerLines(buf)
    else if selType == AtomAtom then AtomLines(buf)
    else [RawBytes(buf)]
  }

  method PrintIntegers(buf: seq<byte>) returns (out: seq<Token>)
    ensures |out| == |buf| / LongSize
    ensures forall k :: 0 <= k < |out| ==> out[k] == IntegerLine(DecodeLong(Item(buf, LongSize, k)))
  {
    var longLen := |buf| / LongSize;
    var pos := 0;
    out := [];
    while longLen > 0
      invariant 0 <= longLen && |out| + longLen == |buf| / LongSize
      invariant pos == |out| * LongSize
      invariant forall k :: 0 <= k < |out| ==> out[k] == IntegerLine(DecodeLong(Item(buf, LongSize, k)))
    {
      longLen := longLen - 1;
      assert buf[pos .. pos + LongSize] == Item(buf, LongSize, |out|);
      out := out + [IntegerLine(DecodeLong(buf[pos .. pos + LongSize]))];
      pos := pos + LongSize;
    }
  }

  method PrintAtoms(buf: seq<byte>) returns (out: seq<Token>)
    ensures |out| == |buf| / AtomSize
    ensures forall k :: 0 <= k < |out| ==> out[k] == AtomLine(DecodeAtom(Item(buf, AtomSize, k)))
  {
    var atomLen := |buf| / AtomSize;
    var pos := 0;
    out := [];
    while atomLen > 0
      invariant 0 <= atomLen && |out| + atomLen == |buf| / AtomSize
      invariant pos == |out| * AtomSize
      invariant forall k :: 0 <= k < |out| ==> out[k] == AtomLine(DecodeAtom(Item(buf, AtomSize, k)))
    {
      atomLen := atomLen - 1;
      assert buf[pos .. pos + AtomSize] == Item(buf, AtomSize, |out|);
      out := out + [AtomLine(DecodeAtom(buf[pos .. pos + AtomSize]))];
      pos := pos + AtomSize;
    }
  }

  method PrintSelBuf(selType: Atom, buf: seq<byte>) returns (out: seq<Token>)
    ensures out == Render(selType, buf)
  {
    if selType == IntegerAtom {
      out := PrintIntegers(buf);
      return;
    }
    if selType == AtomAtom {
      out := PrintAtoms(buf);
      return;
    }
    out := [RawBytes(buf)];
  }

  /** The native bytes of a list of longs, as an owner stores them. */
  function EncodeLongs(vs: seq<int>): (b: seq<byte>)
    requires forall i :: 0 <= i < |vs| ==> MinLong <= vs[i] <= MaxLong
    ensures |b| == |vs| * LongSize
  {
    if vs == [] then [] else EncodeLong(vs[0]) + EncodeLongs(vs[1..])
  }

  lemma {:induction false} EncodeLongsItem(vs: seq<int>, k: nat)
    requires forall i :: 0 <= i < |vs| ==> MinLong <= vs[i] <= MaxLong
    requires k < |vs|
    ensures |EncodeLongs(vs)| / LongSize == |vs|
    ensures Item(EncodeLongs(vs), LongSize, k) == EncodeLong(vs[k])
  {
    var b := EncodeLongs(vs);
    assert |b| / LongSize == |vs|;
    if k > 0 {
      EncodeLongsItem(vs[1..], k - 1);
      var tail := EncodeLongs(vs[1..]);
      assert b == EncodeLong(vs[0]) + tail;
      assert Item(b, LongSize, k) == tail[(k - 1) * LongSize .. (k - 1) * LongSize + LongSize];
    }
  }

  /** An integer list printed from an INTEGER selection shows exactly the
      values that were stored, in order. */
  lemma IntegerListRoundTrip(vs: seq<int>)
    requires forall i :: 0 <= i < |vs| ==> MinLong <= vs[i] <= MaxLong
    ensures var out := Render(IntegerAtom, EncodeLongs(vs));
      |out| == |vs| && forall k :: 0 <= k < |vs| ==> out[k] == IntegerLine(vs[k])
  {
    var b := EncodeLongs(vs);
    assert |b| / LongSize == |vs| by {
      assert |b| == |vs| * LongSize;
    }
    forall k | 0 <= k < |vs|
      ensures IntegerLines(b)[k] == IntegerLine(vs[k])
    {
      EncodeLongsItem(vs, k);
      LongRoundTrip(vs[k]);
    }
  }
}
