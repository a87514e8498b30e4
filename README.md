# xselection: selection retrieval, modelled in Dafny

This project models the client side of X11 selection retrieval in
`xselection.c`. The model has four parts:

- `mach_itemsize`: the in-memory width of a property item.
- `xcout`: the four-state transfer machine (NONE, SENTCONVSEL, INCR,
  BAD_TARGET). It handles both direct transfers and INCR transfers, as
  described in section 2.7.2 of the ICCCM, "INCR Properties".
- `doOut`: the driver loop. It retries once, from UTF8_STRING to STRING, when
  the owner declines the target. It then trims one trailing newline and
  prints the buffer only when it is not empty.
- `printSelBuf`: the type dispatch. It prints INTEGER data as decimal longs,
  ATOM data as atom names, and anything else as raw bytes.

The X server is not modelled. Each call of `xcout` receives an `Input`:

- the event handed to it;
- the reply to its zero-length probe read;
- the reply to its full read.

Every request the client sends goes into a log of `Request`s:
ConvertSelection, DeleteProperty and Flush. Output goes to stdout as a
sequence of `Token`s.

The modules follow the program:

- `Wire` holds atoms, events, replies, requests and `mach_itemsize`.
- `Native` decodes LP64 little-endian longs and Atoms.
- `Transfer` holds `xcout`. The pure step function `Next` specifies it. The
  class `Machine` has the fields `xcout` updates through pointers, and its
  method `Xcout` is proved equal to `Next`.
- `Format` holds `printSelBuf`: the loop methods `PrintIntegers` and
  `PrintAtoms` and the specification `Render`.
- `Driver` holds `doOut`. `EventLoop` is the `while (1)` loop, proved equal
  to the recursive `Drive`. `DoOut` is the whole function, proved equal to
  `Retrieve`.
- `DriverProperties` holds the properties of whole retrievals and concrete
  scenarios.

Three behaviours of the code differ from what a reader might expect, and
the model follows the code:

- The selection type is overwritten by every property read. This includes
  the zero-length probe and the probe of the terminating INCR chunk
  (xselection.c:217, 235, 282, 308). One might expect the type announced by
  the first chunk to stay fixed, but it does not. After an INCR transfer
  the type is the one the terminator's probe reported (`IncrAssembly`).
- One might expect a list of atoms to end with the last name's newline. In
  fact each name prints with its own newline, and then `doOut` prints one
  more newline. Two atoms produce "A\nB\n\n" (`AtomListScenario`).
- One might expect the newline trim to apply only to text, but it ignores
  the type. When an INTEGER buffer is a whole number of longs and its last
  byte is 0x0A, the trim removes that byte, so the last long is dropped.
  A format-8 INTEGER reply can end that way (`TrimCutsIntegerItem`). A
  format-32 item cannot, because its upper bytes are the sign extension
  of its 32-bit value.

## Model

| member | source | states |
|---|---|---|
| Wire.MachItemSize | xselection.c:38-47 | formats 8 and 16 give 1 and sizeof(short) bytes per item, format 32 gives sizeof(long) (8 on LP64, more than the 4 bytes on the wire), any other format gives 0 |
| Wire.UnknownFormatIsEmpty | xselection.c:44-46 | for a format other than 8, 16 and 32, the computed payload length is 0 and nothing is copied |
| Wire.PayloadLength | xselection.c:240-241 | the payload size items × mach_itemsize(format) is zero exactly when there are no items or the format is unknown |
| Wire.Payload | xselection.c:243-245 | the bytes copied are exactly the first items × mach_itemsize(format) bytes of the returned buffer |
| Native.DecodeLong | xselection.c:99-102 | `*long_buf` reads eight buffer bytes as a signed 64-bit long, always in the range of a long |
| Native.DecodeAtom | xselection.c:109-113 | `*atom_buf` reads eight buffer bytes as an unsigned long below 2^64 |
| Native.LongRoundTrip | xselection.c:99-102 | reading back the eight native bytes of any signed long gives that long |
| Native.BytesRoundTrip | xselection.c:99-102 | every eight-byte buffer is the encoding of the long it is read as, so the decoding loses nothing |
| Native.UnsignedOfEncode | xselection.c:109-113 | decoding the little-endian encoding of an unsigned value gives back that value |
| Native.EncodeOfUnsigned | xselection.c:109-113 | encoding the unsigned value of a byte string at its own width gives back that string |
| Transfer.Next | xselection.c:186-336 | a call returns 1 exactly when a transfer in progress comes back to NONE; a conversion is requested only from NONE and only for the current target; an INCR transfer only ever extends its buffer |
| Transfer.IdleRequestsConversion | xselection.c:188-198 | from NONE: the buffer is discarded, one conversion of the selection to the target into XCLIP_OUT is requested, the context becomes SENTCONVSEL and the call returns 0 |
| Transfer.AwaitIgnoresOtherEvents | xselection.c:200-202 | in SENTCONVSEL any event other than SelectionNotify changes nothing, sends nothing and returns 0 |
| Transfer.DeclinedTargetIsBad | xselection.c:204-208 | a SelectionNotify with property None moves to BAD_TARGET, leaves the buffer as it was and returns 0 |
| Transfer.DirectAnswerCompletes | xselection.c:210-257 | a direct answer makes the buffer exactly items × mach_itemsize(format) bytes of the full read, takes the type of that read, deletes the property, returns to NONE and returns 1 |
| Transfer.IncrAnswerStartsTransfer | xselection.c:220-226 | a probe of type INCR deletes the property, flushes, moves to INCR with no buffer made and returns 0 |
| Transfer.IncrIgnoresOtherEvents | xselection.c:266-272 | in INCR an event that is not a PropertyNotify with a new value changes nothing and returns 0 |
| Transfer.IncrChunkAppends | xselection.c:296-332 | a non-empty chunk keeps the old prefix, puts items × mach_itemsize(format) bytes at [old len, new len), takes the chunk's type, deletes and flushes, stays in INCR and returns 0 |
| Transfer.IncrTerminatorCompletes | xselection.c:274-294 | a zero-size probe ends the transfer: the buffer is untouched, the type is the probe's, the property is deleted, the context is NONE and the call returns 1 |
| Transfer.Machine.constructor | xselection.c:341-345 | doOut's initial context: NONE, an empty buffer, type None, nothing sent |
| Transfer.Machine.Xcout | xselection.c:160-336 | the in-place update of context, buffer, length and type, including the malloc or realloc-and-append branches, gives exactly the state, the return value and the requests of `Next`; the length stays equal to the buffer size |
| Format.PrintIntegers | xselection.c:96-103 | the `while (long_len--)` loop prints sel_len / sizeof(long) lines, and line k is the k-th native long of the buffer |
| Format.PrintAtoms | xselection.c:106-118 | the `while (atom_len--)` loop prints sel_len / sizeof(Atom) names, and name k is that of the k-th Atom of the buffer |
| Format.PrintSelBuf | xselection.c:89-158 | the output is `Render`: integers for INTEGER, atom names for ATOM, the raw buffer otherwise |
| Format.Render | xselection.c:89-158 | printSelBuf never prints doOut's separating newline itself |
| Format.EncodeLongsItem | xselection.c:99-102 | item k of a buffer of stored longs is the encoding of the k-th long |
| Format.IntegerListRoundTrip | xselection.c:96-103 | an INTEGER buffer holding a list of longs prints exactly that list, in order |
| Driver.Drive | xselection.c:351-383 | a completed loop leaves the context NONE and has consumed at least one event; what is left is a suffix of the events; a failure never names UTF8_STRING, since that target falls back |
| Driver.DriveStep | xselection.c:351-383 | one turn of the loop: the fallback to STRING, the failure for another target, the break on NONE, and otherwise the next turn |
| Driver.TrimNewline | xselection.c:385-389 | at most one byte is removed, only at the end, and one is removed exactly when frmnl is set and the buffer ends in '\n' |
| Driver.Emit | xselection.c:391-404 | an empty trimmed buffer prints nothing; otherwise the output is printSelBuf of the trimmed buffer followed by exactly one newline |
| Driver.EventLoop | xselection.c:351-383 | the imperative loop with `continue` and `break`, run on a `Machine`, ends exactly as `Drive` does and logs the same requests |
| Driver.Retrieve | xselection.c:338-405 | doOut as a function: the cut buffer is always printed, and a target reported unavailable is never UTF8_STRING and never on the cut-buffer path |
| Driver.DoOut | xselection.c:338-405 | doOut's outcome is `Retrieve`: the cut buffer for STRING, EXIT_FAILURE naming a declined target, or the trimmed and printed selection; it sends `Drive`'s requests |
| DriverProperties.SkipUntilAnswer | xselection.c:200-202 | while the conversion is pending, events other than SelectionNotify are consumed without effect |
| DriverProperties.IdleStep | xselection.c:354-358 | from NONE no event is read, the selection is requested and the loop goes on in SENTCONVSEL |
| DriverProperties.DirectTransfer | xselection.c:196-257 | a direct transfer: the buffer is the answer's payload of items × mach_itemsize(format) bytes with its type; one conversion and one delete are sent; nothing after the answer is read |
| DriverProperties.ChunksLength | xselection.c:311-324 | the bytes of the chunks number the sum of their items × mach_itemsize(format) |
| DriverProperties.IncrDriveStep | xselection.c:266-332 | one turn of the loop in INCR: a terminator completes, a chunk is appended and acknowledged, anything else is skipped |
| DriverProperties.AssembledCons | xselection.c:314-324 | a chunk in front of a reassembly contributes its bytes and its delete-and-flush in front |
| DriverProperties.IncrAssembly | xselection.c:259-333 | from INCR the transfer ends exactly at the first terminator; the buffer is the old one followed by every chunk before it, the type is the terminator probe's, and no later event is read |
| DriverProperties.IncrWaitsForTerminator | xselection.c:259-333 | without a terminator an INCR transfer never completes |
| DriverProperties.IncrAnswerStep | xselection.c:220-226 | an INCR answer moves the waiting loop into INCR after a delete and a flush |
| DriverProperties.IncrStart | xselection.c:196-226 | from NONE, an INCR answer after any unrelated events leads to INCR with an empty buffer, after a conversion, a delete and a flush |
| DriverProperties.IncrTransfer | xselection.c:196-333 | a whole INCR transfer: the final buffer is the chunks' bytes in order, and its length is the sum of the chunk sizes |
| DriverProperties.AssembledFromIdle | xselection.c:314-324 | the reassembled buffer after an INCR answer is the chunks between the answer and the terminator |
| DriverProperties.NoRetry | xselection.c:360-377 | with a target other than UTF8_STRING no further conversion is requested, and a result names that target |
| DriverProperties.RetryOnce | xselection.c:360-377 | with UTF8_STRING, either no retry happens, or exactly one with STRING, after which any result names STRING |
| DriverProperties.AtMostOneFallback | xselection.c:358-377 | the targets doOut requests are the initial target alone, or UTF8_STRING then STRING when the initial target is UTF8_STRING; a result names the last target requested, and UTF8_STRING is never reported as unavailable |
| DriverProperties.DeclineStep | xselection.c:196-208 | from NONE, after unrelated events, a declining answer moves to BAD_TARGET having sent only the conversion request |
| DriverProperties.DeclineFallsBack | xselection.c:360-368 | a declined UTF8_STRING restarts the loop from NONE with target STRING on the events after the decline |
| DriverProperties.DeclineFails | xselection.c:369-376 | a declined target other than UTF8_STRING ends the loop with that target unavailable, after one conversion request |
| DriverProperties.DoubleDecline | xselection.c:360-376 | UTF8_STRING declined and then STRING declined: doOut fails naming STRING, after requesting UTF8_STRING and then STRING |
| DriverProperties.DirectRetrieve | xselection.c:347-404 | for any selection but STRING, a direct answer after unrelated events is printed as its own payload with its own type, whatever follows it |
| DriverProperties.HelloScenario | xselection.c:385-402 | a direct answer "hello" prints "hello" and one newline |
| DriverProperties.FallbackScenario | xselection.c:360-402 | a declined UTF8_STRING, then STRING answered with "ok\n": the requests are UTF8_STRING then STRING, and "ok" is printed with one newline |
| DriverProperties.IncrScenario | xselection.c:259-333 | chunks of 4, 4 and 0 bytes assemble 8 bytes, and the event after the terminator is left unread |
| DriverProperties.LowByteValue | xselection.c:109-113 | a little-endian long with only its low byte set has that byte's value |
| DriverProperties.TwoAtomsRender | xselection.c:106-118 | two stored Atoms print as two names |
| DriverProperties.TwoAtomsEmit | xselection.c:385-402 | the two-atom buffer is not trimmed and prints two names and doOut's newline |
| DriverProperties.AtomListScenario | xselection.c:106-118 | an answer of two atoms prints both names and then doOut's own newline |
| DriverProperties.LongEndingInLineFeedValue | xselection.c:99-102 | the long whose top byte is 0x0A is 0x0A00000000000000 |
| DriverProperties.LongEndingInLineFeedEmits | xselection.c:385-402 | with the trim, that long is cut to 7 bytes and prints no line; without it, its value is printed |
| DriverProperties.TrimCutsIntegerItem | xselection.c:385-402 | the trailing-newline trim applies to INTEGER data too: an 8-byte format-8 INTEGER answer ending in 0x0A prints no long, only doOut's newline; without the trim its long is printed |

## Left out

- The X server calls are inputs or log entries, not modelled code. These
  are XConvertSelection, XGetWindowProperty, XDeleteProperty, XFlush and
  XNextEvent. The window and the timestamp are not recorded.
- The atoms UTF8_STRING, XCLIP_OUT and INCR are interned lazily at run
  time. The model fixes them to the distinct constants 69, 70 and 71.
- XFetchBuffer, used when the selection is STRING, is a foreign call. Its
  result is the `cutBuffer` parameter.
- XGetAtomName is a foreign call. The atom branch emits `AtomLine(atom)`,
  one per `sizeof(Atom)` bytes, instead of the looked-up name.
- The iconv UTF-16 to UTF-8 branch of printSelBuf under HAVE_ICONV depends
  on an external library and errno. The model is the build without it, in
  which such data is printed raw.
- Memory management is left out. This covers xcmalloc, xcrealloc,
  xcmemcheck, errmalloc, free and XFree. Allocation is assumed to succeed,
  so the exit on allocation failure is not modelled.
- main, errxdisplay, doOptTarget, the option table and the unused file and
  Xrm globals are process setup, not selection logic. The initial target and
  frmnl are parameters.
- stdout is a sequence of tokens: raw bytes, decimal longs, atom names and
  newlines. Character formatting by fprintf is not modelled. The "target ...
  not available" message on stderr is the `TargetUnavailable` outcome.
- XNextEvent blocks until an event comes. With a finite list of inputs, the
  model ends in `Blocked` (for `Drive`) or `Waiting` (for `DoOut`) when
  another event would be needed.
- Native widths are those of an LP64 little-endian platform. The product
  items × mach_itemsize(format) is computed without the wrap-around of
  unsigned long. Xlib's replies are assumed to hold that many bytes (the
  `Reply` subset type).
- Xlib stores each format-32 item as a long whose upper four bytes are the
  sign extension of the 32-bit value. The model does not impose that
  layout: the data of a reply may be any bytes of sufficient length.
- Wire.MachItemSize: `sizeof(char)`, `sizeof(short)` and `sizeof(long)` are
  fixed to 1, 2 and 8, the LP64 values, not left to the platform.
