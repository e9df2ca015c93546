# Verification of emlabcpp's protocols, stores and rings

A Dafny model of the stateful and wire-format parts of emlabcpp, an embedded C++ library: the
configuration store, the protocol converters with packets and remote calls, the stream sequencer, the
circular buffer and its interrupt-safe use, byte stuffing, the stack allocator and the round-robin
executor. `dafny verify dfyconfig.toml` checks everything.

Code that changes state is written as classes and methods over arrays and fields, with loops where the
original has loops. Each method is proved against a function or a property of the old state, and the
laws of those functions are lemmas.

## What is modelled and what is proved

**Configuration store** (`CfgPages`, `CfgLog`, `CfgScan`, `CfgDump`, `CfgRoom`, `CfgRaw`, `CfgHandler`).
`Store` holds the memory, the work buffer, the page size and the set of unseen keys as the helper
callbacks keep them. Starting from any memory without headers and applying any list of configurations,
every `Update` succeeds and a following `Load` reports every current key exactly once with its current
value, followed by zeros only (`UpdatesThenLoad`). One pass reads back exactly the entries that were
there, appends exactly the stale keys, or answers full with all older entries in place. The log of the
current page is extended if and only if the entries of the stale keys have room behind it, and otherwise
the next page is written; an update with nothing to change leaves the memory as it is. A rotation finds
the ring successor with the right letter. Page headers stay in ring shape over every number of
rotations. For a configuration that does not fit, status and memory of the page written are given
exactly; loading is specified for memory with any contents.

**Protocol converters** (the `Protocol` files, `Packet`, `Rpc`). A definition is a tree with one case
per converter. By induction over all definitions: decoding an encoding followed by anything gives the
value back and consumes exactly the encoding; every value delivered lies in its definition, what is
accepted in canonical form encodes back to the bytes taken, and every rejection has its mark and its
place; encodings lie between the compile-time bounds, which are attained; each byte of a number and each
bit of a bit set has its place in both orders; a decoder that stays inside its buffer never claims more
bytes than it was given, also in failure; a success depends on bytes behind it exactly when a tag was
cut short or the rest of the buffer was taken whole. The converters that write into and read from
buffers are proved equal to these functions. On top: packets are found whole and in order in a byte
stream however it is cut and are extracted again, and a remote call returns what the handler of its id
computed.

**Sequencer** (`SequencerSpec`, `Sequencer`). The receiver equals one greedy parse of the whole stream.
That parse is the only way to account for the stream in which every dropped byte stands where the
prefix mismatches. A reader that supplies exactly the bytes asked for stands at the end of every message
and never holds more than one.

**Circular buffer** (`Ring`, `CircularBuffer`, `RingSpsc`). Both index strategies refine one bounded
queue. For one producer and one consumer that move single items or whole ranges, with every load and
store a step of its own, every interleaving delivers the items sent, in the order their callers sent
them, and never writes a slot that is live or being read. Neither side ever waits for the other.

**Byte stuffing** (`CobsSpec`, `Cobs`, `CobsView`). The in-place encoder produces the reference encoding
and succeeds exactly when it is shorter than the target; decoder and decoding iterator undo it. The
decoder delivers what the blocks say on all bytes. What the iterator does is stated for all data.

**Stack allocator** (`Align`, `StackChain`, `Stack`). The chain of nodes stored in the arena is exactly
the live blocks in address order, under allocation and deallocation in any order. Blocks are aligned
and disjoint from each other and from all nodes, and their bytes are never touched.

**Round-robin executor** (`RoundRobinSpec`, `RoundRobin`). Every request is answered to the child that
made it. The replies alone determine the run, and one more reply goes to exactly the child whose request
is pending. Between two turns of a child every other live child has exactly one. With finite children
and enough replies the executor ends after exactly as many requests as the children make together.

## Where the code does less than one might expect

Each of these is proved, with the exact condition where one is named.

- `CfgLog.KeyLimitIsExact`: a key equal to the flag bit 0x80000000 is accepted by `ser_cell` but comes
  back as 0; keys come back exactly when they are below it.
- `CfgHandler.FreshOutcome`, `CfgHandler.FreshMatched`: a page comes out right if and only if the
  configuration fits behind its header. The code takes the end of the new page after stepping over the
  header, one cell too far. A configuration that misses the fit by one cell is reported as success
  although its last tail cell lies on the header of the next page (`CfgHandler.FreshOverrun`); on the
  last page of the memory it ends as a failed write. `CfgHandler.OneCellTooMuch` is such a
  configuration.
- `CfgHandler.Store.StoreThenLoad`: a single stored value, not empty, is given back by a load if and
  only if it is at most four bytes long or a multiple of eight. A value of another length is followed by
  its tail cell at an address the backward pass never visits, and no cell that it does visit reads as
  that value (`CfgRaw.UnalignedLost`).
- `CfgPages.InterruptedRotation`: if the erased successor page gets its header only after a second
  `Update`, it becomes the current page exactly when a running round is on letter A or a finished one is
  not.
- `ProtocolBounds.SizedGuardExact`: a sized buffer adds the counter's width and value in `size_t` before
  comparing with the buffer, and a sum that reaches 2^64 wraps and passes. The payload then runs past
  the end, unless the value is 2^64-1: `subspan` takes that as all the rest of the buffer. Only an
  eight-byte counter can do either. `ProtocolBounds.WideCounterOverruns` gives an input for every
  payload, written out in `ProtocolBounds.WideCounterBytes`; `ProtocolBounds.AllOnesTakesRest` says what
  eight bytes of all ones do.
- `ProtocolBounds.OptionalOutside`: the optional converter reads the first byte of its buffer without
  asking whether there is one. A non-empty buffer does not help: an empty payload of a sized buffer is
  enough (`ProtocolBounds.EmptyPayloadOverruns`). The model answers `OutOfBounds` for every read outside
  a buffer. `ProtocolBounds.SizedOutside` and `ProtocolBounds.OptionalOutside` say exactly when each of
  the two converters does. A definition without optionals and eight-byte counters never does
  (`ProtocolBounds.NeverOutside`), and any other one whose lists have elements and whose counters can
  tell their longest payload has an input on which it does (`ProtocolOverrun.OverrunExactly`).
- `ProtocolBounds.SizedBufferExact`: a sized buffer round-trips if and only if the payload length fits
  its counter.
- `ProtocolExtension.ExtensionExact`: a success is unchanged by all bytes appended if and only if every
  tag group met sees a whole tag or bytes that no id starts with, and no message without a length is
  met, be it in the payload of a sized buffer that takes all the rest. A tag group takes its first
  alternative when it finds no id, so appended bytes can complete one
  (`ProtocolExtension.EmptyBufferUnstable`). A self-delimiting sized buffer can take more after an
  eight-byte counter of all ones (`ProtocolExtension.AllOnesUnstable`).
- `Packet.SizesCoverExactly`: the packet size that `get_size` computes wraps as well. Every size covers
  the leading bytes it was read from if and only if the length field is narrower than eight bytes;
  `Packet.WrappingHead` builds a head of size 0. On a buffer that begins with one, and on no other, the
  sequencer hands out empty messages and takes nothing (`Sequencer.StuckRepeats`).
- `Sequencer.FullRingLosesByte`: with overflowing indices a completely full sequencer ring looks empty
  to `mismatch`, so `get_message` drops its first byte. The result is unaffected exactly when the prefix
  mismatches there. `Feed` therefore asks for less than twice the message capacity.
- `RingSpsc.SpacerSizeExact`: with the spare slot, `size()` loads the consumer's index twice. If the
  consumer passes the end of the storage in between, the answer is one round too much, cut off at the
  width of the index. It is then smaller than the occupancy if and only if that sum leaves the width
  (`RingSpsc.SizeTooSmall`); `RingSpsc.SizeTooSmallAt200` is such a case. `full()` stays exact
  (`RingSpsc.SpacerDecision`).
- `Queue.Walk`, `Queue.Equals`: a full buffer with overflowing indices has `begin() == end()`, so a walk
  visits nothing and any two full buffers compare equal.
- `Queue.AssignBytes`: elements that are copied as bytes are read from a ring as if it were contiguous.
  The reads stay inside the source if and only if its elements do not go around the end of the storage
  or both buffers start at the same slot.
- `Rpc.UnknownCallRunsFirst`, `Rpc.RejectedExactly`: bytes that start with no known call id are taken
  for a call of the first procedure with default arguments; a request is rejected exactly when its id is
  known and its arguments do not decode.
- `CobsView.ViewExact`: the decoding iterator steps over the code behind a full block unconditionally.
  Its view delivers the decoded bytes in front of the first zero and ends there if and only if there are
  any and their last block is not a full one that ends with them. The encoder leaves no such block
  (`CobsView.EncodedEndsOpen`); `CobsView.FullBlockOverruns` is an input that has one.
- `ProtocolTight.StringBound`: the `max_size` of a string is one byte more than any of its encodings.
- `ProtocolReject.VectorTaken`: a vector whose count is above its capacity is not refused but read up to
  the capacity.
- `Stack.EmptyBlockFitsFull`: a stack resource that reports full can still give a block of no bytes,
  exactly when the room of one node is left.

## Model

| member | source | states |
|---|---|---|
| CfgPages.HeaderRoundTrip | include/emlabcpp/experimental/cfg/page.hpp:59-86 | a written header is read back as its letter, whatever follows it in the cell |
| CfgPages.HeaderExactly | include/emlabcpp/experimental/cfg/page.hpp:59-86 | a cell is taken for the header of a letter if and only if it begins with the two bytes of that letter |
| CfgPages.HeaderBytes | include/emlabcpp/experimental/cfg/page.hpp:59-86 | those bytes: the code of the letter and its complement |
| CfgPages.LetterOrder | include/emlabcpp/experimental/cfg/page.hpp:28-58 | the three letters take turns, each code 0x40 above the one before |
| CfgPages.CurrentOfRing | include/emlabcpp/experimental/cfg/handler.hpp:262-288 | on a ring of headers the current page is the last one of the running round, and there is none exactly on blank memory |
| CfgPages.CurrentUnique | include/emlabcpp/experimental/cfg/handler.hpp:262-288 | at most one page is current |
| CfgPages.RotationKeepsRing | include/emlabcpp/experimental/cfg/handler.hpp:297-321 | exactly one page and letter come next, the ring successor with its right letter; writing it gives a ring again whose current page is that page |
| CfgPages.BlankingKeepsCurrent | include/emlabcpp/experimental/cfg/handler.hpp:475-483 | with two pages or more, erasing the successor before its header is written does not move the current page |
| CfgPages.InterruptedRotation | include/emlabcpp/experimental/cfg/handler.hpp:297-321 | a rotation repeated on an erased successor writes letter A there, and that page becomes current if and only if the stated condition on round and letter holds |
| CfgLog.SerTailCell | include/emlabcpp/experimental/cfg/handler.hpp:59-81 | the tail cell of every storable value |
| CfgLog.CellBytes | include/emlabcpp/experimental/cfg/handler.hpp:59-81 | the eight bytes of a cell: the short value padded with zeros or the number of value cells, then the key, lowest byte first, with its highest bit set for a short value |
| CfgLog.CellRoundTrip | include/emlabcpp/experimental/cfg/handler.hpp:59-104 | a tail cell is never taken for a free one and gives back kind, key and content |
| CfgLog.KeyLimitIsExact | include/emlabcpp/experimental/cfg/handler.hpp:62-69 | keys up to the flag bit are accepted; those below it come back, the flag bit itself comes back as 0 |
| CfgLog.AlignedExactlyWhenStorable | include/emlabcpp/experimental/cfg/handler.hpp:106-124 | the size of an entry is a multiple of a cell if and only if its value is at most four bytes or a multiple of eight |
| CfgRaw.UnalignedLost | include/emlabcpp/experimental/cfg/handler.hpp:347-374 | no cell of a page that holds a value of another length reads as that value |
| CfgHandler.Store.StoreThenLoad | include/emlabcpp/experimental/cfg/handler.hpp:497-527 | a value of any length but 0, stored alone and loaded again, is given back if and only if it is at most four bytes long or a multiple of eight |
| CfgLog.PageAppend | include/emlabcpp/experimental/cfg/handler.hpp:390-396 | writing an entry behind the log of a page extends the log by exactly that entry |
| CfgLog.PageEntryAt | include/emlabcpp/experimental/cfg/handler.hpp:431-448 | where in memory each logged entry lies, value cells first and tail last |
| CfgScan.ScanRewrite | include/emlabcpp/experimental/cfg/handler.hpp:447-456 | reading a stale newest entry and appending the current value keeps the scan invariant, and the key was stale |
| CfgScan.ScanKeep | include/emlabcpp/experimental/cfg/handler.hpp:447-451 | an entry that still matches is left alone and its key needs nothing more |
| CfgScan.ScanSkip | include/emlabcpp/experimental/cfg/handler.hpp:440-445 | entries of keys already met, or not in the configuration, change nothing |
| CfgScan.ScanDump | include/emlabcpp/experimental/cfg/handler.hpp:399-407 | a key still unseen when all entries are read is stale and its append keeps the invariant |
| CfgScan.ScanDone | include/emlabcpp/experimental/cfg/handler.hpp:409-459 | a finished pass leaves every key up to date and has appended exactly the stale keys |
| CfgScan.UpToDateNeedsRoom | include/emlabcpp/experimental/cfg/handler.hpp:376-407 | a log that matches a configuration is at least as long as the configuration |
| CfgScan.UpToDateRestores | include/emlabcpp/experimental/cfg/handler.hpp:497-527 | loading an up to date log gives each key once with its value followed by zeros only |
| CfgHandler.DecrAddr | include/emlabcpp/experimental/cfg/handler.hpp:339-345 | the wrapped subtraction is accepted exactly when the result is not below the start |
| CfgHandler.Store.constructor | include/emlabcpp/experimental/cfg/handler.hpp:242-254 | a memory without headers is a valid empty store |
| CfgHandler.Store.CheckKeyCache | include/emlabcpp/experimental/cfg/handler.hpp:564-572 | a key counts as seen exactly when it is not in the set, and is taken out otherwise |
| CfgHandler.Store.TakeUnseenKey | include/emlabcpp/experimental/cfg/handler.hpp:555-562 | takes the last unseen key |
| CfgHandler.Store.StoreKvalImpl | include/emlabcpp/experimental/cfg/handler.hpp:106-124 | for a value of any length, puts the tail cell right behind the value and gives the range to be written |
| CfgHandler.Store.StoreKey | include/emlabcpp/experimental/cfg/handler.hpp:376-397 | writes the entry of a key if it ends in front of the end given and of the memory, otherwise answers full or a failed write and changes nothing |
| CfgHandler.Store.DumpUnseenKeys | include/emlabcpp/experimental/cfg/handler.hpp:399-407 | for any configuration and any end: the status and the entries written, key by key from the back, until one does not fit the end or the memory |
| CfgDump.DumpSucceeds | include/emlabcpp/experimental/cfg/handler.hpp:399-407 | a dump succeeds if and only if all entries together end in front of both bounds |
| CfgDump.DumpFailsToWrite | include/emlabcpp/experimental/cfg/handler.hpp:399-407 | with the memory ending one cell short, a write fails if and only if the entries of some of the last keys end one cell behind it |
| CfgDump.DumpScan | include/emlabcpp/experimental/cfg/handler.hpp:399-407 | what is dumped keeps the pass invariant, and a dump that ends full leaves a stale key that does not fit |
| CfgHandler.Store.ManifestValue | include/emlabcpp/experimental/cfg/handler.hpp:347-374 | on any memory: gives the cells in front of a tail cell as a value and steps in front of them, or nothing when they would start below the page or exceed the buffer |
| CfgHandler.Store.FindLogEnd | include/emlabcpp/experimental/cfg/handler.hpp:412-427 | finds the exact end of the log |
| CfgHandler.Store.UpdateEntry | include/emlabcpp/experimental/cfg/handler.hpp:431-456 | one turn of the backward pass keeps the pass invariant or answers full |
| CfgHandler.Store.UpdateStoredConfig | include/emlabcpp/experimental/cfg/handler.hpp:409-459 | one pass appends exactly the stale keys and leaves the page up to date, or answers full with all older entries intact; nothing outside the page changes |
| CfgHandler.Store.LocateCurrentPage | include/emlabcpp/experimental/cfg/handler.hpp:262-288 | on a memory of any number of pages: the current page, or that there is none, or the size error |
| CfgHandler.Store.LocateNextPage | include/emlabcpp/experimental/cfg/handler.hpp:297-321 | on a memory of any number of pages: the page to write next and its letter, the size error, or a failure exactly when there are no pages |
| CfgHandler.Store.UpdateCurrentPage | include/emlabcpp/experimental/cfg/handler.hpp:463-470 | the part of an update that works on the current page succeeds exactly when the stale keys have room behind the log, appends exactly these, changes nothing outside the log, and keeps all headers |
| CfgHandler.Store.WriteFreshPage | include/emlabcpp/experimental/cfg/handler.hpp:471-487 | erases and labels the successor and dumps every key to it; for every configuration the exact status, and the page matches the configuration if and only if it fits behind the header |
| CfgHandler.FreshOutcome | include/emlabcpp/experimental/cfg/handler.hpp:471-487 | the status for every configuration: in front of another page success up to a whole page size, one cell too much; on the last page success exactly when it fits, and a failed write exactly when some of its last entries end one cell behind the memory |
| CfgHandler.FreshMatched | include/emlabcpp/experimental/cfg/handler.hpp:471-487 | the page written matches the configuration if and only if the configuration fits behind the header |
| CfgHandler.FreshOverrun | include/emlabcpp/experimental/cfg/handler.hpp:484-486 | a configuration one cell too large leaves its last tail cell on the header of the next page |
| CfgHandler.OneCellTooMuch | include/emlabcpp/experimental/cfg/handler.hpp:484-486 | a configuration of that size, reported as success in front of another page and as a failed write on the last one |
| CfgHandler.Store.Update | include/emlabcpp/experimental/cfg/handler.hpp:461-487 | a configuration that fits is always stored: with room for the stale keys behind the log of the current page exactly these are appended there and nothing else changes; without, the ring successor is erased and written with all keys and the old page keeps its log; with nothing stale the memory stays as it is; a configuration that does not fit ends in the status of dumping it, with no matching page |
| CfgHandler.RoomDecides | include/emlabcpp/experimental/cfg/handler.hpp:463-470 | a pass over the current page succeeds if and only if the entries of all stale keys fit behind its log |
| CfgRoom.StaleAll | include/emlabcpp/experimental/cfg/handler.hpp:409-459 | appending all stale keys takes exactly the space of their entries |
| CfgRoom.StaleTooMuch | include/emlabcpp/experimental/cfg/handler.hpp:409-459 | a stale key that finds no room means that all stale keys together have none |
| CfgHandler.Store.UpToDateFits | include/emlabcpp/experimental/cfg/handler.hpp:481-486 | a valid store that is up to date proves that the configuration fits behind one header |
| CfgHandler.Store.LoadStoredConfig | include/emlabcpp/experimental/cfg/handler.hpp:497-527 | on any memory hands over only what some cell of the page reads as; on a page that holds a log, the newest entry of each wanted key exactly once and no other key |
| CfgHandler.Store.Load | include/emlabcpp/experimental/cfg/handler.hpp:529-537 | the same for the current page, and nothing on blank memory |
| CfgHandler.Store.UpdatesThenLoad | include/emlabcpp/experimental/cfg/handler.hpp:461-537 | after any list of updates with arbitrarily changing configurations, a load restores exactly the last one, each value followed by zeros only |
| ProtocolLeaves.IntRoundTrip | include/emlabcpp/protocol/serializer.hpp:48-64 | an integer in range comes back in either byte order and sign, whatever follows |
| ProtocolLeaves.OffsetRoundTrip | include/emlabcpp/protocol/converter.hpp:515-538 | a shifted unsigned integer comes back modulo its width |
| ProtocolLeaves.BitsetRoundTrip | include/emlabcpp/protocol/converter.hpp:394-432 | a bit set comes back, in both byte orders |
| ProtocolWire.IntByte | include/emlabcpp/protocol/serializer.hpp:43-54 | each byte written is the one of its weight in two's complement, highest first in big-endian order and lowest first in little-endian order |
| ProtocolWire.IntReads | include/emlabcpp/protocol/serializer.hpp:56-64 | the number read is the only one in range that has the bytes found, in either order and sign |
| ProtocolWire.BitWritten | include/emlabcpp/protocol/converter.hpp:407-418 | bit i lies i % 8 from the low end of byte i / 8, counted from the front in big-endian order and from the back otherwise; bits behind the last one are zero |
| ProtocolWire.BitRead | include/emlabcpp/protocol/converter.hpp:420-432 | bits are read from the same places |
| ProtocolLeaves.BytesRoundTrip | include/emlabcpp/protocol/converter.hpp:436-482 | length-prefixed bytes come back |
| ProtocolLeaves.CounterRoundTrip | include/emlabcpp/protocol/converter.hpp:601-646 | a counter comes back modulo its width |
| ProtocolLeaves.TagFound | include/emlabcpp/protocol/converter.hpp:717-733 | the position of a tag is found among distinct ids |
| ProtocolLaws.RoundTrip | include/emlabcpp/protocol/converter.hpp:69-960 | for every definition, byte order and value whose counters fit: decoding the encoding, followed by anything if the definition is self-delimiting, gives the value and consumes exactly the encoding |
| ProtocolLaws.AltFound | include/emlabcpp/protocol/converter.hpp:737-782 | a group finds the alternative whose tag leads the bytes, passing over all others |
| ProtocolLaws.OtherTagFails | include/emlabcpp/protocol/converter.hpp:664-674 | a tag-led tuple with another tag fails without consuming anything |
| ProtocolBounds.SizeBounds | include/emlabcpp/protocol/traits.hpp:76-294 | every encoding is at least min_size and at most max_size bytes long |
| ProtocolTight.BoundAttained | include/emlabcpp/protocol/traits.hpp:76-294 | min_size is the length of some encoding, and so is max_size for definitions without strings |
| ProtocolTight.StringBound | include/emlabcpp/protocol/traits.hpp:241-249 | a string never takes all of its max_size |
| ProtocolTight.StringAttained | include/emlabcpp/protocol/traits.hpp:241-249 | some string takes all of it but one byte |
| ProtocolBounds.UsedInside | include/emlabcpp/protocol/converter.hpp:69-960 | on every input, in success and failure, a decoder that does not read outside its buffer claims no more bytes than there are; the rows below say when one reads outside |
| ProtocolBounds.SizedGuardExact | include/emlabcpp/protocol/converter.hpp:632-645 | the length check of a sized buffer lets its payload run past the end if and only if counter width and value together reach 2^64 and the value is not 2^64-1; that value passes and takes all the rest |
| ProtocolBounds.SizedOutside | include/emlabcpp/protocol/converter.hpp:632-645 | a sized buffer reads outside if and only if its check wrapped at another value than 2^64-1, or its payload reads outside the part it is given |
| ProtocolBounds.OptionalOutside | include/emlabcpp/protocol/converter.hpp:343-391 | an optional reads outside if and only if its buffer is empty or its value does |
| ProtocolBounds.NeverOutside | include/emlabcpp/protocol/converter.hpp:69-960 | a definition without optionals and eight-byte counters never reads outside its buffer, on any input |
| ProtocolBounds.WideCounterOverruns | include/emlabcpp/protocol/converter.hpp:632-645 | an eight-byte counter of 2^64-2 and nothing else makes every sized buffer read outside |
| ProtocolBounds.WideCounterBytes | include/emlabcpp/protocol/converter.hpp:632-645 | FE and seven FF are that counter, lowest byte first |
| ProtocolBounds.AllOnesTakesRest | include/emlabcpp/protocol/converter.hpp:632-645 | behind eight bytes of all ones the payload is decoded from all the rest |
| ProtocolBounds.EmptyPayloadOverruns | include/emlabcpp/protocol/converter.hpp:632-645 | one zero byte does so for a sized buffer around an optional |
| ProtocolOverrun.OverrunExactly | include/emlabcpp/protocol/converter.hpp:69-960 | a definition with unsized messages only at the end, without empty lists, and with counters that can tell the longest payload has an input on which its decoder reads outside if and only if it has an optional or an eight-byte counter |
| ProtocolOverrun.Overrun | include/emlabcpp/protocol/converter.hpp:69-960 | such an input, no longer than an encoding may be |
| ProtocolExtension.ExtensionStable | include/emlabcpp/protocol/converter.hpp:69-960 | for every definition, a success is unchanged by bytes appended, if every tag group met sees a whole tag or bytes that no id starts with, and no message without a length is met, not even in a sized buffer that takes all the rest |
| ProtocolExtension.ExtensionExact | include/emlabcpp/protocol/converter.hpp:69-960 | it is unchanged by all bytes appended if and only if that holds |
| ProtocolExtension.TagGroupExact | include/emlabcpp/protocol/converter.hpp:717-733 | a tag group that took its default is unchanged by all bytes appended if and only if a whole tag was there or no id starts with the bytes |
| ProtocolExtension.ClosedSettled | include/emlabcpp/protocol/converter.hpp:69-960 | definitions without tag groups and messages without a length, except under counters of less than eight bytes, meet the condition on every input |
| ProtocolExtension.EmptyBufferUnstable | include/emlabcpp/protocol/converter.hpp:717-733 | a tag group that decodes an empty buffer and another thing from its own tag |
| ProtocolExtension.AllOnesUnstable | include/emlabcpp/protocol/converter.hpp:632-645 | a self-delimiting sized buffer that decodes eight bytes of all ones, and more with one byte behind them |
| ProtocolBounds.SizedBufferExact | include/emlabcpp/protocol/converter.hpp:601-646 | a sized buffer whose encoding is addressable comes back consuming exactly its encoding if and only if the payload length fits the counter |
| ProtocolExtension.TagDecides | include/emlabcpp/protocol/converter.hpp:664-674 | a tag-led tuple consumes its tag or fails with nothing consumed |
| ProtocolConverter.SerializeInt | include/emlabcpp/protocol/serializer.hpp:43-54 | the shifting loop writes the low bytes of the two's complement number in the wanted order (ProtocolWire.IntByte) and nothing else |
| ProtocolConverter.DeserializeInt | include/emlabcpp/protocol/serializer.hpp:56-64 | the shifting loop reads the number those bytes stand for (ProtocolWire.IntReads) |
| ProtocolConverter.SerializeBits | include/emlabcpp/protocol/converter.hpp:407-418 | the bit loop writes eight bits a byte, lowest first |
| ProtocolConverter.DeserializeBits | include/emlabcpp/protocol/converter.hpp:420-432 | the bit loop reads them back |
| ProtocolConverter.SerializeRange | include/emlabcpp/protocol/converter.hpp:103-118 | elements are written one behind the other and nothing else is touched |
| ProtocolConverter.DeserializeRange | include/emlabcpp/protocol/converter.hpp:120-142 | elements are read one behind the other, stopping at the first failure with its offset |
| ProtocolConverter.SerializeItems | include/emlabcpp/protocol/converter.hpp:187-214 | tuple items are written one behind the other |
| ProtocolConverter.DeserializeItems | include/emlabcpp/protocol/converter.hpp:216-243 | tuple items are read one behind the other, stopping at the first failure |
| ProtocolConverter.DeserializeGroup | include/emlabcpp/protocol/converter.hpp:765-782 | the first alternative that consumes anything decides, also in failure |
| ProtocolConverter.FindTag | include/emlabcpp/protocol/converter.hpp:717-733 | the loop over the ids gives the index of the matching tag |
| ProtocolConverter.SerializeAt | include/emlabcpp/protocol/converter.hpp:69-960 | for every definition the bytes written are its encoding, at the offset given, and nothing else changes |
| ProtocolConverter.Deserialize | include/emlabcpp/protocol/converter.hpp:69-960 | for every definition and input the loop-based decoder gives the specified result, whose values, accepted bytes and rejections the rows below pin down |
| ProtocolAccept.Delivered | include/emlabcpp/protocol/converter.hpp:69-960 | on every input a value delivered lies in its definition: ranges, bounds, lengths, capacities and indices |
| ProtocolAccept.Reencoded | include/emlabcpp/protocol/converter.hpp:69-960 | where every part met has the one form an encoder gives it, encoding the value delivered gives back exactly the bytes taken |
| ProtocolReject.SpellsOne | include/emlabcpp/protocol/converter.hpp:69-101 | enough bytes for a number spell exactly one |
| ProtocolReject.ShortNumber | include/emlabcpp/protocol/converter.hpp:69-101 | too few are refused with the size error at 0 |
| ProtocolReject.ShortMessage | include/emlabcpp/protocol/converter.hpp:436-482 | so are too few for a length |
| ProtocolReject.IntTaken | include/emlabcpp/protocol/converter.hpp:69-101 | an integer is the number its bytes spell |
| ProtocolReject.OffsetTaken | include/emlabcpp/protocol/converter.hpp:515-538 | a shifted integer is the number spelled less the shift, modulo the width |
| ProtocolReject.BoundedRejects | include/emlabcpp/protocol/converter.hpp:569-598 | a bounded number is taken if and only if the number spelled is within the bounds, and refused with the bounds error at 0 otherwise |
| ProtocolReject.TagRejects | include/emlabcpp/protocol/converter.hpp:648-675 | a tag is taken if and only if the number spelled is its id |
| ProtocolReject.BoolTaken | include/emlabcpp/protocol/converter.hpp:69-101 | a boolean is true for the byte 1 only |
| ProtocolReject.MessageRejects | include/emlabcpp/protocol/converter.hpp:436-482 | length-prefixed bytes are refused for a length behind the buffer before one above the capacity, and taken exactly otherwise |
| ProtocolReject.SizelessRejects | include/emlabcpp/protocol/converter.hpp:484-513 | bytes without a length are refused exactly above the capacity |
| ProtocolReject.BitsetTaken | include/emlabcpp/protocol/converter.hpp:420-432 | a bit set is refused exactly when its bytes are missing, and taken bit by bit |
| ProtocolReject.VariantRejects | include/emlabcpp/protocol/converter.hpp:246-315 | an alternative is chosen by the first byte, an unknown one refused, and a failure of the chosen one reported one byte on |
| ProtocolReject.OptionalRejects | include/emlabcpp/protocol/converter.hpp:361-391 | an optional is refused for a byte above 1, absent for 0, and passes on a failure one byte on |
| ProtocolReject.VectorTaken | include/emlabcpp/protocol/converter.hpp:911-960 | a vector reads as many elements as its count says, but at most its capacity |
| ProtocolReject.SizedRejects | include/emlabcpp/protocol/converter.hpp:632-645 | a sized buffer refuses a payload longer than the rest and hands on exactly its length otherwise |
| ProtocolReject.GroupRejects | include/emlabcpp/protocol/converter.hpp:765-782 | a group fails as a whole if no tag leads; the alternative whose tag leads decides otherwise |
| ProtocolReject.TagGroupRejects | include/emlabcpp/protocol/converter.hpp:717-733 | the alternative of the leading id decides, its failure reported behind the id |
| ProtocolReject.TagGroupUnknown | include/emlabcpp/protocol/converter.hpp:717-733 | without a known id nothing is taken and the default is delivered |
| ProtocolReject.TupleFails | include/emlabcpp/protocol/converter.hpp:216-243 | a failing item is reported as far behind the start as the encodings of the items in front are long |
| ProtocolReject.ArrayFails | include/emlabcpp/protocol/converter.hpp:120-142 | the same for the elements of an array |
| Packet.HandlerSerialize | include/emlabcpp/protocol/handler.hpp:45-54 | a message filled at maximal size and cut to the bytes used is the encoding |
| Packet.HandlerExtract | include/emlabcpp/protocol/handler.hpp:56-66 | the value, or the error with its offset |
| Packet.Serialize | include/emlabcpp/protocol/packet_handler.hpp:50-67 | the message is the packet with the checksum of all bytes before it patched in |
| Packet.Extract | include/emlabcpp/protocol/packet_handler.hpp:69-93 | the payload exactly when the stored checksum matches the bytes before it, else the checksum error at that position; decoding errors and reads outside are passed on |
| Packet.PacketRoundTrip | include/emlabcpp/protocol/packet_handler.hpp:50-93 | a serialized packet decodes to prefix, payload and the checksum of its own body, consuming all of it |
| Packet.PacketPieces | include/emlabcpp/protocol/packet_handler.hpp:50-67 | a packet is its prefix, the payload length, the payload and the checksum of all that |
| Packet.PacketEmits | include/emlabcpp/protocol/packet.hpp:73-91 | get_size on a serialized packet is its length, and the sequencer emits it whatever follows |
| Packet.SizesCoverExactly | include/emlabcpp/protocol/packet.hpp:81-90 | every packet size covers the bytes it was read from if and only if the length field is narrower than eight bytes |
| Packet.WrappingHead | include/emlabcpp/protocol/packet.hpp:81-90 | a head with an eight-byte length whose packet size wraps to 0, on which the sequencer is stuck |
| Packet.PacketsParse | include/emlabcpp/protocol/packet_handler.hpp:50-67 | packets sent back to back are parsed into exactly those packets with nothing left over |
| Packet.RestIsShort | include/emlabcpp/protocol/sequencer.hpp:59-112 | between packets the receiver holds less than one message capacity |
| Packet.Transmit | include/emlabcpp/protocol/packet_handler.hpp:50-93 | values sent as packets, cut into any chunks of at most one capacity, sequenced and extracted, are the values again |
| SequencerSpec.ParseAppend | include/emlabcpp/protocol/sequencer.hpp:59-112 | parsing in two pieces, keeping the rest of the first, is parsing at once |
| SequencerSpec.ParseExplains | include/emlabcpp/protocol/sequencer.hpp:59-112 | every byte is part of a message or dropped at a prefix mismatch, and the pass stops where more bytes are needed or at a message of size 0 |
| SequencerSpec.ParseUnique | include/emlabcpp/protocol/sequencer.hpp:59-112 | there is no other such account of the stream |
| SequencerSpec.RequestIsNeeded | include/emlabcpp/protocol/sequencer.hpp:78-102 | with fewer bytes than requested no message can be completed |
| SequencerSpec.WaitingFor | include/emlabcpp/protocol/sequencer.hpp:78-102 | a request is positive and reaches exactly to the end of the fixed part or of the message begun |
| SequencerSpec.ExactReadConsumesAll | include/emlabcpp/protocol/sequencer.hpp:78-111 | if sizes cover their fixed part, a message completed by exactly the requested bytes is all that was held and read: nothing is left over or dropped |
| Sequencer.ReadExactly | include/emlabcpp/protocol/sequencer.hpp:53-112 | a whole run of a reader that supplies exactly the requested bytes: it gets all messages of the stream, stands right behind each of them, and never holds more than one message capacity |
| SequencerSpec.MismatchDrops | include/emlabcpp/protocol/sequencer.hpp:63-76 | a byte is dropped if and only if the prefix mismatches at it |
| SequencerSpec.MessageEmits | include/emlabcpp/protocol/sequencer.hpp:91-111 | a message of n bytes is emitted if and only if it starts with the prefix and its size field says n |
| Sequencer.NextParses | include/emlabcpp/protocol/sequencer.hpp:59-112 | repeated calls deliver the messages of the greedy parse one by one |
| Sequencer.FullRingLosesByte | include/emlabcpp/protocol/sequencer.hpp:61-76 | a full power-of-two ring loses its first byte, whatever is in it; this is harmless if and only if the prefix mismatches there |
| Sequencer.Receiver.Insert | include/emlabcpp/protocol/sequencer.hpp:53-57 | appends the bytes |
| Sequencer.Receiver.MismatchAt | include/emlabcpp/protocol/sequencer.hpp:63-64 | the length of the common start |
| Sequencer.Receiver.GetMessage | include/emlabcpp/protocol/sequencer.hpp:59-112 | if the next message is not longer than a message may be, result and remaining bytes are those of the pure step on the whole buffer, except that a full overflowing ring is seen without its first byte |
| Sequencer.StuckRepeats | include/emlabcpp/protocol/sequencer.hpp:59-112 | a call delivers an empty message and leaves the buffer as it is if and only if the buffer begins with a message of size 0 |
| Sequencer.Receiver.Feed | include/emlabcpp/protocol/sequencer.hpp:53-112 | any chunking, drained after each chunk, gives the messages and rest of one parse of the whole stream |
| Rpc.OnMessage | include/emlabcpp/experimental/rpc.hpp:115-132 | the reply bytes are the encoding of the handler's answer, or of the reported error |
| Rpc.MakeCallMsg | include/emlabcpp/experimental/rpc.hpp:177-185 | the request of the call with that id |
| Rpc.RequestBytes | include/emlabcpp/experimental/rpc.hpp:177-185 | a request is the id of its call and the arguments |
| Rpc.ReplyBytes | include/emlabcpp/experimental/rpc.hpp:115-132 | a reply is a zero, the id and the result |
| Rpc.ErrorBytes | include/emlabcpp/experimental/rpc.hpp:115-132 | an error is a one and the record |
| Rpc.OnReplyMsg | include/emlabcpp/experimental/rpc.hpp:187-211 | the reply of the expected call, or which error: unreadable, reported by the reactor, or of another call |
| Rpc.Call | include/emlabcpp/experimental/rpc.hpp:167-175 | a call sent to a reactor and back returns exactly what the handler of that id computed from the decoded arguments |
| Rpc.UnknownCallRunsFirst | include/emlabcpp/protocol/converter.hpp:717-733 | bytes that start with no known id run the first procedure with default arguments |
| Rpc.RejectedExactly | include/emlabcpp/experimental/rpc.hpp:115-132 | a request is rejected if and only if its id is known and its arguments do not decode |
| Rpc.RejectedPlace | include/emlabcpp/experimental/rpc.hpp:129-131 | the error handed on has the mark of the failed argument and its place behind the id |
| Ring.SizeDivides | include/emlabcpp/static_circular_buffer.hpp:40-51 | a power-of-two size divides the range of its index type |
| Ring.SlotOfCounter | include/emlabcpp/static_circular_buffer.hpp:76-94 | the slot of a wrapped index is the unbounded count modulo the number of slots |
| Ring.SizeOfCounters | include/emlabcpp/static_circular_buffer.hpp:96-101 | occupancy from wrapped indices is the difference of the unbounded counts, in both strategies |
| Ring.AdvanceCounter | include/emlabcpp/static_circular_buffer.hpp:137-160 | advancing a wrapped index is advancing the unbounded count |
| Ring.LastSlot | include/emlabcpp/static_circular_buffer.hpp:182-185 | the last index is the slot in front of the write position |
| Ring.RunsAppend | include/emlabcpp/static_circular_buffer.hpp:416-429 | data laid down in at most two runs around the end of the storage is appended to the window |
| CircularBuffer.JumpIsMod | include/emlabcpp/static_circular_buffer.hpp:579-608 | an iterator jump in either direction lands modulo the ring |
| CircularBuffer.Queue.PushBack | include/emlabcpp/static_circular_buffer.hpp:399-413 | appends one element |
| CircularBuffer.Queue.PopFront | include/emlabcpp/static_circular_buffer.hpp:334-338 | removes the first element |
| CircularBuffer.Queue.TakeFront | include/emlabcpp/static_circular_buffer.hpp:309-314 | removes and returns the first element |
| CircularBuffer.Queue.PopFrontN | include/emlabcpp/static_circular_buffer.hpp:341-352 | removes the first k elements |
| CircularBuffer.Queue.TakeFrontN | include/emlabcpp/static_circular_buffer.hpp:317-331 | moves the first elements into a target, in at most two runs |
| CircularBuffer.Queue.CopyRangeBack | include/emlabcpp/static_circular_buffer.hpp:416-429 | appends a range, in at most two runs |
| CircularBuffer.Queue.Front | include/emlabcpp/static_circular_buffer.hpp:297-306 | the first element |
| CircularBuffer.Queue.Back | include/emlabcpp/static_circular_buffer.hpp:387-396 | the last element |
| CircularBuffer.Queue.Size | include/emlabcpp/static_circular_buffer.hpp:454-457 | the number of elements held |
| CircularBuffer.Queue.Full | include/emlabcpp/static_circular_buffer.hpp:466-469 | full exactly when n elements are held |
| CircularBuffer.Queue.Empty | include/emlabcpp/static_circular_buffer.hpp:460-463 | empty exactly when no element is held |
| CircularBuffer.Queue.Clear | include/emlabcpp/static_circular_buffer.hpp:472-475 | drops all elements |
| CircularBuffer.Queue.Assign | include/emlabcpp/static_circular_buffer.hpp:243-250 | clears and takes the elements of the other buffer, copied one by one |
| CircularBuffer.Queue.AssignBytes | include/emlabcpp/static_storage.hpp:36-49 | with elements copied as bytes: the copies stay inside the source if and only if its elements do not go around the end of its storage or both buffers start at the same slot, and then the elements of the other buffer are taken |
| CircularBuffer.BlocksInsideExactly | include/emlabcpp/static_storage.hpp:36-49 | the same condition for two block copies between rings of any size |
| CircularBuffer.Queue.Walk | include/emlabcpp/static_circular_buffer.hpp:264-372 | from begin to end all elements are met in order, except that a full buffer with overflowing indices yields none |
| CircularBuffer.Queue.Equals | include/emlabcpp/static_circular_buffer.hpp:498-507 | equal exactly when sizes and elements agree, except that full buffers with overflowing indices always compare equal |
| RingSpsc.SpacerDecision | include/emlabcpp/static_circular_buffer.hpp:96-111 | the spacer size with its index reloaded between two loads says full exactly when the later load is n behind |
| RingSpsc.SpacerSizeExact | include/emlabcpp/static_circular_buffer.hpp:96-101 | that size is the occupancy at the later load, or one round too much within the width of the index exactly when the consumer passed the end between the loads |
| RingSpsc.SizeTooSmall | include/emlabcpp/static_circular_buffer.hpp:96-101 | it is below the occupancy if and only if the consumer did so and the sum leaves the width |
| RingSpsc.SizeTooSmallAt200 | include/emlabcpp/static_circular_buffer.hpp:96-101 | 200 elements, an index of one byte, 100 held: the answer is 45 |
| RingSpsc.FullVerdict | include/emlabcpp/static_circular_buffer.hpp:96-111 | the producer finds the buffer full exactly by the last head it loaded, and "not full" leaves a free slot now |
| RingSpsc.EmptyVerdict | include/emlabcpp/static_circular_buffer.hpp:103-106 | the consumer finds the buffer empty exactly by the last tail it loaded, and "not empty" means there is an element |
| RingSpsc.StepKeepsInv | include/emlabcpp/static_circular_buffer.hpp:309-413 | every atomic step of producer or consumer, of single elements or of ranges, keeps the invariant |
| RingSpsc.RunKeepsInv | include/emlabcpp/static_circular_buffer.hpp:309-413 | so does every interleaving |
| RingSpsc.SafeInEveryRun | include/emlabcpp/static_circular_buffer.hpp:202-208 | in every run of single and range operations the consumed items are a prefix of the produced ones with at most n between them, no faulty access occurs, a slot about to be written is free and untouched, and a slot about to be read holds an item |
| RingSpsc.SentInEveryRun | include/emlabcpp/static_circular_buffer.hpp:399-450 | in every run, what was put into the ring is the front of what the callers sent, in their order, and all of it when the producer is at rest; what was taken is the front of what they sent |
| RingSpsc.ClaimedInEveryRun | include/emlabcpp/static_circular_buffer.hpp:309-352 | when the consumer is at rest it has got as many elements as it set out to take |
| RingSpsc.ProducerGoesOn | include/emlabcpp/static_circular_buffer.hpp:399-450 | a begun operation of the producer can always take a step, whatever the consumer does |
| RingSpsc.ConsumerGoesOn | include/emlabcpp/static_circular_buffer.hpp:309-352 | so can one of the consumer |
| RingSpsc.StepsBringNearer | include/emlabcpp/static_circular_buffer.hpp:309-450 | each step of a side brings its operation nearer to its end and leaves the other side where it is |
| CobsSpec.EncodedLength | include/emlabcpp/experimental/cobs.hpp:34-91 | the encoding is one byte longer than the input, plus one for each full block, and there are at most a 254th as many of these as input bytes |
| CobsSpec.EncodedHasNoZero | include/emlabcpp/experimental/cobs.hpp:34-91 | no byte of an encoding is zero |
| CobsSpec.DecodeEncode | include/emlabcpp/experimental/cobs.hpp:34-163 | decoding undoes encoding, for every byte string |
| CobsSpec.DecodeUnstuffs | include/emlabcpp/experimental/cobs.hpp:93-126 | on all bytes the decoder delivers what the blocks say: their data, and a zero between blocks unless the code was 255; a code of 0 counts for 255 data bytes |
| CobsSpec.EncodeInjective | include/emlabcpp/experimental/cobs.hpp:34-91 | different inputs have different encodings |
| CobsSpec.DecodeRun | include/emlabcpp/experimental/cobs.hpp:93-126 | inside a block the data bytes come out as they are |
| CobsSpec.OpenZero | include/emlabcpp/experimental/cobs.hpp:47-51 | a zero closes the open block with the length of its run |
| CobsSpec.OpenFull | include/emlabcpp/experimental/cobs.hpp:58-62 | the byte that fills a block closes it with code 255 |
| Cobs.CobsEncoder.Insert | include/emlabcpp/experimental/cobs.hpp:42-65 | answers true exactly when the encoding so far is shorter than the target, keeps the buffer laid out, and a false answer is final |
| Cobs.CobsEncoder.Commit | include/emlabcpp/experimental/cobs.hpp:67-71 | fills in the last code: the target starts with the encoding and is untouched behind it |
| Cobs.EncodeCobs | include/emlabcpp/experimental/cobs.hpp:80-91 | succeeds if and only if the input is empty or its encoding is shorter than the target, and then the target starts with the encoding |
| Cobs.CobsDecoder.Iter | include/emlabcpp/experimental/cobs.hpp:93-126 | one step of the decoder |
| Cobs.DecodeCobs | include/emlabcpp/experimental/cobs.hpp:143-163 | delivers the decoded bytes, and succeeds if and only if they are fewer than the target has room for |
| CobsView.DecodeCobsIter.Increment | include/emlabcpp/experimental/cobs.hpp:200-209 | steps to the next byte that stands for a value, over the code behind a full block |
| CobsView.WalkView | include/emlabcpp/experimental/cobs.hpp:200-235 | walking the decoding view on all data on which it ends yields the decoded bytes in front of the first zero and stops there |
| CobsView.ViewExact | include/emlabcpp/experimental/cobs.hpp:184-235 | on all data: the view ends, with the decoded bytes in front of the first zero, if and only if there are any and their last block is not a full one that ends with them |
| CobsView.EndsFullExactly | include/emlabcpp/experimental/cobs.hpp:93-126 | the decoder stands on a code without a value behind some bytes exactly when the last block is such a full one |
| CobsView.EncodedEndsOpen | include/emlabcpp/experimental/cobs.hpp:34-91 | the encoder never ends with a full block |
| CobsView.ViewEncoded | include/emlabcpp/experimental/cobs.hpp:184-235 | the view of an encoding, alone or followed by a zero and anything, is the input |
| CobsView.FullBlockOverruns | include/emlabcpp/experimental/cobs.hpp:200-209 | a full block at the very end, on which the view does not end |
| Align.AlignAddrExact | include/emlabcpp/pmr/util.hpp:33-38 | with wrapping 64-bit arithmetic the mask trick gives the next multiple, and the padding is exact even where the address wraps to 0 |
| Align.RoundUpLeast | include/emlabcpp/pmr/util.hpp:33-38 | the next multiple is aligned, not below, and the smallest such |
| StackChain.SetThenGet | include/emlabcpp/pmr/stack_resource.hpp:131-151 | a stored node is read back |
| StackChain.NodeBytes | include/emlabcpp/pmr/stack_resource.hpp:131-151 | where the two pointers of a node lie |
| StackChain.BlocksApart | include/emlabcpp/pmr/stack_resource.hpp:62-82 | live blocks are disjoint with room for a node between them, and inside the arena |
| StackChain.BlockMissesNode | include/emlabcpp/pmr/stack_resource.hpp:62-82 | no live block meets a node |
| StackChain.PushChained | include/emlabcpp/pmr/stack_resource.hpp:75-79 | an allocation keeps the stored chain equal to the live blocks in address order |
| StackChain.PushKeeps | include/emlabcpp/pmr/stack_resource.hpp:75-79 | an allocation leaves the bytes of every live block alone |
| StackChain.UnlinkChained | include/emlabcpp/pmr/stack_resource.hpp:97-108 | unlinking any block, in any order, keeps the stored chain equal to the live blocks |
| StackChain.UnlinkKeeps | include/emlabcpp/pmr/stack_resource.hpp:97-108 | and leaves the bytes of every live block alone |
| StackChain.UserStore | include/emlabcpp/pmr/stack_resource.hpp:62-82 | a caller's store into its block touches neither the chain nor another block |
| Stack.StackResource.constructor | include/emlabcpp/pmr/stack_resource.hpp:51-55 | an empty arena with the root node in place |
| Stack.StackResource.Allocate | include/emlabcpp/pmr/stack_resource.hpp:62-82 | gives the lowest aligned address at or above the top exactly when block and node fit behind it; a failure changes nothing; other blocks keep their bytes |
| Stack.StackResource.Deallocate | include/emlabcpp/pmr/stack_resource.hpp:84-111 | refuses exactly the ranges that cannot lie in the arena; otherwise removes the named live block, wherever it is, and keeps all others |
| Stack.StackResource.IsFull | include/emlabcpp/pmr/stack_resource.hpp:118-121 | full exactly when no block of at least a byte fits, whatever its alignment |
| Stack.FullMeans | include/emlabcpp/pmr/stack_resource.hpp:118-121 | the size test is equivalent to that |
| Stack.EmptyBlockFitsFull | include/emlabcpp/pmr/stack_resource.hpp:118-121 | a block of no bytes fits a full resource exactly when the room of one node is left |
| Stack.NamesOne | include/emlabcpp/pmr/stack_resource.hpp:84-111 | a pointer names at most one live block |
| Stack.StackResource.ReleaseAll | include/emlabcpp/pmr/stack_resource.hpp:84-111 | giving back every live block in whatever order restores the initial top |
| RoundRobin.RequestReply.Tick | include/emlabcpp/experimental/coro/request_reply.hpp:154-166 | resumes the body exactly when it waits for a reply and has one; the body receives that reply and the next request is set |
| RoundRobin.RequestReply.Resume | include/emlabcpp/experimental/coro/request_reply.hpp:97-101 | the resumed body yields its next request or returns |
| RoundRobin.RoundRobinRun | include/emlabcpp/experimental/coro/round_robin_executor.hpp:34-60 | the loop is a run of visits in cyclic order; each child has received exactly the replies to its own requests, in order; it ends when all children are done, or suspended at the request of exactly the child whose turn it is |
| RoundRobin.RunToEnd | include/emlabcpp/experimental/coro/round_robin_executor.hpp:34-60 | with finite children and enough replies it ends, after exactly as many requests as the children make together |
| RoundRobinSpec.RunUnique | include/emlabcpp/experimental/coro/round_robin_executor.hpp:34-60 | the replies alone determine the run |
| RoundRobinSpec.OneMoreReply | include/emlabcpp/experimental/coro/round_robin_executor.hpp:49-58 | one more reply goes to exactly the child whose request is pending |
| RoundRobinSpec.Around | include/emlabcpp/experimental/coro/round_robin_executor.hpp:40-41 | the first visit is the first child's, and after each child comes the next one around the container |
| RoundRobinSpec.Routed | include/emlabcpp/experimental/coro/round_robin_executor.hpp:49-58 | every request passed on is what its child asks after exactly the replies to its earlier requests |
| RoundRobinSpec.Fair | include/emlabcpp/experimental/coro/round_robin_executor.hpp:38-58 | between two consecutive turns of a child every other child live at the first one has exactly one turn, and no other child has any |
| RoundRobinSpec.OneRound | include/emlabcpp/experimental/coro/round_robin_executor.hpp:40-41 | consecutive turns of a child are one round apart |
| RoundRobinSpec.Conserved | include/emlabcpp/experimental/coro/round_robin_executor.hpp:54-58 | no reply is lost or delivered twice |
| RoundRobinSpec.NotYetEnough | include/emlabcpp/experimental/coro/round_robin_executor.hpp:34-60 | while a child still has a request, the replies so far are fewer than the children can ask for |

## Left out

- Power loss in the middle of an update and failing callbacks: the callbacks of the store behave like
  the helpers at the end of `handler.hpp`. `InterruptedRotation` says what a repeated rotation does.
- CfgHandler.Store.Update: does not model configurations with values of other lengths than at most four
  or a multiple of eight bytes, which a load does not give back (`CfgHandler.Store.StoreThenLoad`), or
  with values that do not fit the work buffer with their tail cell.
- Hosts whose sizes and pointers are not 64 bits wide: `SIZE_LIMIT` and `NODE_SIZE` are fixed. With
  32-bit sizes the sum of a sized buffer or of a packet wraps for four-byte counters in the same way.
- Hosts with another byte order than little-endian for the cells of the store and the nodes of the
  stack allocator.
- ProtocolLaws.RoundTrip: definitions with more than 64 items in one node, because the index helpers
  start over at 32; groups other than tag-led tuples with distinct tags of one type; payloads of 2^64-1
  bytes in a sized buffer, which no memory holds.
- `error_record` (its `used` omits the mark), `memcpy_converter`, and the quantities, durations,
  enumerations and decomposed structures that only forward to a modelled converter; floats are their
  32-bit patterns.
- Signed integers under `value_offset`.
- The checksum function of a packet, call handlers and error reports are parameters.
- Packet.Transmit: chunks longer than one message capacity. The receiver's ring holds two, and a full
  ring loses a byte (`Sequencer.FullRingLosesByte`).
- Sequencer.Receiver.Feed: messages whose size field exceeds the message capacity, which the original
  asserts against when it builds the message, and streams on which it hands out empty messages forever.
- Cobs.DecodeCobs: a target of no byte with something to decode, where the original writes behind the
  target.
- Cobs.EncodeCobs: a target of no byte, or of one byte with a non-empty source, where the original writes
  behind the target.
- The width of call ids: it is one byte in the original, because its message types are sized from the
  value variant (`rpc.hpp:84, 87`) and wider ids do not compile. The model allows every width.
- Binding of class members to calls and storing of callbacks in the remote call wrapper.
- Construction, moves and destruction of elements: slots hold values, and a moved-from or deleted slot
  is one that is not in the queue.
- CircularBuffer.Queue.AssignBytes: what a buffer holds after a copy read outside of the source.
- RingSpsc.SafeInEveryRun: range operations of a caller that does not know of the room or of the
  elements, as the code does not ask. An element moved out by a range counts as destroyed.
- The shared ring under memory orders weaker than sequential consistency or with more than one producer
  or consumer, and a buffer so large that an index sum passes 64 bits.
- Stack.StackResource.Deallocate: a pointer inside the arena that names no live block, for which the
  original follows whatever is stored there.
- The pool resource, the new/delete resource and the container adaptors.
- Coroutine frames and their allocation: a child is the function from the replies it received to its
  next request. A handle without a coroutine, which `done` would dereference, is not modelled.
- The sequencer's load helper, the register map, static vector, bounded and other small containers,
  geometry, matrices, quantities, JSON and printing.
