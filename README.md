# mruby-inotify, modelled in Dafny

mruby-inotify is a small mruby gem that wraps Linux inotify. This project models its core and proves properties of the model.

Besides the system-call wrappers `new`, `add_watch`, `rm_watch`, `read_events` and `close`, and the class registration, the C part `src/inotify.c` holds four pieces of logic:
- the flag encoder, which turns symbolic flag names into the mask handed to `inotify_add_watch`;
- the flag decoder, which turns an event mask back into names;
- the construction of an `Inotify::Event` from one kernel record;
- the loop in `read_events` that walks the records one `read` left in the buffer.

The Ruby part, `mrblib/notifier.rb`, is the `Inotify::Notifier` class. It keeps the `@watchers` table from watch descriptor to path and block, and it dispatches every event to the block registered for its descriptor.

There is one file per part of the source:

- `wrappers.dfy` (module `Wrappers`): `Option`, `Result`, and the four Ruby exceptions the code raises.
- `flags.dfy` (module `Flags`):
  - the 24 flag names and their bits from `<sys/inotify.h>`;
  - the encoder `FlagsToMask`, a loop that ORs table values and raises on the first unknown name;
  - the decoder `MaskToFlags`, one table row after another, in the source's order.

  A mask is the set of its one-bit positions, so OR is union and `mask & bits != 0` is set intersection.
- `events.dfy` (module `Events`):
  - records as a byte buffer, with header fields read as little-endian 32-bit words;
  - `EventFromStruct`;
  - the record offsets of a framed buffer;
  - the framing loop `ParseBuffer`.
- `watchers.dfy` (module `Watchers`): `@watchers` as a Ruby Hash, modelled as a sequence of entries in insertion order with distinct keys. Storing under a present key replaces the value in place. Storing under a new key appends. `delete` keeps the other entries in order.
- `notifier.dfy` (module `Inotify`): class `Notifier`.
  - Its fields are `fd`, `watchers` and `stop`.
  - It has the C methods `new`, `add_watch`, `rm_watch` and `read_events`, and the Ruby methods `initialize`, `watch`, `unwatch_by_wd`, `unwatch_by_path`, `process`, `stop` and `run`.
  - `new`, `add_watch`, `rm_watch` and `stop` state their results and new state directly; `add_watch`'s answer is the predicate `AddWatchAnswers`, over the encoder's specification `MaskOf`.
  - `read_events` is proved against `DecodedEvents`, the events of the records of a framed buffer.
  - `watch`, `unwatch_by_wd` and `unwatch_by_path` are proved against the table functions `Put`, `Delete`, `Get` and `FindByPath`.
  - `process` and the per-event loop `HandleEvents` are proved against `ProcessBatch`, built on `Handled` (the events it gets through) and `Dispatch` (the calls it makes); `run` is proved against `RunSpec` (how `run` ends).

The system calls are parameters:
- `inotify_add_watch` and `inotify_rm_watch` are functions standing for the kernel's answer, where -1 means failure.
- `inotify_init` is the descriptor it returned.
- A `read` is the count it returned together with the bytes in the buffer.

A block is an opaque handle, and `watch` may be given none: calling the missing block raises `NoMethodError`. A function `stopsOn` tells, for each call of a block with an event, whether that call calls `stop` on the notifier, so a block may stop on some events and not on others. No block does anything else to the notifier.

A symbol other than the 24 flag names is `Symbol.Other`, whose name has the type `OtherName`: strings that spell none of the flag names.

The Linux kernel promises well-formed framing: whole records, and a NUL in every non-empty name field. The model requires this of every successful read, as the predicate `Framed`.

Three consequences of the code are worth stating:
- **The decoder emits aliases.** The decoder table holds `close` and `move` (src/inotify.c:78 and 88), so the decoder emits them whenever one of their constituent bits is set.
- **`decode(encode([s]))` is not always `[s]`.** `DecodeCloseWrite` shows that `[close_write]` comes back as `[close_write, close]`. `DecodeAllEvents` shows that `all_events` comes back as the fourteen activity names.
- **There is no closed state.** `close` (src/inotify.c:207-216) only closes the descriptor; no method checks for a closed notifier, so nothing fails with an invalid-state error after it.

## Model

| member | source | states |
|---|---|---|
| Flags.Bits | src/inotify.c:29-53 | every flag has at least one bit |
| Flags.AliasesAreUnions | src/inotify.c:29-46 | `close`, `move` and `all_events` have exactly the bits of the flags they stand for |
| Flags.TablesDistinct | src/inotify.c:29-53 | no name occurs twice in the encoder's table or in the decoder's table |
| Flags.EncodableIsInTable | src/inotify.c:29-58 | a symbol is accepted by the encoder exactly when it is one of the 20 names it compares against |
| Flags.FlagsToMask | src/inotify.c:17-63 | success exactly when every name is accepted, with the mask the OR of their values; otherwise `ArgumentError "unknown flag :name"` for the first rejected name in input order; the empty list gives the empty mask |
| Flags.UnknownFlagMessage | src/inotify.c:56-57 | the message is `unknown flag :` followed by the symbol's name |
| Flags.MaskOf | src/inotify.c:24-26 | the OR of the accepted names' values, from the left; no contract of its own, its meaning is stated by `MaskOfIsBitwiseOr` and `MaskOfEmpty` |
| Flags.MaskOfEmpty | src/inotify.c:21-26 | only the empty list encodes to the empty mask, since every accepted name has a bit |
| Flags.MaskOfIsBitwiseOr | src/inotify.c:24-26 | a bit is in the encoded mask exactly when it is a bit of one of the input names |
| Flags.MaskOfSameNames | src/inotify.c:21-26 | lists with the same names, in any order and with any repetitions, encode to the same mask |
| Flags.Pick | src/inotify.c:70-72 | one `READ_FLAG` line; no contract of its own, its meaning is stated by `ScanMember` |
| Flags.Scan | src/inotify.c:74-95 | the first `n` `READ_FLAG` lines in order; no contract of its own, its meaning is stated by `ScanMember`, `ScanOrdered`, `ScanBounds`, `ScanSkips` and `ScanKeeps` |
| Flags.ScanBounds | src/inotify.c:70-72 | a scan of `n` rows yields at most `n` flags, and none from the empty mask |
| Flags.MaskToFlags | src/inotify.c:65-98 | the decoder yields at most one flag per row of its table, and nothing for the empty mask |
| Flags.ScanMember | src/inotify.c:70-72 | a flag is in the scan of the first `n` rows exactly when it is one of those rows and its bits meet the mask |
| Flags.ScanOrdered | src/inotify.c:70-72 | a scan's flags come in strictly increasing table position, all among the scanned rows |
| Flags.DecodeMember | src/inotify.c:65-98 | a flag is decoded exactly when it is in the decode table and `mask & value != 0` |
| Flags.DecodeOrdered | src/inotify.c:74-95 | decoded flags come in the table's order, each at most once |
| Flags.DecodableIsInTable | src/inotify.c:74-95 | the decode table holds every flag except `all_events` and the five option flags |
| Flags.DecodeRestricted | src/inotify.c:74-95 | `all_events`, `oneshot`, `onlydir`, `dont_follow`, `excl_unlink` and `mask_add` are never decoded |
| Flags.DecodeCloseAndMove | src/inotify.c:76-88 | `close` is decoded exactly when `close_write` or `close_nowrite` is, and `move` exactly when `moved_from` or `moved_to` is |
| Flags.MaskOfSingleton | src/inotify.c:24-26 | a one-name list encodes to that name's value |
| Flags.DecodeEncodeActivity | src/inotify.c:29-44 | each of the fourteen activity names is accepted and is among the names decoded from its own mask |
| Flags.ScanSkips | src/inotify.c:70-72 | rows whose bits miss the mask add nothing to the decoded list |
| Flags.ScanKeeps | src/inotify.c:70-72 | rows whose bits meet the mask all come out, in table order |
| Flags.BitsFromSpec | src/inotify.c:115-116 | a position is among the bits taken from a word shifted right by `i` exactly when it lies in `i .. 31` and the word's bit at (position - i) is 1 |
| Flags.MaskOfWordSpec | src/inotify.c:115-116 | a bit position is in the mask of a word exactly when it is below 32 and that bit of the word is 1, so `Meets` on it is the C test `mask & y != 0` |
| Flags.CloseWriteMeetsRows | src/inotify.c:76-78 | the bit of `close_write` meets exactly the rows `close_write` and `close` |
| Flags.DecodeCloseWrite | src/inotify.c:74-95 | `[close_write]` is accepted and decodes to `[close_write, close]`, not to itself |
| Flags.AllEventsMeetsActivityRows | src/inotify.c:74-95 | the bits of `all_events` meet exactly the fourteen activity rows |
| Flags.ActivityRowsFirst | src/inotify.c:74-89 | the decode table opens with the fourteen activity names |
| Flags.DecodeActivityMask | src/inotify.c:74-95 | a mask meeting exactly the activity rows decodes to the fourteen activity names |
| Flags.DecodeAllEvents | src/inotify.c:46 | `[all_events]` is accepted and decodes to the fourteen activity names, aliases included |
| Events.U32At | src/inotify.c:199 | a header word read from four little-endian bytes is below 2^32 |
| Events.Int32Of | src/inotify.c:109-110 | the `int wd` field is the word read as two's complement: in the 32-bit signed range and congruent modulo 2^32 |
| Events.RecordSize | src/inotify.c:201 | the loop advances by at least the 16-byte header |
| Events.RecordFits | src/inotify.c:198-201 | a whole record starts before the end of the valid bytes |
| Events.Framed | src/inotify.c:198-202 | from a framed offset, either nothing is left or at least a 16-byte header is |
| Events.RawAt | src/inotify.c:199 | the record at an offset carries its `len` field, a name field of exactly `len` bytes, and 32-bit mask and cookie |
| Events.CString | src/inotify.c:114 | the copied name is the prefix of the field before its first NUL: a prefix with no NUL, followed by a NUL when shorter than the field |
| Events.EventFromStruct | src/inotify.c:100-119 | `wd` and `cookie` are copied unchanged; `name` is absent exactly when `len == 0`; `watched_path` is not set |
| Events.EventFlags | src/inotify.c:115-116 | an event's flags are the decode-table flags whose bits meet the record's mask |
| Events.EventName | src/inotify.c:113-114 | a present name is a proper prefix of the name field, holds no NUL, and is followed by one |
| Events.Starts | src/inotify.c:198-202 | the record offsets of a framed stretch: none exactly when it is empty, each holding a whole record before its end |
| Events.StartsStep | src/inotify.c:198-202 | after the record at the first offset comes the framed rest, whose offsets follow it |
| Events.DecodedEvents | src/inotify.c:198-202 | a read yields one event per record offset, none from zero bytes, and none with `watched_path` set |
| Events.EventsAtSnoc | src/inotify.c:198-202 | one more record adds its event at the end |
| Events.SpanOfCons | src/inotify.c:201 | the size of a run of records is the first record's size plus the size of the rest |
| Events.RecordOffsets | src/inotify.c:198-202 | record `k` starts at the start offset plus the sum of header size plus `len` over the records before it |
| Events.DecodedEventAt | src/inotify.c:198-202 | a read yields one event per record, and event `k` is the event of the record at the sum of the earlier records' sizes |
| Events.RecordsSpan | src/inotify.c:198-202 | the records cover the valid bytes exactly, so the loop stops at `nread` |
| Events.ParseBuffer | src/inotify.c:198-202 | the loop yields the events of the records in buffer order; `nread == 0` yields none |
| Watchers.KeysAt | mrblib/notifier.rb:20 | a descriptor is a key exactly when some entry holds it |
| Watchers.UniqueKeysPairwise | mrblib/notifier.rb:20 | no two entries of the table hold the same descriptor |
| Watchers.Get | mrblib/notifier.rb:37 | a lookup finds a watcher exactly when the descriptor is a key |
| Watchers.GetEntry | mrblib/notifier.rb:37 | the watcher found is the one stored with the descriptor |
| Watchers.Put | mrblib/notifier.rb:20 | after storing, the descriptor maps to the new watcher and every other key to what it did; keys gain the descriptor; keys stay unique; a new descriptor is appended |
| Watchers.PutAt | mrblib/notifier.rb:20 | storing under a present descriptor replaces that entry in place and nothing else |
| Watchers.Delete | mrblib/notifier.rb:32 | after deleting, the descriptor is gone, every other key maps to what it did, keys stay unique, and deleting a missing key changes nothing |
| Watchers.DeleteAt | mrblib/notifier.rb:32 | deleting removes exactly that entry, the others keeping their order |
| Watchers.FindByPath | mrblib/notifier.rb:25 | nothing is found exactly when no entry watches the path; otherwise the descriptor of the first entry, in table order, that does |
| Watchers.DeletePutNew | mrblib/notifier.rb:18-33 | watching a new descriptor and then removing it gives back the table |
| Watchers.DeletePutPresent | mrblib/notifier.rb:18-33 | re-watching a present descriptor and then removing it is the same as removing it |
| Watchers.FindAfterPut | mrblib/notifier.rb:18-28 | right after a path is watched, a watcher for that path is found |
| Inotify.Handled | mrblib/notifier.rb:36-40 | `process` gets through a prefix of the batch, in which every watcher has a block; when it stops short, the next event's watcher has no block |
| Inotify.HandledAt | mrblib/notifier.rb:36-40 | when the events before `i` all have blocks and event `i` (if any) has a watcher without one, `process` gets through exactly the first `i` events |
| Inotify.CompletesIffHaveBlocks | mrblib/notifier.rb:36-40 | `process` gets through the whole batch exactly when no event's watcher lacks a block, and then it makes the calls `Dispatch` gives for all of it |
| Inotify.RoundRaisesAtBlockless | mrblib/notifier.rb:38-40 | the first event whose watcher has no block stops the round short, after the calls for the events before it |
| Inotify.Dispatch | mrblib/notifier.rb:35-42 | one read causes at most one call per event |
| Inotify.Deliver | mrblib/notifier.rb:37-40 | one event causes at most one call, and none exactly when its descriptor has no watcher |
| Inotify.RoundCalls | mrblib/notifier.rb:35-42 | one round causes at most one call per event |
| Inotify.DispatchSnoc | mrblib/notifier.rb:36-41 | one more event adds its call, if any, at the end |
| Inotify.DispatchStep | mrblib/notifier.rb:36-41 | the first `i + 1` events cause the calls of the first `i` and then that event's call |
| Inotify.DispatchAppend | mrblib/notifier.rb:36-41 | calls follow the order of events: two batches cause the calls of the first, then those of the second |
| Inotify.DispatchSound | mrblib/notifier.rb:37-40 | every call goes to the block of the watcher of one of the events, with `watched_path` set to that watcher's path |
| Inotify.DispatchComplete | mrblib/notifier.rb:37-40 | every event whose descriptor has a watcher is delivered to that watcher's block |
| Inotify.DispatchUnwatched | mrblib/notifier.rb:38 | events whose descriptors have no watcher cause no call |
| Inotify.StopsAppend | mrblib/notifier.rb:14-16 | two batches of calls include one that calls `stop` exactly when one of them does |
| Inotify.ReadOk | src/inotify.c:194-202 | a successful read that returned any bytes returned at least one 16-byte header |
| Inotify.AfterAfter | mrblib/notifier.rb:9-12 | the calls of earlier rounds stack up in order |
| Inotify.Batch | src/inotify.c:194-202 | a reply to `read` gives no batch exactly when it reports failure |
| Inotify.Batches | src/inotify.c:194-202 | there is one batch per reply |
| Inotify.ProcessBatch | mrblib/notifier.rb:35-42 | a failed read raises `SystemCallError` with no call; otherwise the round makes the calls for the events it gets through, and raises `NoMethodError` exactly when it stops short of the end |
| Inotify.RunSpec | mrblib/notifier.rb:9-12 | a `run` that stops has done at least one round and no more rounds than there were reads |
| Inotify.RunRound | mrblib/notifier.rb:9-12 | after rounds that did not stop, the next round's raise, stop or return decides how `run` ends or goes on, and its calls stop the loop exactly when that round's calls do |
| Inotify.RunStopsAtFirstStop | mrblib/notifier.rb:9-16 | when `run` stops after `n` rounds, round `n` got through its batch and made a call that calls `stop`, and every earlier round got through its batch and made none |
| Inotify.RunRaises | mrblib/notifier.rb:9-12 | when `run` raises, some round raised it, `SystemCallError` from a failed read or `NoMethodError` from a watcher without a block, and every earlier round went on |
| Inotify.RunWithoutStoppers | mrblib/notifier.rb:9-16 | when no call calls `stop`, `run` never stops |
| Inotify.RunStopFlag | mrblib/notifier.rb:9-16 | a stopped run made a call that calls `stop`; a run that ran out of reads or failed to read made none |
| Inotify.AddWatchAnswers | src/inotify.c:138-158 | `add_watch` answers a descriptor only when every name is accepted and the kernel did not answer -1, and otherwise raises `ArgumentError` or `SystemCallError` |
| Inotify.NoWatcherMessage | mrblib/notifier.rb:26 | the message is `no watcher for path ` followed by the path |
| Inotify.Notifier.constructor | mrblib/notifier.rb:5-7 | a new notifier holds the given descriptor and an empty watcher table |
| Inotify.Notifier.New | src/inotify.c:122-136 | `new` fails with `SystemCallError` exactly when `inotify_init` answers -1; otherwise a fresh notifier with that descriptor and no watchers |
| Inotify.Notifier.AddWatch | src/inotify.c:138-158 | `ArgumentError` for the first unknown name, before the kernel is asked; otherwise the kernel's answer for the encoded mask, where -1 is `SystemCallError` |
| Inotify.Notifier.RmWatch | src/inotify.c:160-173 | fails with `SystemCallError` exactly when the kernel answers -1 |
| Inotify.Notifier.ReadEvents | src/inotify.c:175-205 | a failed read raises before any event; otherwise the events of the records in the first `nread` bytes, in buffer order |
| Inotify.Notifier.Watch | mrblib/notifier.rb:18-22 | returns `add_watch`'s answer; on success the descriptor maps to the path and the block (or `nil`), replacing any earlier watcher; on failure the table is unchanged |
| Inotify.Notifier.UnwatchByWd | mrblib/notifier.rb:30-33 | when `rm_watch` fails the table is unchanged; otherwise only that key is removed and the removed watcher, or `nil`, is answered |
| Inotify.Notifier.UnwatchByPath | mrblib/notifier.rb:24-28 | with no watcher for the path, `RuntimeError "no watcher for path …"` and an unchanged table; otherwise `unwatch_by_wd` of the first matching descriptor |
| Inotify.Notifier.Stop | mrblib/notifier.rb:14-16 | sets `@stop` and changes nothing else |
| Inotify.Notifier.Process | mrblib/notifier.rb:35-42 | does what `ProcessBatch` says for the read's batch; `@stop` becomes set exactly when one of its calls calls `stop` |
| Inotify.Notifier.HandleEvents | mrblib/notifier.rb:36-41 | the per-event block of `process` makes exactly the calls of the events it gets through, raises `NoMethodError` exactly when it meets a watcher without a block, and leaves the table alone |
| Inotify.Notifier.Run | mrblib/notifier.rb:9-12 | clears `@stop`, processes read after read, and ends as `RunSpec` says; at the end `@stop` is set exactly when one of the calls called `stop` |

## Left out

- **System calls.** `inotify_init`, `inotify_add_watch`, `inotify_rm_watch`, `read` and `close` are not modelled as kernel behaviour. Their answers are parameters, and the errno text carried by `SystemCallError` is not modelled.
- **`close`.** It is a single system call (src/inotify.c:207-216) that changes no state of the notifier, so it is not modelled.
- **Blocking in `run`.** `run` blocks in `read` for ever until stopped. The model runs over a finite list of replies and ends with `OutOfReads` when they run out.
- **Blocks.** A block's own effects, the exceptions it may raise, and any call it makes back into the notifier other than `stop` are not modelled. Examples of such calls are `watch` and `unwatch_by_*`. A missing block is modelled: calling it raises `NoMethodError`.
- **Interleaving of reading and calling.** `read_events` builds each event and yields it before framing the next record (src/inotify.c:198-202); the model frames the whole buffer first and then calls the blocks in order. Since framing has no effect a block could observe, the calls, their order and the exceptions are the same.
- **Malformed reads.** Truncated records, and non-empty name fields without a NUL, are excluded by precondition (`Framed`, `ReadOk`). The source trusts the kernel here.
- **Wrap-around of the loop index.** The source's loop index is a `uint32_t` compared with an `int`. Its wrap-around is not modelled, because on a framed read that is no larger than the buffer, the offsets stay below 2^32.
- **Buffer capacity.** The capacity `1024 * (16 + NAME_MAX + 1)` appears only as the upper bound on `nread` in `ReadOk`.
- **Non-symbol flags.** The model takes every element of the flags array to be a Symbol. The source calls `mrb_symbol` on each element with no type check (src/inotify.c:24), so a String such as `"access"` there is undefined behaviour in C, not the `ArgumentError` that `Other` gives.
- **Path arguments.** Converting `path` to a C string can raise on an embedded NUL. That conversion is not modelled.
- **Descriptor width.** Narrowing an `mrb_int` descriptor to `int` in `rm_watch` is not modelled.
- Events.EventFromStruct: assumes a 64-bit `mrb_int`. The cookie is a `uint32_t` passed to `mrb_fixnum_value` (src/inotify.c:111-112); on an mruby build whose `mrb_int` is 32 bits, a cookie of 2^31 or more would arrive negative, which the contract `e.cookie == raw.cookie` does not capture.
- **Contracts of the codec's building blocks.** `Flags.Pick`, `Flags.Scan` and `Flags.MaskOf` carry no contract of their own. Their meaning is stated by the lemmas `ScanMember`, `ScanOrdered`, `ScanBounds`, `MaskOfIsBitwiseOr` and `MaskOfEmpty`. A contract on these functions would be unfolded at every row of the concrete decoding proofs and make them too costly.
- **The 32-bit mask word.** The word handed to `inotify_add_watch` is modelled as its set of bits. The event side reads the word from the buffer and takes its bits with `MaskOfWord`, which `MaskOfWordSpec` ties to the word's binary digits.
- **`@stop` before `run`.** `@stop` is `nil` until `run` first sets it. The model starts it as `false`, which Ruby treats the same way.
- **mruby runtime glue.** Object creation, instance variables, argument parsing, `mrb_yield` and class registration are not modelled.
- **`mrblib/recursive_notifier.rb`.** It is filesystem walking and re-registration from inside blocks, and it is not part of this model.
- **A worked two-record example.** The model has no lemma for one concrete buffer. Decoding concrete mask words is left to the general lemmas `DecodedEventAt`, `EventFromStruct`, `EventFlags` and `EventName`.
