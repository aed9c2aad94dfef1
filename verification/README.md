# Verified models of embedded-controller algorithms

This project models twelve small stateful algorithms of the ChromeOS embedded-controller
firmware in Dafny and proves what they guarantee: over every input, every run, or every
reachable state. Each component has its own module or two. Code that changes state step by
step is modelled by classes and loops over arrays, with contracts that tie the new state to a
mathematical description; the promises are then proved about that description. Configuration
macros are parameters.

- **Console line editor** (`Terminal`, `LineEditor`, `ConsoleKeys`, `Console`). `LineEditor` says
  what the input line means, `ConsoleKeys` what each key does by the bytes it sends; `Terminal` is a one-line terminal that interprets printable characters,
  backspace, newline, form feed and the two cursor movements; `Console` is the in-place buffer
  code. After any input the buffer is the described line and the terminal shows exactly it.
- **Bit-banged I2C** (`I2cListener`, `I2cBitbang`). A listener decodes the two wires; the
  controller's transfers are decoded as the messages they were meant to be, or it is said what
  went wrong; a block read is one message although it is made of two transfers.
- **Memory copies** (`MemCopy`). Word-at-a-time copies against a simultaneous byte copy, for
  every alignment and overlap.
- **Base 32 with CRC-5** (`Base32Bits`, `Base32Code`, `Base32Accepts`, `Base32`). Round trip, exactly
  which texts are accepted, and the errors the check symbols catch.
- **Charge manager** (`ChargePolicy`, `ChargeManager`, `SourceCurrent`). The selection rule as a
  property of the tables, the hunt loop with its termination measure, the invariant of every
  run, and the sharing of the maximum source current.
- **Cros Board Info** (`Crc8`, `CbiItems`, `CbiImage`, `Cbi`). A packed image whose bytes are
  read as a list and behave as a map, and which survives a paged write and a reload.
- **CEC receive queue** (`Ring`, `Cec`). A byte ring that refines a bounded FIFO of messages,
  with receive interrupts during a pop.
- **Charge-splash limiter** (`ChargeSplash`). A sliding-window limiter with lockout, told from
  whole request histories.
- **Hooks** (`HookNotify`, `HookScheduler`). Priority dispatch, and the deferred-call scheduler
  as a state machine in which interrupts and time interleave with every step of the task.
- **Body detection** (`MotionVariance`, `BodyDetection`). A running variance that equals its
  definition, and when a decision may be taken.
- **BLE hopping** (`BleHopping`). Channel selection and its number-theoretic guarantee, section
  4.5.8 of the Bluetooth Core Specification 4.1, volume 6, part B.
- **Lid/base power split** (`PowerSplit`). The allocation arithmetic and the order in which two
  current limits are changed.

## Where the code and its promises differ

The models follow the code. Where a stated promise is not what the code does, a lemma gives the
input, and another says exactly when the promise holds.

- The comment on `can_supply_max_current` says that a released maximum current goes to the
  youngest active port. The redistribution loop passes it only to ports above the released one, so
  this holds exactly when no port below it is active: `SourceCurrent.ReleasedMaximum`, with
  `SourceCurrent.LowerPortGoesWithout` and `SourceCurrent.HigherPortIsPreferred`.
- The CEC buffer-size guard accepts a 17-byte ring, in which a 16-byte message never fits; every
  legal message fits an empty ring exactly from 18 bytes on: `Cec.CapacityGuard`.
- `hook_notify` dispatches correctly for priorities up to one past the documented last one. With any
  other priority in the table not every routine is called exactly once, and unless a routine has that
  one extra priority the loop never ends: `HookNotify.DispatchesExactlyInRange`,
  `HookNotify.OtherwiseNeverStops`.
- The hook task computes its sleep from a clock sample taken earlier than the sleep starts. It
  sleeps past the earliest deadline by exactly the time in between: `HookScheduler.SleepEndsAt`. So
  no run oversleeps exactly if that time is zero: `HookScheduler.NoRunOversleepsExactly`, with runs
  that do in `HookScheduler.SleepsPastTick` and `HookScheduler.SleepsPastDeadline`.
- A repeated START after a read that was left open is lost when the next byte of the peripheral
  begins with a low bit. The recovery drives the clock low where its comment says high, and frees the
  bus only if the second bit is low; if it is high, the clock stays low and the next transfer fails,
  too: `I2cBitbang.Port.Unwedge`, `I2cBitbang.Port.Xfer`, `I2cBitbang.BrokenExactly`. A STOP in the
  same place is reported as done and does not happen; so ends a block read whose length is zero, if
  the peripheral goes on with a low bit: `I2cBitbang.Port.ReadSizedBlock`.
- `cbi_set_board_info` acts as a map update on the images it makes. On an image that repeats a tag it
  can report success and leave the old second value to be read: `CbiItems.ReadsBackExactly`, with
  `CbiItems.SecondEntryShadows`.
- The order in which the two current limits change keeps the total within the larger of the old and
  the new one only while the policy remembers the lid's real limit. A charge request that fails after
  the limit was set breaks that: `PowerSplit.Setting.BoundedExactly`, with
  `PowerSplit.HalfFailureBreaksBound`.
- A charge-splash request in the first second is logged as zero, which reads as no request. The
  limit on permitted requests holds exactly for those whose first is not at time zero:
  `ChargeSplash.SpanExactly`.
- With a sensor range above 76 g the band of body detection scales to zero, and the confidence of a
  variance equal to the threshold is divided by zero, which panics: `BodyDetection.PanicsExactly`.
  The accelerometer drivers of the repository offer ranges up to 16 g, so this is a limit of the
  arithmetic and not of a known board.
- A change of the low byte of a CBI image's total size can pass every check, and it is the only byte
  of which this is so: `CbiImage.ProtectedExactly`.

## Model

| member | source | states |
|---|---|---|
| Terminal.FeedCursor | common/console.c:284-319 | the CSI n C and CSI n D sequences move the terminal's cursor by exactly n cells, for every n, and write nothing |
| LineEditor.ReceiveKeepsWellFormed | common/console.c:464-652 | after any character: printable text, 0 <= cursor <= length < buffer size, history rows in bounds |
| LineEditor.TypingInserts | common/console.c:626-650 | typing a text inserts it at the cursor, character for character, as long as there is room |
| LineEditor.TypedLineIsExecuted | common/console.c:529-557 | a line typed from scratch and ended by Return is handed over verbatim |
| LineEditor.BackspaceUndoesTyping | common/console.c:364-393 | backspace after a typed character restores line, cursor and history |
| LineEditor.DeleteIsRightThenBackspace | common/console.c:503-509 | the delete key removes the character under the cursor, as a step right and a backspace do |
| LineEditor.UpThenDownRestores | common/console.c:599-624 | up in the history shows the row before the current one, and down again brings back the line being typed |
| LineEditor.ArrowSequences | common/console.c:395-462 | ESC [ A to D act as the arrow keys from any parser state, even inside another sequence |
| ConsoleKeys.HistoryWalk | common/console.c:529-624 | over the bytes received, for every way to send Return, Up and Down: after any lines and a text typed, k Ups show the k-th last of the lines that were not empty, each Down one line further on, and as many Downs the text again, as far as the history has rows |
| ConsoleKeys.ReturnKey | common/console.c:529-557 | Return, by each of its bytes, hands the line over and makes it the newest row of the history unless it is empty |
| ConsoleKeys.UpKey | common/console.c:599-609 | Ctrl-P and ESC [ A show the row before, and the last row behind the first |
| ConsoleKeys.DownKey | common/console.c:611-624 | Ctrl-N and ESC [ B show the row after, and the first row behind the last |
| ConsoleKeys.HomeKey | common/console.c:559-562 | Ctrl-A and ESC [ 1 ~ put the cursor at the start and change nothing else |
| ConsoleKeys.EndKey | common/console.c:569-572 | Ctrl-E, ESC O F and ESC [ 4 ~ put it behind the text and change nothing else |
| ConsoleKeys.DeleteKey | common/console.c:503-515 | ESC [ 3 ~ takes exactly the character under the cursor, if there is one |
| ConsoleKeys.KillKey | common/console.c:579-588 | Ctrl-K ends the text at the cursor |
| ConsoleKeys.DiscardKey | common/console.c:516-527 | Ctrl-C empties the line; nothing is executed or recorded |
| ConsoleKeys.SequencesAreSwallowed | common/console.c:395-462 | inside an escape sequence nothing is typed, and a letter or a tilde ends it but for the O behind ESC |
| ConsoleKeys.OtherBytesAreIgnored | common/console.c:626-632 | every byte that is neither printable nor one of the keys changes nothing |
| Console.ShowsErased | common/console.c:364-393 | the bytes printed by a deletion turn a terminal showing the old line into one showing the shorter line and its cursor |
| Console.ShowsInserted | common/console.c:626-650 | the same for an insertion in the middle |
| Console.ShowsKilled | common/console.c:579-588 | the same for killing to the end of the line |
| Console.ShowsLoaded | common/console.c:334-353 | the same for a history line drawn over a longer or shorter one |
| Console.ShowsReprinted | common/console.c:590-597 | the same for a redraw of the line with the cursor in the middle |
| Console.Console.HandleEsc | common/console.c:395-462 | the in-place escape parser takes the described step and completes the described key |
| Console.Console.HandleBackspace | common/console.c:364-393 | buffer and terminal both lose the character before the cursor |
| Console.Console.InsertChar | common/console.c:626-650 | buffer and terminal both gain the character, unless the line is full |
| Console.Console.LoadHistory | common/console.c:334-353 | buffer, cursor and terminal become the history line |
| Console.Console.SubmitLine | common/console.c:529-557 | a non-empty line enters the history, the parser sees the line, a fresh prompt follows |
| Console.Console.HandleChar | common/console.c:464-652 | one received byte: the buffer follows the described editor, and the terminal shows prompt, text, blanks and cursor |
| Console.Console.HandleInput | common/console.c:464-664 | the same for every sequence of bytes |
| I2cListener.ChangesAreConditions | common/i2c_bitbang.c:97-191 | on any trace, SDA changes under a high clock exactly at the START and STOP conditions decoded (section 3.1 of NXP UM10204) |
| I2cListener.NinePulsesAreAByte | common/i2c_bitbang.c:236-281 | nine clock pulses are decoded as a byte, its first bit counting 128 and its eighth one, and as acknowledged exactly if SDA is low at the ninth |
| I2cListener.EdgesAreConditions | common/i2c_bitbang.c:97-191 | SDA falling under a high clock is a START and rising a STOP, and nothing else is |
| I2cBitbang.Port.StopCond | common/i2c_bitbang.c:97-129 | ends in a decoded STOP and a free bus, unless the peripheral holds SDA low, which keeps the STOP from happening; does nothing when no transfer is open |
| I2cBitbang.Port.StartCond | common/i2c_bitbang.c:158-191 | from every state a transfer can leave: a decoded START or repeated START and a low clock, or exactly when it is lost, and what that leaves |
| I2cBitbang.Port.WriteByte | common/i2c_bitbang.c:236-263 | the listener decodes the byte and the peripheral's acknowledge; a refused byte ends in STOP |
| I2cBitbang.Port.ReadByte | common/i2c_bitbang.c:265-281 | returns the byte the peripheral sends, acknowledged or not as asked |
| I2cListener.ChangesBetween | common/i2c_bitbang.c:97-191 | between any two points of a trace, the changes of SDA under a high clock are as many as the conditions decoded in between |
| I2cBitbang.BrokenExactly | common/i2c_bitbang.c:283-338 | over all flags, lengths, acknowledges and states of the bus: exactly which transfers put a START or STOP into the middle of a byte |
| I2cBitbang.Port.Unwedge | common/i2c_bitbang.c:28-95 | clocks out a peripheral that holds SDA low and frees the bus if the second bit of its byte is low; if that bit is high, it leaves the clock low |
| I2cBitbang.ThreeConditions | common/i2c_bitbang.c:283-338 | the acknowledged start-and-stop transfer has exactly three conditions |
| I2cBitbang.Port.Xfer | common/i2c_bitbang.c:283-338 | every combination of start, stop, lengths and acknowledges, from every state a transfer can leave: the events on the bus, the result, the bytes read, which side moves the next bit and the state it leaves; over the transfer SDA changes under a high clock exactly as often as these events have a START or STOP |
| I2cBitbang.TransferDecodes | common/i2c_bitbang.c:283-338 | a start-and-stop transfer to a peripheral that takes every byte decodes to START, address, bytes out, repeated START, address with the read bit, bytes in, STOP, and nothing else |
| I2cBitbang.RefusedWriteStops | common/i2c_bitbang.c:283-338 | a write ends with the first byte refused, the address or any other, with a STOP and an error, and nothing behind it is sent |
| I2cBitbang.RefusedReadStops | common/i2c_bitbang.c:283-338 | a read whose address is refused behind a write that was taken ends there in the same way |
| I2cBitbang.NobodyIsReached | common/i2c_bitbang.c:28-191 | the transfers that reach nobody: without bytes at most a STOP; a START that finds the bus wedged is lost, and what the recovery puts on the bus for each byte the peripheral is in |
| I2cBitbang.OpenReadContinues | common/i2c_bitbang.c:283-338 | a read without STOP and a read that continues it are on the bus one read of all their bytes, each acknowledged but the very last |
| I2cBitbang.OpenWriteContinues | common/i2c_bitbang.c:283-338 | the same of a write: START and address once, the bytes of both, one STOP |
| I2cBitbang.Port.ReadSizedBlock | common/i2c_controller.c:702-775 | the length and as much of the block as there is room for are one read on the bus; a block of length zero loses its STOP if the next byte begins with a low bit |
| MemCopy.WordBytes | builtin/stdlib.c:290-331 | a word loaded and stored carries exactly its four bytes |
| MemCopy.CopiedAt | builtin/stdlib.c:290-424 | what a copy means, byte by byte: the source as it was before, and every other byte unchanged |
| MemCopy.MemCpy | builtin/stdlib.c:290-331 | a simultaneous byte copy for disjoint regions and for every copy to a lower address |
| MemCopy.MemMove | builtin/stdlib.c:374-424 | a simultaneous byte copy for any overlap and alignment; every other byte unchanged |
| MemCopy.MemSet | builtin/stdlib.c:335-372 | fills exactly the region with the low byte of its argument |
| Base32Bits.CutSymbolBits | common/base32.c:76-94 | the shifts and masks cut exactly the next five bits, zeros past the end, whatever the byte after the source holds |
| Base32Bits.PackBits | common/base32.c:152-165 | the two stores put a symbol's bits behind the bits already there and disturb none of them |
| Base32Bits.TableIsRemainder | common/base32.c:12-25 | the two tables together are the remainder modulo x^5 + x^3 + 1: the entry of a symbol times x^8 is the symbol |
| Base32Bits.Crc5TableLinear | common/base32.c:12-24 | the CRC-5 table is linear over exclusive or |
| Base32Bits.Crc5Distinguishes | common/base32.c:12-24 | one change, in the symbol or in the previous CRC, changes the next CRC |
| Base32Bits.Crc5SeesSwaps | common/base32.c:12-24 | two different symbols in the other order give another CRC |
| Base32Code.DecodeIgnoresSeparators | common/base32.c:122-124 | spaces and dashes anywhere do not change what is decoded |
| Base32Code.MapIsLettersAndDigits | common/base32.c:27-28 | the map is A to Z and 2 to 9, each in order, without I and O |
| Base32Code.KnownAnswer | common/base32.c:47-108 | one known answer through CRC, groups and map, symbol by symbol |
| Base32Code.Lockstep | common/base32.c:126-167 | decoding what was sent keeps in step with the encoder's CRC and group counter, from any state |
| Base32Code.RoundTrip | common/base32.c:47-172 | decoding the encoding of n bits gives those n bits, with separators anywhere |
| Base32Code.TypoIsCaught | common/base32.c:126-137 | one wrong data or CRC symbol makes the decoder fail |
| Base32Code.ErrorsAreDetected | common/base32.c:126-169 | for any group size: one wrong symbol anywhere, or two different neighbouring data symbols of a group swapped, make the decoder fail |
| Base32Accepts.AcceptsExactlyWhatIsSent | common/base32.c:110-172 | with CRC groups the decoder accepts a text if and only if, separators aside, an encoder sends it: whole groups, the right CRC behind each, no symbol more than the n bits need; then it returns their first n bits |
| Base32.Base32Encode | common/base32.c:47-108 | succeeds exactly when the group size is 0 or divides the symbol count and the text fits with its terminating null; the text depends on the first n bits only |
| Base32.Base32Decode | common/base32.c:110-172 | the decoder loop stores exactly the decoded bits, the last byte padded with zeros, or returns -1 |
| Base32.EncodedDecodes | common/base32.c:47-172 | what the encoder writes for n bits, the decoder reads back as those n bits |
| ChargePolicy.BestIsUnique | common/charge_manager.c:652-764 | the selection rule (priority, power, active port) leaves one choice |
| ChargePolicy.BestInNumbers | common/charge_manager.c:652-764 | the same rule in numbers: none if nothing is usable or charging is off, the override port if it has a usable charge, else no smaller priority number, no more current times voltage, and the active port if it is as good |
| ChargePolicy.OverrideWins | common/charge_manager.c:652-764 | an override port with an eligible charge is selected, with its own best supplier |
| ChargePolicy.TiesInNumbers | common/charge_manager.c:652-764 | among charges that are as good, the active port keeps its place with its last supplier; else the first supplier and its first port are taken |
| ChargeManager.Manager.DualRolePorts | common/charge_manager.c:694-704 | a dual-role port is selected only as the override, unless safe mode is still on, the RO image is locked, or the configuration allows it; then any charge offered selects a port |
| ChargeManager.Manager.GetBestChargePort | common/charge_manager.c:652-764 | the scan over suppliers and ports returns the choice of the rule; only when the battery cannot carry the system does it keep the active port instead |
| ChargeManager.Manager.WithdrawalShrinks | common/charge_manager.c:836-852 | taking the charges of a rejected port away leaves strictly fewer ports that offer any |
| ChargePolicy.Situation.HuntIsDetermined | common/charge_manager.c:770-828 | the answers of battery and board leave one hunt: which ports are proposed and refused, in which order, and where it ends |
| ChargePolicy.Situation.HuntInWords | common/charge_manager.c:770-828 | the same hunt in words: every port given up was refused, a port or supplier taken anew was accepted, what is active and still the best is taken without asking, and a battery that cannot carry the system keeps the active port |
| ChargeManager.Manager.Hunt | common/charge_manager.c:770-828 | terminates for every pattern of answers; the ports refused are exactly those the board was asked about and refused, and the result is the choice among what they leave, accepted, unchanged or none |
| ChargeManager.Manager.GetCeil | common/charge_manager.c:627-643 | the smallest ceiling any requestor has set, or none |
| ChargeManager.Manager.Refresh | common/charge_manager.c:770-935 | the port and supplier are those of that hunt; an override is then the active port or gone; current and voltage are the supplier's, and outside safe mode the current is the largest one under every ceiling |
| ChargeManager.Manager.CheckSeeded | common/charge_manager.c:244-266 | true exactly when every valid port has heard from every supplier, now or at an earlier call |
| ChargeManager.Manager.SetOverride | common/charge_manager.c:1299-1340 | its four outcomes, and that the invariant of all runs is kept |
| ChargeManager.Manager.SetCeil | common/charge_manager.c:1270-1280 | changes one ceiling, and keeps the invariant by asking for a refresh |
| ChargeManager.Manager.UpdateCharge | common/charge_manager.c:1049-1150 | changes one table entry; the first charge of a supplier on another port ends the override exactly when that port is dedicated or any may charge, a charge in time on the port waited for makes it the override, and nothing else does either; the invariant is kept |
| ChargeManager.Manager.UpdateDualrole | common/charge_manager.c:1076-1113 | a port becoming dedicated ends the override of another port exactly when it has a charge, and only then asks for a refresh; the invariant is kept |
| ChargeManager.Manager.LeaveSafeMode | common/charge_manager.c:1242-1267 | ceilings come into force with the refresh it asks for |
| SourceCurrent.Ports.SourcePort | common/charge_manager.c:1405-1463 | at every point of the loop at most one port advertises the maximum; an active holder keeps it |
| SourceCurrent.HeldMaximum | common/charge_manager.c:1405-1463 | the holder of the maximum keeps it while it sources |
| SourceCurrent.FreeMaximum | common/charge_manager.c:1405-1463 | while nobody holds the maximum, it goes to the youngest sourcing port, if any port sources |
| SourceCurrent.ReleasedMaximum | common/charge_manager.c:1405-1463 | a released maximum goes to the youngest sourcing port if and only if none sources below the released one, and to anybody if and only if one sources above it |
| SourceCurrent.LowerPortGoesWithout | common/charge_manager.c:1405-1463 | with only a lower port sourcing, nobody gets it |
| SourceCurrent.HigherPortIsPreferred | common/charge_manager.c:1405-1463 | with ports sourcing on both sides, the one above gets it and the younger one below does not |
| Crc8.CrosCrc8Arg | common/crc8.c:13-28 | the register in the high byte of a wide word computes the byte-wise CRC |
| Crc8.OneByteChangesCrc | common/crc8.c:13-28 | strings that differ in one byte have different checksums |
| CbiItems.SerializeInjective | include/cros_board_info.h:50-54 | a packed body can be read as entries in only one way |
| CbiItems.ReadsMeaning | common/cbi.c:61-73 | in every list of items, repeated tags and empty values included, a tag is read as the first entry the walk sees, and missing exactly if it sees none |
| CbiItems.FirstItems | common/cbi.c:208-246 | the bytes of the first two items set: tag, size, value, one behind the other, if they fit behind the header |
| CbiItems.SetRefines | common/cbi.c:208-246 | setting a tag among the bytes of any list of items - overwrite, or remove and append, or no room - gives the bytes of the list with the tag set, and the same outcome |
| CbiItems.ReadsBackExactly | common/cbi.c:208-246 | a value that was set is read back if and only if it took the place of one of its size, or no other value of the tag is left in front of it |
| CbiItems.SecondEntryShadows | common/cbi.c:208-246 | with a tag that comes twice, a set reports success and the reader finds the old second value |
| CbiItems.OtherTagsExactly | common/cbi.c:208-246 | a set keeps what another tag means if and only if it neither hides nor uncovers an empty last item of that tag |
| CbiItems.SetIsMapUpdate | common/cbi.c:219-246 | on lists without repeated tags and empty values, which stay so: exactly map update, or removal for an empty value; when there is no room, exactly this tag is lost |
| CbiItems.ReadAfterSet | common/cbi.c:61-73 | on the bytes of such a list, what any tag reads as after a set is what the updated map says |
| CbiImage.OnlyTotalMatters | common/cbi.c:109-156 | the checks and the items of an image depend on the bytes up to its total size only |
| CbiImage.AcceptedHas | common/cbi.c:109-156 | what the checks demand, in bytes: the letters CBI, major version 0, a total size from 8 to 256, and the CRC from the minor version on |
| CbiImage.CorruptionIsRefused | common/cbi.c:109-156 | one changed byte of an acceptable image, anywhere but in the low byte of the total size, is refused by magic, version, size or checksum |
| CbiImage.TotalSizeIsNotProtected | common/cbi.c:28-32 | an image and its copy with another low byte of the total size that both pass every check |
| CbiImage.ProtectedExactly | common/cbi.c:109-156 | every change of the byte at a position is refused in every acceptable image if and only if it is not the low byte of the total size |
| Cbi.AlignedBlockDoesNotWrap | common/cbi_eeprom.c:17-22 | blocks of eight bytes on eight-byte boundaries never wrap inside a page of 8 or 16 bytes |
| Cbi.Store.FindTag | common/cbi.c:61-73 | the walk over the items, on any image of legal total size |
| Cbi.Store.SetBoardInfo | common/cbi.c:219-246 | on every image of legal size in which the item of the tag ends inside: the new items are those of setting the tag among the old bytes, and overflow exactly when there is no room |
| Cbi.Store.Create | common/cbi.c:86-97 | an acceptable image without items, its header byte by byte |
| Cbi.Store.DoRead | common/cbi.c:109-156 | succeeds exactly when both transfers are answered and the stored image passes all checks; which error otherwise |
| Cbi.Store.Read | common/cbi.c:158-176 | two attempts; on success RAM holds the bytes of any stored image that passes the checks up to its total size, and its own bytes behind it |
| Cbi.Store.GetBoardInfo | common/cbi.c:184-206 | the value of the first item with the tag, in RAM, and zeros behind it, or which error, and nothing written; it is what the image means if the item ends inside the image |
| Cbi.Store.Write | common/cbi_eeprom.c:41-63 | succeeds exactly when every block is answered; then the device holds the image up to its total size and nothing else has changed |
| Cbi.Store.Set | common/cbi.c:340-390 | the result in every case, with a locked system keeping exactly the board version and the OEM ID; success leaves an acceptable image, in RAM and on the device, whose items are those of setting the tag in the old ones |
| Cbi.Store.SetThenReload | common/cbi.c:323-390 | succeeds exactly when there is an image to start from, room, and an answer to every block; then, with the cache dropped, every tag reads back as after setting it among the old bytes, whatever the bus answered before |
| Cec.RxQueue.Push | common/cec.c:64-102 | appends the message exactly when length, message and one more byte fit; a push that fails keeps all messages, whatever it has written |
| Cec.TakenExactly | common/cec.c:64-102 | a message is taken exactly if it has 1 to 16 bytes and fits, with its length and one more byte, beside the messages held, each with its length |
| Cec.RxQueue.Pop | common/cec.c:104-135 | returns the oldest message whole, or -1 when there is none |
| Cec.RxQueue.PopUnderInterrupts | common/cec.c:64-135 | with a push before every byte copied, the message popped is still the oldest one, and behind the rest come exactly the arrivals that fitted beside what was still in the ring, in order |
| Cec.RoomyRingAdmitsAll | common/cec.c:64-102 | where the ring has room for an arrival of full length per byte popped, none is refused |
| Cec.RxQueue.Flush | common/cec.c:56-62 | empties the queue |
| Cec.Committed | common/cec.c:96-99 | the length byte written last makes the message part of the ring and disturbs nothing before it |
| Cec.RxQueue.Execute | common/cec.c:56-135 | any sequence of push, pop and flush calls on the ring: its messages and every reply are those of the bounded FIFO |
| Cec.RunConserves | common/cec.c:56-135 | in such a run no message is lost, repeated, torn or overtaken, the host gets exactly those that no flush has dropped, and the ring never overfills |
| Cec.CapacityGuard | include/cec.h:8-12 | every legal message fits an empty ring if and only if the ring has at least 18 bytes |
| ChargeSplash.PermittedRequestsSpanPeriod | common/chargesplash.c:92-112 | any N + 1 permitted requests between resets span at least the period, however many fell between them |
| ChargeSplash.LockoutNeedsQuiet | common/chargesplash.c:73-86 | a request permitted while locked out comes a whole period after the request before it |
| ChargeSplash.QuietIsEnough | common/chargesplash.c:73-112 | a request a whole period after the one before it is always permitted |
| ChargeSplash.FewAreAllPermitted | common/chargesplash.c:92-112 | as long as no N + 1 requests fall into a period, none is refused |
| ChargeSplash.TooManyLockOut | common/chargesplash.c:73-112 | the N + 1st request within a period is refused, and so are all later ones up to one behind a quiet period |
| ChargeSplash.TimeZeroIsForgotten | common/chargesplash.c:59-67 | any number of requests at time zero are all permitted |
| ChargeSplash.OverrunIsPermitted | common/chargesplash.c:59-112 | one request at time zero and N more at any one time are all permitted |
| ChargeSplash.SpanExactly | common/chargesplash.c:59-112 | N + 1 permitted requests whose first is at a given time span the period, in every history, if and only if that time is not zero; from zero on every shorter span occurs |
| ChargeSplash.Limiter.LockoutCanBeCleared | common/chargesplash.c:73-86 | the scan of the whole log amounts to a test of the last request |
| ChargeSplash.Limiter.LogRequest | common/chargesplash.c:92-112 | permits exactly what the history of requests since the reset permits |
| ChargeSplash.Limiter.ResetState | common/chargesplash.c:115-121 | forgets the history, wherever the log pointer stands |
| HookNotify.Notify | common/hooks.c:109-141 | terminates on every table it can terminate on, and calls what the rounds call |
| HookNotify.DispatchesExactlyInRange | common/hooks.c:109-141 | every routine exactly once, by priority with ties in table order, if and only if all priorities are in range |
| HookNotify.DispatchInNumbers | common/hooks.c:109-141 | the same in numbers: every routine once, smaller priorities first, equal ones in table order |
| HookNotify.OtherwiseNeverStops | common/hooks.c:122-141 | on every other table the count is never reached |
| HookScheduler.StepKeepsInv | common/hooks.c:151-255 | the invariant of the scheduler is kept by every step of the task, every arming or cancelling, and time |
| HookScheduler.RunsOnceAndLate | common/hooks.c:192-209 | in every interleaving each arming runs at most once, and only after its deadline |
| HookScheduler.NeverOversleepsBeyondLag | common/hooks.c:231-253 | without a pending wake the task sleeps past the next tick and every armed deadline by no more than the lag, and can then go on |
| HookScheduler.SleepEndsAt | common/hooks.c:231-253 | whatever is armed or cancelled and however much time passes between scan and sleep: the task goes round again if a wake is pending, else it sleeps until the earliest deadline scanned plus exactly the time since the clock was sampled |
| HookScheduler.SleepsPastTick | common/hooks.c:231-253 | a run from the start to a sleep with nothing pending that ends any given time after the next tick |
| HookScheduler.SleepsPastDeadline | common/hooks.c:231-253 | the same past the deadline of an armed routine |
| HookScheduler.NoRunOversleepsExactly | common/hooks.c:231-253 | for every tick interval, no run sleeps past a tick or an armed deadline with a lag if and only if the lag is zero |
| HookScheduler.PassRunsAllDue | common/hooks.c:192-209 | after a pass no armed deadline lies before its start |
| HookScheduler.TaskDisarmsOnlyToRun | common/hooks.c:192-209 | the task takes an arming back only to run it, so a routine that arms itself stays armed |
| HookScheduler.ArmsUnlessZero | common/hooks.c:158-168 | an arming takes unless its deadline comes out as zero |
| HookScheduler.CancelOnlyDisarms | common/hooks.c:158-160 | a cancel clears the deadline of its entry, and changes no other entry, no arming and no pending wake |
| HookScheduler.CancelledStaysOff | common/hooks.c:151-209 | in every run, after a cancel and whatever follows but an arming of that entry, the deadline is clear and the routine has not been started |
| HookScheduler.ArmingSets | common/hooks.c:161-168 | an arming sets the deadline of its entry to now and the delay and wakes the task once it has started; no other entry changes |
| HookScheduler.ArmedWaitsOrRuns | common/hooks.c:151-209 | in every run, an arming that is neither cancelled nor replaced waits with its deadline until its routine is started once |
| HookScheduler.TicksWhenDue | common/hooks.c:212-229 | the tick is called exactly when its interval has passed, the second when a million microseconds have |
| HookScheduler.TicksKeepApart | common/hooks.c:212-221 | ticks come at least a tick interval apart, over any number of them |
| MotionVariance.N2VarianceIsVariance | common/body_detection.c:42-54 | n * sum of squares - square of the sum is n times the sum of squared distances from the mean |
| MotionVariance.N2VarianceNonNegative | common/body_detection.c:42-54 | it is never negative |
| MotionVariance.N2VarianceFits | common/body_detection.c:42-54 | for 16-bit samples it never reaches half of the 64-bit word |
| MotionVariance.UpdateIsReplacement | common/body_detection.c:55-67 | the update formula gives the quantity of the window with one sample replaced, without wrap-around |
| MotionVariance.MotionData.Update | common/body_detection.c:55-67 | in wrapping arithmetic, sum and variance stay those of the window |
| BodyDetection.ConfidenceMonotone | common/body_detection.c:83-91 | more motion never means less confidence |
| BodyDetection.ConfidenceInWords | common/body_detection.c:83-91 | none up to the lower edge of the band, 50 at the threshold, 100 from the upper edge on, and in proportion in between |
| BodyDetection.MotionIsVariance | common/body_detection.c:76-81 | the motion is the variance around the means of the last n samples, of both axes together, rounded down once |
| BodyDetection.ThresholdsInUnits | common/body_detection.c:147-178 | threshold and band are 550 and 525 mm^2/s^4 in squared units of the sensor, the noise added to the first |
| BodyDetection.WindowIsASecond | common/body_detection.c:134-144 | the window is a second of samples, or as many as there is room for |
| BodyDetection.BandIsUsable | common/body_detection.c:147-178 | the band around the threshold never exceeds the threshold, and has a width exactly for sensor ranges up to 76 g |
| BodyDetection.PanicsExactly | common/body_detection.c:83-91 | some variance makes the confidence divide by zero if and only if the sensor's range exceeds 76 g |
| BodyDetection.StillDevicePanics | common/body_detection.c:77-91 | from 79 g on, without noise, the first evaluated sample of a device lying still does |
| BodyDetection.Detector.DetermineThresholdScale | common/body_detection.c:147-178 | the scaled threshold and band for every sensor range |
| BodyDetection.QuietRunMeans | common/body_detection.c:218-232 | the counter has reached m exactly when the last m evaluated samples were all below the limit |
| BodyDetection.WindowVariance | common/body_detection.c:69-81 | the ring's variance is that of the last n samples, in whatever order they lie |
| BodyDetection.Detector.BodyDetect | common/body_detection.c:203-237 | nothing is decided before the window holds real samples only; then off-body turns to on-body exactly on a confident sample, and on-body to off-body exactly when the samples of the last duration seconds, a window each, were all below the limit; and when the division panics |
| BodyDetection.Detector.Reset | common/body_detection.c:180-201 | on body, timer at zero, and an empty window of the new size unless the sensor is suspended |
| BleHopping.EnabledBelowIs | common/bluetooth_le.c:53-66 | the table lists every enabled channel once, in ascending order |
| BleHopping.EnabledIsBit | common/bluetooth_le.c:53-66 | a channel is enabled by its bit of the map, the least significant one first |
| BleHopping.RemappedIsEnabled | common/bluetooth_le.c:69-81 | the channel returned is always one of the map |
| BleHopping.VisitsAllOnceExactly | common/bluetooth_le.c:69-74 | 37 consecutive calls visit every unmapped channel exactly once, if and only if the hop is not a multiple of 37; all legal hops qualify |
| BleHopping.EveryEnabledChannelIsUsed | common/bluetooth_le.c:69-81 | every channel of the map is used in any 37 consecutive calls |
| BleHopping.RemappingTable.Fill | common/bluetooth_le.c:53-66 | the loop builds exactly that table |
| BleHopping.RemappingTable.GetNextDataChannel | common/bluetooth_le.c:69-81 | one step of the walk, and the channel it maps to |
| BleHopping.RemappingTable.NextDataChannels | common/bluetooth_le.c:69-81 | any number of consecutive calls on the table, after any others: the walk they make, and that 37 of them use every channel of the map |
| PowerSplit.SmoothBetween | common/charge_state_v2.c:484-492 | a smoothed value is never negative and lies between the old and the new one, with division towards zero |
| PowerSplit.SmoothGoesAShare | common/charge_state_v2.c:484-492 | it goes s parts in 128 of the way, rounded towards the old value |
| PowerSplit.SystemPowerGoesAQuarter | common/charge_state_v2.c:663-669 | the system power goes a quarter of the way |
| PowerSplit.EstimateFallsSlowly | common/charge_state_v2.c:678-709 | a battery reading that has not fallen is taken as it is, one that has moves the estimate by one part in 128 of the way, and never above what the battery asks for |
| PowerSplit.MarginIsAQuarter | common/charge_state_v2.c:494-500 | both margins add a quarter, rounded down |
| PowerSplit.EstimateAboveMinusOne | common/charge_state_v2.c:675-718 | no reading takes an estimate below -1, and -1 stays only by a reading of -1 |
| PowerSplit.OrderOfService | common/charge_state_v2.c:721-739 | the 1300 mW of the base first, then the lid's two demands, then the base battery |
| PowerSplit.AllocatePower | common/charge_state_v2.c:721-739 | the two powers sum to the budget for all estimates; the base's share in closed form for non-negative ones |
| PowerSplit.CurrentsFit | common/charge_state_v2.c:543-546 | for every split of the budget the currents sum to at most the desired current, and lose at most 2 mA of it from 1 V up |
| PowerSplit.TwoAreLost | common/charge_state_v2.c:744-745 | two milliamperes can really be lost |
| PowerSplit.WhoGoesFirst | common/charge_state_v2.c:424-436 | a side that is to draw less goes first, the lid if both are; then a lid that is to provide power; else the base |
| PowerSplit.OrderIsSafe | common/charge_state_v2.c:424-436 | the total between the two changes is at most the larger of the old and the new total |
| PowerSplit.Setting.BoundedExactly | common/charge_state_v2.c:405-478 | the bound holds for every call if and only if the remembered limit of the lid is close enough to the real one |
| PowerSplit.Setting.StepLostExactly | common/charge_state_v2.c:437-463 | in step, the policy loses track exactly by a call that changes the limit of the lid and then fails to request the charge |
| PowerSplit.Setting.RunIsBounded | common/charge_state_v2.c:405-478 | over any run of calls without such a failure, with a connected base that has answered and limits that are not negative, no total on the way exceeds a bound on the first total and all totals asked for |
| PowerSplit.HalfFailureBreaksBound | common/charge_state_v2.c:405-478 | after one such failure the next call takes the total through 3500 mA, between 2000 mA before and 2500 mA after |
| PowerSplit.Limits.SetBaseLidCurrent | common/charge_state_v2.c:405-478 | the new limits and all totals on the way, for every state and every failure; in step, no total on the way exceeds the larger of the old and the new one; a call that succeeds is in step again |
| PowerSplit.Policy.Estimate | common/charge_state_v2.c:660-718 | the three estimates of a run, and that they stay at -1 or above |
| PowerSplit.Policy.Allocate | common/charge_state_v2.c:721-756 | the two currents: their sum, the cap of the base, and what each is made of |

## Left out

- Console.Console.HandleInput: the command parser and the handlers are inputs (what they scribble over the buffer, and the whole lines they print); line wrapping, the transmit buffer and the experimental console are not modelled.
- I2cBitbang.Port.Xfer: the peripheral never stretches the clock and no other controller drives the bus, so clock-stretch timeouts and arbitration lost to another controller are not modelled; a transfer without START continues an open one in its direction.
- I2cBitbang.Port.ReadSizedBlock: one attempt without PEC, with a peripheral that takes the bytes sent to it; the retries and the refusal of a buffer without room are left out.
- MemCopy.MemCpy: requires the regions to be disjoint or the destination to lie below the source, which is what memmove relies on; addresses do not wrap.
- Base32.Base32Encode: the source buffer has one byte behind the last source byte, which the code reads and masks away.
- ChargeManager.Manager.GetBestChargePort: dynamic PDO selection is off; whether the battery can carry the system is an input.
- ChargeManager.Manager.Hunt: the board accepts to be left without a charge port, as the code asserts; PD renegotiation, the charge ramp, logging and host notification are left out.
- ChargeManager.Manager.SetOverride: the power swap request is left out; what the port's role is and what the clock says are inputs.
- SourceCurrent.Ports.SourcePort: the total-current configuration only.
- Cbi.Store.GetBoardInfo: the item of the tag is required to end inside the 256 bytes the image lies in, beyond which the code would read other memory; the board's override of read values and storage in GPIO straps are left out.
- Cbi.Store.Set: the item of the tag, if there is one, is required to end inside the image, without which the code would move memory beyond it.
- Cbi.Store.SetThenReload: the same of the item set and of the item read.
- Cbi.Store.SetBoardInfo: as for the set that calls it.
- Cec.RxQueue.Flush: a push that interrupts a flush between its two assignments is left out; that message is lost with the rest.
- ChargeSplash.Limiter.LogRequest: time is a whole number of seconds that never decreases and does not wrap; booting the system is left out.
- HookScheduler.StepKeepsInv: arming is one step, as it is from an interrupt; deadlines do not wrap; negative delays other than -1 are left out.
- MotionVariance.MotionData.Update: samples are bounded by 16 bits and windows by 65536, beyond which the 64-bit word could wrap.
- BodyDetection.Detector.BodyDetect: spoof mode is off.
- BodyDetection.Detector.Reset: the variance threshold and band are those of the default configuration; the sensor's range is positive.
- PowerSplit.Policy.Allocate: the charging branch only; the manual and discharging branches, and 32-bit overflow of the products, are left out.
- PowerSplit.Limits.SetBaseLidCurrent: a base that has never answered may ignore its command, and then the bound on the total is not claimed.
- Event log, audio codec ring, flash protection, charge ramp, host packets: not modelled.
- Clocks, buses, board callbacks and host notifications are parameters, open inputs or traces.
