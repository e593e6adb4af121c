# A verified model of libTPM

libTPM is a small TPM 2.0 driver. Its command layer (`src/tpm2_cmds.c`) builds commands, pages through capability lists and parses responses; its FIFO layer (`src/tpm2_fifo.c`) moves a command and its response through status, burst-count and data registers; its SPI layer (`src/tpm2_fifo_spi.c`) turns every register access into a bracketed bus transaction. This project models the three layers on top of each other in Dafny and proves what they promise for every device.

The platform is a parameter: arbitrary functions of everything that has happened so far give the result of each `get_access`, the result and the incoming bytes of each transfer, and how often an armed timer is found still running. Every adaptive device and every failure schedule is one such platform, and every result and every incoming byte in the bus traffic of a run is that platform's answer (`SpiWireFacts.AnsweredAt`). Nothing is assumed of a device in a precondition. What a well-behaved device does is a predicate on the accesses that took place, and the theorems read "if the device answered like this, then the result is that".

The statements are phrased with two observers that know the protocols and not the driver:

- `SpiWire.Replay` follows the raw bus events and reconstructs the register accesses from header bytes, wait states and data phases. Every access of every run agrees with what it reconstructs.
- `DeviceView.Watch` follows the register accesses of one exchange from the device's side: bytes received, bytes handed out, burst credit, GO, and whether the driver kept to the protocol.

A failure has a cause in what they saw. `Faults.Faulted` says what a transport error needs: the last access failed with that code; or a timer ran out, that is, since it was armed the log shows nothing but misses, as many as the platform's clock allowed and one more, of exactly what is awaited at that point of the exchange; or the device EXPECTed more after the whole command. `Exchange.ExchangeFailed` adds the two failures a response can cause.

The capability queries are stated twice. First exactly, for every device: `Walks.Told` is what an exchange told about a list, nothing if it failed, a page, or entries in a response that is no success, holds no complete list or announces more after an empty one. `Walks.Ended` derives the result of a paging loop from what its exchanges told, code by code, and the answers, masks and calls are those for the entries they told together. `ResponseFacts` says, for responses written out byte by byte, what they tell. Then for a device that answers from a list: the first account implies that the answers are those of the list, and that a query fails only with an error of its last exchange or at the page limit.

Above them, a reference decoder states what each command and response means, and paging is stated against a plain list.

| file | contents |
|---|---|
| `Bytes.dfy`, `HostOrder.dfy` | big-endian fields, bit masks, return codes; byte swaps on both kinds of host |
| `SpiWire.dfy`, `SpiWireFacts.dfy`, `SpiBus.dfy`, `RunFacts.dfy` | bus events and monitor, whole-run facts, the register access code |
| `DeviceView.dfy`, `DeviceFacts.dfy`, `Faults.dfy`, `Fifo.dfy`, `Exchange.dfy` | device-side observer and its meaning, why an exchange may fail, send and receive, one whole exchange |
| `CommandBuilder.dfy` | the command builder |
| `Payload.dfy`, `BankWire.dfy`, `PayloadFacts.dfy`, `MaskFacts.dfy`, `Parser.dfy`, `BankParser.dfy` | reference decoders and their round trips, the iterator and the four parsers |
| `Paging.dfy`, `GetCapability.dfy`, `Walks.dfy`, `AlgQueries.dfy`, `AlgLookups.dfy`, `AlgIteration.dfy`, `BankQueries.dfy`, `BankIteration.dfy` | paging devices, walks over pages and the capability queries |
| `AllocateWire.dfy`, `AllocateFacts.dfy`, `PcrAllocate.dfy`, `PcrCommands.dfy` | PCR allocate, read and extend |
| `ResponseFacts.dfy`, `Literals.dfy` | what responses written out byte by byte make of the commands; the bytes of every command, register addresses and bits |

`dafny verify dfyconfig.toml` checks the whole project.

Four results are worth knowing before reading on.

- In the body phase of a receive the index that bounds the inner loop runs ten behind the count that bounds the outer one (src/tpm2_fifo.c:328, 338-346). The number of bytes consumed is therefore `Consumed(announced, bursts)`: exactly the announced number if and only if no burst count is larger than what is still due (`DeviceView.ConsumedWithin`, `Exchange.ExactExchange`), otherwise up to ten more (`DeviceView.ConsumedCanOvershoot`). The bytes stored are still the right ones.
- For the same reason the C program does not always stay within its response buffer. It stores past it if and only if `Consumed(announced, bursts) > 256`, that is, exactly when more than 246 bytes are announced and a burst count, reported while bytes are due, reaches past byte 256 (`Exchange.LeavesBufferExactly`). One burst of 247 for a response of 247 bytes is an instance, and with a single burst no smaller numbers are (`DeviceView.OverrunAtOnce`). The model stops there with the code `OUT_OF_BOUNDS`, which the library does not have.
- `tpm_get_alg_props` reads one entry without looking at the count (src/tpm2_cmds.c:1112-1118). If the device lists nothing at or above the id and its response goes on all the same, those bytes are taken for an entry. Exactly then, if they carry the id, the two lookups disagree (`AlgLookups.LookupsAgree`); a response of the length its list needs rules it out (`AlgLookups.ExactIsNotStray`).
- The code reads the high byte of the burst count at offset 0x020 (include/tpm2_private.h:23) and cites version 1.05 of the TCG PC Client Platform TPM Profile where the repository's own README cites 1.06. The model follows the code.

## Model

| member | source | states |
|---|---|---|
| SpiWire.HeaderRoundTrip | src/tpm2_fifo_spi.c:60-73 | within the limit of 64 the header decodes to the same direction, length and address exactly for lengths from one on; a length of zero gives no readable header |
| SpiBus.Bus.Transfer | src/tpm2_fifo_spi.c:24-31 | one bus transfer happens; its result and its incoming bytes, cut or zero-padded to the length, are what the platform answers after the traffic so far; the recorded error is the last non-zero code of the whole history |
| SpiBus.Bus.StartTransaction | src/tpm2_fifo_spi.c:36-78 | success only once the monitor has seen the wait-over bit; a failed transfer, fifty polls without it or a length over 64 give their own codes and leave the bus in the matching phase; a length of zero breaks the protocol |
| SpiBus.Bus.PollWait | src/tpm2_fifo_spi.c:93-106 | fifty polls that miss the wait-over bit and a time-out, or fewer and then one that shows it or fails |
| SpiBus.Bus.EndTransaction | src/tpm2_fifo_spi.c:111-115 | stop, then release |
| SpiBus.Bus.Init | src/tpm2_fifo_spi.c:117-128 | succeeds exactly if the platform grants access; a refused get_access leaves the bus free and counts as an access nobody was addressed by; otherwise the device is selected |
| SpiBus.Bus.FifoIo | src/tpm2_fifo_spi.c:130-156 | for every length exactly one bracket is added; for lengths from one on the bus is free again and the monitor reads off it exactly this access with this result; failure codes are negative |
| SpiBus.Bus.WriteByte | src/tpm2_fifo_spi.c:158-161 | one write access is added to the history and observed |
| SpiBus.Bus.ReadByte | src/tpm2_fifo_spi.c:163-166 | one read access is added to the history and observed, with the value delivered |
| SpiWireFacts.Bracketing | src/tpm2_fifo_spi.c:36-156 | any accepted bus run is complete brackets followed by at most one unfinished one; bracket by bracket, without the monitor: a header that decodes to the access, polls that missed the wait-over bit, one that showed it, then one data transfer with the bytes of the access, or the failure that cut this short |
| SpiWireFacts.BracketedWhenIdle | src/tpm2_fifo_spi.c:111-156 | between accesses the bus run is nothing but such brackets, one for each access and showing it |
| SpiWireFacts.TransferBound | src/tpm2_fifo_spi.c:75-106 | at most 52 transfers an access over any run |
| SpiWireFacts.LastErrorIsLast | src/tpm2_fifo_spi.c:24-31 | the recorded error is zero exactly if no platform call failed, else the code of the last failed one |
| SpiWireFacts.AnsweredAt | src/tpm2_fifo_spi.c:24-31 | in the traffic of any run every result and every incoming byte is what the platform answers after the events before it |
| RunFacts.RunOnTheBus | src/tpm2_fifo_spi.c:24-156 | for any run of any layer the bus traffic is brackets that show its register accesses one by one; at most 52 transfers each; every event is what the platform answered after the ones before it; the recorded error is zero exactly if no platform call failed, else the code of the last failed one; every finished exchange is approved |
| RunFacts.RunKeepsProtocol | src/tpm2_fifo.c:188-396 | in every finished exchange of any run, of whatever query or command, nothing is done after a failed access; COMMAND_READY is asked for only before the first byte and right after a STATUS that lacks it; each GO follows a STATUS that allows it and ends the writing; the FIFO is written only after COMMAND_READY and read only after a successful GO, and no more often than the last burst count allows |
| DeviceFacts.GoDiscipline | src/tpm2_fifo.c:278-306 | in an approved log a GO directly follows a STATUS read that is VALID without EXPECT, and nothing is written after it |
| DeviceFacts.BurstDiscipline | src/tpm2_fifo.c:250-276 | from one reading of the burst count up to the next the FIFO is touched at most as often as it reported |
| DeviceFacts.RecordedBytes | src/tpm2_fifo.c:188-396 | what the observer records as written and served is the sequence of successful FIFO accesses in the log |
| DeviceFacts.AcceptedAtGo | src/tpm2_fifo.c:298-306 | the accepted command is what had been written when a GO succeeded |
| DeviceFacts.WriteDiscipline | src/tpm2_fifo.c:206-239 | in an approved log the data FIFO is written only after STATUS showed COMMAND_READY |
| DeviceFacts.ReadDiscipline | src/tpm2_fifo.c:311-357 | in an approved log the data FIFO is read only after a successful GO |
| DeviceFacts.FailureEnds | src/tpm2_fifo.c:188-396 | in an approved log only the last access may have failed |
| DeviceFacts.AskDiscipline | src/tpm2_fifo.c:206-222 | in an approved log any write besides the FIFO and GO precedes the first byte and asks for a locality, or for COMMAND_READY right after a STATUS that lacks it |
| Bytes.OneBitMask | src/tpm2_fifo.c:62 | having all bits of a one-bit mask is having that bit |
| Fifo.Addr | src/tpm2_fifo.c:13 | register addresses carry the offset and the locality modulo 16 |
| Fifo.WaitRegBits | src/tpm2_fifo.c:49-71 | for any register and mask, every value read lacks the mask except the last of a success, which has all of it; otherwise the last read failed with the code returned, or there were exactly as many reads as the timer allowed; of STATUS and ACCESS, nothing but polls happened |
| Fifo.RequestAccess | src/tpm2_fifo.c:73-95 | the chip changes locality only on success, and then the log starts with the request and ends with the device showing that locality active; otherwise the last access failed with the code returned or the timer ran out over reads that do not show it |
| Fifo.Prepare | src/tpm2_fifo.c:120-145 | asks for COMMAND_READY, which keeps the protocol exactly right after a STATUS that lacks it and before the first byte, and succeeds only once the device has shown it, without touching the data FIFO or GO; otherwise the last access failed with the code returned or the timer ran out over reads that do not show it |
| Fifo.ReadBurstcount | src/tpm2_fifo.c:163-175 | two reads give the count as the observer sees it; zero means both bytes read were zero |
| Fifo.GetBurstcount | src/tpm2_fifo.c:147-186 | success only with a non-zero count, which becomes the credit; otherwise the last access failed with the code returned or the timer ran out over counts of zero; it ends for every timer that eventually elapses |
| Fifo.WriteBurst | src/tpm2_fifo.c:260-275 | writes the next bytes of the command in order, never more than the burst count; each failure has its cause |
| Fifo.SendHeader | src/tpm2_fifo.c:206-239 | readies the device and writes a prefix of the ten header bytes, all of them exactly on success; a failure is that of an access, or COMMAND_READY not shown in time |
| Fifo.SendBody | src/tpm2_fifo.c:250-276 | burst by burst, a prefix of the command up to its size, all of it on success; it comes to read past the buffer exactly when the size is over 256, all 256 bytes are out and the burst count covers one more |
| Fifo.AwaitValid | src/tpm2_fifo.c:278-291 | success only with a STATUS that shows VALID as the last access; otherwise the last access failed with the code returned or the timer ran out over reads that do not show it |
| Fifo.Launch | src/tpm2_fifo.c:278-308 | GO at most once, last, and only after VALID without EXPECT; a failure is that of an access, VALID not shown in time, or EXPECT |
| Fifo.Send | src/tpm2_fifo.c:188-309 | for every size field and on every exit the protocol was kept, the bytes written are a prefix of the command, GO was tried at most once, as the last access and with the whole command written; success exactly if the device accepted the command; INVALID_PARAM and the read past the buffer exactly in their cases; any other failure is that of the last access, or of a timer that ran out on what was awaited at that point, or EXPECT after the whole command |
| Fifo.ReadBurst | src/tpm2_fifo.c:345-353 | stores the bytes handed out in order, never more than the burst count, and would store past the buffer exactly when it is full with burst and bytes due left |
| Fifo.ReadRound | src/tpm2_fifo.c:338-354 | one burst advances the count as `Consumed` says |
| Fifo.AwaitAvail | src/tpm2_fifo.c:311-325 | success exactly if the last access shows AVAIL; otherwise the last access failed with the code returned or the timer ran out over reads that do not show it |
| Fifo.ReadData | src/tpm2_fifo.c:311-357 | header mode takes exactly ten bytes; body mode takes `Consumed(announced, bursts)` and leaves the buffer exactly if that is more than 256; the rest of the buffer is unchanged; any other failure is that of an access, or AVAIL or a burst count not shown in time |
| Fifo.Receive | src/tpm2_fifo.c:359-396 | the buffer holds the bytes handed out, in order, as many as the burst counts make the code consume; success exactly if all of them were taken, after another AVAIL for a response shorter than its header; a response over 256 bytes is refused exactly when it is announced; the buffer is left exactly when it is full and `Consumed(announced, bursts)` is more; the result is ten exactly for a ten-byte response; any other failure is that of an access, or AVAIL or a burst count not shown in time |
| DeviceView.ConsumedWithin | src/tpm2_fifo.c:319-354 | for every limit from the announced count on, a read stays within it exactly when ten bytes more fit as well or no burst count, reported while bytes were due, reached past it |
| DeviceView.ConsumedCanOvershoot | src/tpm2_fifo.c:338-354 | a first burst count of at least the announced size always makes the code take ten bytes too many |
| DeviceView.OverrunAtOnce | src/tpm2_fifo.c:338-354 | with a single burst, the 256 bytes of the buffer are overrun exactly for more than 246 announced bytes and a burst count of more than 246 |
| Exchange.Xfer | src/tpm2_cmds.c:64-82 | whatever the device does the protocol is kept at one locality; success exactly if all of the response was taken, and then it accepted exactly the built command before GO and the buffer starts with the bytes it handed out, at least the announced ones; INVALID_PARAM and leaving a buffer come exactly in their cases; any other failure is that of the last access, of a timer that ran out on what was awaited at that point, or EXPECT after the whole command |
| Exchange.ExactExchange | src/tpm2_fifo.c:311-396 | a successful exchange consumes and stores exactly the announced response if and only if no burst count overstated what was due; otherwise up to ten bytes more |
| Exchange.LeavesBufferExactly | src/tpm2_fifo.c:338-354 | of the exchanges that neither fail nor announce too much, exactly those leave the response buffer for which `Consumed(announced, bursts)` is over 256; equivalently, over 246 bytes are announced and a burst count reported while bytes were due reaches past byte 256 |
| Exchange.FirstBurstOverruns | src/tpm2_fifo.c:338-354 | every such exchange of over 246 announced bytes whose first body burst count is over 246 does |
| HostOrder.StoreHtobe16 | include/endian_private.h:12-38 | on either host a converted 16-bit field lands in memory big-endian |
| HostOrder.StoreHtobe32 | include/endian_private.h:19-38 | on either host a converted 32-bit field lands in memory big-endian |
| HostOrder.BetohLoad32 | include/endian_private.h:19-38 | on either host a 32-bit field is read back as its big-endian value |
| CommandBuilder.Builder.constructor | src/tpm2_cmds.c:43-53 | a ten-byte command with this tag and code, the rest zero |
| CommandBuilder.Builder.Append | src/tpm2_cmds.c:121-179 | keeps, over any sequence of appends, that the buffer is the header and the encodings of the accepted fields; a failed append changes nothing and so does every later one |
| CommandBuilder.Builder.CurrentSize | src/tpm2_cmds.c:139 | the size field read on the host is ten plus the accepted lengths |
| CommandBuilder.Builder.HostBytes | src/tpm2_cmds.c:161-171 | one, two or four bytes, big-endian on either host |
| CommandBuilder.Builder.Store | src/tpm2_cmds.c:173-176 | data and size written in place give the image of one more field |
| CommandBuilder.Builder.Finalize | src/tpm2_cmds.c:59-62 | succeeds exactly when all lengths are 1, 2 or 4 and their total is at most 246, and then the buffer holds all fields |
| CommandBuilder.BuilderContents | src/tpm2_cmds.c:121-179 | after any appends the size is 10..256, the data is the accepted encodings followed by zeros, and the error state says whether everything fits |
| CommandBuilder.AcceptsUnique | src/tpm2_cmds.c:135-145 | which fields are accepted is determined: those before the first that does not fit |
| CommandBuilder.HostsAgree | include/endian_private.h:28-38 | little-endian and big-endian hosts build byte-identical commands from the same appends |
| CommandBuilder.ImageGrows | src/tpm2_cmds.c:173-176 | writing the new bytes and then the new size turns one image into the next |
| Parser.Iter.ReadPtr | src/tpm2_cmds.c:252-271 | hands out the next bytes if that many remain, else fails for good; consumed and remaining always add up |
| Parser.Iter.ReadU8 | src/tpm2_cmds.c:187-206 | the same for one byte |
| Parser.Iter.ReadU16 | src/tpm2_cmds.c:208-228 | the same for a big-endian 16-bit value |
| Parser.Iter.ReadU32 | src/tpm2_cmds.c:230-250 | the same for a big-endian 32-bit value |
| Parser.PayloadStart | src/tpm2_cmds.c:273-304 | succeeds exactly when the announced parameters carry the expected capability |
| Parser.MarkAlg | src/tpm2_cmds.c:396-403 | enables exactly the slots with this id before the terminator |
| Parser.ParseAlgs | src/tpm2_cmds.c:362-414 | succeeds exactly when the reference decoder does, whatever count is claimed; enables exactly the listed ids, on failure those of the complete entries; the work is bounded by the parameter bytes |
| Parser.Offer | src/tpm2_cmds.c:454-461 | one call exactly if both masks let the algorithm pass |
| Parser.ParseAlgsFind | src/tpm2_cmds.c:416-471 | for every response of this capability exactly the calls for its complete entries that pass the masks, cut after the first stop; an error exactly if no call asked to stop before an incomplete entry |
| MaskFacts.MasksSelect | src/tpm2_cmds.c:454-455 | an algorithm passes exactly when every bit of one mask is set in its properties and no bit of the other |
| MaskFacts.FilterKeeps | src/tpm2_cmds.c:454-461 | the algorithms called back for include every one that passes, in the order of the list |
| MaskFacts.FilterOnly | src/tpm2_cmds.c:454-461 | and no other |
| BankParser.ReadBank | src/tpm2_cmds.c:499-511 | reads one bank exactly when a complete one with at most three selection bytes is next |
| BankParser.FillBank | src/tpm2_cmds.c:512-525 | gives the matching slots the selection, byte by byte with zeros where it has none |
| BankParser.ParsePcrs | src/tpm2_cmds.c:473-538 | succeeds exactly when the reference decoder does; each slot gets the selection of the last matching bank, on failure of the last complete one; the work is bounded by the parameter bytes |
| BankParser.ParsePcrsFind | src/tpm2_cmds.c:540-599 | for every response of this capability exactly the calls for its complete banks, cut after the first stop; an error exactly if no call asked to stop before an incomplete or illegal one |
| Payload.LastMaskStated | src/tpm2_cmds.c:512-525 | that mask has, byte by byte, the selection of the last bank with the id and zeros where that is shorter, all zeros if no bank has it |
| Payload.CutUnique | src/tpm2_cmds.c:444-462 | there is only one sequence of calls that runs through a list and stops after the first stop |
| Payload.AllWhole | src/tpm2_cmds.c:498-511 | the complete banks of a list are all of it exactly when the reference decoder reads it |
| Payload.HasIsMembership | src/tpm2_cmds.c:396-403 | having an id, which the query results speak of, is having an entry with that id |
| PayloadFacts.AlgsRoundTrip | src/tpm2_cmds.c:384-391 | whatever surrounds it, the reference decoder reads back every algorithm list whose count is right, none with a larger count, of which the complete entries are still read, and none of another capability |
| PayloadFacts.BanksRoundTrip | src/tpm2_cmds.c:498-511 | the same for PCR banks with selections of zero to three bytes |
| PayloadFacts.AnyPageHasAReply | src/tpm2_cmds.c:306-360 | every way to cut a page has a conforming response, so the paging results are about all of them |
| PayloadFacts.AnyBankPageHasAReply | src/tpm2_cmds.c:306-360 | the same for PCR banks |
| PayloadFacts.ResponseShape | src/tpm2_cmds.c:343-357 | a response is a success with parameters exactly if its tag is 0x8001, its code zero and something follows |
| Paging.PageIsNextPiece | src/tpm2_cmds.c:979-985 | pages of an ascending list are consecutive pieces of it, however they are cut |
| Paging.PrefixDecides | src/tpm2_cmds.c:985 | once an ascending list is read up to an id, the part read decides about that id |
| GetCapability.BuildGetCap | src/tpm2_cmds.c:325-335 | the request on the wire |
| GetCapability.GetcapRaw | src/tpm2_cmds.c:306-360 | one exchange carrying this request, by the protocol; of the responses taken, SUCCESS exactly for a success with parameters, and then its more-data flag, ERR_RESPONSE for any other; a failed exchange passes on its own code with its cause |
| ResponseFacts.ToldByResponse | src/tpm2_cmds.c:343-359 | written out as tag, code and parameters, only a success response with parameters tells anything about a list |
| ResponseFacts.AlgsWritten | src/tpm2_cmds.c:384-411 | and its parameters tell exactly the algorithms written in them, as a page only if there are as many as counted, and at least one if more is announced |
| ResponseFacts.BanksWritten | src/tpm2_cmds.c:495-535 | the same for PCR banks |
| Walks.FetchPage | src/tpm2_cmds.c:968-972 | one exchange, and its result and buffer tell exactly what the device handed out, or that it failed |
| Walks.Decided | src/tpm2_cmds.c:968-987 | what a page means for a paging loop: an error ends it with its code, more after nothing with ERR_RESPONSE, a page without more or up to the limit with SUCCESS, any other lets it go on just beyond its last entry |
| Walks.StartsWithin | src/tpm2_cmds.c:985 | no request but the first starts beyond the limit, for a query its largest id |
| Walks.StartsIncrease | src/tpm2_cmds.c:984 | against a list each request starts beyond the ones before |
| Walks.WalkReads | src/tpm2_cmds.c:963-987 | against a list, however it is cut, the pages so far are its front, up to the end exactly if the last announces no more, and at least one entry each |
| Walks.WalkDecides | src/tpm2_cmds.c:985 | after a success what was read decides about every id up to the limit, and is the list if there is no limit |
| Walks.WalkLimited | src/tpm2_cmds.c:964-966 | the page limit ends only walks over more than 64 entries, more than 1024 if every page is full |
| AlgQueries.ClearQuery | src/tpm2_cmds.c:944-958 | switches the queried slots off, leaves the others, finds their largest id and whether there is a terminator |
| AlgQueries.QueryPage | src/tpm2_cmds.c:968-977 | whatever comes back, one page marks the query with exactly what the exchange told; SUCCESS, ERR_RESPONSE and the codes of a failed exchange each exactly in their case |
| AlgQueries.QueryPages | src/tpm2_cmds.c:963-987 | the paging loop, whatever the device does: the slots are marked with all that the exchanges told, each request starts just beyond the last entry of the page before, and the last exchange decides the result |
| AlgQueries.QueryAlgs | src/tpm2_cmds.c:924-988 | for every device: SUCCESS exactly if every exchange told a page and the last had no more or reached the largest queried id, ERR_RESPONSE exactly if the last response was no success, no complete list or announced more after nothing, the limit exactly after 64 pages that went on; each queried id is enabled exactly if these exchanges list it; no request but the first starts beyond the largest queried id. Against an ascending list: enabled exactly if listed, despite the early stop; starts increase; the limit is hit only by more than 64 entries, more than 1024 if every unfinished page is full; any other error is that of a failed last exchange |
| AlgQueries.QueryAgainstList | src/tpm2_cmds.c:963-987 | the account for every device implies the one for a device with an ascending list |
| AlgLookups.HasAlg | src/tpm2_cmds.c:1056-1079 | for every device: the result as of a query, support exactly if it succeeds and its exchanges list the id; against a list, membership; the terminator id gives false without any exchange |
| AlgLookups.GetAlgProps | src/tpm2_cmds.c:1081-1126 | for every device: of the responses taken, SUCCESS exactly for a success about algorithms with room for an entry, and then support and properties are those of its first entry if that has the id, ERR_RESPONSE for any other. Against an ascending list: success exactly if the list has an id at or above the one asked for or the response goes on after an empty list; support is membership and the properties are the listed ones, unless the response goes on after an empty list |
| ResponseFacts.FirstWritten | src/tpm2_cmds.c:1112-1118 | that first entry is the one written first in the parameters |
| ResponseFacts.LookupReported | src/tpm2_cmds.c:1100-1123 | written out as tag, code and parameters, what a response makes of a lookup |
| AlgLookups.ExactIsNotStray | src/tpm2_cmds.c:1112-1118 | a response of exactly the length its list needs never goes on after an empty list |
| AlgLookups.LookupsAgree | src/tpm2_cmds.c:1056-1126 | for every id but the terminator, when both lookups succeed they report the same support exactly unless the second was misled by a response that lists nothing and goes on with this id, which one of exact length cannot |
| AlgIteration.ForEachAlgProps | src/tpm2_cmds.c:1128-1179 | for every device: exactly the calls for all that the exchanges told and that passes the masks, in order, each once, cut after the first stop, which is a success on the last page; without a stop the last exchange decides the result as in a query, without a largest id. Against a list: success means the calls of the filtered list; at the limit a prefix of them with no stop; any other error is that of a failed last exchange |
| AlgIteration.VisitAgainstList | src/tpm2_cmds.c:1145-1176 | the account for every device implies the one for a device with an ascending list |
| BankQueries.ClearBanks | src/tpm2_cmds.c:1010-1025 | zeroes the queried masks, leaves the other slots, finds their largest id and whether there is a terminator |
| BankQueries.QueryPcrs | src/tpm2_cmds.c:990-1054 | for every device: the result is decided by the exchanges as in an algorithm query, and each queried mask is, byte by byte, the selection of the last bank with that id among those they list, with zeros where it is shorter, all zero if none has it. For banks on one page or on ascending pages the same of the list; at most 64 requests; an error is the limit or that of a failed last exchange |
| BankIteration.ForEachPcrBank | src/tpm2_cmds.c:1181-1230 | for every device: exactly the calls for all banks that the exchanges told, cut after the first stop, which is a success on the last page; without a stop the last exchange decides the result. Against a list: success means the calls of the list; at the limit a prefix of them; any other error is that of a failed last exchange |
| BankIteration.CollectedMasks | src/tpm2_cmds.c:990-1230 | an iteration and then a query against one device: if both succeed, each mask of the query is, byte by byte, what the banks collected by a never-stopping callback state |
| AllocateFacts.AllocateEncodes | src/tpm2_cmds.c:837-880 | the appends of an allocation encode to its wire form and fit exactly when 31 + password + 6 a bank is at most 256 |
| AllocateFacts.AllocateRoundTrip | src/tpm2_cmds.c:837-875 | a decoder that skips `authorizationSize` bytes recovers the password and the banks |
| PcrAllocate.BuildAllocate | src/tpm2_cmds.c:837-880 | builds that wire form, or fails, by exactly that condition |
| PcrAllocate.CountBanks | src/tpm2_cmds.c:820-825 | the number of banks before the terminator, eight if there is none |
| PcrAllocate.ReadAllocation | src/tpm2_cmds.c:887-919 | succeeds exactly for a session success response of at least 27 bytes and at most 256 and reports what it says |
| PcrAllocate.AllocateAuthPassword | src/tpm2_cmds.c:790-922 | refuses empty, unterminated or oversized requests without an exchange; otherwise the device gets a command that decodes to this password and these banks, and the result is its response, or the code of a failed exchange |
| ResponseFacts.AllocationRoundTrip | src/tpm2_cmds.c:887-919 | written out, a response with tag 0x8002 and code zero is read as the outcome, the maximum, the size needed and the size available that it holds, in this order; any other is none |
| ResponseFacts.AllocationReported | src/tpm2_cmds.c:887-919 | so these are the numbers an allocation reports |
| PcrCommands.SelectsOne | src/tpm2_cmds.c:716-742 | the three selection bytes name exactly the PCR asked for |
| PcrCommands.ReadRoundTrip | src/tpm2_cmds.c:725-742 | the read command decodes to that one bank with that selection |
| PcrCommands.PcrReadSingle | src/tpm2_cmds.c:700-788 | an index over 23 is refused without an exchange; after a successful one INVALID_PARAM exactly if the digest announced is longer than 48 bytes or the room for it, SUCCESS exactly if the response carries one that fits, which is then at the front of an otherwise zero buffer, else ERR_RESPONSE |
| ResponseFacts.DigestRoundTrip | src/tpm2_cmds.c:754-788 | written out as counter, one selection and one digest, a success response is read as exactly that digest, if it has at most 48 bytes |
| ResponseFacts.DigestDelivered | src/tpm2_cmds.c:754-788 | so a read delivers that digest with zeros behind it, or says which limit it breaks |
| PcrCommands.ExtendRoundTrip | src/tpm2_cmds.c:654-678 | the extend command decodes to the index, algorithm and digest |
| PcrCommands.PcrExtend | src/tpm2_cmds.c:638-698 | a digest over 223 bytes is refused without an exchange; otherwise the device gets a command that decodes to these arguments, and success is its response code |
| ResponseFacts.ExtendReported | src/tpm2_cmds.c:690-697 | written out, an extend succeeds exactly if the response code is zero |
| Literals.PageBytes | include/tpm2_private.h:30-51 | the literal bytes of a capability request |
| Literals.ReadBytes | include/tpm2_private.h:30-46 | the literal bytes of a PCR read |
| Literals.ExtendBytes | include/tpm2_private.h:30-46 | the literal bytes of an extend |
| Literals.AllocateBytes | include/tpm2_private.h:31-47 | the literal bytes of an allocation |
| Literals.HeaderBytes | src/tpm2_fifo_spi.c:60-73 | the literal bytes of a transfer header, and the wait-over bit |
| Literals.Registers | include/tpm2_private.h:16-24 | the address of every register used |
| Literals.AccessBits | include/tpm2_private.h:65-69 | the bits of GO, COMMAND_READY, VALID and EXPECT in the accesses the protocol results speak of |
| Literals.GrantBits | include/tpm2_private.h:58-61 | the bits by which a locality is asked for and shown |
| Literals.Limits | include/tpm2.h:32-54 | the sizes, limits and return values |

## Left out

- Logging (`include/debug.h`, `include/log_backend_*.h`, `output_tpm_status`): output only.
- The POSIX clock (`src/timer/posix_timer_ops.c`): a timer is the number of times it is found still running, which is all the waiting loops use.
- The platform's SPI callbacks (`include/transport/spi.h`): they are parameters.
- `tpm_interface_init`, `tpm_interface_close`, `tpm2_get_info`, `tpm2_fifo_read_chunk`, `tpm2_fifo_release_locality` and `tpm_startup`: thin dispatch, identification output or one-field commands that the builder and exchange results already cover.
- NULL-pointer checks: the types exclude null.
- The TPM's own semantics: not part of the repository.
- Fifo.Send: stops with `OUT_OF_BOUNDS` where the C program would read past the command buffer, because C gives the rest of such a run no meaning.
- Fifo.Receive: stops with `OUT_OF_BOUNDS` where the C program would store past its buffer, because C gives the rest of such a run no meaning.
- CommandBuilder.Builder.Append: does not model the wrap-around of `size_t` in the size check, because a length that large is refused by the next check with the same code.
- Parser.PayloadStart: takes the response buffer, which the parsers only read, as a sequence.
- Parser.ParseAlgsFind: models a callback with its context as a function of all calls made so far.
- BankParser.ParsePcrsFind: models a callback with its context as a function of all calls made so far.
- PcrAllocate.AllocateAuthPassword: takes the caller's password and banks, which the C code only reads, as sequences, and reports the result as one value instead of through four pointers.
- PcrCommands.PcrExtend: takes the caller's digest, which the C code only reads, as a sequence.
