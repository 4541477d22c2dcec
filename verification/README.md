# EtherCAT simulator: verified model

A Dafny 4.11 model of the simulator's slaves, bus, EL1258 devices, frame queue and stream framing, with
proofs of what holds over whole runs of them. `dafny verify dfyconfig.toml` checks everything.

## What is modelled

**One slave.** `SlaveModel` gives a slave as a value and a function for each of its operations: the
4096-byte register file with its side effects, the two mailbox windows, the EEPROM reader, and AL control.
`VirtualSlaves.VirtualSlave` is the object, field by field, with the climbing loop, the mailbox handler and
the register branches written as the source has them; each method is proved to do what the function says.
`AlMachine` holds the theory of the AL state machine, `SlaveProperties` the results over runs of slave
operations and through the mailbox and EEPROM bytes (`Coe` is the byte layout of an SDO message), and `SlaveRuns`
what holds from construction on, for each derived class. `StatusRegisters`, `RegisterAccess` and `MailboxBytes` tell
the same slave from outside: its registers, addresses and mailbox bytes in numbers.

**The EL1258 devices.** `El1258Model` and `SubsModel` are the two variants as values: channels, object
dictionary, mapping flag. `El1258.EL1258Slave` and `El1258Subs.El1258Slave` are the objects over their
arrays; `DictionaryProperties` tells what each object answers. A slave object owns at most one of them as its derived part. `Debounce` is the timed input filter
both variants turn out to be.

**The bus.** `SimulatorModel` is the network simulator as a value, generic in the type of a reference to a
slave; `NetworkSimulators.NetworkSimulator` is the object. `BusModel` has the two datagram steps, the
endpoint's and the socket's, each with its own dispatch; `Endpoints` has the two programs, with their loops.
`BusProperties`, `ProcessImage`, `RegistryProperties`, `BusRuns` and `BringUp` hold the results about frames,
working counters, broadcast, addressing, the process image, the registry, and runs of the whole bus. `BusAccess` tells
each kind of datagram in terms of the slaves alone, `BusConversations` has whole exchanges as frames, and
`MappedInputs` what mapping a slave brings.

**Time and streams.** `DelayedQueue` interleaves the micro-steps of concurrent sends and receives, `Draining` says
which frames are then held up. `Framing` is the length-prefixed byte stream with arbitrary chunking, failures and stop
requests, and the loops at both ends of it; `Serving` puts the bus behind the endpoint's loop.

Clock readings, which slaves are still owned by someone, freshly allocated references and chunk sizes come
from outside: they are parameters, or chosen arbitrarily. Times are nanoseconds of a monotonic clock.

## What the proofs found

- The edge from BOOT to INIT in the transition table is never used: the loop aims one rank up, and there is
  no rank above BOOT, so a slave forced into BOOT cannot leave it (`AlMachine.WalkSettles`).
- A drop from OPERATIONAL to SAFE_OP is gated by the mapping flag like a climb
  (`AlMachine.RequestSucceedsExactlyWhen`).
- Entering INIT while a mailbox reply waits leaves the SM1 status byte announcing it
  (`SlaveProperties.InitLeavesStaleStatus`); the exact condition is proved beside it.
- A broadcast is counted by every online slave exactly when the online slaves come first in the registry
  (`BusProperties.BroadcastCountsAllExactlyOnPrefix`); one behind an offline slave is missed
  (`BusProperties.OnlineBehindOfflineIsMissed`).
- The two datagram implementations leave the same state and data always, and differ in the working counter
  exactly for NOP, BRD, ARMW and FRMW at the online counts given by `BusProperties.CountersAgree`.
- Auto-increment positions decode to the intended index exactly up to index 32768.
- The slaves application's EL1258 variant keeps its mapping flag when a channel count is cleared, so it still enters
  SAFE_OP (`SlaveRuns.ClearedCountStillEntersSafeOp`); the flag tells what held at the last assignment
  (`SubsModel.FlagIsAsOfTheLastRefresh`).
- A shrinking latency, or a send overtaken between its clock reading and the lock, holds a ready frame up behind
  an unready one (`Draining.ShrinkingLatencyHoldsUp`, `Draining.OvertakenSendIsHeldUp`); `Draining` has the exact
  condition on the calls.

Where the code and its comments disagree the model follows the code: latency is used although
network_simulator.h:26 and network_simulator.cpp:68 say otherwise, any read inside the send window withdraws
the reply although virtual_slave.h:140 speaks of the whole message, and SyncManager entries from the third on
are skipped rather than refused (virtual_slave.h:186).

## Model

| member | source | states |
|---|---|---|
| AlMachine.WalkSettles | include/ethercat_sim/simulation/virtual_slave.h:547-574 | The climbing loop ends where a closed form says, from any state; every hop is an edge of the transition table, SAFE_OP and OPERATIONAL are entered only while mapped, and there are at most as many hops as ranks between. |
| AlMachine.HopKeepsSettled | include/ethercat_sim/simulation/virtual_slave.h:547-574 | One pass of the loop either gets closer without changing where the request ends, or the request has ended. |
| AlMachine.AlWriteLowBits | include/ethercat_sim/simulation/virtual_slave.h:436-464 | Two control words with the same low five bits have the same effect. |
| AlMachine.RunKeepsLatch | include/ethercat_sim/simulation/virtual_slave.h:502-587 | Over every run of control writes and mapping changes the ACK request is up exactly while a code is latched, the code is 0, 0x0011 or 0x0043, and the state is one of the four. |
| AlMachine.RunGated | include/ethercat_sim/simulation/virtual_slave.h:616-639 | At every step of every run SAFE_OP and OPERATIONAL are entered only while mapped, and losing the mapping lowers nothing by itself. |
| AlMachine.AcknowledgeNeverLowers | include/ethercat_sim/simulation/virtual_slave.h:511-527 | After any sequence of ACK writes the rank is the initial one raised to the highest request, capped at PRE_OP when unmapped. |
| AlMachine.RequestSucceedsExactlyWhen | include/ethercat_sim/simulation/virtual_slave.h:594-639 | A plain request for another state succeeds if and only if mapping covers it and it is not OPERATIONAL to PRE_OP. |
| VirtualSlaves.VirtualSlave.constructor | include/ethercat_sim/simulation/virtual_slave.h:20-53 | A new slave is in INIT with standard windows, synchronised registers and the EEPROM image of its identity. |
| VirtualSlaves.VirtualSlave.SyncCoreRegisters | include/ethercat_sim/simulation/virtual_slave.h:357-384 | DL_STATUS, AL_STATUS and AL_STATUS_CODE are rewritten from the fields and no other register changes. |
| VirtualSlaves.VirtualSlave.Climb | include/ethercat_sim/simulation/virtual_slave.h:547-574 | The while loop passes through exactly the states of the walk above and so ends in the closed form's state; it succeeds exactly if that is the one requested, else latches 0x0011; entering INIT withdraws a waiting reply. |
| VirtualSlaves.VirtualSlave.HandleAlControlWrite | include/ethercat_sim/simulation/virtual_slave.h:502-587 | A control word's whole effect on state, latch, reply flag and registers is the specified one. |
| VirtualSlaves.VirtualSlave.HandleMailboxWrite | include/ethercat_sim/simulation/virtual_slave.h:672-761 | The message at the start of the receive buffer is answered as specified, with no other change. |
| VirtualSlaves.VirtualSlave.Read | include/ethercat_sim/simulation/virtual_slave.h:102-147 | A read's result, buffer and side effects on EEPROM address and mailbox are the specified ones; accepted mailbox reads fill the buffer. |
| VirtualSlaves.VirtualSlave.Write | include/ethercat_sim/simulation/virtual_slave.h:149-236 | A write takes the specified branch with its side effects, in the source's order of precedence. |
| VirtualSlaves.VirtualSlave.RelocateMailboxes | include/ethercat_sim/simulation/virtual_slave.h:182-215 | The loop over SyncManager entries moves and resizes the two windows as the recursive specification does. |
| SlaveProperties.WriteTouches | include/ethercat_sim/simulation/virtual_slave.h:149-236 | No write changes identity, EEPROM image, online or started; only AL_CONTROL moves the AL machine, only STATION_ADDR the address, only relocation the windows. |
| SlaveProperties.EveryReachableStateIsSound | include/ethercat_sim/simulation/virtual_slave.h:502-587 | Over every run of everything that can be done to a slave, its derived classes' own operations included, the latch is consistent, the state is one of the four, and the EEPROM image is the constructor's. |
| SlaveProperties.AlControlWriteMirrors | include/ethercat_sim/simulation/virtual_slave.h:227-234 | After any AL_CONTROL write, by whichever exit and whatever was scribbled before, the status registers show the fields, which depend on the low five bits only. |
| StatusRegisters.StatusInNumbers | include/ethercat_sim/simulation/virtual_slave.h:357-384 | In numbers: AL_STATUS is 1, 2, 4 or 8 by state, 0x10 more exactly while an error waits for its acknowledgement; AL_STATUS_CODE is the code; DL_STATUS is 0x0211 online, 0 offline. |
| StatusRegisters.ControlInNumbers | include/ethercat_sim/simulation/virtual_slave.h:502-587 | Every AL_CONTROL write from every state, in what AL_STATUS and AL_STATUS_CODE show after it: the state asked for is the highest bit of the low four; acknowledgements, refusals (0x11), BOOT (0x43) and where a refused climb stops included. |
| StatusRegisters.AcceptedRequestShowsItself | include/ethercat_sim/simulation/virtual_slave.h:502-587 | A plain request for one of the four states from another shows its own number and no code if and only if mapping covers it and it is not OPERATIONAL to PRE_OP; else the error bit and 0x11. |
| StatusRegisters.AcknowledgementClears | include/ethercat_sim/simulation/virtual_slave.h:511-527 | An acknowledgement that asks for no progress clears the latch, shows the state's number again, and stays in the state. |
| StatusRegisters.StatusThroughEveryRun | include/ethercat_sim/simulation/virtual_slave.h:357-384 | At every moment of every run in which nothing scribbles over them the three registers tell state, latch, code and link in these numbers. |
| StatusRegisters.NewRegisters | include/ethercat_sim/simulation/virtual_slave.h:20-53 | A new slave's register bytes: INIT, no error, link up, its address, both windows, and zeros. |
| StatusRegisters.LinkAndForcedState | include/ethercat_sim/simulation/virtual_slave.h:75-93 | Going on or off line and forcing a state show in the registers at once. |
| StatusRegisters.RoutineRefreshes | include/ethercat_sim/simulation/virtual_slave.h:261-273 | A started slave's routine makes the three registers tell the state again and touches no other; an unstarted one's does nothing. |
| SlaveProperties.OnlyGatedRequestsMoveTheMachine | include/ethercat_sim/simulation/virtual_slave.h:228-234 | At every step of every run of slave operations the machine moves only by an AL_CONTROL write, as its low five bits request, and enters SAFE_OP or OPERATIONAL only while mapped. |
| SlaveProperties.RelocationPlacesWindows | include/ethercat_sim/simulation/virtual_slave.h:182-215 | A write that reaches the relocation branch puts the windows where its first two entries say (the send window only, when it starts at the second entry), clears exactly the buffers whose size changes, shows the result in the registers, and changes nothing else. |
| RegisterAccess.WriteAcceptedExactly | include/ethercat_sim/simulation/virtual_slave.h:149-219 | A write is accepted if and only if it is an EEPROM command, inside the registers, inside the receive window, or at the first two SyncManagers; a refused one changes nothing. |
| RegisterAccess.ReadAcceptedExactly | include/ethercat_sim/simulation/virtual_slave.h:102-147 | A read is accepted if and only if it is an EEPROM fetch, inside the registers, or inside the send window; a refused one changes nothing. |
| RegisterAccess.RegisterRead | include/ethercat_sim/simulation/virtual_slave.h:126-131 | A register read gives the register bytes and changes nothing. |
| RegisterAccess.RegisterReadBack | include/ethercat_sim/simulation/virtual_slave.h:126-131 | Reading registers back gives the bytes written where the ranges meet and the old ones elsewhere. |
| RegisterAccess.StationAddressWritten | include/ethercat_sim/simulation/virtual_slave.h:221-226 | Two bytes or more at 0x0010 set the station address to the first two, low byte first. |
| RegisterAccess.MailboxWriteLands | include/ethercat_sim/simulation/virtual_slave.h:172-181 | A mailbox write lands at its place in the receive buffer and raises a reply. |
| RegisterAccess.MailboxReadAnywhere | include/ethercat_sim/simulation/virtual_slave.h:133-144 | A read anywhere in the send window gives the reply's bytes from there on and withdraws the reply. |
| RegisterAccess.MailboxReadInParts | include/ethercat_sim/simulation/virtual_slave.h:133-144 | The reply read in two parts is the reply read whole. |
| SlaveProperties.WindowsStayPut | include/ethercat_sim/simulation/virtual_slave.h:167-215 | Over every run of frame-sized operations the mailbox windows stay where they were. |
| SlaveProperties.FrameWritesNeverRelocate | include/ethercat_sim/simulation/virtual_slave.h:167-215 | Only a write of at least 2034 bytes reaches the relocation branch, so no frame does. |
| SlaveProperties.EntersInitExactly | include/ethercat_sim/simulation/virtual_slave.h:502-587 | An AL_CONTROL write makes the machine enter INIT if and only if its low five bits are the plain INIT request and the machine is in another of its four states. |
| SlaveProperties.WriteKeepsSmInSyncExactlyUnless | include/ethercat_sim/simulation/virtual_slave.h:406-415 | A write keeps the SM1 status byte in step with the waiting reply if and only if it is no such request made while a reply waits, and does not overwrite the byte with another value. |
| SlaveProperties.Handshake | include/ethercat_sim/simulation/virtual_slave.h:133-144 | Over every such run the byte is up exactly from a mailbox write until the next read of the reply window. |
| SlaveProperties.InitLeavesStaleStatus | include/ethercat_sim/simulation/virtual_slave.h:650-655 | Entering INIT with a reply waiting leaves the byte announcing it. |
| Coe.DecodeEncode | libs/kickcat/include/kickcat/protocol.h:394-435 | An SDO message decodes from its bytes for every count, service, command, index, subindex and value, whatever the flags and whatever follows. |
| MailboxBytes.LayoutOfMessage | libs/kickcat/include/kickcat/protocol.h:362-413 | The bytes of a message are the numbers the packed structures make, field by field with their bit widths: mailbox header, CoE header, service data, value. |
| MailboxBytes.FieldsOfMessage | libs/kickcat/include/kickcat/protocol.h:362-413 | What a message is read as depends on the fields' own bits of its sixteen bytes and on no others. |
| MailboxBytes.AnyMailboxWriteIsAnswered | include/ethercat_sim/simulation/virtual_slave.h:672-761 | Any write of any bytes anywhere in the receive window is answered from the message the buffer then starts with: the send buffer holds its reply's bytes, and zeros. |
| MailboxBytes.ExchangeInBytes | include/ethercat_sim/simulation/virtual_slave.h:672-761 | From every state, sixteen bytes written at 0x1000 are answered by the sixteen bytes read at 0x1200: 0x43 with the value, 0x63, or 0x43 with 0; the SM1 status byte is 0x08 in between and 0 after. |
| SlaveProperties.SdoRoundTrip | include/ethercat_sim/simulation/virtual_slave.h:672-761 | From every state, writing a request and reading the reply window decodes to the echoed count, index and subindex with the owed command and value, and touches nothing beyond mailbox, dictionary and flag. |
| SlaveProperties.DownloadThenUploadThroughMailbox | include/ethercat_sim/simulation/slaves/el1258.h:158-223 | Through the bytes, a download then an upload of any writable object gives the value as stored, zero past a written count, and every other object unchanged; the flag follows the dictionary. |
| SlaveProperties.FetchReadsOn | include/ethercat_sim/simulation/virtual_slave.h:104-124 | k EEPROM reads give the next 2k words, zero past the image, wrapping at 2^32, and move only the address. |
| SlaveProperties.EepromSequence | include/ethercat_sim/simulation/virtual_slave.h:152-165 | After a control write of an address, k reads return the 2k words from it. |
| SlaveProperties.IdentityAgrees | include/ethercat_sim/simulation/virtual_slave.h:306-312 | EEPROM words 8 to 11 recombine to vendor and product, which are what SDO 0x1018:1 and 0x1018:2 answer. |
| RegisterAccess.ImageDescribesTheSlave | include/ethercat_sim/simulation/virtual_slave.h:292-355 | The EEPROM image gives the mailbox windows' places and sizes as they are, the identity, CoE, the end marker, and zeros. |
| RegisterAccess.EepromFetchInBytes | include/ethercat_sim/simulation/virtual_slave.h:104-124 | A fetch fills four bytes with the two words, low bytes first, leaves the rest of the buffer, and moves the address by two. |
| RegisterAccess.EepromCommandInBytes | include/ethercat_sim/simulation/virtual_slave.h:152-165 | A command of six bytes or more sets the address to its third to sixth bytes and nothing else. |
| MailboxBytes.IdentityAnswers | include/ethercat_sim/simulation/virtual_slave.h:704-720 | On every kind of slave 0x1018 answers the constructor's vendor and product, then 0 and 0. |
| MailboxBytes.PlainAnswers | include/ethercat_sim/simulation/virtual_slave.h:700-746 | Every other object of a plain slave answers 0, and a download to it changes nothing. |
| MailboxBytes.TerminalAnswers | include/ethercat_sim/simulation/virtual_slave.h:700-732 | Through the mailbox a terminal's channel object answers 1 exactly when the channel reads high, the aggregate has those digits, and an object that does not answer is answered for with 0. |
| MailboxBytes.ChannelInBytes | include/ethercat_sim/simulation/slaves/el1258.h:101-106 | The same for one channel object, bytes to bytes. |
| MailboxBytes.SubsThroughMailbox | apps/slaves/sim/el1258_subs.h:112-338 | The slaves application's variant answers as its dictionary does, 0 where it does not answer, and takes downloads as it says. |
| SlaveProperties.SafeOpNeedsMappingInDictionary | include/ethercat_sim/simulation/slaves/el1258.h:207-221 | Over every run of an EL1258, SDO downloads and default mappings included, in which nobody sets the flag directly, SAFE_OP from PRE_OP succeeds if and only if the dictionary holds a valid mapping. |
| SlaveRuns.SafeOpFromConstruction | include/ethercat_sim/simulation/virtual_slave.h:616-639 | The same from the construction of an EL1258. |
| SlaveRuns.NewSlaveIsSound | include/ethercat_sim/simulation/virtual_slave.h:20-53 | A new slave is sound, shows its fields, address and windows in its registers, has the standard windows and no reply waiting; as an unmapped EL1258 its flag is truthful. |
| SlaveRuns.RunFromConstruction | include/ethercat_sim/simulation/virtual_slave.h:149-236 | Over every run of frame-sized operations from construction a slave stays sound, has its identity, and keeps the standard windows. |
| SlaveRuns.RequestsAreAnsweredAtAnyMoment | include/ethercat_sim/simulation/virtual_slave.h:672-761 | At any moment of such a run every SDO request is answered through the mailbox bytes. |
| SlaveRuns.WriteKeepsMirrorsExactlyUnless | include/ethercat_sim/simulation/virtual_slave.h:149-236 | A write leaves DL_STATUS, AL_STATUS and AL_STATUS_CODE showing the fields if and only if it is an AL_CONTROL write or puts no other value into their bytes. |
| SlaveRuns.MirrorsLastExactlyUnless | include/ethercat_sim/simulation/virtual_slave.h:357-384 | Over every run they show the fields at every moment if and only if no write puts another value there. |
| SlaveRuns.WriteKeepsAddressExactlyUnless | include/ethercat_sim/simulation/virtual_slave.h:221-226 | A write leaves the station address registers showing the address if and only if it writes the address whole or puts no other value into its bytes. |
| VirtualSlaves.VirtualSlave.ApplyDefaultTxPdoMapping | include/ethercat_sim/simulation/slaves/el1258.h:28-36 | The default mapping is applied to the derived part and the flag is raised, as specified. |
| El1258Model.AggregateBit | include/ethercat_sim/simulation/slaves/el1258.h:289-295 | Bit ch of the aggregate is what reading channel ch alone returns, and no other bit is set. |
| El1258Model.DownloadThenUpload | include/ethercat_sim/simulation/slaves/el1258.h:77-223 | For every pair of writable objects, what an upload returns after a download. |
| DictionaryProperties.UploadOfChannel | include/ethercat_sim/simulation/slaves/el1258.h:101-106 | Uploading 0x6000:k gives 1 exactly when channel k - 1 reads high, told from raw level, level shown, time of change, debounce time and mask digit. |
| DictionaryProperties.UploadOfAggregate | include/ethercat_sim/simulation/slaves/el1258.h:108-112 | Uploading 0x6002:0 gives the number whose binary digits are those, and no other digit. |
| DictionaryProperties.UploadOfIdentification | include/ethercat_sim/simulation/slaves/el1258.h:81-100 | The identification objects answer the first four characters of their strings. |
| DictionaryProperties.NothingElse | include/ethercat_sim/simulation/slaves/el1258.h:77-223 | Every object not listed does not answer, and a download to one not configurable changes nothing. |
| DictionaryProperties.ConfiguredAnswers | include/ethercat_sim/simulation/slaves/el1258.h:114-223 | Download then upload in numbers for every pair of configurable objects. |
| DictionaryProperties.FlagByAnswers | include/ethercat_sim/simulation/slaves/el1258.h:207-221 | After a download the mapping flag is what the uploads of 0x1A00 and 0x1C13 say. |
| DictionaryProperties.DefaultMappingAnswers | include/ethercat_sim/simulation/slaves/el1258.h:28-36 | After the default mapping the dictionary answers one entry, 0x60020008, assigned as 0x1A00. |
| DictionaryProperties.NewTerminalAnswers | include/ethercat_sim/simulation/slaves/el1258.h:226-255 | A new terminal has nothing configured and all channels low. |
| DictionaryProperties.UploadsHideGlitches | include/ethercat_sim/simulation/slaves/el1258.h:101-112 | Pulses shorter than the debounce time are invisible to uploads of 0x6000 and 0x6002. |
| DictionaryProperties.FieldsHoldLastCommands | include/ethercat_sim/simulation/slaves/el1258.h:39-67 | Over every run button and power hold the last level commanded. |
| DictionaryProperties.DrivenByCommands | include/ethercat_sim/simulation/slaves/el1258.h:226-231 | A power change drives channel 1 to its level and channel 0 to the level last pressed. |
| El1258Model.FlagAgreesWithDictionary | include/ethercat_sim/simulation/slaves/el1258.h:207-221 | Over every sequence of downloads and default mappings the flag is true exactly when 0x1A00 is assigned below the count and has entries. |
| El1258Model.ChannelsAreIndependentFilters | include/ethercat_sim/simulation/slaves/el1258.h:257-287 | Over every timed run each of the eight channels is its own debounce filter. |
| El1258Model.TerminalShowsExactlyHeldLevels | include/ethercat_sim/simulation/slaves/el1258.h:268-287 | Over every timed run, reading a channel that shows another level than its raw one adopts the raw level if and only if it has been held for the whole debounce time. |
| El1258Model.TerminalHidesGlitches | include/ethercat_sim/simulation/slaves/el1258.h:268-295 | Pulses shorter than the debounce time are invisible to channel and aggregate reads. |
| El1258.EL1258Slave.SetInput | include/ethercat_sim/simulation/slaves/el1258.h:59-67 | Driving a channel changes the raw level and its time only on a change, mirrors channel 1 into power, and ignores channels out of range. |
| El1258.EL1258Slave.EffectiveBit | include/ethercat_sim/simulation/slaves/el1258.h:268-287 | Reading a channel latches it exactly as the filter does and returns its inverted level. |
| El1258.EL1258Slave.AggregateBits | include/ethercat_sim/simulation/slaves/el1258.h:289-295 | The accumulation loop latches the channels in turn and returns the number their levels spell. |
| El1258.EL1258Slave.OnSdoUpload | include/ethercat_sim/simulation/slaves/el1258.h:77-156 | Each object answers its specified value; unknown ones do not answer. |
| El1258.EL1258Slave.OnSdoDownload | include/ethercat_sim/simulation/slaves/el1258.h:158-223 | A download changes exactly the object it names, clearing entries past a count, and the search loop computes the mapping flag. |
| Debounce.SampleAdoptsExactlyHeldLevels | include/ethercat_sim/simulation/slaves/el1258.h:272-283 | A sample adopts a differing raw level if and only if that level has been held for the whole delay. |
| Debounce.OnlyHeldLevelsAreShown | include/ethercat_sim/simulation/slaves/el1258.h:257-287 | Over every timed run the level shown changes only when the channel is sampled, and then to a raw level held for the whole delay. |
| Debounce.ShortPulsesAreNeverSeen | include/ethercat_sim/simulation/slaves/el1258.h:272-283 | However many pulses shorter than the delay occur, the level shown never moves. |
| SubsModel.ThreeMillisecondFilter | apps/slaves/sim/el1258_subs.h:64-99 | The timer-flag filter is, on each channel, the debounce filter with 3 ms, and an idle timer always means filtered equals raw. |
| SubsModel.SubsHidesGlitches | apps/slaves/sim/el1258_subs.h:64-99 | Pulses shorter than 3 ms move neither the channel nor its aggregate bit. |
| SubsModel.AggregateBit | apps/slaves/sim/el1258_subs.h:350-356 | Bit ch of the aggregate is the filtered level inverted by its mask bit. |
| DictionaryProperties.SubsAnswers | apps/slaves/sim/el1258_subs.h:112-253 | Every object of that variant in numbers; channels answer their filtered level as it is. |
| DictionaryProperties.SubsAnswersNothingElse | apps/slaves/sim/el1258_subs.h:112-253 | Every other object does not answer. |
| DictionaryProperties.SubsAggregateAnswers | apps/slaves/sim/el1258_subs.h:350-356 | 0x6002 has the channels' levels, inverted by their mask digits, as its binary digits. |
| DictionaryProperties.SubsConfiguredAnswers | apps/slaves/sim/el1258_subs.h:255-338 | Download then upload: the mask keeps its low byte, the debounce time all of it, everything else answers as before. |
| DictionaryProperties.SubsMappingDownloads | apps/slaves/sim/el1258_subs.h:274-333 | The mapping objects are 0x1A00 + 4 (channel - 1), share one count, and hold one mapping each; 0x1C13 assigns and sets the flag; nothing else changes them. |
| DictionaryProperties.NewSubsAnswers | apps/slaves/sim/el1258_subs.h:17-58 | A new slave of that variant has its eight one-bit mappings, is assigned, and reads low. |
| SubsModel.FlagAfterOneCall | apps/slaves/sim/el1258_subs.h:255-338 | From any state, truthful or stale, when one configuration call leaves the flag truthful: always if it sets the flag, by the new count if it writes one, else exactly if it was. |
| SubsModel.FlagStaysTruthfulExactlyUnless | apps/slaves/sim/el1258_subs.h:255-338 | Over every sequence of downloads and default mappings from a truthful flag, it stays truthful at every prefix if and only if no count write in it crosses zero while the PDO is assigned. |
| SubsModel.FlagIsAsOfTheLastRefresh | apps/slaves/sim/el1258_subs.h:317-327 | Stale or not, the flag is whether the mapping was valid at the last call that set it. |
| SubsModel.ClearedCountStillPassesForMapped | apps/slaves/sim/el1258_subs.h:282-294 | At a new slave's dictionary, clearing the count leaves the flag up and no valid mapping. |
| SlaveRuns.SubsFlagLastsExactlyUnless | apps/slaves/sim/el1258_subs.h:255-338 | Over every run of such a slave without direct flag setters the flag is truthful at every moment if and only if no mailbox write in it carries such a count write. |
| SlaveRuns.ClearedCountStillEntersSafeOp | apps/slaves/sim/el1258_subs.h:282-294 | From every mapped slave of that variant in PRE_OP, clearing 0x1A00:0 through the mailbox leaves no valid mapping in the dictionary, and a SAFE_OP request still succeeds. |
| SlaveRuns.NewSubsReachesPreOpMapped | apps/slaves/sim/el1258_subs.h:17-58 | Every new slave of that variant, requested into PRE_OP, is such a slave. |
| El1258Subs.El1258Slave.SetChannelState | apps/slaves/sim/el1258_subs.h:64-99 | The in-place filter update is the specified one. |
| El1258Subs.El1258Slave.CurrentAggregate | apps/slaves/sim/el1258_subs.h:350-356 | The accumulation loop and mask give the specified bitfield. |
| El1258Subs.El1258Slave.OnSdoDownload | apps/slaves/sim/el1258_subs.h:255-338 | Each download changes the specified field and sets the flag only on assignment. |
| Datagrams.AddressRoundTrip | libs/kickcat/include/kickcat/protocol.h:508-520 | Extracting a created address gives its position and offset back. |
| Datagrams.DecodeInvertsExactlyUpTo32768 | apps/slaves/bus/slaves_endpoint.cpp:363-366 | The position decoder inverts 0 - i in 16 bits if and only if i is at most 32768. |
| BusAccess.AddressInNumbers | libs/kickcat/include/kickcat/protocol.h:508-520 | A header's address is its offset above its position. |
| BusAccess.IndexInNumbers | core/kickcat/sim_socket.cpp:125-139 | Positions below 0x8000 are indices, the others count down from 0x10000, at both programs. |
| BusAccess.CountIsCardinality | core/simulation/network_simulator.cpp:114-131 | The online count of a registry is the number of its online indices. |
| BusAccess.CountersInNumbers | apps/slaves/bus/slaves_endpoint.cpp:235-254 | NOP, BRD, ARMW, FRMW and unknown commands change nothing and count, in numbers, the online slaves in 16 bits, at least 1, 1 if any, or 0, as each program has it. |
| BusAccess.LookupIsExact | core/simulation/network_simulator.cpp:170-181 | The lookup finds nobody if and only if nobody online has the address, and else the first who has. |
| BusAccess.StationDatagram | apps/slaves/bus/slaves_endpoint.cpp:302-314 | FPRD, FPWR and FPRW at both programs: the first online slave with the address takes the datagram on its own, data and counter are its answer, and nothing else changes; with nobody there nothing changes and the counter is 0. |
| BusAccess.PositionDatagram | apps/slaves/bus/slaves_endpoint.cpp:359-372 | APRD, APWR and APRW likewise by index; offline or out of range, nothing changes and the counter is 0. |
| BusAccess.LogicalDatagram | apps/slaves/bus/slaves_endpoint.cpp:411-421 | LRD, LWR and LRW at both programs, byte by byte over the 16384 of logical memory. |
| BusAccess.BroadcastDatagram | apps/slaves/bus/slaves_endpoint.cpp:255-269 | BWR and BRW both do what the broadcast write to their register does, whatever their position, at both programs. |
| BusAccess.StationFrameIsAlone | apps/slaves/bus/slaves_endpoint.cpp:211-460 | A frame for one station is to the bus what it is to that slave alone: the slave and the frame end as if it had taken the datagrams by itself, and nothing else changes. |
| BusConversations.EepromOverTheBus | core/simulation/network_simulator.cpp:224-239 | An EEPROM command and n fetches as a frame bring back the 2n words from the address on, zero past the image, wrapping, each counted 1, and move the slave's address past them. |
| BusConversations.IdentityOverTheBus | include/ethercat_sim/simulation/virtual_slave.h:306-312 | Read so, words 8 to 11 are the slave's vendor and product. |
| BusConversations.SdoOverTheBus | include/ethercat_sim/simulation/virtual_slave.h:672-761 | An SDO exchange as a frame: request, mailbox status 0x08, the owed reply bytes, mailbox status 0, each counted 1, and only the addressed slave changed. |
| BusProperties.ProcessComposes | apps/slaves/bus/slaves_endpoint.cpp:226-456 | Cutting a frame at any datagram boundary and processing the parts in turn is processing it whole. |
| BusProperties.ProcessKeepsShape | apps/slaves/bus/slaves_endpoint.cpp:226-456 | No header or length changes, and only read commands change data. |
| BusProperties.StepsAgreeExactly | core/kickcat/sim_socket.cpp:43-216 | From any state and for any datagram both implementations leave the same state, header and data, and the same counter if and only if the command and online count allow it. |
| BusProperties.FramesAgree | core/kickcat/sim_socket.cpp:43-216 | The same for whole frames. |
| BusProperties.SocketWriteQueuesProcessedFrame | core/kickcat/sim_socket.cpp:27-223 | With the link up a written frame leaves the slaves as the endpoint would and is queued, due after the latency; with the link down nothing happens. |
| BusProperties.ProcessStanding | apps/slaves/bus/slaves_endpoint.cpp:226-456 | A frame never changes which slaves are online, the registry, the settings or the queue. |
| BusProperties.BroadcastIsSolo | apps/slaves/bus/slaves_endpoint.cpp:255-269 | Over distinct slaves each online one the loop reaches takes exactly its solo step, at its own clock readings, and every later one is untouched. |
| BusProperties.BroadcastWriteIsSolo | apps/slaves/bus/slaves_endpoint.cpp:255-269 | The same of the broadcast datagram, whatever the order of the registry: exactly the online slaves below the online count take their solo steps. |
| BusProperties.AckWithinCount | apps/slaves/bus/slaves_endpoint.cpp:255-269 | A broadcast never acknowledges more than the indices it visits. |
| BusProperties.BroadcastCounterWithinOnline | core/kickcat/sim_socket.cpp:61-79 | In both implementations a broadcast's working counter is within the online count, from any state. |
| BusProperties.BroadcastWriteReachesTheOnline | apps/slaves/bus/slaves_endpoint.cpp:255-269 | With the online slaves first, an in-range broadcast write steps each online slave, leaves the others alone and counts the online slaves. |
| BusProperties.BroadcastCountsAllExactlyOnPrefix | apps/slaves/bus/slaves_endpoint.cpp:255-269 | An in-range broadcast write is counted by all online slaves if and only if they come first in the registry and are at most 65535. |
| BusProperties.OnlineBehindOfflineIsMissed | apps/slaves/bus/slaves_endpoint.cpp:255-269 | On a registry of an offline and an online slave no broadcast write touches either, and the counter is 0. |
| BusProperties.OneBroadcastToOperational | apps/slaves/bus/slaves_endpoint.cpp:255-269 | One ACK and OPERATIONAL broadcast brings any mix of mapped slaves to OPERATIONAL with errors cleared. |
| BusProperties.OneBroadcastSufficesExactlyOnPrefix | apps/slaves/bus/slaves_endpoint.cpp:255-269 | Where no online slave was OPERATIONAL, that broadcast brings them all there if and only if they come first in the registry. |
| BusProperties.AssignFirst | apps/slaves/bus/slaves_endpoint.cpp:359-372 | Each assignment by position counts 1, sets its slave's address and disturbs no other. |
| BusProperties.AddressingByStationIsAddressingByIndex | core/simulation/network_simulator.cpp:170-191 | After assigning distinct addresses to n at most 32769 slaves, access by address and by index coincide for every register, read or write. |
| BusProperties.LogicalMemoryIsAByteArray | core/simulation/network_simulator.cpp:281-303 | A logical write then read is a plain byte array; rejected accesses change nothing. |
| ProcessImage.EachByteIsTheLastWriters | core/simulation/network_simulator.cpp:33-55 | After the maps are read in order each byte is the little-endian byte of the last map that read something and covers it, or the old byte. |
| ProcessImage.RunOnceProcessImage | core/simulation/network_simulator.cpp:18-58 | The same for the whole periodic pass. |
| ProcessImage.TerminalReading | core/simulation/network_simulator.cpp:35-49 | A map reads exactly when its slave lives and has inputs; bit ch of the reading is the debounced level of channel ch and nothing is set above bit 7. |
| ProcessImage.GlitchesStayOutOfTheImage | core/simulation/network_simulator.cpp:33-55 | After a pass, bit ch of the mapped byte is the old level of a channel that saw only pulses shorter than the debounce time, the reads of the pass itself included. |
| ProcessImage.PassRestoresMirrors | core/simulation/network_simulator.cpp:24-31 | After a pass the status registers of every started online slave show its fields whatever was written over them; other slaves keep their registers, and nothing but registers and input state changes. |
| ProcessImage.UnmapAllIsEach | core/simulation/network_simulator.cpp:317-328 | Clearing the input maps takes the mapping flag from exactly the live slaves some map names. |
| MappedInputs.MappedSlaveEntersSafeOp | core/simulation/network_simulator.cpp:305-315 | Mapping appends the map and marks the slave, which then enters SAFE_OP from PRE_OP and shows 4. |
| MappedInputs.MappedTerminalIsImaged | core/simulation/network_simulator.cpp:305-315 | The next pass writes the terminal's channels as binary digits at the given address, and zeros behind them up to the width. |
| ProcessImage.LiveKeepsExactlyTheLive | core/simulation/network_simulator.cpp:33-55 | The maps kept are exactly the live ones, in order. |
| RegistryProperties.CountIsTheRegistry | core/simulation/network_simulator.cpp:71-131 | Over every run of simulator calls the count equals the registry's length, the online count is exact, and the answers for slaves present by count only are never given. |
| BusRuns.EveryRunIsReady | core/simulation/network_simulator.cpp:18-328 | Over every run of the bus from an empty simulator - simulator calls, calls on shared slaves, frames at either program - with frame-sized writes, every slave stays sound with the standard windows, so the simulator is ready for every frame. |
| BusRuns.BroadcastInEveryRun | apps/slaves/bus/slaves_endpoint.cpp:255-269 | In every state such a run reaches one ACK and OPERATIONAL broadcast brings all mapped online slaves to OPERATIONAL if they are distinct and come first. |
| RegistryProperties.GrowthNumbersFromOne | core/simulation/network_simulator.cpp:75-80 | Growing an empty registry gives index i a fresh stub with address i + 1, in 16 bits. |
| RegistryProperties.ResizingKeepsPrefix | core/simulation/network_simulator.cpp:71-86 | Shrinking keeps the prefix and growing keeps the registry in front, all states untouched. |
| RegistryProperties.AddingKeepsIndices | core/simulation/network_simulator.cpp:88-112 | Adding a slave keeps every index and gives it the next; clearing leaves none. |
| NetworkSimulators.NetworkSimulator.SetVirtualSlaveCount | core/simulation/network_simulator.cpp:71-86 | The two loops bring the registry to the requested size as specified. |
| NetworkSimulators.NetworkSimulator.OnlineSlaveCount | core/simulation/network_simulator.cpp:114-131 | The counting loop returns the specified count. |
| NetworkSimulators.NetworkSimulator.GetSlaveByStationAddress | core/simulation/network_simulator.cpp:170-181 | The search returns the first online slave with the address, or none. |
| NetworkSimulators.NetworkSimulator.WriteToSlave | core/simulation/network_simulator.cpp:193-222 | The addressed slave, if any, takes the write and nothing else changes. |
| NetworkSimulators.NetworkSimulator.ReadFromSlave | core/simulation/network_simulator.cpp:224-239 | The addressed slave, if any, answers the read and nothing else changes. |
| NetworkSimulators.NetworkSimulator.RefreshMaps | core/simulation/network_simulator.cpp:33-55 | The erase-while-iterating loop visits each map once, overlays the live ones in order and leaves exactly them. |
| NetworkSimulators.NetworkSimulator.RunOnce | core/simulation/network_simulator.cpp:18-58 | The pass runs the routines of online slaves, then refreshes the process image, and changes nothing else. |
| NetworkSimulators.NetworkSimulator.SendFrame | core/simulation/network_simulator.cpp:133-146 | With the link up the frame is queued last with its ready time; otherwise nothing changes. |
| NetworkSimulators.NetworkSimulator.ReceiveFrame | core/simulation/network_simulator.cpp:148-168 | The front frame is taken exactly when the link is up and it is due. |
| Endpoints.SlavesEndpoint.Prepare | apps/slaves/bus/slaves_endpoint.cpp:164-174 | A connection starts from fresh started EL1258 slaves with addresses from 1 and the link up. |
| Endpoints.SlavesEndpoint.ProcessDatagram | apps/slaves/bus/slaves_endpoint.cpp:232-455 | One datagram at the endpoint has the specified effect on simulator, data and counter. |
| Endpoints.SlavesEndpoint.ProcessFrame | apps/slaves/bus/slaves_endpoint.cpp:211-460 | The in-place loop steps the datagrams in order. |
| Endpoints.SimSocket.SimulateDatagram | core/kickcat/sim_socket.cpp:51-215 | One datagram at the socket has the specified effect. |
| Endpoints.SimSocket.Write | core/kickcat/sim_socket.cpp:27-223 | A frame is processed and queued, or dropped while the link is down. |
| BringUp.FreshBusComesUp | apps/slaves/bus/slaves_endpoint.cpp:162-209 | On a newly prepared bus of 1 to 65535 slaves a broadcast read counts them all, one broadcast write is counted by every slave, and reading AL_STATUS at each station then gives OPERATIONAL. |
| BringUp.FreshBusIdentifies | apps/slaves/bus/slaves_endpoint.cpp:162-209 | Each station of it gives vendor 2 and product 0x04EA3052 in its EEPROM, read over the bus. |
| DelayedQueue.EveryInterleavingIsFifo | core/simulation/network_simulator.cpp:133-168 | Over every interleaving of send, receive, link and latency steps, delivered then queued frames are the accepted ones in order, and none is delivered before its ready time. |
| DelayedQueue.UninterruptedCallsAreTheOperations | core/simulation/network_simulator.cpp:133-168 | A call nothing interleaves is the simulator's own operation. |
| Draining.DrainsExactlyThroughoutIfCommitsInOrder | core/simulation/network_simulator.cpp:133-168 | Over every interleaving, draining would deliver exactly the ready frames at every moment and for every time if and only if every send was committed with a ready time, its clock reading plus its latency, not before that of the frame queued last. |
| Draining.DrainsExactlyAlwaysIfSorted | core/simulation/network_simulator.cpp:148-168 | Of one queue: at every time exactly the ready frames are delivered if and only if the frames stand in the order of their ready times. |
| Draining.ReceiveAllTakesTheDrained | core/simulation/network_simulator.cpp:148-168 | Receiving until nothing comes takes that front part of the queue, in order, and nothing else. |
| Draining.SentFrameArrivesAfterLatency | core/simulation/network_simulator.cpp:133-168 | A frame sent on an idle link is received exactly from its latency on, a million nanoseconds the millisecond; with the link down nothing is sent. |
| Draining.NothingArrivesWhileDown | core/simulation/network_simulator.cpp:148-153 | With the link down nothing is received. |
| Draining.SteadyRunHoldsNothingUp | core/simulation/network_simulator.cpp:133-168 | So it is over every run with one send at a time and a latency that never shrinks, whatever receives and link changes do in between. |
| Draining.ShrinkingLatencyHoldsUp | core/simulation/network_simulator.cpp:133-168 | A shrinking latency holds a ready frame up. |
| Draining.OvertakenSendIsHeldUp | core/simulation/network_simulator.cpp:133-146 | A send overtaken between its clock reading and the lock is held up, even at a constant latency. |
| Framing.Socket.ReadExact | apps/slaves/bus/slaves_endpoint.cpp:94-126 | However the stream is cut, the next bytes fill the buffer from its start, all of them or, at the end of the stream, on an error or when asked to stop, as many as were taken; undisturbed it fails only at the end of the stream. |
| Framing.Socket.ReadAll | apps/master/bus/master_socket.cpp:184-197 | The same without polling and stop flag. |
| Framing.Socket.WriteExact | apps/slaves/bus/slaves_endpoint.cpp:128-160 | However sends are cut, a prefix of the data is appended to the stream, all of it exactly on success, and undisturbed always. |
| Framing.Socket.WriteAll | apps/master/bus/master_socket.cpp:169-182 | The same without polling and stop flag. |
| Framing.ParseRecoversFrames | apps/slaves/bus/slaves_endpoint.cpp:176-208 | Every list of frames of 1 to 1500 bytes is recovered exactly, whatever follows. |
| Framing.EncodedBytes | apps/master/bus/master_socket.cpp:77-87 | A frame goes out as its length, high byte first, and its bytes. |
| Framing.BadLengthEndsTheParse | apps/slaves/bus/slaves_endpoint.cpp:187-191 | A length of 0 or over 1500 ends the frames recovered, whatever follows. |
| Framing.BrokenTailAddsNothing | apps/slaves/bus/slaves_endpoint.cpp:176-208 | A stream that breaks off inside a frame yields the whole frames before it. |
| Framing.HandleClient | apps/slaves/bus/slaves_endpoint.cpp:162-209 | However the connection ends - its stream, a bad length, an error, a stop request - the loop has served, pass included, the first frames of the stream in order, the last reply perhaps cut short; undisturbed it has served them all and written every reply; it ends gracefully only on a stop request. |
| Serving.EveryReplyIsTheProcessedFrame | apps/slaves/bus/slaves_endpoint.cpp:162-209 | Over a connection served by the bus each reply is its own frame with the datagrams processed over the simulator the frames before it left, each followed by a pass; lengths are kept and the bus stays sound and ready. |
| Serving.ServeConnection | apps/slaves/bus/slaves_endpoint.cpp:162-209 | The loop over the bus writes those replies for exactly the frames the stream holds, or for its first ones if disturbed. |
| Framing.MasterSocket.Write | apps/master/bus/master_socket.cpp:77-87 | The 16-bit big-endian length and the frame are appended to the stream, or a prefix of them if the connection fails; the result is the frame's size exactly if all were, else -1; without a connection nothing is sent. |
| Framing.MasterSocket.Read | apps/master/bus/master_socket.cpp:89-107 | One frame is taken; one too big for the buffer is consumed whole; a positive result is always the stream's next frame, whatever fails; without a connection nothing is read. |
| Framing.ReadsStayAligned | apps/master/bus/master_socket.cpp:89-107 | The i-th read consumes exactly the i-th frame, returning it or refusing it for size. |
| Framing.BrokenReadTimesOut | apps/master/bus/master_socket.cpp:89-107 | Where the stream breaks off inside a frame the read times out, or refuses a frame too big. |
| Framing.EndToEnd | apps/master/bus/master_socket.cpp:77-107 | For every list of frames written, the endpoint recovers them and the master reads the replies in order with equal lengths, whatever its buffer sizes. |

## Left out

- NetworkSimulators.NetworkSimulator.WriteToSlave: the simulator reaches its slaves through a map from references to states, and applies there the function the slave object's own method is proved against; the slave objects themselves are not stored in it. Sharing and repeated registration are kept by the references.
- Serving.ServeConnection: where a frame's datagrams lie in its bytes is a parameter, because peekDatagram is only declared; the correction of the Ethernet type field is not modelled for the same reason.
- Endpoints.SimSocket.Read: a frame is returned whole; cutting it to the caller's buffer size is not modelled.
- SlaveProperties.Exchange: requests are written whole at the start of the receive window, and both windows lie behind the register space, as they do from construction on.
- BusModel.EndpointStep: datagrams carry at most 1486 bytes, the protocol's maximum, and every mailbox window can hold a 16-byte message.
- VirtualSlaves.VirtualSlave.SetAlState: it bypasses the state machine, so runs do not use it; the closed forms of the AL loop cover the states it can force.
- Input maps wider than 4 bytes and null slave pointers are outside the code's intent and excluded by preconditions.
- Connecting and closing, and how long a poll waits: operating-system calls; a poll ends when the connection is ready, on an error or on a stop request.
- Slave names, logging, the terminal and graphical interfaces, DDS messages, endpoint parsing, the application framework: no behaviour the slaves or the bus depend on.
- KickCAT's Bus, Link and Frame and the master controller that drives them: only their headers are in the repository.
- apps/slaves/bus/subs_endpoint.cpp: repeats slaves_endpoint.cpp.
