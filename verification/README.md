# BTD over VHCI: a Dafny model

This project models the core of a Bluetooth host stack for the ESP32. It is
a port of the USB Host Shield "BTD" dongle driver to the chip's virtual HCI
(VHCI) transport. The core is made of these parts:

- The **BTD engine**. This is the 16-bit HCI event flag word and its three
  macros, the event task that decodes controller events into the engine
  state, and the HCI task state machine, which brings the controller up,
  discovers, pairs with and connects to Wii and HID devices, and accepts
  incoming connections.
- The **command builders**. There is one per HCI command, plus the L2CAP
  signalling builders that wrap a PDU in an HCI ACL packet.
- The **service table**. It registers up to four Bluetooth services and feeds
  them every ACL packet.
- The **VHCI glue**. This is the send framing, the routing of incoming packets
  into two bounded non-blocking queues, and the update pass that drains both
  queues through the engine.
- The **PS4 report parser**. It covers the dpad decoding, the button, click and
  trigger queries, the rising-edge click latch, the report-ID gate and `Reset`.
- The **boot keyboard parser's locking-key LEDs**.

Every piece of state is an immutable datatype and every operation is a pure
function; the loops of the source that matter (service registration, the send
copy loop and the queue drain) are methods with loop invariants. Bytes are
an integer newtype, the flag word and the LED byte are bit-vectors, and
C's 8- and 16-bit wrap-around is written out where the model admits it;
the one place where it would make a loop run forever (a local name of 256
octets or more) is excluded by a type, as listed under "Left out".

Files: `bytes.dfy`, `wrappers.dfy` (shared vocabulary), `flags.dfy`
(`HciFlags`), `hci_commands.dfy` (`HciCommands`), `l2cap.dfy` (`L2cap`),
`services.dfy` (`Services`), `vhci.dfy` (`Vhci`), `btd.dfy` (`BtdEngine`:
the state record and the non-packet operations), `hci_events.dfy`
(`HciEvents`), `hci_task.dfy` (`HciTask`), `scenarios.dfy` (`Scenarios`: an event
followed by the steps it enables), `vhci_update.dfy`
(`VhciUpdate`), `ps4_parser.dfy` (`Ps4Parser`), `hidboot.dfy` (`HidBoot`).

## Model

| member | source | states |
|---|---|---|
| HciFlags.Set | src/BTD.h:83 | setting a mask turns all of its bits on and leaves every other bit of the flag word as it was |
| HciFlags.Clear | src/BTD.h:84 | clearing a mask turns all of its bits off and leaves every other bit as it was |
| HciFlags.SetThenCheck | src/BTD.h:82-83 | a non-empty mask tests as present right after it is set |
| HciFlags.SetOther | src/BTD.h:82-83 | setting one flag does not change how a disjoint flag tests |
| HciFlags.ClearKeeps | src/BTD.h:82-84 | clearing one flag does not change how a disjoint flag tests |
| HciFlags.ClearUndoesSet | src/BTD.h:83-84 | clearing a flag that was absent before it was set gives back the original word |
| HciFlags.FlagsAreDistinctBits | src/BTD.h:70-79 | the ten event flags are the single bits 0 to 9, so they are pairwise disjoint and fit in 16 bits |
| HciCommands.DecodeHandle | src/BTD.cpp:240-255 | the connection handle read back from an event is a 12-bit value made of the low octet and the low nibble of the high octet |
| HciCommands.HandleRoundTrip | src/BTD.cpp:1063-1083 | encoding a handle the way the builders do and decoding it gives it back exactly when it is a 12-bit handle |
| HciCommands.Encode | src/BTD.cpp:787-1094 | every command packet is the OCF octet, OGF shifted left by two, a length octet and the parameters |
| HciCommands.PinField | src/BTD.cpp:968-1002 | the PIN field is the PIN followed by zeros up to 16 octets |
| HciCommands.HeaderLaw | src/BTD.cpp:787-1094 | for every builder, the packet has the size handed to `HCI_Command`, the opcode octets are OCF and OGF << 2, and the length octet counts the octets after the header; the one exception is a 255-octet local name, whose length octet wraps to 0 |
| HciCommands.FlagsAfterIssue | src/BTD.cpp:782-785 | after a command is issued, CMD_COMPLETE and the flag the builder waits on are clear and every other flag is unchanged |
| HciCommands.ResetClearsAllFlags | src/BTD.cpp:787-794 | issuing the reset command leaves the flag word empty |
| HciCommands.ResetEncoding | src/BTD.cpp:787-794 | the reset command is 03 0C 00 |
| HciCommands.InquiryEncoding | src/BTD.cpp:920-932 | the inquiry command carries the GIAC 0x9E8B33, length 0x30 and at most 10 responses |
| HciCommands.WriteClassOfDeviceEncoding | src/BTD.cpp:1085-1094 | the write class of device command sets class 0x000804 |
| HciCommands.CommandHandleRoundTrip | src/BTD.cpp:1063-1083 | the handle in the authentication and disconnect commands decodes back to the handle they were built for |
| L2cap.Command | src/BTD.cpp:1121-1137 | an ACL packet is the 12-bit handle with PB flag 0x20, total length 4 + n, L2CAP length n, the channel id, then the payload |
| L2cap.SignalCommand | src/BTD.h:353 | with the channel arguments omitted, the packet goes to the signalling channel 0x0001 |
| L2cap.Payload | src/BTD.cpp:1139-1246 | every signalling PDU starts with its command code and identifier |
| L2cap.LengthFieldIsExact | src/BTD.cpp:1139-1246 | each builder's literal length field equals the number of data octets that follow it |
| L2cap.ConnectionRequestLayout | src/BTD.cpp:1139-1150 | a connection request is code 2, id, length 4, the PSM little-endian and the source channel; the ACL packet is 16 octets |
| L2cap.HidControlConnectionRequest | src/BTD.cpp:1139-1150 | the concrete packet for a HID control channel request over handle 1 |
| L2cap.CheckHciHandleMatchesCommand | src/BTD.h:544-546 | for 12-bit handles, the handle check accepts a packet built for handle h exactly when it is asked about h |
| L2cap.CheckHciHandle | src/BTD.h:544-546 | an accepted packet starts with the handle's low octet and has the packet-boundary bit 0x20 set |
| L2cap.CheckHciHandleDecodes | src/BTD.h:544-546 | for a 12-bit handle, a packet is accepted exactly when its 12-bit handle field decodes to the handle and its flag nibble is 2 |
| L2cap.Parse | src/BTD.cpp:1121-1137 | a header that reads back has a payload 8 octets shorter than the packet and a 12-bit handle |
| L2cap.ParseCommand | src/BTD.cpp:1121-1137 | reading back a built ACL packet gives the handle, the channel and the payload it was built from |
| Services.Register | src/BTD.h:263-271 | the service goes into the first empty slot and its index is returned; -1 exactly when all four slots are taken, and then nothing changes |
| Services.Broadcast | src/BTD.cpp:47-65 | every registered service receives the call once; empty slots stay empty |
| Services.AclEventTaskDelivers | src/BTD.cpp:759-776 | every registered service receives the packet (over the buffer's old contents) and then one Run; an empty packet gives only the Run |
| Services.AclEventTask | src/BTD.cpp:759-776 | the ACL buffer holds the packet over its old contents, and no service slot is filled or emptied |
| Vhci.Frame | src/btd_vhci.cpp:37-44 | the wire frame is the type octet followed by the packet |
| Vhci.SendPacket | src/btd_vhci.cpp:33-49 | the repeated copy leaves the type octet and the packet at the head of the send buffer, keeps the rest, and sends exactly the frame |
| Vhci.Push | src/btd_vhci.cpp:53-66 | a zero-timeout send queues the item exactly when it fits, and otherwise leaves the queue unchanged |
| Vhci.Pop | src/btd_vhci.cpp:92-111 | a zero-timeout receive gives the oldest item, or nothing when the queue is empty |
| Vhci.HostReceive | src/btd_vhci.cpp:53-66 | event packets go to the HCI queue and ACL packets to the ACL queue without their type octet; other types are dropped; the result is always 0 |
| Vhci.ReceiveFrame | src/btd_vhci.cpp:53-66 | an event frame that fits is queued intact |
| BtdEngine.StateCodeInjective | src/BTD.h:45-67 | the twenty states have distinct numbers |
| BtdEngine.NewBtd | src/BTD.cpp:22-35 | a new engine starts in INIT with zero counters and an empty flag word, no registered service, no pairing intent, no name or PIN, and polling off |
| BtdEngine.DisconnectServices | src/BTD.cpp:86-90 | every registered service, and no empty slot, receives one disconnect call; nothing outside the service table changes |
| BtdEngine.Initialize | src/BTD.cpp:47-65 | every service is reset; the saved address is zeroed; the connect and incoming intents and the PS flag are cleared; polling stops and the simple-pairing support is forgotten; pairing requests and every other field (state, flags, buffers, counters, handle, name, PIN) are kept |
| BtdEngine.Init | src/BTD.cpp:38-45 | the state machine restarts in INIT with a limit of 100 idle passes, polling is enabled, and the result is 0 |
| BtdEngine.Release | src/BTD.cpp:69-72 | release is `Initialize` and returns 0 |
| BtdEngine.PairWithWiimote | src/BTD.h:442-445 | requests Wii pairing and restarts from the device check, changing no other intent |
| BtdEngine.PairWithHid | src/BTD.h:458-462 | requests HID pairing, stops waiting for an incoming connection and restarts from the device check |
| BtdEngine.Issue | src/BTD.cpp:782-785 | a builder plus `HCI_Command` sends exactly one command frame and leaves the packet over the start of the HCI buffer, the rest of the buffer keeping its old contents; CMD_COMPLETE and the awaited flag are cleared and every other flag and field is unchanged |
| HciEvents.CommandComplete | src/BTD.cpp:103-162 | a successful Command Complete sets CMD_COMPLETE and the one flag its opcode signals, and records the HCI version, the simple-pairing feature bit (only while the features flag was clear) or the local address; nothing but the flags and those host fields changes; a failed one changes nothing |
| HciEvents.InquiryComplete | src/BTD.cpp:173-190 | after five or more inquiries with a pairing pending, all Wii and HID intents are dropped and scanning resumes; the 8-bit counter always advances; flags, peer and every other field are kept |
| HciEvents.CodOffsetExact | src/BTD.cpp:191-239 | for any response count a real inquiry result can carry, the 8-bit class-of-device offset does not wrap |
| HciEvents.Scan | src/BTD.cpp:191-239 | the response loop touches only the class, the discovered address, the name-check intent and DEVICE_FOUND |
| HciEvents.ScanFindsFirst | src/BTD.cpp:191-239 | the first qualifying response becomes the discovered device: its address and class are recorded, DEVICE_FOUND is set and its name is to be checked |
| HciEvents.ScanFindsNone | src/BTD.cpp:191-239 | with no qualifying response, no flag, address or intent changes and the last response's class is left behind |
| HciEvents.ScanSetsFoundIff | src/BTD.cpp:191-239 | DEVICE_FOUND ends up set exactly when it already was or some response qualifies |
| HciEvents.InquiryResult | src/BTD.cpp:191-239 | an inquiry result with no responses changes nothing |
| HciEvents.ConnectComplete | src/BTD.cpp:240-255 | CONNECT_EVENT is always set; on success the handle is stored, CONNECT_COMPLETE is set and nothing else changes; on failure the engine returns to the device check with the peer kept |
| HciEvents.DisconnectComplete | src/BTD.cpp:256-262 | a successful disconnection sets DISCONNECT_COMPLETE and clears CONNECT_COMPLETE, touching no other flag or field; a failed one changes nothing |
| HciEvents.CopyNameSpec | src/BTD.cpp:263-282 | the name copy takes every octet up to and including the first zero, at most 30, and keeps the old name beyond that |
| HciEvents.FullNameUnterminated | src/BTD.cpp:263-282 | a 30-octet name without a zero fills the buffer and leaves it unterminated |
| HciEvents.CopyName | src/BTD.cpp:263-271 | the name octets before the loop's start are kept, and any octet the copy changes becomes the event's octet at that position |
| HciEvents.RemoteNameComplete | src/BTD.cpp:263-282 | on success the name is copied and only REMOTE_NAME_COMPLETE is added to the flags; on failure nothing changes |
| HciEvents.IncomingConnect | src/BTD.cpp:283-307 | the requester's address and class are recorded, a HID class marks it as an incoming HID device, and INCOMING_REQUEST is set; no other flag, peer field, intent, state or buffer changes |
| HciEvents.PinReply | src/BTD.cpp:968-1002 | a Wii controller gets a Bluetooth address as its PIN (the host's after SYNC pairing, else its own); others get the configured PIN, or a negative reply when there is none |
| HciEvents.WiiPinOnWire | src/BTD.cpp:968-1002 | a Wii PIN reply on the wire is 26 octets: header, peer address, length 6, the address PIN, then ten zeros |
| HciEvents.AuthenticationComplete | src/BTD.cpp:334-359 | success marks the Wii and then the HID device to connect to, each once, and otherwise changes nothing; failure sends Disconnect for the link, enters DISCONNECT and clears only the flags the command clears |
| HciEvents.PairingSucceeded | src/BTD.cpp:334-349 | after a successful pairing, a pending Wii pairing is marked to connect first, else a pending HID pairing; with neither pending the intents are unchanged |
| HciEvents.PairingFailed | src/BTD.cpp:350-357 | a failed pairing sends Disconnect for the stored handle, clears DISCONNECT_COMPLETE and CMD_COMPLETE and waits in DISCONNECT; nothing else changes |
| HciEvents.Record | src/BTD.cpp:103-307 | the events that only record what they report leave the service table, the ACL buffer, the claims, the loop counters and polling alone |
| HciEvents.Reply | src/BTD.cpp:308-388 | the PIN, link-key, IO-capability and user-confirmation requests are each answered with exactly one HCI command |
| HciEvents.Dispatch | src/BTD.cpp:92-431 | an event makes the engine send at most one frame, which is an HCI command; the service table, the ACL buffer, the claims, the loop counters and polling are never touched by an event |
| HciEvents.EventTask | src/BTD.cpp:92-102 | an empty packet does nothing; any other packet sends at most one command frame and keeps the fields the state machine and the services own |
| HciEvents.ConnectCompleteStoresHandle | src/BTD.cpp:240-255 | a successful Connect Complete for a 12-bit handle stores exactly that handle and sets CONNECT_COMPLETE and CONNECT_EVENT |
| HciEvents.LoggedEventsChangeNothing | src/BTD.cpp:389-428 | Command Status, IO Capability Response, Simple Pairing Complete and every other event the switch only logs leave the engine as it was, apart from the packet left in the HCI buffer, and send nothing |
| HciEvents.LinkKeyRequestRefused | src/BTD.cpp:327-333 | a Link Key Request is answered with a negative reply 0C 04 06 for the discovered address, whatever address the event names |
| HciEvents.IoCapabilityRequestAnswered | src/BTD.cpp:360-366 | an IO Capability Request is answered with 2B 04 09, the discovered address, and NoInputNoOutput, no OOB data, no bonding (03 00 00) |
| HciEvents.UserConfirmationAccepted | src/BTD.cpp:376-388 | a User Confirmation Request is confirmed with 2C 04 06 and the discovered address |
| HciEvents.PinCodeRequestAnswered | src/BTD.cpp:308-326 | a PIN Code Request is answered with the PIN reply; with no Wii pairing and no PIN configured it is the negative reply 0E 04 06 for the discovered address |
| HciTask.Backoff | src/BTD.cpp:445-465 | the reset limit grows tenfold up to 2000: 100 becomes 1000, and 1000 and 2000 become 2000 |
| HciTask.InitStep | src/BTD.cpp:436-444 | the controller is reset, with every flag cleared, exactly when the idle count exceeds the limit |
| HciTask.ResetStep | src/BTD.cpp:445-465 | a completed reset moves on to writing the class of device; a timeout backs the limit off and returns to INIT |
| HciTask.AfterVersion | src/BTD.cpp:486-499 | after the version is read: write the name if one is configured, else read the features if simple pairing is wanted, else go to the device check |
| HciTask.AfterName | src/BTD.cpp:500-513 | after the name is written: read the features if simple pairing is wanted, else go to the device check |
| HciTask.StrnEqualIsPrefix | src/BTD.cpp:665-709 | compared with a literal that has no zero octet, `strncmp` is equality of the first n octets |
| HciTask.ClassifyName | src/BTD.cpp:665-709 | a name starting "Nintendo" marks an incoming Wii whose model flags follow the full model name; "Wireless Controller" with the PlayStation class marks a PS controller |
| HciTask.ModelNamesExclusive | src/BTD.cpp:665-709 | the three Wii model names exclude each other and all start with "Nintendo" |
| HciTask.ConnectInStep | src/BTD.cpp:631-664 | a request from the saved address is accepted at once; any other first has its name asked for; with no request, a finished disconnection leads to DISCONNECT |
| HciTask.RemoteNameStep | src/BTD.cpp:665-709 | once the name arrives the device is classified; a device found by our own inquiry is connected to, any other is accepted |
| HciTask.ConnectedStep | src/BTD.cpp:710-727 | once the link is up, a PS controller is marked for connection, claims and flags are cleared, and the engine rests in DONE |
| HciTask.DoneStep | src/BTD.cpp:728-735 | after 1000 idle passes the engine scans again |
| HciTask.DisconnectStep | src/BTD.cpp:736-757 | after a finished disconnection every flag, both buffers and every intent are cleared and the engine scans again |
| HciTask.SetupStep | src/BTD.cpp:466-542 | each controller set-up state sends at most two HCI commands, touches no service and leaves the reset limit alone |
| HciTask.PairStep | src/BTD.cpp:543-630 | each discovery, connection and scanning state sends at most two HCI commands, touches no service and leaves the reset limit alone |
| HciTask.Step | src/BTD.cpp:434-757 | no step of the state machine touches the service table; a step sends at most two frames, each an HCI command |
| HciTask.InitArmsBackoff | src/BTD.cpp:38-45 | `Init` sets the reset limit to 100 |
| HciTask.StepKeepsLoopsOk | src/BTD.cpp:434-757 | no step takes the reset limit out of {100, 1000, 2000} |
| HciTask.StepChangesLoopsOnlyOnReset | src/BTD.cpp:434-757 | only the RESET state changes the reset limit, and only to the backoff value |
| HciTask.WaitingStatesIdle | src/BTD.cpp:434-757 | a state whose awaited flag is still clear changes nothing and sends nothing |
| HciTask.InquiryFoundDevice | src/BTD.cpp:557-585 | a found device cancels the inquiry; then its name is requested if it must be checked, otherwise connecting starts |
| HciTask.ScanningEnablesScan | src/BTD.cpp:620-630 | with no pairing intent the engine enables page scan (and inquiry scan when a name is set) and waits for a connection |
| HciTask.ConnectedDeviceOutcome | src/BTD.cpp:600-619 | while CONNECT_EVENT is set and CONNECT_COMPLETE is clear, Create Connection is sent again from the same state; after a successful connection authentication starts and the engine listens again |
| HciTask.ClassAdvances | src/BTD.cpp:466-475 | after the class is written, Read BD_ADDR (09 10 00) is sent, with READ_BDADDR cleared, and the engine waits for the address |
| HciTask.BdAddrAdvances | src/BTD.cpp:476-485 | once the address is known, Read Local Version (01 10 00) is sent, with READ_VERSION cleared |
| HciTask.FeaturesAdvance | src/BTD.cpp:514-523 | once the features are known, simple pairing is enabled (56 0C 01 01) when the controller supports it; otherwise the device check follows with nothing sent |
| HciTask.SimplePairingAdvances | src/BTD.cpp:524-533 | after simple pairing is enabled, Set Event Mask is sent with the mask FF FF FF FF FF 1F FF 00 |
| HciTask.EventMaskAdvances | src/BTD.cpp:534-542 | after the event mask is set, the device check follows with nothing sent and nothing else changed |
| HciTask.DeviceCheckOutcome | src/BTD.cpp:543-556 | with a Wii or HID pairing requested, an inquiry is started with DEVICE_FOUND cleared; otherwise the engine goes to scanning with nothing sent |
| HciTask.ConnectDeviceOutcome | src/BTD.cpp:586-599 | once the cancel completed, the name check is dropped and Create Connection is sent to the discovered address with packet type 0xCC18, R1 and no clock offset, clearing CONNECT_EVENT and CONNECT_COMPLETE |
| Scenarios.IncomingRequestRecorded | src/BTD.cpp:283-307 | a Connection Request event records the requester and raises INCOMING_REQUEST, sending nothing and keeping the state and the saved address |
| Scenarios.ReconnectToSavedPeer | src/BTD.cpp:631-664 | while listening, a Connection Request from the saved peer is accepted on the next step, without a name request |
| Scenarios.UnknownPeerNameRequested | src/BTD.cpp:631-664 | while listening, a Connection Request from any other peer makes the next step ask for its name |
| Scenarios.ReadBdAddrCompletes | src/BTD.cpp:103-162 | the Command Complete of Read BD_ADDR stores the controller's address, and the next step reads the local version |
| Scenarios.DisconnectionRecorded | src/BTD.cpp:256-262 | a Disconnection Complete with status 0 sends nothing, keeps the state and intents, raises DISCONNECT_COMPLETE, lowers CONNECT_COMPLETE and leaves INCOMING_REQUEST as it was |
| Scenarios.DisconnectionReturnsToScanning | src/BTD.cpp:631-664 | a disconnection while listening leads to DISCONNECT on the next step and to scanning with an empty flag word on the one after |
| Scenarios.FailedPairingDisconnects | src/BTD.cpp:334-359 | a failed Authentication Complete sends Disconnect for the stored handle and waits in DISCONNECT with the intents kept |
| Scenarios.FailedPairingEndsInScanning | src/BTD.cpp:736-757 | after a failed pairing, the Disconnection Complete that follows and one step bring the engine back to scanning with an empty flag word and no intent |
| Scenarios.InquiryGivesUp | src/BTD.cpp:173-190 | after five unanswered inquiries the next Inquiry Complete drops the pairing intent, and the following step makes the controller connectable and waits for a connection |
| Scenarios.FailedConnectStartsNewInquiry | src/BTD.cpp:240-255 | a failed Connect Complete while connecting returns to the device check, whose step starts a fresh inquiry instead of retrying Create Connection |
| VhciUpdate.DrainShape | src/btd_vhci.cpp:92-111 | a pass over h event and a ACL packets runs max(h, a) + 1 rounds, and round k hands over the k-th packets or nothing |
| VhciUpdate.Update | src/btd_vhci.cpp:82-115 | the update pass empties both queues, runs max(h, a) + 1 rounds, and leaves the engine where applying that call trace leads |
| VhciUpdate.OneStepPerRound | src/btd_vhci.cpp:92-111 | each round is one event call, exactly one state-machine step and one ACL call |
| Ps4Parser.CheckDpadIsCompass | src/PS4Parser.cpp:40-53 | a direction reads pressed exactly when the hat points at it or at a neighbouring diagonal (UP for 7, 0, 1 and so on); a released hat and non-direction buttons read as not pressed |
| Ps4Parser.DpadBits | src/PS4Parser.cpp:114-123 | the derived direction bits hold exactly the directions `checkDpad` reports |
| Ps4Parser.DpadBitsInjective | src/PS4Parser.cpp:114-127 | distinct hat values 0 to 8 give distinct direction bits |
| Ps4Parser.GetButtonPress | src/PS4Parser.cpp:55-61 | a button missing from the table is not pressed; a direction reads the hat; any other button reads its bit |
| Ps4Parser.GetButtonClick | src/PS4Parser.cpp:63-69 | reports whether a click is latched for the button and consumes that latch, changing nothing else |
| Ps4Parser.ClickIsLocal | src/PS4Parser.cpp:63-69 | consuming one button's click leaves the click of every button at another position as it was |
| Ps4Parser.ClickReadOnce | src/PS4Parser.cpp:63-69 | asking for the same click twice in a row gives false the second time |
| Ps4Parser.GetAnalogButton | src/PS4Parser.cpp:71-78 | L2 reads the first trigger and R2 the second; every other button reads 0 |
| Ps4Parser.Latch | src/PS4Parser.cpp:109-128 | when the button word changed, newly set bits are OR-ed into the click word and the word is remembered; when the direction bits changed too, the direction clicks are overwritten with the newly pressed directions |
| Ps4Parser.ReportOffset | src/PS4Parser.cpp:96-107 | report 0x01 starts after its ID, report 0x11 three octets in when it is at least 4 long, and any other report is rejected |
| Ps4Parser.Parse | src/PS4Parser.cpp:84-133 | the output report is sent only when it changed; parsing never changes the output report; the remembered direction bits stay in step with the remembered hat; the state changes only for a report of ID 0x01 or 0x11 longer than one octet |
| Ps4Parser.ParseIgnores | src/PS4Parser.cpp:84-133 | a report that is too short, missing, of an unknown ID, or a Bluetooth report under 4 octets changes no state; only the first two cases still send a changed output report |
| Ps4Parser.ParseAccepts | src/PS4Parser.cpp:96-132 | an accepted report is copied in from behind its header, latched, and the output report is sent when it changed |
| Ps4Parser.ParseKeepsSynced | src/PS4Parser.cpp:109-128 | the remembered direction bits always stay those of the remembered hat value |
| Ps4Parser.PressLatchesClick | src/PS4Parser.cpp:109-128 | a button released in the remembered word and pressed in the new report is clicked afterwards, and `getButtonClick` reports it |
| Ps4Parser.ParseKeepsClicks | src/PS4Parser.cpp:109-128 | a latched click of a non-direction button survives every report until it is read |
| Ps4Parser.HatChangeOverwrites | src/PS4Parser.cpp:114-127 | a change between well-formed hat values replaces the direction clicks with exactly the newly pressed directions |
| Ps4Parser.Reset | src/PS4Parser.cpp:135-157 | sticks are centred at 127; nothing reads pressed or analog; there is no direction click; outputs are zero and unchanged; other clicks are kept |
| Ps4Parser.ResetThenIdleReport | src/PS4Parser.cpp:135-157 | after a reset, a report with nothing pressed latches no click and sends nothing |
| HidBoot.NewKeyboardReportParser | src/hidboot.h:152-154 | a new keyboard parser has every LED off |
| HidBoot.HandleLockingKeys | src/hidboot.h:160-181 | Num Lock, Caps Lock and Scroll Lock each invert only their own LED bit; any other key changes nothing; the result is always 0 |
| HidBoot.LockingKeyToggles | src/hidboot.h:163-173 | each key's effect is an exclusive-or with its LED, so handling the same key twice restores the LED byte |
| HidBoot.FirstPressLightsOnlyItsLed | src/hidboot.h:152-173 | from a new parser, one press of a locking key lights its LED and no other |

## Left out

- The ESP-IDF bring-up in `btd_vhci_init` (controller configuration, callback registration, task creation) and `xRingbufferCreate` are calls into the platform. The two queues are modelled as created empty with 2 * 1024 octets of room.
- The mutexes around the send path and the update pass are left out: the model is sequential, and the packets that arrive during a pass are not modelled.
- The ring buffer's per-item header overhead is left out: a queue's capacity counts payload octets only.
- The saved-address storage in non-volatile memory and the autoconnect path are calls into the platform. The saved address is a field of the state.
- The services' own `ACLData`, `Run`, `Reset` and `disconnect` are not visible. A service is the record of the calls it has received.
- All logging is left out, and so are the commented-out `Poll` and `bPollEnable` checks.
- `hci_write_scan_disable` is modelled as a command, but no state enters `HCI_DISABLE_SCAN_STATE`.
- The PS4 report layout, `PS4_BUTTONS`, `ButtonIndex` and `sendOutputReport` are defined in `PS4Parser.h`, which is not part of this model. The copy of report octets into the input report is a parameter, and the button word is its hat nibble plus the set of higher bits. The direction buttons are taken to sit at bits 0 to 3 and L2 and R2 at bits 10 and 11.
- The PS4 debug hex dump (src/PS4Parser.cpp:87-94) is logging and is left out. It writes a terminator at `buf[len*2]`, past the end of the caller's buffer, instead of into `printbuf`.
- `getAnalogHat`, the touch-pad coordinates, the motion sensor fields and the output report's encoding are left out: they are reads of the unseen report layout.
- `MouseReportParser`, `KeyboardReportParser::Parse` and `OemToAscii` are left out: their bodies are outside `hidboot.h`. So are the USB endpoint macros and the floating-point constants of `extras.h`.
- HciCommands.Pin: a configured PIN longer than 16 octets is excluded by its type. The source would copy it past the 16-octet field.
- HciEvents.Scan: the response count is taken from the event as it is, up to 255. CodOffsetExact states when the 8-bit offset is exact. For larger counts the modelled offset wraps, as the source's does.
- HciCommands.LocalName: a local name of 256 octets or more is excluded by the type. For such a name the `uint8_t` index of the copy loop at src/BTD.cpp:885-887 wraps before it reaches `strlen(name)`, so the source never leaves the loop.
- HciTask.ConnectedDeviceOutcome: the retry of Create Connection at src/BTD.cpp:612-616 is stated for the flag combination that selects it, but no event produces that combination in CONNECTED_DEVICE: a failed Connect Complete (src/BTD.cpp:248) already moves the engine to the device check (see Scenarios.FailedConnectStartsNewInquiry). The "one automatic retry" of a refused connection is therefore a new inquiry, not a second Create Connection.
- Behaviours of the code worth stating:
  - the simple-pairing feature bit is recorded only while LOCAL_EXTENDED_FEATURES is still clear;
  - a PS4 report with an unknown ID, or a short 0x11 report, returns before the output report is sent;
  - `Reset` of the PS4 parser clears only the direction clicks and keeps every other latched click.
