# EspNowOnLinux, verified

EspNowOnLinux bridges Ethernet frames between Linux TAP interfaces over ESP-NOW. Each host talks
to an ESP32 over a serial link: the daemon turns TAP frames into packets for the radio, the
firmware turns radio packets into messages for the daemon. This project models that link in Dafny
(codecs, reassembly buffers, receive loops, write queue, slot pool, shared wire, handshake) and the
two host utilities built around it (event dispatcher, device list), and proves what the parts
promise together.

`dafny verify dfyconfig.toml` checks everything.

| file | what it models |
|---|---|
| Bytes.dfy, Sequences.dfy | bytes, byte order, words in memory and on the wire; subsequences |
| SpanCodec.dfy, StartDevice.dfy | messages/utility.hpp and messages/start_device.hpp |
| Messages.dfy | message_id.hpp, received_packet.hpp, packet_to_send.hpp |
| Framing.dfy | the reassembly loop both ends run, over any dispatcher: the reference parser |
| HostProtocol.dfy, HostDevice.dfy | the daemon's dispatcher, its meaning, and the class that runs it |
| DeviceProtocol.dfy | the firmware's dispatcher and `jtag_receive_task` |
| ReceivingBuffer.dfy, WriteQueue.dfy | receiving_buffer and the outgoing half of serial_port_socket |
| PacketPool.dfy, PoolBound.dfy, Firmware.dfy | slot pool and index queue: state machine, bound, and the code |
| Wire.dfy | the mutex-guarded writers of the firmware |
| Handshake.dfy | announcing and starting a device |
| EndToEnd.dfy | TAP to TAP, and radio to TAP |
| EventDispatcher.dfy, DeviceManager.dfy | subscriptions with move-only guards; device names and lookup |

Main results:

- **Reassembly.** `Framing.ChunkIndependence` says for any dispatcher that delimits frames when
  decoding is independent of how reads cut the stream: exactly when no byte after the first unknown
  identifier is a known one (`HostChunkIndependence` for the host, `GarbageHidesPing` for the input
  that shows the dependence). The classes carry it over all their calls: `ReadHandle` and
  `Receive` keep the predicate `Refines`, that state and buffer are what the reference parser gives
  for the whole stream.
- **Shared wire.** Under every interleaving of the tasks, frames are completed in the order in which
  the mutex was obtained for them. When every driver write completes, the host decodes exactly those
  messages in that order, however reads cut the wire (`HostDecodesInLockOrder`). In general the wire
  is the complete frames and the mutex holder's beginning if and only if no frame lost only a part
  of its writes, and then it decodes to exactly the complete frames (`WireIsDecodable`).
- **Slot pool.** Slots never have two owners and never change while queued (`PoolSafety`), and giving
  up for want of space needs eight failed enqueues (`NoSpaceNeedsFailures`), a bound some run attains
  (`NoSpaceBoundIsAttained`).
- **Handshake.** Over all runs one event, one set of details and one start request come of any number
  of announcements (`HandshakeSafety`); without TAP traffic before the device starts, it starts only
  once accepted and at its first non-empty poll (`FirstPollStarts`).
- **End to end.** `RadioToTap` composes slot pool and shared wire with the host; `TapToTap` puts the
  near device's receiver and the radio in front, and `Bridge` the sending host's write queue. What
  arrives is an ordered, unaltered part of what was sent, and all of it once the far device is done
  without a failure.

Where the code and what one might expect of it differ, the code is followed and the difference is stated
exactly:

- The host starts a second operation for the front frame whenever a write finds the queue
  non-empty; frames are issued exactly once if and only if that never happens (`ExactlyOnce`,
  `HastyWriteRepeats`).
- Without TAP traffic before the device starts, the same repeats the start request if and only if
  the first TAP frame found the queue non-empty (`HandshakeSafety`, `HastyTapRepeatsStart`). With
  earlier traffic the general count applies: a frame is issued once, and once more for every write
  that finds it at the front (`IssueCount`).
- A poll that begins at any byte equal to 1 starts the device, whatever frame the byte belongs to.
  So TAP frames before the start can start it though the host never accepted it, if and only if one
  of them holds such a byte (`FalseStart`), and can cost it the answer for good, unless frame and
  answer hold 256 such bytes in a row (`EarlyTapHidesStart`, `MissedForGood`).
- A log record that loses only its length write makes the host read a record nobody sent, or wait
  for one (`TornFrameMisleads`); losing a part of the writes can also be harmless
  (`TornFrameMayBeHarmless`).
- The host's buffer stays full for good if and only if it begins with a frame longer than 4096 bytes
  (`HostStall`, `EndlessLineStalls`).
- The firmware moves its receive buffer to the front only when it waits for more bytes, so a
  buffer drained exactly at its end never reads again (`DeviceProgress`, `AlignedPacketsStall`,
  `TwoPacketsStall`, `StalledForever`).
- The firmware's length guard wraps at 2^32; it is exact if and only if the declared length is at
  most 2^32 - 12 (`GuardExactness`, `GuardWraps`).
- The scalar codecs convert to network order and then store from the top byte, so values wider than
  a byte are host-ordered on the wire (`ScalarsCrossMachines`, `OneBecomes256`). `start_device` only uses bytes.
- A TAP frame without payload is dropped by the remote callback, which rejects lengths of zero.
- messages/tests/test_packet_to_send.cpp:18-19 expects 12 bytes, while the serializer also writes a
  4-byte length (messages/packet_to_send.hpp:17-18).

Reads, completions, lock timeouts, queue answers and the radio are parameters or steps of the
environment.

## Model

| member | source | states |
|---|---|---|
| SpanCodec.WriteScalar | messages/utility.hpp:57-68 | the span's first bytes become the converted value, most significant first; every other byte of the buffer is unchanged |
| SpanCodec.ReadScalar | messages/utility.hpp:44-55 | the result is determined by the span's bytes alone, whatever the variable held |
| SpanCodec.ScalarRoundTrip | messages/utility.hpp:42-69 | reading what was written returns the value, for every width and either byte order |
| SpanCodec.SpanImageIsMemory | messages/utility.hpp:57-68 | what is written is the value as the machine's own memory holds it |
| SpanCodec.ScalarsCrossMachines | messages/utility.hpp:22-68 | between machines it does if and only if byte orders agree or the value's bytes are a palindrome |
| SpanCodec.OneBecomes256 | messages/utility.hpp:22-68 | a 16-bit 1 is read as 256 by a machine of the other byte order |
| SpanCodec.WriteArray | messages/utility.hpp:83-91 | an array of any width is laid out element after element and nothing else changes |
| SpanCodec.ReadArray | messages/utility.hpp:73-81 | the values read are those whose image the span holds |
| SpanCodec.ArrayElementAt | messages/utility.hpp:83-91 | element i lies at i times the width |
| SpanCodec.ArrayImageInjective | messages/utility.hpp:72-92 | an image determines its array |
| SpanCodec.WriteThenReadArray | messages/utility.hpp:72-92 | an array written and read back is unchanged, for every width and length, whatever the variables held |
| StartDeviceCodec.Write | messages/start_device.hpp:77-88 | the layout is written at the span's start, exactly 34 bytes are used, the rest is unchanged |
| StartDeviceCodec.Read | messages/start_device.hpp:64-75 | the message read is the one laid out in the 34 bytes, whatever the fields held |
| StartDeviceCodec.FieldPositions | messages/start_device.hpp:62-89 | the offset of every field |
| StartDeviceCodec.LayoutRoundTrip | messages/start_device.hpp:62-89 | layout and message correspond one to one |
| StartDeviceCodec.WriteThenRead | messages/start_device.hpp:62-89 | a message survives even between machines of different byte order |
| Messages.Serialize | messages/packet_to_send.hpp:13-21 | the appended fields form the packet layout with a big-endian length, on either byte order |
| Messages.PacketFields | messages/packet_to_send.hpp:13-21 | the offset of every field, the length's first byte counting most |
| Bytes.BytesOfWord | messages/utility.hpp:22-40 | the bytes of a 32-bit word on the wire and in the memory of either kind of machine |
| Bytes.NetworkOrder | messages/utility.hpp:22-40 | conversion reverses the bytes on a little-endian machine and does nothing on the other |
| Messages.DeserializePacketToSend | messages/packet_to_send.hpp:23-32 | the packet of the declared length at the buffer's beginning |
| Messages.DeserializeReceivedPacket | messages/received_packet.hpp:30-41 | address and payload, cut to the bytes that are there |
| Messages.ReceivedBodyIsPacket | messages/received_packet.hpp:30-41 | once the packet is complete nothing is cut |
| Messages.PacketRoundTrip | messages/received_packet.hpp:16-42 | packets and complete images correspond one to one, whatever follows the image |
| ReceivingBuffers.ReceivingBuffer.Commit | utility/receiving_buffer.hpp:17-19 | the committed bytes are appended to the contents, and to the record of all bytes committed |
| ReceivingBuffers.ReceivingBuffer.Consume | utility/receiving_buffer.hpp:21-23 | the consumed bytes leave the front of the contents; bytes committed remain bytes gone followed by the contents |
| ReceivingBuffers.ReceivingBuffer.MoveDataToFront | utility/receiving_buffer.hpp:30-36 | the overlapping shift keeps the contents exactly, and with them that conservation |
| ReceivingBuffers.ReceivingBuffer.Reset | utility/receiving_buffer.hpp:25-28 | the contents are discarded and counted as gone |
| ReceivingBuffers.Conservation | utility/receiving_buffer.hpp:9-36 | the byte queue whose steps the methods above are proved to make conserves bytes over every legal run |
| Framing.ChunkIndependence | espnowdaemon/serial_port_socket.cpp:43-69 | the outcome is the same for every way of cutting the stream if and only if only unknown identifiers follow the first unknown one |
| Framing.ParseAppend | espnowdaemon/serial_port_socket.cpp:49-67 | parsing may stop anywhere and resume with the rest joined to the next read |
| Framing.ParseIsLossless | espnowdaemon/serial_port_socket.cpp:49-67 | frames and rest together are the stream |
| Framing.RestIsShort | espnowdaemon/serial_port_socket.cpp:49-68 | the rest is shorter than the longest frame |
| HostProtocol.HostDelimits | espnowdaemon/espnow_uart_device.cpp:144-259 | in all six branches the answer depends on the frame at the front only: more bytes never change it, and it is within the data |
| HostProtocol.HostChunkIndependence | espnowdaemon/espnow_uart_device.cpp:231-255 | the exact condition for the host's dispatcher |
| HostProtocol.GarbageHidesPing | espnowdaemon/espnow_uart_device.cpp:231-255 | an input whose decoding does depend on the cut |
| HostProtocol.EncodeIsFrame | espnowdaemon/espnow_uart_device.cpp:144-230 | every message's encoding is one frame and means that message |
| HostProtocol.MeaningIsExact | espnowdaemon/espnow_uart_device.cpp:144-230 | every frame is the encoding of its meaning |
| HostProtocol.FrameBytes | messages/message_id.hpp:6-15 | every message byte by byte, with its identifier's value |
| HostProtocol.DecodeEncoded | espnowdaemon/espnow_uart_device.cpp:144-259 | any messages and the beginning of one more, cut anyhow, are found exactly, and the beginning is kept |
| HostProtocol.DecodeBeginning | espnowdaemon/espnow_uart_device.cpp:146-168 | from any beginning of a stream the host decodes a beginning of its messages |
| HostProtocol.HistoryEffect | espnowdaemon/espnow_uart_device.cpp:146-230 | after any history: one Ethernet frame per received packet in order, the counter modulo 2^64, details and event from the first accepted announcement only |
| HostProtocol.StoredDetails | espnowdaemon/espnow_uart_device.cpp:149-164 | after any history the stored name is the first introduction's text up to its terminator, whatever is behind it, and address, version and firmware version are its own |
| HostProtocol.NothingStored | espnowdaemon/espnow_uart_device.cpp:149-164 | without an announcement with the header nothing is stored, published or requested |
| HostProtocol.TapFrameBytes | espnowdaemon/espnow_uart_device.cpp:217-223 | every byte of the Ethernet frame built for a packet |
| HostDevice.EspnowUartDevice.HandleSerialPacket | espnowdaemon/espnow_uart_device.cpp:144-259 | -1 or a count from 1 to the data length as the frame at the front requires; the state changes as its message says; the only byte written is the terminator in place of a console line's newline |
| HostDevice.EspnowUartDevice.ReadHandle | espnowdaemon/serial_port_socket.cpp:43-69 | the loop refines the reference parser on this read and, by Refines, on the whole stream; when the start becomes requested exactly one byte 1 is appended to the queue, otherwise the queue is unchanged, so start requests written are one if requested, else none |
| HostDevice.EspnowUartDevice.HandleAnnouncement | espnowdaemon/espnow_uart_device.cpp:146-166 | the start becomes requested exactly on an announcement with the header espnowonlinux, and then, and only then, the request is queued, details stored and the event published |
| HostDevice.EspnowUartDevice.QueueTapFrame | espnowdaemon/espnow_uart_device.cpp:217-225 | the frame built in the 512-byte buffer is broadcast, sender, EtherType, payload |
| HostDevice.EspnowUartDevice.TunReadHandle | espnowdaemon/espnow_uart_device.cpp:96-115 | frames with EtherType 0x88B5 and no others are queued, as identifier, destination, length and payload, and counted; no start request is among them |
| HostDevice.StreamStep | espnowdaemon/serial_port_socket.cpp:43-69 | a further read keeps the agreement with the reference parser |
| HostDevice.ProperStreamsAreWellFormed | espnowdaemon/espnow_uart_device.cpp:157-223 | every beginning of a stream of messages with payloads up to 498 bytes, in which the announcement to be stored has a terminated name, meets the dispatcher's hypothesis |
| HostDevice.WellFormedAppend | espnowdaemon/serial_port_socket.cpp:43-69 | that hypothesis about a whole stream covers every read of it, in the state reached by then |
| HostDevice.HostProgress | espnowdaemon/serial_port_socket.cpp:49-68 | with frames up to 4096 bytes there is always room for the next read |
| HostDevice.HostStall | espnowdaemon/serial_port_socket.cpp:49-68 | a pass leaves no room if and only if the buffer was full and begins with a frame longer than it; it stays so |
| HostDevice.EndlessLineStalls | espnowdaemon/espnow_uart_device.cpp:170-180 | a console line of 4095 characters without its end does that |
| HostDevice.ForwardedFits | espnowdaemon/espnow_uart_device.cpp:104-109 | a TAP frame of 14 to 512 bytes serializes to at most 509 |
| DeviceProtocol.DeviceDelimits | main/usb_cdc_main.cpp:176-201 | the firmware's answer depends on the packet at the front only |
| DeviceProtocol.GuardExactness | main/usb_cdc_main.cpp:183-188 | the 32-bit guard is exact if and only if the declared length is at most 2^32 - 12 |
| DeviceProtocol.GuardWraps | main/usb_cdc_main.cpp:183-188 | a declared length of 2^32 - 1 passes the guard though the packet is not there |
| DeviceProtocol.DeviceChunkIndependence | main/usb_cdc_main.cpp:203-231 | serialized packets, cut anyhow, are delivered exactly and in order, the undelivered beginning stays buffered |
| DeviceProtocol.DeviceStreamsAreExact | main/usb_cdc_main.cpp:183-188 | beginnings of such streams meet the guard's hypothesis at every boundary |
| DeviceProtocol.JtagReceiver.HandlePacketFromJtag | main/usb_cdc_main.cpp:176-201 | -1, 0 or the packet's size, and the packet handed to the radio |
| DeviceProtocol.JtagReceiver.Receive | main/usb_cdc_main.cpp:206-230 | one turn refines the reference parser on this read and on the whole stream; an unknown identifier at a packet boundary empties the buffer from its beginning, whole packets leave it drained where the read ended, an incomplete one is moved to the front; and it leaves no room exactly as LeavesNoRoom says |
| DeviceProtocol.DeviceProgress | main/usb_cdc_main.cpp:206-229 | no room is left if and only if the read filled the buffer and ended on a packet boundary |
| DeviceProtocol.DeviceRoom | main/usb_cdc_main.cpp:206-229 | for every buffer and read: no room is left if and only if the read ended at the buffer's end after whole packets, or the full buffer begins with a packet longer than it |
| DeviceProtocol.UnknownIffNotClean | main/usb_cdc_main.cpp:221-224 | the turn discards the buffer if and only if after some whole packets comes another byte than the identifier |
| DeviceProtocol.WholeIffDrained | main/usb_cdc_main.cpp:226-228 | the turn drains the buffer if and only if it held whole packets |
| DeviceProtocol.AlignedPacketsStall | main/usb_cdc_main.cpp:206-229 | packets read one by one that amount to 512 bytes lead there |
| DeviceProtocol.TwoPacketsStall | main/usb_cdc_main.cpp:206-229 | two packets with payloads of 245 bytes do |
| DeviceProtocol.StalledForever | main/usb_cdc_main.cpp:206-229 | from there no byte is ever read again |
| WriteQueues.AtLeastOnceInOrder | espnowdaemon/serial_port_socket.cpp:24-41 | in every run operations start at frame 0, never go back or skip, every popped frame was issued, and at least as many operations are outstanding as frames are queued |
| WriteQueues.ExactlyOnce | espnowdaemon/serial_port_socket.cpp:24-41 | no frame is issued twice if and only if every write found the queue empty |
| WriteQueues.HastyWriteRepeats | espnowdaemon/serial_port_socket.cpp:30-41 | two writes in a row issue the first frame twice |
| WriteQueues.IssueCount | espnowdaemon/serial_port_socket.cpp:24-41 | in every run a frame is issued once for reaching the front and once more for every write that finds it there |
| WriteQueues.SpacedWire | espnowdaemon/serial_port_socket.cpp:24-80 | then, once drained, the wire carries each frame once, in order |
| WriteQueues.PoppedIsOver | espnowdaemon/serial_port_socket.cpp:35-80 | no operation is issued for a frame that has left the queue |
| WriteQueues.CompletionProgress | espnowdaemon/serial_port_socket.cpp:71-80 | without writes each completion lowers outstanding plus queued |
| WriteQueues.Drains | espnowdaemon/serial_port_socket.cpp:71-80 | the outstanding operations suffice to empty the queue with every frame issued |
| WriteQueues.SerialWriter.Write | espnowdaemon/serial_port_socket.cpp:24-33 | the class makes the machine's write step: the frame is queued last and an operation issued for the front frame |
| WriteQueues.SerialWriter.WriteHandle | espnowdaemon/serial_port_socket.cpp:71-80 | the class makes the machine's completion step: the front frame leaves and an operation is issued for the next, if any |
| PacketPool.EncodedInPlace | main/usb_cdc_main.cpp:316-320 | after tagging and one in-place swap the slot begins with the serialized packet, on either byte order |
| PacketPool.OwnershipStep | main/usb_cdc_main.cpp:116-131 | every step keeps each slot in exactly one of free, filling, queued once, held, lost |
| PacketPool.QueuedSlotsUntouched | main/usb_cdc_main.cpp:116-131 | memory of a slot neither being filled nor held does not change |
| PacketPool.NoSpaceNeedsFailures | main/usb_cdc_main.cpp:116-131 | finding no free slot, even by a scan concurrent with releases, implies eight failed enqueues |
| PacketPool.PoolSafety | main/usb_cdc_main.cpp:94-131 | all of this in every reachable state; frames are offered in order of arrival, each the exact serialization of its packet; nothing accepted is lost, and nothing at all unless an enqueue failed |
| PoolBound.NoSpaceBoundIsAttained | main/usb_cdc_main.cpp:116-131 | some run, failing enqueues only on a full queue, gives up after exactly eight failures |
| Firmware.SlotPool.Fill | main/usb_cdc_main.cpp:120-123 | the copies into the slot's bytes, in place, are the machine's steps and leave it holding the packet |
| Firmware.SlotPool.Encode | main/usb_cdc_main.cpp:314-318 | tagging and swapping the slot's bytes, in place, leave the packet's serialization, whose size is the result |
| Firmware.SlotPool.RecvCallback | main/usb_cdc_main.cpp:94-132 | the callback's code is a run of the machine, accepts the packet if and only if a slot is free and the queue has room, and does nothing on invalid arguments |
| Firmware.SlotPool.ForwardNext | main/usb_cdc_main.cpp:312-323 | the main loop's code is a run of the machine and offers the next accepted packet's serialization |
| Wire.FramedStep | main/usb_cdc_main.cpp:31-46 | every step keeps: the wire is the complete frames followed by the mutex holder's beginning if and only if no frame lost only a part of its writes, and is longer otherwise |
| Wire.OrderedStep | main/usb_cdc_main.cpp:31-46 | every step keeps: frames are completed in the order in which the mutex was obtained, and each task obtains it in the order in which it asked |
| Wire.ForwardingStep | main/usb_cdc_main.cpp:312-323 | received packets reach the wire in the order in which they were offered |
| Wire.WireIsDecodable | main/usb_cdc_main.cpp:31-46 | in every reachable state those orders hold, and as long as no frame lost only a part of its writes the wire, cut anyhow, decodes to exactly the complete frames |
| Wire.HostDecodesInLockOrder | main/usb_cdc_main.cpp:31-46 | when every driver write completes, the host decodes exactly the messages for which the mutex was obtained, in that order, but for the holder's unfinished one |
| Wire.TaskSends | main/usb_cdc_main.cpp:31-46 | whenever the mutex is free any idle task can get any message onto the wire, whole |
| Wire.TaskGivesUp | main/usb_cdc_main.cpp:31-46 | a task refused the mutex drops its message whole and changes nothing else |
| Wire.PingBytes | messages/ping.hpp:5-10 | a ping is the four letters Ping |
| Wire.RecordBytes | main/usb_cdc_main.cpp:38-55 | a log record is the identifier, the length 256 and the whole buffer |
| Wire.ServedForwarder | main/usb_cdc_main.cpp:312-323 | a forwarder that always obtains the mutex and completes its writes gets every received packet onto the wire |
| Wire.TornFrameMisleads | main/usb_cdc_main.cpp:38-46 | a run in which a log record loses only its length write: the host takes the text's first four bytes for the length and decodes what follows accordingly |
| Wire.TornFrameMayBeHarmless | main/usb_cdc_main.cpp:38-46 | a run in which only the text arrives, without known identifiers: it is passed over for every cut |
| Handshake.HandshakeSafety | main/usb_cdc_main.cpp:288-300 | in every reachable state, with TAP traffic: details, one event and one start request come of the first accepted announcement read; without TAP traffic before the start, acceptance is exactly at one whole announcement, the device leaves its loop only after it, having read exactly the start request, and operations carry the start request once if and only if the first TAP frame found the queue empty |
| Handshake.FirstPollStarts | main/usb_cdc_main.cpp:293-299 | without early TAP traffic the first poll that returns anything starts the device |
| Handshake.HostCatchesUp | espnowdaemon/serial_port_socket.cpp:43-69 | from every reachable state, reading all that was sent brings the host to the state all messages lead to |
| Handshake.HostReads | espnowdaemon/serial_port_socket.cpp:43-69 | the daemon's read handler makes the link's host step |
| Handshake.HostForwards | espnowdaemon/espnow_uart_device.cpp:96-115 | the daemon's TAP handler makes the link's TAP step |
| Handshake.HastyTapRepeatsStart | espnowdaemon/serial_port_socket.cpp:24-41 | a run in which the start request is carried twice, the second time to the receiver of packets, which does not know it |
| Handshake.StartIsJustified | main/usb_cdc_main.cpp:293-299 | in every run with any TAP traffic: a device that left its loop was accepted or some TAP frame holds a byte equal to 1, and one that did not has not read 256 such bytes in a row |
| Handshake.FalseStart | main/usb_cdc_main.cpp:293-299 | some run starts the device unaccepted if and only if some TAP frame that may be written holds a byte equal to 1 |
| Handshake.FalseStartRun | main/usb_cdc_main.cpp:293-299 | the run: one such frame, polled byte by byte, before anything was announced |
| Handshake.EarlyTapHidesStart | main/usb_cdc_main.cpp:293-299 | after any TAP frame some run reads the answer behind it without noticing if and only if the two hold no 256 bytes equal to 1 in a row |
| Handshake.MissedForGood | main/usb_cdc_main.cpp:290-300 | from there the device stays in its loop as long as no further TAP frame is written |
| EndToEnd.TapToTap | espnowdaemon/espnow_uart_device.cpp:96-115 | through receiver, radio, slot pool, shared wire and host, under every interleaving and cut: frames with payloads of 1 to 250 bytes arrive in order with broadcast destination, sender address and identical payload, and no others do; all of them once the far device is done without a failure |
| EndToEnd.SlotFrameIsEncoding | main/usb_cdc_main.cpp:64-69 | the packed slot and the serializer agree |
| EndToEnd.Bridge | espnowdaemon/serial_port_socket.cpp:24-80 | the same for the frames of the write queue's operations, which are each frame once when writes are spaced and the queue drained |
| EndToEnd.RadioToTap | main/usb_cdc_main.cpp:312-323 | the host's Ethernet frames are those of a subsequence of the packets received, in order and unaltered; of all of them once the device is done without a failure |
| EventDispatchers.SubscriptionOwnership | utility/event_dispatcher.hpp:61-94 | over every run: an event reaches exactly the handlers of its type whose id a live guard holds, in subscription order; ids have one owner, are never reused, and lists ascend |
| EventDispatchers.PublishCallsLive | utility/event_dispatcher.hpp:81-94 | after every run a publish calls the handlers of the event's subscriptions whose id a live guard holds, each once, in subscription order |
| EventDispatchers.HistoryIsSubscriptions | utility/event_dispatcher.hpp:62-76 | the history that order refers to is the subscriptions asked for, with ids 1, 2, 3 and so on |
| EventDispatchers.StepKeepsInv | utility/event_dispatcher.cpp:6-33 | subscribing, moving, assigning, resetting and destroying guards keep that |
| EventDispatchers.GuardOperations | utility/event_dispatcher.cpp:6-33 | in every reachable state what assigning, resetting, destroying and moving do to the guards, and that the ended id is in no list |
| EventDispatchers.EventDispatcher.Subscribe | utility/event_dispatcher.hpp:62-76 | the new id is appended to the event's list and given to the guard |
| EventDispatchers.EventDispatcher.Unsubscribe | utility/event_dispatcher.cpp:35-39 | the id leaves every list and nothing else does |
| EventDispatchers.EventDispatcher.Publish | utility/event_dispatcher.hpp:81-94 | every handler of the event's list is called once, in list order |
| EventDispatchers.SubscriptionGuard.MoveAssign | utility/event_dispatcher.cpp:16-25 | the target's subscription ends, the source's passes over, self-assignment does nothing |
| EventDispatchers.SubscriptionGuard.Release | utility/event_dispatcher.cpp:27-33 | the subscription ends and the guard is empty |
| DeviceManagers.DecimalInjective | espnowdaemon/espnow_uart_device.cpp:66 | decimal printing is injective |
| DeviceManagers.DecimalPrints | espnowdaemon/espnow_uart_device.cpp:66 | the string is digits, reads back as the number, and has no leading zero |
| DeviceManagers.PrintsOnlyDecimal | espnowdaemon/espnow_uart_device.cpp:66 | no other string does |
| DeviceManagers.DeviceManager.AddUartDevice | espnowdaemon/device_manager.cpp:6-14 | a successful add appends a device whose id is espnow followed by its position in decimal, a failed one changes nothing |
| DeviceManagers.DeviceManager.GetDeviceById | espnowdaemon/device_manager.cpp:16-23 | a listed id finds exactly its device, any other id none |

## Left out

- asio, sockets, the TUN ioctl, USB driver, Wi-Fi and FreeRTOS internals: environment steps; a driver write or an operation is complete or does not happen.
- The completion side of the TAP write queue (espnowdaemon/espnow_uart_device.cpp:117-133): frames queued for the TAP interface are recorded in an append-only history.
- Buffers of operations whose queue entry has been popped: frames are values.
- Console output, log text, hex dumps, uptime, unaligned loads, console text of the SDK on the USB port.
- Protobuf control channel, command-line tool, and Espressif's example file.
- Handlers that subscribe or unsubscribe during a publish; ids wrapping after 2^64 subscriptions.
- Whether `esp_now_send` succeeds, and the log record written when it does not.
- The pool, the wire and the handshake are state machines on values because their point is concurrency; the slots' updates in place are the methods of the class SlotPool, each proved to make the machine's steps. Its two bodies run without interference between two statements, while PoolSafety covers every interleaving.
- HandleSerialPacket: takes as preconditions received payloads of at most 498 bytes and a terminated name in the announcement it stores, beyond which the source writes or reads outside its buffers.
- HandshakeSafety: takes announced names to be terminated, for the same reason.
- Conservation: the daemon's dispatcher writes a terminator into a console line it is about to consume, so for the daemon conservation is that of frames (ReadHandle), not of bytes.
- RecvCallback: takes payloads of at most 250 bytes, the radio's limit and the slot's size.
- TunReadHandle: takes frames of at least 14 bytes; shorter reads would be parsed from stale buffer contents.
- HandlePacketFromJtag: takes declared lengths of at most 2^32 - 12, the range in which the guard is exact.
- SubscriptionOwnership: counts fewer than 2^64 subscriptions.
- GetDeviceById: takes at most 2^32 devices, beyond which 32-bit indices repeat.
- RadioToTap: takes, as TapToTap and Bridge do, runs in which no frame lost only a part of its writes, as holds when every driver write completes (HostDecodesInLockOrder); losing a part can make the host read what nobody sent (TornFrameMisleads), though it need not (TornFrameMayBeHarmless).
