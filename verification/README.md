# Equinox, its USB bootloader and the Contiki serial tools: verified models

This project models the parts of the repository that carry data and time: the SLIP link
with its IPv4 checksums and DHCP relay, the USB mass-storage bootloader, the USB control
core, the light-emitting-diode modulation, the UART transmit ring, the number and CAN
printers and parsers, the calendar, and the URI and colour code of the picker. Each model
states what the code is for and proves it for every input, run or reachable state.

| files | what they model |
|---|---|
| Bytes | bytes, 16- and 32-bit numbers, host byte order |
| Checksum, CheckIp, Rewrite | the one's-complement sum, the packet check, what it detects, and the identification rewrite |
| Slip, TunSlip, Tunnel | byte stuffing, the output queue, the resumable decoder, and the whole way of a packet from the first check to the check at the far end, over every schedule |
| Dhcp, DhcpReply | the option filter and the reply packet |
| Flash, FlashExact, Sbl | NOR flash and its sectors, exactly when it behaves as a disk, the in-application programming device and the page collector |
| Disk, DiskWrite | the synthetic FAT12 disk, read as a host reads it, and the meaning of a write |
| Bot, Msc, Bus, Host, HostView, Firmware, Sessions | the Bulk-Only Transport device, the pure machine it implements, a host that drives it, what that host can rely on (read protection, deletion, replies), the firmware update, and exactly when a session of writes keeps its data |
| UsbCore | configuration walk, endpoint mask and halt state |
| ShiftPwm, Leds | the modulation schedule, bit planes, DMA lists, timer sequence |
| Uart | the transmit ring under interrupts |
| Digits, ReadNumber, SerMsg, CanText | numbers and CAN messages as text |
| Calendar | day counting, weekdays, summer time, 32-bit clock |
| DotSegments, Colour | dot-segment removal and the colour state |

Code that updates state in place is modelled by classes and loops over arrays, each proved
against a specification; what the specification means is proved by lemmas. Arithmetic
widths are written out wherever a C variable can wrap or truncate. The colour code is over
real numbers.

Results that differ from what one would expect of the code:

- The identification rewrite spoils a packet whose header length is 8 bytes, since the
  identification is then inside the header sum and the checksum field is not, and a packet
  whose checked payload ends between the two (`Rewrite.RewriteVerdict` has the exact
  condition, `Rewrite.ShortHeaderDropped` and `Rewrite.ShortPayloadDropped` the inputs).
- `ip_off & IP_DF` is evaluated in host byte order, so a little-endian host looks at a bit of
  the fragment offset instead of the don't-fragment flag (`Rewrite.NeedsIdMeans`,
  `Rewrite.FragmentRenumbered`). The model follows the code, with the host order as a
  parameter.
- A transport length and protocol that together exceed 16 bits lose their carry, so that
  `check_ip` then wants a sum that is one more than a zero (`CheckIp.VerdictMeans`).
- A frame of 2000 bytes or more is not dropped: its tail is kept as a frame (`Slip.Overlong`).
- The flash is a disk only for bytes that are erased before they are written again
  (`FlashExact.DiskExactly` and, over sessions of commands, `Sessions.SessionExactly` give
  the exact condition, `FlashExact.SecondWriteLost` a history that fails it); an ascending
  pass meets it.
- `days_from_2000` documents 2001 to 2099; it is right from 1 January 2000 up to
  28 February 2100 and never afterwards.
- The clock is read back wrongly as soon as the seconds since 2000 exceed 32 bits
  (`Calendar.ClockBack`, `Calendar.LateClock`).
- `xatoi` takes the characters between '9' and '@' for hexadecimal digits behind 0x
  (`ReadNumber.StraysExactly`, `ReadNumber.ColonIsTen`).
- A refused 't' command leaves identifier and length of the outgoing message changed exactly
  if bus, digits and count were in order (`CanText.ExecSend`, `CanText.RefusedCommand`).

`dafny verify dfyconfig.toml` checks the whole project.

## Model

| member | source | states |
|---|---|---|
| `Checksum.Ip4Sum` | contiki-2.5/tools/tunslip.c:343-362 | The 16-bit loop with end-around carry returns the sum of the big-endian words (odd last byte padded) modulo 0xffff, and 0 exactly when start and words are all 0, which fixes the result among the two zeros |
| `Checksum.WordSumUpdate` | contiki-2.5/tools/tunslip.c:343-362 | Replacing one byte moves the word sum by its weight, 256 or 1, times the change |
| `Checksum.OddPadded` | contiki-2.5/tools/tunslip.c:356-360 | An odd last byte counts as if a zero byte followed |
| `Checksum.PutWordSum` | contiki-2.5/tools/tunslip.c:343-362 | Replacing an aligned word moves the sum of every slice that does not split it by exactly the difference, or not at all |
| `CheckIp.Check` | contiki-2.5/tools/tunslip.c:364-413 | The result code is decided by sums modulo 0xffff alone, for every packet in the buffer, including 16-bit wrap of the payload length and disabled UDP checksums |
| `CheckIp.TransportSum` | contiki-2.5/tools/tunslip.c:385-404 | The chained 16-bit sums over pseudo header and segment are good exactly when the exact sum is a multiple of 0xffff |
| `CheckIp.VerdictMeans` | contiki-2.5/tools/tunslip.c:364-413 | In terms of the bytes: accepted are exactly the packets of version 4 with their length in bytes 2 and 3, a good header sum, and for TCP, UDP (unless disabled) and ICMP a good sum, which for TCP and UDP is that of source, destination, zero and protocol, length and segment; codes -2 and -3 are length too long and too short |
| `CheckIp.AddressErrorDetected` | contiki-2.5/tools/tunslip.c:385-404 | In an accepted TCP or UDP packet another value of one address byte is refused with -5 or -6 even if the header sum is repaired |
| `CheckIp.SegmentErrorDetected` | contiki-2.5/tools/tunslip.c:385-412 | Another value of one byte behind the header is refused with the code of the protocol |
| `CheckIp.ByteErrorDetected` | contiki-2.5/tools/tunslip.c:379-383 | In an accepted packet any other value of any one header byte from 1 on is rejected, so every single-bit error is; with the code -4, or -2, -3 or -4 where a byte of the total length was hit |
| `CheckIp.WordErrorUndetected` | contiki-2.5/tools/tunslip.c:379-383 | Replacing a header word goes unnoticed if and only if 0x0000 and 0xffff are exchanged |
| `Rewrite.OrderIsFactor` | contiki-2.5/tools/tunslip.c:643-650 | Reading a word in the other byte order is multiplying by 256 modulo 0xffff |
| `Rewrite.MovesCancel` | contiki-2.5/tools/tunslip.c:643-650 | Storing a new identification and adding its complement to the checksum in host order move the two big-endian words by opposite amounts modulo 0xffff, on hosts of either order |
| `Rewrite.RewriteVerdict` | contiki-2.5/tools/tunslip.c:643-656 | For every accepted packet with a zero identification: it is accepted again after the rewrite if and only if its header is not exactly 8 bytes long or the number is one of the two zeros, and its payload is unchecked, ends at byte 12 or later, or moves by a multiple of 0xffff in the bytes it holds |
| `Rewrite.LongPacketVerdict` | contiki-2.5/tools/tunslip.c:643-656 | For headers of 12 bytes or more, and packets of 12 to 65535 bytes, only the 8-byte header with another number fails; with 20-byte headers the second drop is unreachable |
| `Rewrite.ShortPayloadSpill` | contiki-2.5/tools/tunslip.c:643-656 | The second failing family in closed form: a payload that starts in front of the identification and ends before the checksum survives exactly the two zeros, and one that ends inside the identification exactly a zero first byte |
| `Rewrite.OddPayloadSpill` | contiki-2.5/tools/tunslip.c:643-656 | And a payload that ends inside the checksum field, at byte 11, survives exactly if the low byte of the field stays as it is, for every header and number that keep the header sum |
| `Rewrite.ZeroIdKeeps` | contiki-2.5/tools/tunslip.c:647-650 | For a zero number that byte stays unless the number is 0x0000 and the field holds 0x0000 |
| `Rewrite.ShortPayloadDropped` | contiki-2.5/tools/tunslip.c:643-656 | A ten-byte TCP packet without a header that the second check drops, for every other number |
| `Rewrite.NeedsIdMeans` | contiki-2.5/tools/tunslip.c:643-643 | The renumbering test is "identification zero and don't fragment" if and only if the host is big-endian, the identification is not zero, or the offset bit it looks at equals the flag |
| `Rewrite.FragmentRenumbered` | contiki-2.5/tools/tunslip.c:643-643 | A fragment without the flag that a little-endian host renumbers and a big-endian one leaves alone |
| `Rewrite.ShortHeaderDropped` | contiki-2.5/tools/tunslip.c:643-656 | An accepted 28-byte packet with an 8-byte header that the second check drops, for every other number |
| `Slip.ReceiveConcat` | contiki-2.5/tools/tunslip.c:455-585 | Decoding is independent of how the stream is cut into reads |
| `Slip.RoundTrip` | contiki-2.5/tools/tunslip.c:663-679 | Decoding the stuffed form of any packet that fits the buffer appends exactly that packet |
| `Slip.StuffedAt` | contiki-2.5/tools/tunslip.c:663-679 | Byte i of a packet stands at i plus the number of END and ESC bytes before it: END as DB DC, ESC as DB DD, any other as itself |
| `Slip.StuffedSize` | contiki-2.5/tools/tunslip.c:663-679 | The stuffed packet is longer by exactly the number of its END and ESC bytes and has no END inside |
| `Slip.Overlong` | contiki-2.5/tools/tunslip.c:473-475 | Of a packet that fills the input buffer or more, the tail behind the last multiple of 2000 bytes is what the buffer holds |
| `Slip.StepConserves` | contiki-2.5/tools/tunslip.c:591-625 | Queueing, every partial write and every partial read keep: reading all that is under way would complete exactly the packets sent |
| `Slip.LiveDelivers` | contiki-2.5/tools/tunslip.c:455-679 | With the 2000-byte slip_buf: over every run that does not exit, the frames received are a prefix of the packets its events queued, and exactly them once queue and wire are empty |
| `Slip.ExitsExactly` | contiki-2.5/tools/tunslip.c:591-597 | A run exits if and only if some packet does not fit behind slip_end when it is queued |
| `Slip.NeverExits` | contiki-2.5/tools/tunslip.c:1068-1110 | Packets queued only on an empty queue, as main does, and each fitting slip_buf once encoded, never make it exit |
| `TunSlip.SlipOut.Send` | contiki-2.5/tools/tunslip.c:591-597 | One byte is queued, or the overflow exit is taken exactly when the buffer is full |
| `TunSlip.SlipOut.Flush` | contiki-2.5/tools/tunslip.c:605-625 | After a write of n bytes these are on the wire and the rest is still queued; EAGAIN changes nothing; the indices are reset when nothing is left |
| `TunSlip.SlipOut.SendFrame` | contiki-2.5/tools/tunslip.c:663-679 | The escaping loop queues the whole encoding if and only if it fits behind slip_end |
| `TunSlip.SlipOut.Renumber` | contiki-2.5/tools/tunslip.c:643-656 | The identification and checksum step with its second check |
| `TunSlip.SlipOut.WriteToSerial` | contiki-2.5/tools/tunslip.c:627-681 | Drops exactly what the check refuses, numbers and re-checks, queues the encoding of the outgoing packet; a header of 12 bytes or more is never dropped at the second check |
| `TunSlip.SlipOut.constructor` | contiki-2.5/tools/tunslip.c:1042-1042 | The queue holds the END sent at start-up and nothing is on the wire |
| `TunSlip.SerialIn.constructor` | contiki-2.5/tools/tunslip.c:455-470 | An empty input buffer with nothing pushed back |
| `TunSlip.SerialIn.ReadByte` | contiki-2.5/tools/tunslip.c:476-585 | One turn of the switch: one byte, or an escape pair, or an escape pushed back at the end of the input; never a store outside inbuf |
| `TunSlip.SerialIn.SerialToTun` | contiki-2.5/tools/tunslip.c:455-585 | For every chunk, whichever byte it ends on, the new decoder state is the old one run over the chunk; the bound on inbuf holds throughout |
| `TunSlip.VerdictOfFrame` | contiki-2.5/tools/tunslip.c:364-413 | The check at the far end gives the same code, since it looks at the bytes of the packet only |
| `Tunnel.PassesExactly` | contiki-2.5/tools/tunslip.c:627-656 | A packet the first check accepts goes out if and only if it keeps its number or survives the rewrite; with a header of 12 bytes or more it always does |
| `Tunnel.NumberIs` | contiki-2.5/tools/tunslip.c:643-645 | A packet that takes a number goes out with the counter in bytes 4 and 5, in network order on any host |
| `Tunnel.NumbersDiffer` | contiki-2.5/tools/tunslip.c:643-645 | Two packets that take a number go out with different ones, unless a multiple of 65536 were taken from the first to before the second |
| `Tunnel.DepartedWelcome` | contiki-2.5/tools/tunslip.c:627-656 | Every packet that goes out, if it holds 28 bytes and its header, is accepted by the check in any buffer that starts with it |
| `Tunnel.CarryPacket` | contiki-2.5/tools/tunslip.c:687-699 | One packet handed over moves the live ends as the link is moved by the packet as it goes out, or not at all if a check refuses it; a number taken stays used when the second check refuses |
| `Tunnel.Carry` | contiki-2.5/tools/tunslip.c:455-699 | Over every schedule of packets handed over, partial writes and chunked reads: the program exits exactly if some packet that passes both checks does not fit, never if packets come one at a time; otherwise the live ends are in the state of the bounded link, the frames received are a prefix of the packets that pass, each as it goes out, exactly those when drained, and the check at the far end accepts each whole one |
| `Dhcp.ParseEncoded` | contiki-2.5/tools/tunslip.c:255-296 | Encoding a list of options and parsing it back is the identity |
| `Dhcp.RelayOptions` | contiki-2.5/tools/tunslip.c:255-296 | For every well-formed list without pads, ended by END or by the message, the bytes written are the encoding of the in-order filter, DNS cut to its first server |
| `Dhcp.RelayedWanted` | contiki-2.5/tools/tunslip.c:255-296 | The options a client parses from the relayed bytes are, in order and one for one, exactly those of the server with codes 1, 3, 51, 53, 54 unchanged and 6 cut to its first four data bytes |
| `Dhcp.ServerIdRelayed` | contiki-2.5/tools/tunslip.c:274-277 | A server identifier is among the relayed options if and only if the server sent it |
| `Dhcp.OfferBytes` | contiki-2.5/tools/tunslip.c:255-296 | The bytes of an offer with a pad, a message type and a server identifier, and the options read from them |
| `Dhcp.CopyOption` | contiki-2.5/tools/tunslip.c:263-292 | One option is copied, cut or skipped by its code |
| `DhcpReply.HeaderSealed` | contiki-2.5/tools/tunslip.c:321-321 | Storing the complement of the header sum makes the header sum to a zero |
| `DhcpReply.UdpSealed` | contiki-2.5/tools/tunslip.c:322-328 | The stored UDP checksum makes the segment sum to a zero and is itself never 0, the 0xffff case included |
| `DhcpReply.Seal` | contiki-2.5/tools/tunslip.c:321-328 | A prepared packet of any length, odd ones included, is accepted by the relay's own check afterwards |
| `DhcpReply.BuildReply` | contiki-2.5/tools/tunslip.c:242-328 | The packet built from a reply is accepted, has the given identification, the ports 67 and 68 and its UDP length and a UDP sum in use; its options parse to the filter of the reply's options, its fixed part is the reply with hops plus one and no relay address, its addresses are as the broadcast flag asks |
| `DhcpReply.ReplyBytes` | contiki-2.5/tools/tunslip.c:229-330 | The UDP sum of the packet is good over the addresses, zero and protocol, UDP length and everything behind the header; destination by the broadcast flag; the message byte by byte with one more hop, no relay address and the cookie |
| `DhcpReply.ReplyOptions` | contiki-2.5/tools/tunslip.c:255-296 | The options of the packet are exactly the wanted ones of the server, in order |
| `DhcpReply.RelayToClient` | contiki-2.5/tools/tunslip.c:229-330 | Replies only; the packet is never dropped by write_to_serial, and an empty queue always has room for it |
| `Flash.SectorHolds` | USB bootloader for LPCmini/iap/sbl_config.h:39-131 | An address belongs to the sector whose start and end enclose it, for all 30 sectors |
| `Flash.AndBitwise` | USB bootloader for LPCmini/iap/sbl_iap.c:115-127 | Programming leaves a bit one exactly if it was one and is one in the data |
| `Flash.LoaderUntouched` | USB bootloader for LPCmini/iap/sbl_iap.c:56-145 | No sequence of page writes and user erasures changes a byte below the user flash |
| `Flash.CellSound` | USB bootloader for LPCmini/iap/sbl_iap.c:56-145 | What a history of page writes is known to leave at an address is what it leaves, whatever the flash held before |
| `Flash.ImageWritten` | USB bootloader for LPCmini/iap/sbl_iap.c:56-113 | The pages of an image of user-flash size in ascending order leave the loader followed by the image, whatever was there before, with programming as bitwise AND and erasure at sector starts only |
| `FlashExact.DiskExactly` | USB bootloader for LPCmini/iap/sbl_iap.c:56-113 | For any history of page writes: an address reads back its last datum for every data and every previous contents if and only if the last page that covers it found it erased and not written since, or erased it itself, and no erasure followed |
| `FlashExact.SecondWriteLost` | USB bootloader for LPCmini/iap/sbl_iap.c:56-113 | A page inside a sector written twice, with zeros and then with 0xFF, reads back zeros whatever the flash held before |
| `Sbl.Iap.Prepare` | USB bootloader for LPCmini/iap/sbl_iap.c:138-145 | The device remembers the sectors prepared |
| `Sbl.Iap.Erase` | USB bootloader for LPCmini/iap/sbl_iap.c:129-136 | Sectors become 0xFF if prepared, otherwise the call fails |
| `Sbl.Iap.CopyRamToFlash` | USB bootloader for LPCmini/iap/sbl_iap.c:115-127 | A page is ANDed into the flash if its sector is prepared, otherwise the call fails |
| `Sbl.Loader.FindErasePrepare` | USB bootloader for LPCmini/iap/sbl_iap.c:91-113 | The linear search prepares the sector that contains the page, erasing it first exactly when the page starts it; every call is disciplined |
| `Sbl.Loader.WriteFlash` | USB bootloader for LPCmini/iap/sbl_iap.c:56-89 | Bytes gather; a full page is written at the noted address and the accumulator is empty again; the device never refuses, so the endless loops are not reached |
| `Sbl.Loader.EraseUserFlash` | USB bootloader for LPCmini/iap/sbl_iap.c:264-272 | All user sectors are blank, nothing else changed |
| `Sbl.SearchStep` | USB bootloader for LPCmini/iap/sbl_iap.c:99-101 | The comparison with the sector end stops at the right sector, although the ends are inclusive |
| `Disk.BuildFatRoot` | USB bootloader for LPCmini/msc/memory.c:107-159 | The generation loops leave the head of the table, the packed link of every cluster pair, the directory entry of firmware.bin and the volume label of the protection level |
| `Disk.GeometryOf` | USB bootloader for LPCmini/msc/mscuser.c:658-687 | A reader of the boot sector finds the table, the root directory and the data area where translate_rd serves them |
| `Disk.EntryOf` | USB bootloader for LPCmini/msc/memory.c:113-128 | Unpacking the twelve-bit entry of a cluster gives its successor, and the end mark for the last |
| `Disk.ChainUnique` | USB bootloader for LPCmini/msc/memory.c:113-128 | Following links from a cluster is determined: two complete chains from the same start are equal |
| `Disk.FirmwareIsFlash` | USB bootloader for LPCmini/msc/memory.c:109-159 | The file firmware.bin read through boot sector, directory and table has exactly the clusters its size needs, then the end mark, and byte k of it is byte k of the user flash |
| `Disk.EntryFields` | USB bootloader for LPCmini/msc/DiskImg.c:10-22 | Name, start cluster and size a reader of the directory sees |
| `DiskWrite.SentIsAfter` | USB bootloader for LPCmini/msc/mscuser.c:708-745 | Packet by packet, from any block, the device does what the transfer means as a whole, pages pending included |
| `DiskWrite.SentWhole` | USB bootloader for LPCmini/msc/mscuser.c:708-745 | A transfer of whole blocks leaves no byte waiting, so the accumulator is empty at every command boundary |
| `DiskWrite.AfterStep` | USB bootloader for LPCmini/msc/mscuser.c:708-745 | One more packet in front of, inside or at the end of a page |
| `Bot.TransferFields` | USB bootloader for LPCmini/msc/mscuser.c:189-215 | The fields of a READ10 or WRITE10 wrapper a host builds are read back by the device |
| `Msc.Device.constructor` | USB bootloader for LPCmini/msc/memory.c:100-159 | The device starts with the generated table, directory and volume label over any flash |
| `Msc.Device.TranslateRd` | USB bootloader for LPCmini/msc/mscuser.c:650-706 | The staging buffer holds the slice of the disk asked for |
| `Msc.Device.MemoryRead` | USB bootloader for LPCmini/msc/mscuser.c:88-116 | Sends the next slice cut at the end of the disk; residue and Length stay equal; the stage says whether the stall follows |
| `Msc.Device.TranslateWrFat` | USB bootloader for LPCmini/msc/mscuser.c:718-740 | The RAM copy takes the bytes, and deleting firmware.bin under CRP2 or CRP3 erases the user flash once |
| `Msc.Device.TranslateWrData` | USB bootloader for LPCmini/msc/mscuser.c:741-744 | The packet joins the pending page or completes it at the right address |
| `Msc.Device.TranslateWr` | USB bootloader for LPCmini/msc/mscuser.c:708-745 | The disk state after the packet is the specified one |
| `Msc.Device.MemoryWrite` | USB bootloader for LPCmini/msc/mscuser.c:126-145 | One packet is taken, offset, length and residue move together, and the last one is answered |
| `Msc.Device.RwSetup` | USB bootloader for LPCmini/msc/mscuser.c:189-215 | Succeeds exactly when the wrapper length is the block length; otherwise both endpoints stall, then the status is a phase error with the whole length as residue |
| `Msc.Device.Inform` | USB bootloader for LPCmini/msc/mscuser.c:224-258 | A phase error for no length, a stall and a phase error for the wrong direction; otherwise the reply cut to the length asked for, success, and the residue reduced by it |
| `Msc.Device.TestUnitReady` | USB bootloader for LPCmini/msc/mscuser.c:267-279 | Success, after a stall of the endpoint of the data phase if there is one |
| `Msc.Device.SetCsw` | USB bootloader for LPCmini/msc/mscuser.c:581-586 | Sends the status wrapper and waits for it to be taken |
| `Msc.Device.GetCbw` | USB bootloader for LPCmini/msc/mscuser.c:481-572 | Starts a read, starts a write, or answers at once with the tag of the wrapper and a residue; anything unsigned or of the wrong size is an error stage with both stalls |
| `Msc.Device.BulkIn` | USB bootloader for LPCmini/msc/mscuser.c:595-616 | The stage machine of the IN endpoint |
| `Msc.Device.BulkOut` | USB bootloader for LPCmini/msc/mscuser.c:625-648 | The stage machine of the OUT endpoint: command, data packet with its whole effect on disk and transfer, or phase error; the loader part never changes |
| `Msc.Device.BulkOutData` | USB bootloader for LPCmini/msc/mscuser.c:632-636 | A data packet, with the invariant of the device kept |
| `Msc.LoaderKept` | USB bootloader for LPCmini/msc/mscuser.c:708-745 | Whatever is written, the loader part of the flash is unchanged |
| `Host.ReadTransaction` | USB bootloader for LPCmini/msc/mscuser.c:88-116 | For every block address up to the block count and every non-zero length, the packets before the status concatenate to the disk slice cut at the end, and the status has the tag and a residue equal to the bytes not sent |
| `Host.ReadPacketsAre` | USB bootloader for LPCmini/msc/mscuser.c:88-116 | The data packets of a read concatenate to the slice of the disk cut at its end |
| `Host.ReadPacketsFull` | USB bootloader for LPCmini/msc/mscuser.c:88-116 | All but the last packet are full |
| `Host.AnswerCarries` | USB bootloader for LPCmini/msc/mscuser.c:88-116 | What a host collects from everything sent before the status is what the store holds |
| `Host.WriteTransaction` | USB bootloader for LPCmini/msc/mscuser.c:126-145 | For every in-range WRITE10 in full packets the disk becomes the specified one and the status is success with no residue |
| `Host.Session` | USB bootloader for LPCmini/msc/mscuser.c:481-648 | Over any sequence of reads and writes the device becomes the store after them and sends exactly what the store answers, command by command: data packets, stall at a cut, status with tag and residue; nothing is pending in between |
| `HostView.ProtectedReadsZeros` | USB bootloader for LPCmini/msc/mscuser.c:694-701 | At every protection level but none, READ10 of the data area carries zeros only |
| `HostView.SessionHidden` | USB bootloader for LPCmini/msc/mscuser.c:650-706 | Under protection two stores that differ in the flash alone give the same answers over every session |
| `HostView.RunHidden` | USB bootloader for LPCmini/msc/mscuser.c:481-648 | And two states of the bus that differ in the flash alone send the same packets, stalls and status over every run of bus events |
| `HostView.Twins` | USB bootloader for LPCmini/msc/mscuser.c:481-648 | Two live protected devices that differ in the flash alone cannot be told apart by any host |
| `HostView.NamePlace` | USB bootloader for LPCmini/msc/memory.c:131-159 | The first byte of the name of firmware.bin is at 1568 of the disk |
| `HostView.DirectoryWrite` | USB bootloader for LPCmini/msc/mscuser.c:718-740 | A write in front of the data area changes the flash only if it puts 0xE5 there, under CRP2 or CRP3, for the first time; then the whole user flash is blank and nothing else |
| `HostView.DirectoryReadsBack` | USB bootloader for LPCmini/msc/mscuser.c:718-740 | Table and directory read back what was written to them; the boot sector never changes |
| `HostView.CapacityIsDisk` | USB bootloader for LPCmini/msc/mscuser.c:418-441 | READ CAPACITY gives a block size of 512 and the last block that a READ10 delivers without a stall |
| `HostView.SizesAgree` | USB bootloader for LPCmini/msc/mscuser.c:418-473 | READ CAPACITY, READ FORMAT CAPACITIES and the boot sector agree on the size of the disk |
| `HostView.TransfersAre` | USB bootloader for LPCmini/msc/mscuser.c:481-560 | Which wrappers start a transfer of disk data, by their bytes, and where tag and block address stand |
| `HostView.CommandTable` | USB bootloader for LPCmini/msc/mscuser.c:481-572 | How every other wrapper is answered, by its bytes: stalls, status, or the reply cut to the length asked for |
| `HostView.StatusFields` | USB bootloader for LPCmini/msc/mscuser.c:581-586 | The thirteen bytes of a status wrapper read back as signature, tag, residue and status |
| `Firmware.PassWrites` | USB bootloader for LPCmini/msc/mscuser.c:708-745 | However one ascending pass is cut into WRITE10 commands, the flash sees the same page writes |
| `Firmware.UpdateWrites` | USB bootloader for LPCmini/msc/mscuser.c:708-745 | After one ascending pass of an image of user-flash size over any contents the flash is the loader followed by the image and nothing else has changed |
| `Firmware.UpdateReadsBack` | USB bootloader for LPCmini/msc/mscuser.c:650-706 | With no protection READ10 then returns the image |
| `Firmware.UpdateShowsFile` | USB bootloader for LPCmini/msc/mscuser.c:650-745 | And the file firmware.bin reached through the table is the image |
| `Firmware.Update` | USB bootloader for LPCmini/msc/mscuser.c:88-145 | A live device, whatever its flash held, taken through the commands of a pass and one read: flash, store and everything it sends are as the store says, and the data of the read are the image |
| `Firmware.SessionReadsBack` | USB bootloader for LPCmini/msc/mscuser.c:708-745 | After any session of writes on an unprotected disk a byte with a fresh history holds what the session wrote to it last |
| `Sessions.RefillSession` | USB bootloader for LPCmini/msc/mscuser.c:708-745 | Every choice of data for the pages a session writes is the session of commands of the same shape with suitable data |
| `Sessions.SessionExactly` | USB bootloader for LPCmini/msc/mscuser.c:708-745 | For a session of any commands on an unprotected disk: a byte holds what was written to it last, for all data of commands of that shape and all previous contents, if and only if its history of page writes is fresh |
| `Bus.TakeStep` | USB bootloader for LPCmini/msc/mscuser.c:595-616 | One IN event moves the live device as the pure machine says |
| `Bus.SendStep` | USB bootloader for LPCmini/msc/mscuser.c:625-648 | One OUT event moves the live device as the pure machine says, for every packet a conforming host can send |
| `Bus.Run` | USB bootloader for LPCmini/msc/mscuser.c:481-648 | Over every run of bus events the live device goes through the states of the pure machine; the log of calls only grows and every erasure or programming in it directly follows a preparation of its sectors, no call fails, no loader byte changes, residue and Length agree in data stages, and no page is pending outside DATA OUT |
| `Bus.LoaderSafe` | USB bootloader for LPCmini/iap/sbl_iap.c:56-145 | No run of the pure machine changes a byte below the user flash |
| `Bus.OutsGrow` | USB bootloader for LPCmini/msc/mscuser.c:581-586 | What has been sent is never taken back |
| `UsbCore.Core.constructor` | USB bootloader for LPCmini/usb/usbcore.c:66-73 | Unconfigured, only endpoint 0 |
| `UsbCore.Core.ResetCore` | USB bootloader for LPCmini/usb/usbcore.c:66-73 | Unconfigured, only endpoint 0, nothing halted |
| `UsbCore.Core.Walk` | USB bootloader for LPCmini/usb/usbcore.c:323-370 | The pointer walk terminates over every well-formed block; it changes the state exactly when a configuration has the value asked for |
| `UsbCore.Core.SetConfiguration` | USB bootloader for LPCmini/usb/usbcore.c:318-391 | Succeeds exactly for 0 and the configurations there are; then the mask is endpoint 0 plus exactly the endpoints of alternate setting 0, and nothing is halted; otherwise nothing changed |
| `UsbCore.Core.SetClrFeature` | USB bootloader for LPCmini/usb/usbcore.c:209-233 | Succeeds exactly for the stall feature on an enabled endpoint other than 0 while configured, and moves that one bit |
| `UsbCore.HaltMoves` | USB bootloader for LPCmini/usb/usbcore.c:209-233 | Setting or clearing the halt of address n moves bit n, of address 0x80 + n bit 16 + n, whatever address bits 4 to 6 are, if that endpoint is enabled; otherwise nothing changes |
| `UsbCore.MaskBits` | USB bootloader for LPCmini/usb/usbcore.c:354-366 | After SET_CONFIGURATION bit n of the mask is set exactly if alternate setting 0 has OUT endpoint n, bit 16 + n exactly if it has IN endpoint n |
| `UsbCore.Core.SetInterfaceEndpoint` | USB bootloader for LPCmini/usb/usbcore.c:427-445 | The mask and halt step on one endpoint |
| `UsbCore.Alt0Owned` | USB bootloader for LPCmini/usb/usbcore.c:354-366 | The endpoints collected do not depend on the uninitialised alternate setting when every endpoint follows an interface |
| `UsbCore.Serve` | USB bootloader for LPCmini/usb/usbcore.c:192-450 | Over every sequence of requests the core goes through the states of the pure machine, and the hardware has exactly the enabled endpoints on |
| `UsbCore.AlwaysSafe` | USB bootloader for LPCmini/usb/usbcore.c:192-450 | In every state reached by any requests halted endpoints lie within the enabled ones other than 0, and unconfigured means endpoint 0 alone |
| `UsbCore.HaltsKeepMask` | USB bootloader for LPCmini/usb/usbcore.c:192-234 | Requests that change halts leave mask and configuration alone |
| `ShiftPwm.BitTimes` | Equinox/libraries/LED/ShiftPWM.c:93-102 | The time of a bit is 8 units times its weight |
| `ShiftPwm.SlotsAre` | Equinox/libraries/LED/ShiftPWM.c:93-157 | The eight planes come round in ascending order, each for eight units times the weight of its bit |
| `ShiftPwm.OnTimeProportional` | Equinox/libraries/LED/ShiftPWM.c:142-157 | Over any sixteen consecutive interrupts from any phase a light is on for exactly 16 units per step of its brightness |
| `ShiftPwm.ListSendsAll` | Equinox/libraries/LED/ShiftPWM.c:444-475 | Following the list ends after sending the registers 5 to 0 and 11 to 6, each exactly once |
| `ShiftPwm.ChainHolds` | Equinox/libraries/LED/ShiftPWM.c:444-475 | A list sends registers 5 to 0, then 11 to 6, so that whatever the chain of shift registers held its near half then has the words of registers 6 to 11 and its far half those of 0 to 5 |
| `Leds.Panel.Word` | Equinox/libraries/LED/ShiftPWM.c:596-627 | A word has bit k equal to the plane bit of light k of its register and is below 2^15, so bit 15 is 0 |
| `Leds.Panel.Calculate` | Equinox/libraries/LED/ShiftPWM.c:569-629 | Every plane is the transposition of the brightness values |
| `Leds.Panel.BuildList` | Equinox/libraries/LED/ShiftPWM.c:446-482 | The list of one plane, in both halves, the others untouched |
| `Leds.Panel.constructor` | Equinox/libraries/LED/ShiftPWM.c:304-307 | The sequence tables and all lists |
| `Leds.Panel.Timer0` | Equinox/libraries/LED/ShiftPWM.c:142-157 | One interrupt shows the slot of its phase and steps the phase round |
| `Leds.SendPlane` | Equinox/libraries/LED/ShiftPWM.c:153-153 | Following the list the handler starts ends after twelve words, one for each register, its own word of the plane; whatever the chain of shift registers held, it then has the words of registers 6 to 11 and 0 to 5 |
| `Leds.SixteenInterrupts` | Equinox/libraries/LED/ShiftPWM.c:142-157 | Sixteen interrupts from any phase add the sixteen slots from there on to the log of slots shown and come back to the phase; by the words the lists send in these slots a lamp is lit for exactly 16 times its brightness |
| `Uart.PutAtHead` | Equinox/comm.c:52-61 | Storing at the head appends to the ring, round the corner too |
| `Uart.TakeAtTail` | Equinox/comm.c:52-61 | The byte at the tail is the first of the ring, round the corner too |
| `Uart.Port.IntTransmit` | Equinox/comm.c:504-544 | As many bytes as the device takes leave in order, and ring, TxIntStat and the interrupt enable agree again |
| `Uart.Port.Send` | Equinox/comm.c:570-612 | What fits is queued in order, and less than the whole only into a ring that then holds 1023 bytes; on an idle port the bytes the UART takes are on the wire at once and the others wait |
| `Uart.Run` | Equinox/comm.c:504-612 | Over every run of sends and interrupts with a device that may refuse, wire and ring go through the states of the pure machine, the bytes accepted are those of the calls, and bytes wait exactly when the interrupt is enabled |
| `Uart.RunKeepsOrder` | Equinox/comm.c:504-612 | Over every run wire followed by ring is what it was, followed by the bytes the calls took, and the wire only grows |
| `Uart.NoLostWakeUp` | Equinox/comm.c:504-544 | With a device that interrupts only after it has taken a byte: in every state reached from rest by send calls and such interrupts, waiting bytes mean that a byte has been taken whose interrupt is still to come |
| `Uart.InterruptsDrain` | Equinox/comm.c:504-544 | From such a state one interrupt for each waiting byte puts everything on the wire |
| `Uart.Power` | Equinox/comm.c:504-612 | The live port with that device goes through those states; whenever bytes wait their interrupt is enabled and will come |
| `Uart.Drain` | Equinox/comm.c:504-544 | If every interrupt finds room for a byte, everything accepted reaches the wire: no wake-up is lost |
| `Digits.Xitoa` | Equinox/term_io.c:73-106 | For every 32-bit value, radix 10, -10 or 16 and every width: the canonical digits with sign, padded; nothing beyond width 20; the buffer is never overrun |
| `Digits.CanonicalWorth` | Equinox/term_io.c:73-106 | The canonical digits are worth the number: the last once, those before it radix times |
| `Digits.CanonicalDigits` | Equinox/term_io.c:73-106 | They are digits of the radix only, and the first is not zero unless the number is |
| `ReadNumber.Xatoi` | Equinox/term_io.c:6-56 | The pointer loop reads what the grammar of prefixes and digits says, in 8- and 32-bit arithmetic, and one of its refusals can never happen |
| `ReadNumber.PrintedReadsBack` | Equinox/term_io.c:6-106 | Every signed value printed with any space-padded width up to 20 is read back, whatever follows after a blank |
| `ReadNumber.RadixReadsBack` | Equinox/term_io.c:6-56 | Every 32-bit value in canonical digits behind 0x, 0b or 0 (hexadecimal, binary, octal), with or without a minus, is read back as its two's complement |
| `ReadNumber.DigitExactly` | Equinox/term_io.c:42-49 | A character counts as a digit if and only if it is one of the radix or, in hexadecimal, one of the six characters behind 9 |
| `ReadNumber.StraysExactly` | Equinox/term_io.c:6-56 | Every text is read as a reader of proper digits does if and only if it has none of those characters among the hexadecimal digits behind 0x |
| `ReadNumber.ColonIsTen` | Equinox/term_io.c:42-50 | The text 0x: is read as ten |
| `SerMsg.PutPlace` | Equinox/libraries/R2C2/sermsg.c:59-121 | One decimal place by repeated subtraction, or by division for the lowest two |
| `SerMsg.SerwriteUint32` | Equinox/libraries/R2C2/sermsg.c:57-124 | Emits the canonical decimal digits of every 32-bit value |
| `SerMsg.PrintersAgree` | Equinox/libraries/R2C2/sermsg.c:57-124 | The subtracting and the dividing printer emit the same digits for every value |
| `SerMsg.SerwriteInt32` | Equinox/libraries/R2C2/sermsg.c:126-133 | Emits what xitoa emits for every signed value, the least one included |
| `CanText.CanMsg.PrintMessage` | Equinox/libraries/CANlib/canlib.c:802-856 | The line of every message that is not muted, with the doubled carriage return of its end |
| `CanText.ExecSend` | Equinox/libraries/CANlib/canlib.c:428-509 | The command is taken if and only if bus, digits, count and length digit agree, and then the message is the parsed one with the bytes beyond its length untouched; what a refused command leaves behind is stated too |
| `CanText.RefusedCommand` | Equinox/libraries/CANlib/canlib.c:458-474 | The refused command t1235 has the shape that overwrites identifier and length |
| `CanText.CheckHex` | Equinox/libraries/CANlib/canlib.c:186-196 | Accepts exactly hexadecimal digits behind the command letter |
| `CanText.NibbleDigit` | Equinox/libraries/CANlib/canlib.c:711-721 | The nibble of a digit prints back as that digit in upper case |
| `CanText.LineReadsBack` | Equinox/libraries/CANlib/canlib.c:428-503 | The line of every 11-bit data frame of up to 8 bytes is a command the parser takes, as the same identifier, length and data |
| `CanText.KindLetters` | Equinox/libraries/CANlib/canlib.c:428-503 | The letter of a line tells the kind: small for 11-bit identifiers, r for remote frames |
| `CanText.LineExample` | Equinox/libraries/CANlib/canlib.c:428-503 | The line of a message with two data bytes, character by character |
| `CanText.CommandPrintsBack` | Equinox/libraries/CANlib/canlib.c:428-503 | A command of whole bytes that the parser takes is the line of its message, up to the case of its digits |
| `CanText.Relay` | Equinox/libraries/CANlib/canlib.c:183-196 | Printing on one station and parsing on another rebuilds the message |
| `Calendar.DaysFrom2000` | Equinox/libraries/RTClib/rtc.cpp:370-379 | The month loop computes the closed form, truncated to 16 bits |
| `Calendar.DaysExact` | Equinox/libraries/RTClib/rtc.cpp:370-379 | The result is the number of days counted one by one in the Gregorian calendar if and only if the date is before 1 March 2100 |
| `Calendar.EveryDateCounted` | Equinox/libraries/RTClib/rtc.cpp:369-379 | Every date from 2000 on is met by the count, so the equivalence is about all dates |
| `Calendar.CenturyLeapDay` | Equinox/libraries/RTClib/rtc.cpp:376-377 | The first date that fails |
| `Calendar.WeekdaysAdvance` | Equinox/libraries/RTClib/rtc.cpp:387-390 | 1 January 2000 is a Saturday and the weekday advances by one each day |
| `Calendar.SummerTimeSundays` | Equinox/libraries/RTClib/rtc.cpp:39-43 | The two macros give the last Sundays of March and October of every year from 2000 to 2099 |
| `Calendar.Time2Long` | Equinox/libraries/RTClib/rtc.cpp:382-384 | The exact seconds, wrapped to a signed 32-bit number |
| `Calendar.FindUnixtime` | Equinox/libraries/RTClib/rtc.cpp:408-413 | Seconds since 1970 modulo 2^32, the signed wrap from 2068 on undone |
| `Calendar.EpochCounted` | Equinox/libraries/RTClib/rtc.cpp:33-33 | The constant is 86400 for each day of the Gregorian calendar from 1970 to 2000 |
| `Calendar.UnixCounts` | Equinox/libraries/RTClib/rtc.cpp:408-413 | For every time of 2000 to 2099 the result is 86400 for each day since 1 January 1970 and the seconds of the day |
| `Calendar.UnixToClock` | Equinox/libraries/RTClib/rtc.cpp:585-592 | Hour, minute and second of a 32-bit time |
| `Calendar.ClockBack` | Equinox/libraries/RTClib/rtc.cpp:585-592 | The clock is read back if and only if the seconds since 2000 fit in 32 bits |
| `Calendar.LateClock` | Equinox/libraries/RTClib/rtc.cpp:585-592 | Midnight of 1 March 2136 reads as 17:31:44 |
| `Calendar.SummerTime` | Equinox/libraries/RTClib/rtc.cpp:602-608 | Compares with the two change-over times of the year |
| `Calendar.SummerTimeInterval` | Equinox/libraries/RTClib/rtc.cpp:602-608 | For every date and time of 2000 to 2099 the correction is wanted exactly from one o'clock on the last Sunday of March to one o'clock on the last Sunday of October |
| `DotSegments.RemoveDotSegments` | Equinox/jscolor.js:293-312 | The loop over path and out terminates for every path with the result of its turns |
| `DotSegments.LoopIsReference` | Equinox/jscolor.js:293-312 | For every path the loop computes what a stack of segments gives |
| `DotSegments.ResultClean` | Equinox/jscolor.js:293-312 | The result has no "." and no ".." segment |
| `DotSegments.FixedPoints` | Equinox/jscolor.js:293-312 | Exactly the paths without dot segments are left as they are |
| `DotSegments.Idempotent` | Equinox/jscolor.js:293-312 | A second application changes nothing |
| `DotSegments.DotsGoUp` | Equinox/jscolor.js:300-302 | In any path that does not begin with a dot segment ".." takes back the segment before it |
| `DotSegments.DotStays` | Equinox/jscolor.js:298-299 | And "." can be left out |
| `DotSegments.RootStays` | Equinox/jscolor.js:300-302 | ".." at the root stays at the root |
| `DotSegments.EndsInDirectory` | Equinox/jscolor.js:298-302 | A dot segment at the end means the same as with a slash behind it |
| `DotSegments.DropLast` | Equinox/jscolor.js:302-302 | The replacement cuts at the last slash, or everything |
| `Colour.HsvInverse` | Equinox/jscolor.js:544-569 | Every colour of the cube survives RGB_HSV and HSV_RGB exactly over the reals, whatever hue and saturation stand in for a grey or black |
| `Colour.PureHues` | Equinox/jscolor.js:544-569 | Around the hue circle: 0 red, 1 yellow, 2 green, 3 cyan, 4 blue, 5 magenta, 6 red |
| `Colour.InCubeAgain` | Equinox/jscolor.js:554-569 | Every hue, saturation and value in range is a colour of the cube |
| `Colour.Picker.constructor` | Equinox/jscolor.js:337-344 | The initial white |
| `Colour.Picker.FromHsv` | Equinox/jscolor.js:467-479 | Clamped components, missing ones kept, RGB recomputed |
| `Colour.Picker.FromRgb` | Equinox/jscolor.js:482-507 | Hue, saturation and value are those of the colour clamped to the limits, kept for greys and black; the colour stored is exactly the one asked for unless the limits trim it |
| `Colour.DefaultsAdmit` | Equinox/jscolor.js:339-344 | The default limits trim no colour |
| `Colour.Picker.FromString` | Equinox/jscolor.js:510-532 | Takes exactly three or six hexadecimal digits between non-word characters; the text shown afterwards is those digits in lower case, doubled from the short form; otherwise nothing changes |
| `Colour.ColourText` | Equinox/jscolor.js:510-541 | Reading digits and writing them is the identity up to case |
| `Colour.TextIsHex` | Equinox/jscolor.js:535-541 | The text of any colour is six lower-case digits that are read as themselves |
| `Colour.TextExample` | Equinox/jscolor.js:535-541 | Red, green, blue in this order: full red and half green is ff8000 |
| `Colour.Picker.Reload` | Equinox/jscolor.js:510-541 | Showing the text and taking it again changes no digit, from every state |

## Left out

- Reading beyond the packet in check_ip: the model asks that the bytes named by header length and total length lie in the caller's buffer (`CheckIp.InBuffer`), as the C code silently does.
- What serial_to_tun does with a completed frame (debug output, the =IPA address commands, the write to the tun device); frames are handed on in order.
- The ?IPA request of main, which is queued behind whatever is in slip_buf, and a read of no bytes from the tun device, which would queue a lone END.
- relay_dhcp_to_server, and DHCP options with pads: the relay takes the byte after a pad for a length.
- DHCP replies without any option and without END: the relay then tests an uninitialised variable.
- The program, tty and socket code around tunslip, and its relatives tunslip6, tapslip6 and scat.
- The in-application programming ROM is a small device (prepare, erase to 0xFF, program by AND, refuse when not prepared) following the LPC17xx manual; interrupts, clock and result tables are not modelled.
- The sector map is given by its closed form instead of its table; the addresses are the same.
- VERIFY10, WRITE10 of no blocks, transfers beyond the end of the disk on the OUT side, wrappers longer than 31 bytes, and MSC_Reset in the middle of a page: host conformance is a precondition (`Bot.Conforms`).
- Information replies (INQUIRY, sense, mode, capacities) are given by their bytes and sent directly instead of through BulkBuf.
- Descriptors, string handling and the other control requests of the USB core; its masks are sets of bit numbers.
- UsbCore.Core.SetInterfaceEndpoint: only the mask and halt steps of USB_SetInterface, because the full request reads a variable before it is set for some descriptor orders.
- ShiftPwm.ListSendsAll: Follow counts items only to be a total function; the statement holds for every count from twelve on.
- The OR of the fifteen plane bits is a sum of distinct powers of two; DMA, SSP and timer registers are not modelled; only buffer 0 is used.
- The receiving half of the UART ring and the line assembly; waiting for the UART to become idle.
- xitoa with radix 2, which can overrun its buffer; xprintf's format interpreter; serwrite_double.
- CanText.CanMsg.PrintMessage: the time stamp is off; identifiers are below 2^29 and lengths at most 8, as the controller delivers them.
- CanText.ExecSend: only the 't' command; bus state and the driver's answer are parameters.
- The change-over in DST_check_and_correct, alarms, sunrise, days_from_20xx.
- LED patterns, web pages, terminal library and command dispatch.
- URI parsing and toAbsolute around the dot-segment removal; the drawing half of the picker.
- Rounding in the colour arithmetic: JavaScript numbers are modelled by reals.
- The OR with 0x100 in toString is an addition, which is the same for the rounded components.
