# usbnet bridge model

A Dafny model of the USB-to-IP bridge in `usb_network.c`. The file turns a
Raspberry Pi Pico into a USB Ethernet adapter: TinyUSB exposes the USB
network device, and lwIP runs the IP stack behind a virtual network
interface. The model covers three parts of that file.

- **Link addresses** (module `LinkAddress`). The address reported to the
  host is derived from the board's unique id: six id bytes from offset 2,
  with the I/G bit cleared and the U/L bit set. The on-device interface
  address is the same address with bit 0 of its last byte toggled.
- **Address string** (module `MacFormat`). `usb_network_init` renders the
  interface address into a 20-character buffer: two upper-case
  hexadecimal digits per byte, then a NUL.
- **Receive mailbox** (modules `Mailbox` and `UsbNetwork`). The slot
  `received_frame` holds at most one frame:
  - the receive callback fills it, or refuses a frame while it is full;
  - the re-initialisation callback frees a leftover frame;
  - the service step hands the frame to `ethernet_input`, frees it only
    when the stack refused it, re-arms reception and runs the lwIP timers.

  Pure step functions (`Offer`, `Reset`, `Drain`) specify these steps. The
  class `UsbNetwork.Bridge` holds the globals as fields:
  `tud_network_mac_address`, `netif_usb.hwaddr` and its length,
  `received_frame`, and a journal (`trace`) of the calls made into TinyUSB
  and lwIP. Its methods are proved against the step functions.
  Each buffer carries a handle, which stands for the pointer `pbuf_alloc`
  returned. The ownership ledger counts buffers by handle, so two frames
  with equal bytes are still two buffers. It is proved over every sequence
  of receive, re-initialisation and service steps: every handle obtained
  from `pbuf_alloc` is still in the slot or has been released, either freed
  by the bridge or taken over by lwIP. When `pbuf_alloc` never gives the
  same handle twice, each buffer is released at most once: never freed
  twice, and never freed after lwIP took it over.
- **Transmit** (module `Transmit`). `linkoutput_fn` polls `tud_ready` and
  `tud_network_can_xmit`, yields to `tud_task` while the USB side is busy,
  and returns ERR_OK after the transmit or ERR_USE when USB is not ready.
  `tud_network_xmit_cb` copies the frame into the USB buffer.

Three kinds of outside input are parameters of the model:

- the answers of the USB and IP stacks (`tud_init`, `netif_add`,
  `pbuf_alloc` with the handle it returns or none, `ethernet_input`,
  `tud_ready`, `tud_network_can_xmit`);
- the board id;
- the frames TinyUSB delivers.

The answers that change what the bridge does next are recorded with the
call in the journal.

Three facts about the code shape the model:

- `linkoutput_fn` returns ERR_USE when `tud_ready()` is false
  (usb_network.c:57-59);
- `usb_network_deinit` only calls `tud_deinit` (usb_network.c:202-204). The
  code keeps no "interface registered" flag and never calls
  `netif_remove`;
- `usb_network.h:38-39` declares an `init_lwip` parameter and
  `usb_network_is_up`, which `usb_network.c` lacks. `usb_network_init`
  always calls `lwip_init`.

## Model

| member | source | states |
|---|---|---|
| LinkAddress.HostMac | usb_network.c:163-168 | the host address has six bytes, is unicast and locally administered, keeps all but the two low bits of board-id byte 2, and copies board-id bytes 3..7 unchanged |
| LinkAddress.InterfaceMac | usb_network.c:170-173 | the interface address equals the host address in its first five bytes, and in the last byte everywhere except bit 0, which differs; so the two addresses always differ |
| LinkAddress.InterfaceMacKeepsAddressKind | usb_network.c:163-173 | the interface address is also unicast and locally administered |
| LinkAddress.InterfaceMacInvolution | usb_network.c:170-173 | toggling twice gives the host address back, so either address determines the other |
| LinkAddress.HostMacDependsOnSliceOnly | usb_network.c:164-168 | two board ids that agree on the copied bytes, apart from the two fixed-up bits, give the same host address |
| MacFormat.HighNibble | usb_network.c:179 | the high-nibble index always lies inside the 16-entry digit table |
| MacFormat.LowNibble | usb_network.c:180 | the low-nibble index always lies inside the 16-entry digit table |
| MacFormat.DigitValue | usb_network.c:179-180 | a character that has a value is the table entry at that value, so reading a digit inverts the table lookup |
| MacFormat.DigitValueOfTable | usb_network.c:179-180 | every table entry reads back as its own index and is an upper-case hexadecimal digit |
| MacFormat.HexStringShape | usb_network.c:176-182 | the rendering has two characters per byte: the high-nibble digit at 2k and the low-nibble digit at 2k+1, all upper-case hexadecimal |
| MacFormat.ParseHexString | usb_network.c:178-181 | reading the rendering back gives the rendered bytes |
| MacFormat.HexStringOfParse | usb_network.c:178-181 | any string that reads back as some bytes is exactly their rendering, so the rendering is the only spelling of an address |
| MacFormat.HexAppend | usb_network.c:178-181 | rendering one more byte appends exactly its two digits |
| MacFormat.FormatMac | usb_network.c:175-183 | the 20-character buffer holds the rendering of the six interface-address bytes in positions 0..11 and a NUL at the final counter value 12 |
| Mailbox.OfferWhileFullRefuses | usb_network.c:99-104 | while a frame is held, a new frame is refused and the slot and the journal are unchanged |
| Mailbox.OfferWhileEmptyAccepts | usb_network.c:106-118 | an empty slot accepts every frame; it stores a byte-for-byte copy, in the buffer `pbuf_alloc` returned, exactly when the size is non-zero and a buffer was obtained |
| Mailbox.OfferEmptyFrameAllocatesNothing | usb_network.c:106-118 | a zero-length frame calls `pbuf_alloc` for nothing |
| Mailbox.ResetFreesOnce | usb_network.c:129-135 | re-initialisation empties the slot, frees the held frame exactly once and frees nothing when the slot was empty |
| Mailbox.DrainDeliversOnce | usb_network.c:137-148 | serving a held frame calls `ethernet_input` on it once, frees it exactly when the stack refused it, re-arms reception once, runs the timers last, and empties the slot |
| Mailbox.DrainDeliversHeld | usb_network.c:139-145 | a service step hands the held frame, and nothing else, to `ethernet_input` |
| Mailbox.DrainEmptyOnlyTimers | usb_network.c:137-148 | with an empty slot, the service step only runs the timers and does not re-arm reception |
| Mailbox.ResetThenDrainFindsNothing | usb_network.c:129-148 | after a re-initialisation a service step delivers nothing, whatever was held |
| Mailbox.OfferThenDrainDelivers | usb_network.c:99-148 | a frame accepted into an empty slot is the frame the next service step delivers |
| Mailbox.SixtyFourByteScenario | usb_network.c:99-148 | a 64-byte frame is kept, a second frame before servicing is refused, and servicing delivers the 64-byte frame exactly once |
| Mailbox.OfferAccounts | usb_network.c:99-119 | the receive step's allocations balance against the change of the slot |
| Mailbox.ResetAccounts | usb_network.c:129-135 | the re-initialisation step's frees balance against the change of the slot |
| Mailbox.DrainAccounts | usb_network.c:137-148 | the service step's free or hand-over balances against the change of the slot, and it allocates nothing |
| Mailbox.OfferKeepsLedger | usb_network.c:99-119 | the receive step preserves the ownership ledger of any journal |
| Mailbox.ResetKeepsLedger | usb_network.c:129-135 | the re-initialisation step preserves the ownership ledger |
| Mailbox.DrainKeepsLedger | usb_network.c:137-148 | the service step preserves the ownership ledger |
| Mailbox.RunAccounts | usb_network.c:99-148 | any sequence of the three entry points balances allocations against frees, hand-overs and the change of the slot |
| Mailbox.RunKeepsLedger | usb_network.c:99-148 | any sequence of the three entry points preserves the ledger: each handle is allocated as often as it is held or released |
| Mailbox.RunAllocatesOffered | usb_network.c:106-115 | a run allocates only handles `pbuf_alloc` returned, each at most as often as it was returned |
| Mailbox.RunNeverDoubleFrees | usb_network.c:99-148 | from the empty slot at boot, when `pbuf_alloc` never returns a handle twice, every buffer is released at most once: never freed twice, and never freed after lwIP took it over; all releases are of allocated buffers |
| Mailbox.NoDoubleRelease | usb_network.c:139-143 | under the ledger, frees, hand-overs and their sum are all bounded by the allocations |
| Transmit.LinkOutput | usb_network.c:54-70 | the loop's result and call sequence are those of the reference definition; it yields once per failed capacity check, and transmits the frame once exactly when it returns ERR_OK |
| Transmit.PollLinkCounts | usb_network.c:54-70 | every run yields once per failed capacity check, transmits `p` exactly when the result is ERR_OK, and sees one "not ready" exactly when the result is ERR_USE |
| Transmit.PollLinkLastCall | usb_network.c:57-64 | ERR_OK comes right after the transmit call, and ERR_USE comes exactly when the last call was a `tud_ready` that said no |
| Transmit.FailedChecksThenSuccess | usb_network.c:55-69 | with USB ready, k failed capacity checks and then a successful one give k yields, one transmit, ERR_OK and 3k+3 calls |
| Transmit.AlwaysReadyNeverErrUse | usb_network.c:57-59 | while `tud_ready` keeps saying yes, the result is never ERR_USE |
| Transmit.NotReadyStops | usb_network.c:57-59 | the first "not ready" ends the loop with ERR_USE and nothing transmitted, after one yield per earlier turn |
| Transmit.TwoBusyChecks | usb_network.c:55-69 | two busy checks and then capacity give two yields, one transmit and ERR_OK |
| Transmit.XmitCallback | usb_network.c:121-127 | all `tot_len` bytes of the frame are copied to the front of the USB buffer, the rest of the buffer is unchanged, and the byte count is returned |
| UsbNetwork.Bridge.constructor | usb_network.c:44-50 | the globals start zeroed: both addresses all zero, length 0, an empty slot and an empty journal |
| UsbNetwork.Bridge.Init | usb_network.c:155-200 | when `tud_init` fails, nothing else happens and the result is false. Otherwise the addresses are derived, the interface address string is printed and the interface is added; it becomes the default only when `netif_add` succeeded, and the result is true exactly when both calls succeeded |
| UsbNetwork.Bridge.GenerateMac | usb_network.c:163-168 | the host-address array holds the address derived from the board id |
| UsbNetwork.Bridge.SetInterfaceMac | usb_network.c:170-173 | the interface-address array holds the toggled host address, `hwaddr_len` is 6, and the host address is unchanged |
| UsbNetwork.Bridge.RecvCb | usb_network.c:99-119 | the frame is accepted exactly when the slot was empty; the new slot and the calls made are those of the receive step |
| UsbNetwork.Bridge.InitCb | usb_network.c:129-135 | the slot ends empty, and the calls made are those of the re-initialisation step |
| UsbNetwork.Bridge.ServiceTraffic | usb_network.c:137-148 | the slot ends empty, and the calls made are those of the service step |
| UsbNetwork.Bridge.Update | usb_network.c:150-153 | the journal gets `tud_task`, then the receive step TinyUSB performed inside it (if any), then the service step; the slot ends empty |
| UsbNetwork.Bridge.Deinit | usb_network.c:202-204 | only `tud_deinit` is called |
| UsbNetwork.UpdateKeepsLedger | usb_network.c:99-153 | the journal a main-loop update appends keeps the ownership ledger; `tud_task` itself touches no buffer |
| UsbNetwork.SixtyFourByteExchange | usb_network.c:99-153 | on the bridge object, a 64-byte frame is accepted, a second is refused, and the next update delivers exactly that 64-byte frame to the IP stack |

## Left out

- TinyUSB and lwIP as such. `tud_init`, `lwip_init`, `netif_add`,
  `pbuf_alloc`, `ethernet_input`, `tud_ready`, `tud_network_can_xmit`,
  `tud_network_xmit`, `tud_network_recv_renew`, `sys_check_timeouts` and
  `tud_deinit` are other libraries' code. The model records each call, and
  its answer is a parameter.
- `pico_get_unique_board_id`: the board id is a parameter.
- `printf`: console output is not modelled, apart from the address string
  that `Init` returns. The fixed messages are not modelled.
- `netif_init_cb`, `ip4_output_fn` and `ip6_output_fn`
  (usb_network.c:72-95): they only fill in lwIP's interface record or
  forward to lwIP's own output functions, so there is no bridge logic to
  model.
- The IPv6 link-local address (usb_network.c:189-191), which is compiled in
  only with `LWIP_IPV6`.
- UsbNetwork.Bridge.Init: the busy-wait until the interface is up
  (usb_network.c:194-197) is not modelled. lwIP sets that flag, and the
  loop has no bound of its own. `Init` returns as soon as the interface has
  been added and made the default.
- Transmit.LinkOutput: the loop's unbounded polling is cut at the end of
  the answer scripts, with the outcome `StillPolling`. The model says
  nothing about a run that is longer than the scripts.
- Transmit.LinkOutput: the `tud_task` yields inside the loop are recorded.
  TinyUSB's own work during them is not, including any receive callback it
  makes.
- UsbNetwork.Bridge.Update: `tud_task` is modelled as making at most one
  receive callback. A second callback in the same task would be refused
  anyway (`Mailbox.OfferWhileFullRefuses` when the first frame was kept),
  but the model does not include it.
- UsbNetwork.Bridge: the ownership ledger is not part of the class
  invariant `Valid`. The class methods are each tied to one step
  function. The ledger is proved on those functions
  (`Mailbox.RunKeepsLedger`, `UsbNetwork.UpdateKeepsLedger`).
- Mailbox.RunNeverDoubleFrees: it requires `pbuf_alloc` never to return the
  same handle twice in a run. A handle identifies one allocation. lwIP's
  pool may hand out the memory of a freed buffer again, and the model
  treats that as a new handle.
- Transmit.XmitCallback: it requires the USB buffer to be at least
  `tot_len` bytes long. The C code relies on TinyUSB's MTU-sized buffer for
  this and does not check it.
- lwIP's `struct pbuf` chains: they are flattened into one byte sequence
  (`Pbuf.payload`). `tot_len` is its length, and `pbuf_copy_partial` is
  modelled as copying it all.
- `main.c` and `tusb_config.h` are not part of this model.
