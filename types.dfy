/** Values shared by every part of the USB network bridge: optional values,
    the C integer widths that matter, lwIP packet buffers and the journal of
    calls the bridge makes into the USB and IP stacks. */
module NetTypes {

  datatype Option<+T> = None | Some(value: T)

  /** C `uint8_t`: the element type of frames and link addresses. */
  type byte = bv8

  /** C `uint16_t`: frame lengths passed between TinyUSB and lwIP. */
  type uint16 = x: int | 0 <= x < 0x1_0000

  /** An lwIP `struct pbuf`: `handle` stands for the pointer pbuf_alloc
      returned, which is what tells two buffers apart, and the chain is
      flattened into the bytes it carries. */
  datatype Pbuf = Pbuf(handle: nat, payload: seq<byte>) {
    /** lwIP's `tot_len`: the number of bytes in the whole chain. */
    function TotLen(): nat { |payload| }
  }

  /** One call the bridge makes into TinyUSB or lwIP, with the answer it got
      where the answer changes what the bridge does next. */
  datatype Event =
    | TudInit(ok: bool)                      // tud_init
    | LwipInit                               // lwip_init
    | NetifAdd(ok: bool)                     // netif_add (false: it returned NULL)
    | NetifSetDefault                        // netif_set_default
    | TudTask                                // tud_task
    | PbufAlloc(size: nat, got: Option<Pbuf>) // pbuf_alloc, and the buffer after the copy into it
    | PbufFree(p: Pbuf)                      // pbuf_free
    | EthernetInput(p: Pbuf, ok: bool)       // ethernet_input (true: it returned ERR_OK)
    | RecvRenew                              // tud_network_recv_renew
    | CheckTimeouts                          // sys_check_timeouts
    | TudDeinit                              // tud_deinit
}
