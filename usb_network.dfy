/** The bridge state of usb_network.c — the host-facing address
    `tud_network_mac_address`, the interface address `netif_usb.hwaddr` and
    its length, and the receive slot `received_frame` — together with a
    journal of the calls made into TinyUSB and lwIP. File-level globals in
    the C code; here the fields of one `Bridge` object. */
module UsbNetwork {
  import opened NetTypes
  import opened LinkAddress
  import opened MacFormat
  import opened Mailbox

  /** A receive callback that TinyUSB makes from inside `tud_task`: the
      frame, its length, and the answer pbuf_alloc will give. */
  datatype Incoming = Incoming(src: seq<byte>, size: uint16, alloc: Option<nat>)

  /** The receive step `tud_task` performs, if any. */
  function TaskRecv(slot: Option<Pbuf>, incoming: Option<Incoming>): RecvStep
    requires incoming.Some? ==> incoming.value.size <= |incoming.value.src|
  {
    match incoming
    case None => RecvStep(true, slot, [])
    case Some(i) => Offer(slot, i.src, i.size, i.alloc)
  }

  class Bridge {
    const macAddress: array<byte>
    const hwaddr: array<byte>
    var hwaddrLen: nat
    var receivedFrame: Option<Pbuf>
    var trace: seq<Event>

    ghost predicate Valid()
      reads this
    {
      && macAddress.Length == MacLen
      && hwaddr.Length == NetifMaxHwaddrLen
      && macAddress != hwaddr
    }

    /** The zero-initialised globals before `usb_network_init`. */
    constructor ()
      ensures Valid() && fresh(macAddress) && fresh(hwaddr)
      ensures macAddress[..] == [0, 0, 0, 0, 0, 0] && hwaddr[..] == [0, 0, 0, 0, 0, 0]
      ensures hwaddrLen == 0 && receivedFrame == None && trace == []
    {
      macAddress := new byte[MacLen](_ => 0);
      hwaddr := new byte[NetifMaxHwaddrLen](_ => 0);
      hwaddrLen := 0;
      receivedFrame := None;
      trace := [];
    }

    /** `usb_network_init`, given the board id and the answers of `tud_init`
        and `netif_add`; `printed` is the address string sent to the
        console. The wait for the interface to come up is not modelled. */
    method Init(boardId: seq<byte>, tudInitOk: bool, netifAddOk: bool) returns (ok: bool, printed: string)
      requires Valid() && |boardId| == BoardIdSize
      modifies this`hwaddrLen, this`trace, macAddress, hwaddr
      ensures Valid()
      ensures ok == (tudInitOk && netifAddOk)
      ensures !tudInitOk ==>
        && trace == old(trace) + [TudInit(false)]
        && macAddress[..] == old(macAddress[..]) && hwaddr[..] == old(hwaddr[..])
        && hwaddrLen == old(hwaddrLen) && printed == []
      ensures tudInitOk ==>
        && macAddress[..] == HostMac(boardId)
        && hwaddr[..] == InterfaceMac(HostMac(boardId))
        && hwaddrLen == MacLen
        && printed == HexString(hwaddr[..])
        && trace == old(trace) + [TudInit(true), LwipInit, NetifAdd(netifAddOk)]
                    + (if netifAddOk then [NetifSetDefault] else [])
    {
      if !tudInitOk {
        trace := trace + [TudInit(false)];
        return false, [];
      }
      trace := trace + [TudInit(true), LwipInit];

      GenerateMac(boardId);
      SetInterfaceMac();
      assert hwaddr[..] == InterfaceMac(HostMac(boardId));

      var macString, c := FormatMac(hwaddr);
      printed := macString[..c];

      trace := trace + [NetifAdd(netifAddOk)];
      if !netifAddOk {
        ok := false;
      } else {
        trace := trace + [NetifSetDefault];
        ok := true;
      }
    }

    /** Fills `tud_network_mac_address` from the board id: copy six bytes,
        then make the address unicast and locally administered. */
    method GenerateMac(boardId: seq<byte>)
      requires Valid() && |boardId| == BoardIdSize
      modifies macAddress
      ensures macAddress[..] == HostMac(boardId)
    {
      forall k | 0 <= k < MacLen {
        macAddress[k] := boardId[MacOffset + k];
      }
      macAddress[0] := macAddress[0] & 0xFE;  // unicast
      macAddress[0] := macAddress[0] | 0x02;  // locally administered
    }

    /** Sets `netif_usb.hwaddr` to the host-facing address with the last
        bit toggled, and `hwaddr_len` to its size. */
    method SetInterfaceMac()
      requires Valid()
      modifies this`hwaddrLen, hwaddr
      ensures hwaddrLen == MacLen
      ensures hwaddr[..] == InterfaceMac(macAddress[..])
      ensures macAddress[..] == old(macAddress[..])
    {
      hwaddrLen := macAddress.Length;
      forall k | 0 <= k < MacLen {
        hwaddr[k] := macAddress[k];
      }
      hwaddr[5] := hwaddr[5] ^ 0x01;
    }

    /** `tud_network_recv_cb(src, size)`, given the answer of pbuf_alloc:
        the handle of a buffer, or None for NULL. */
    method RecvCb(src: seq<byte>, size: uint16, alloc: Option<nat>) returns (accepted: bool)
      requires Valid() && size <= |src|
      modifies this`receivedFrame, this`trace
      ensures Valid()
      ensures accepted <==> old(receivedFrame).None?
      ensures var r := Offer(old(receivedFrame), src, size, alloc);
        accepted == r.accepted && receivedFrame == r.slot && trace == old(trace) + r.events
    {
      if receivedFrame.Some? {
        return false;
      }
      if size != 0 {
        if alloc.Some? {
          var p := Pbuf(alloc.value, src[..size]);
          trace := trace + [PbufAlloc(size, Some(p))];
          receivedFrame := Some(p);
        } else {
          trace := trace + [PbufAlloc(size, None)];
        }
      }
      return true;
    }

    /** `tud_network_init_cb`: discard a leftover frame. */
    method InitCb()
      requires Valid()
      modifies this`receivedFrame, this`trace
      ensures Valid()
      ensures receivedFrame == None
      ensures trace == old(trace) + Reset(old(receivedFrame)).events
    {
      if receivedFrame.Some? {
        trace := trace + [PbufFree(receivedFrame.value)];
        receivedFrame := None;
      }
    }

    /** `service_traffic`, given the answer of `ethernet_input`. */
    method ServiceTraffic(inputOk: bool)
      requires Valid()
      modifies this`receivedFrame, this`trace
      ensures Valid()
      ensures receivedFrame == None
      ensures trace == old(trace) + Drain(old(receivedFrame), inputOk).events
    {
      ghost var expected := Drain(receivedFrame, inputOk).events;
      var calls: seq<Event> := [];
      if receivedFrame.Some? {
        var p := receivedFrame.value;
        calls := calls + [EthernetInput(p, inputOk)];
        if !inputOk {
          calls := calls + [PbufFree(p)];  // only free on error
        }
        receivedFrame := None;
        calls := calls + [RecvRenew];
      }
      calls := calls + [CheckTimeouts];
      assert calls == expected;
      trace := trace + calls;
    }

    /** `usb_network_update`: run `tud_task`, during which TinyUSB may call
        the receive callback once, then service the slot. */
    method Update(incoming: Option<Incoming>, inputOk: bool)
      requires Valid()
      requires incoming.Some? ==> incoming.value.size <= |incoming.value.src|
      modifies this`receivedFrame, this`trace
      ensures Valid()
      ensures receivedFrame == None
      ensures var t := TaskRecv(old(receivedFrame), incoming);
        trace == old(trace) + [TudTask] + t.events + Drain(t.slot, inputOk).events
    {
      trace := trace + [TudTask];
      if incoming.Some? {
        var _ := RecvCb(incoming.value.src, incoming.value.size, incoming.value.alloc);
      }
      ServiceTraffic(inputOk);
    }

    /** `usb_network_deinit`: tear down TinyUSB. */
    method Deinit()
      requires Valid()
      modifies this`trace
      ensures Valid()
      ensures trace == old(trace) + [TudDeinit]
    {
      trace := trace + [TudDeinit];
    }
  }

  /** The journal `Bridge.Update` appends keeps the ownership ledger:
      `tud_task` touches no buffer, and the receive and service steps keep
      the ledger on their own. */
  lemma UpdateKeepsLedger(trace: seq<Event>, slot: Option<Pbuf>, incoming: Option<Incoming>, inputOk: bool)
    requires incoming.Some? ==> incoming.value.size <= |incoming.value.src|
    requires Ledger(trace, slot)
    ensures var t := TaskRecv(slot, incoming);
      Ledger(trace + [TudTask] + t.events + Drain(t.slot, inputOk).events, None)
  {
    NeutralKeepsLedger(trace, slot, [TudTask]);
    var t := TaskRecv(slot, incoming);
    match incoming {
      case None =>
        assert trace + [TudTask] + t.events == trace + [TudTask];
      case Some(i) =>
        OfferKeepsLedger(trace + [TudTask], slot, i.src, i.size, i.alloc);
    }
    DrainKeepsLedger(trace + [TudTask] + t.events, t.slot, inputOk);
  }

  /** End to end: a 64-byte frame arrives and is kept, a second frame before
      the next update is refused, and the update delivers the 64 bytes to
      the IP stack exactly once and empties the slot. */
  method SixtyFourByteExchange(frame: seq<byte>, second: seq<byte>, inputOk: bool)
    returns (firstAccepted: bool, secondAccepted: bool, delivered: seq<Pbuf>)
    requires |frame| == 64 && |second| == 64
    ensures firstAccepted && !secondAccepted
    ensures delivered == [Pbuf(1, frame)] && delivered[0].TotLen() == 64
  {
    var bridge := new Bridge();
    assert frame[..64] == frame;
    firstAccepted := bridge.RecvCb(frame, 64, Some(1));
    secondAccepted := bridge.RecvCb(second, 64, Some(2));
    var before := bridge.trace;
    bridge.Update(None, inputOk);
    var drained := Drain(Some(Pbuf(1, frame)), inputOk).events;
    assert bridge.trace[|before|..] == [TudTask] + drained;
    DrainDeliversHeld(Some(Pbuf(1, frame)), inputOk);
    DeliveredAppend([TudTask], drained);
    assert [TudTask][1..] == [];
    delivered := Delivered(bridge.trace[|before|..]);
  }
}
