/** The two Ethernet addresses of the virtual link: the one TinyUSB reports
    to the host (`tud_network_mac_address`) and the one lwIP uses for the
    on-device interface (`netif_usb.hwaddr`). Bit names follow IEEE 802:
    bit 0 of the first octet is the I/G (group) bit, bit 1 the U/L
    (locally administered) bit. */
module LinkAddress {
  import opened NetTypes

  /** Size of the Pico's unique board id. */
  const BoardIdSize: nat := 8
  /** Where the MAC starts inside the board id. */
  const MacOffset: nat := 2
  /** Size of an Ethernet address, `sizeof(tud_network_mac_address)`. */
  const MacLen: nat := 6
  /** lwIP's NETIF_MAX_HWADDR_LEN, the size of `netif.hwaddr`. */
  const NetifMaxHwaddrLen: nat := 6

  predicate IsUnicast(mac: seq<byte>)
    requires |mac| == MacLen
  {
    mac[0] & 0x01 == 0
  }

  predicate IsLocallyAdministered(mac: seq<byte>)
    requires |mac| == MacLen
  {
    mac[0] & 0x02 == 0x02
  }

  /** The host-facing address: six bytes of the board id starting at offset
      2, with the I/G bit cleared and the U/L bit set. */
  function HostMac(boardId: seq<byte>): (mac: seq<byte>)
    requires |boardId| == BoardIdSize
    ensures |mac| == MacLen
    ensures IsUnicast(mac) && IsLocallyAdministered(mac)
    ensures mac[0] & 0xFC == boardId[MacOffset] & 0xFC
    ensures mac[1..] == boardId[MacOffset + 1..MacOffset + MacLen]
  {
    var copy := boardId[MacOffset..MacOffset + MacLen];
    [(copy[0] & 0xFE) | 0x02] + copy[1..]
  }

  /** The interface address: the host-facing address with bit 0 of its last
      byte toggled. */
  function InterfaceMac(host: seq<byte>): (mac: seq<byte>)
    requires |host| == MacLen
    ensures |mac| == MacLen
    ensures mac[..MacLen - 1] == host[..MacLen - 1]
    ensures mac[MacLen - 1] & 0xFE == host[MacLen - 1] & 0xFE
    ensures mac[MacLen - 1] & 0x01 != host[MacLen - 1] & 0x01
    ensures mac != host
  {
    host[..MacLen - 1] + [host[MacLen - 1] ^ 0x01]
  }

  /** The interface address is itself a unicast, locally administered
      address, since the toggle does not reach the first octet. */
  lemma InterfaceMacKeepsAddressKind(boardId: seq<byte>)
    requires |boardId| == BoardIdSize
    ensures IsUnicast(InterfaceMac(HostMac(boardId)))
    ensures IsLocallyAdministered(InterfaceMac(HostMac(boardId)))
  {
  }

  /** Toggling twice gives the host address back: each address determines
      the other. */
  lemma InterfaceMacInvolution(host: seq<byte>)
    requires |host| == MacLen
    ensures InterfaceMac(InterfaceMac(host)) == host
  {
  }

  /** Two boards whose ids agree in the bytes copied and in all but the two
      fixed-up bits get the same address, and the derivation ignores the
      rest of the id. */
  lemma HostMacDependsOnSliceOnly(a: seq<byte>, b: seq<byte>)
    requires |a| == BoardIdSize && |b| == BoardIdSize
    requires a[MacOffset] & 0xFC == b[MacOffset] & 0xFC
    requires a[MacOffset + 1..MacOffset + MacLen] == b[MacOffset + 1..MacOffset + MacLen]
    ensures HostMac(a) == HostMac(b)
  {
  }
}
