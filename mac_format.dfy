/** The console rendering of the interface address in `usb_network_init`:
    each byte as two upper-case hexadecimal digits, high nibble first, into
    a 20-character buffer terminated by NUL. */
module MacFormat {
  import opened NetTypes
  import opened LinkAddress

  /** The digit table the formatter indexes. */
  const HexDigits: string := "0123456789ABCDEF"
  /** `sizeof(macString)`. */
  const MacStringSize: nat := 20

  function HighNibble(b: byte): (n: byte)
    ensures n < 16
  {
    (b >> 4) & 0xF
  }

  function LowNibble(b: byte): (n: byte)
    ensures n < 16
  {
    (b >> 0) & 0xF
  }

  /** The two digits printed for one byte. */
  function HexByte(b: byte): string
  {
    [HexDigits[HighNibble(b) as int], HexDigits[LowNibble(b) as int]]
  }

  /** The digits printed for a sequence of bytes, in order. */
  function HexString(bytes: seq<byte>): string
  {
    if bytes == [] then [] else HexByte(bytes[0]) + HexString(bytes[1..])
  }

  /** The value of an upper-case hexadecimal digit; lower case and every
      other character have none. */
  function DigitValue(c: char): (v: Option<byte>)
    ensures v.Some? ==> v.value < 16 && HexDigits[v.value as int] == c
  {
    if '0' <= c <= '9' then
      DecimalDigitInTable(c);
      SmallByte(c as int - '0' as int)
    else if 'A' <= c <= 'F' then
      LetterDigitInTable(c);
      SmallByte(c as int - 'A' as int + 10)
    else None
  }

  /** A value below 16 as a byte, with its numeric value unchanged. */
  function SmallByte(d: int): (v: Option<byte>)
    requires 0 <= d < 16
    ensures v.Some? && v.value < 16 && v.value as int == d
  {
    Some(d as byte)
  }

  lemma DecimalDigitInTable(c: char)
    requires '0' <= c <= '9'
    ensures HexDigits[c as int - '0' as int] == c
  {
  }

  lemma LetterDigitInTable(c: char)
    requires 'A' <= c <= 'F'
    ensures HexDigits[c as int - 'A' as int + 10] == c
  {
  }

  /** Reads back a string of digit pairs, the inverse of HexString. */
  function ParseHex(s: string): Option<seq<byte>>
  {
    if s == [] then Some([])
    else if |s| == 1 then None
    else match (DigitValue(s[0]), DigitValue(s[1]), ParseHex(s[2..]))
      case (Some(hi), Some(lo), Some(rest)) => Some([(hi << 4) | lo] + rest)
      case _ => None
  }

  predicate IsUpperHexDigit(c: char)
  {
    '0' <= c <= '9' || 'A' <= c <= 'F'
  }

  lemma DigitValueOfTable(n: byte)
    requires n < 16
    ensures DigitValue(HexDigits[n as int]) == Some(n)
    ensures IsUpperHexDigit(HexDigits[n as int])
  {
  }

  lemma NibblesRecombine(b: byte)
    ensures (HighNibble(b) << 4) | LowNibble(b) == b
  {
  }

  /** Every byte takes exactly two digits, high nibble first, and every digit
      is an upper-case hexadecimal one. */
  lemma {:induction false} HexStringShape(bytes: seq<byte>)
    ensures |HexString(bytes)| == 2 * |bytes|
    ensures forall k :: 0 <= k < |bytes| ==>
      HexString(bytes)[2 * k] == HexDigits[HighNibble(bytes[k]) as int] &&
      HexString(bytes)[2 * k + 1] == HexDigits[LowNibble(bytes[k]) as int]
    ensures forall k :: 0 <= k < |HexString(bytes)| ==> IsUpperHexDigit(HexString(bytes)[k])
  {
    if bytes != [] {
      HexStringShape(bytes[1..]);
      var s := HexString(bytes);
      assert s == HexByte(bytes[0]) + HexString(bytes[1..]);
      DigitValueOfTable(HighNibble(bytes[0]));
      DigitValueOfTable(LowNibble(bytes[0]));
      forall k | 0 <= k < |bytes|
        ensures s[2 * k] == HexDigits[HighNibble(bytes[k]) as int]
        ensures s[2 * k + 1] == HexDigits[LowNibble(bytes[k]) as int]
      {
        if k > 0 {
          assert s[2 * k] == HexString(bytes[1..])[2 * (k - 1)];
          assert s[2 * k + 1] == HexString(bytes[1..])[2 * (k - 1) + 1];
        }
      }
    }
  }

  /** Two digits read back as the byte whose nibbles they are. */
  lemma NibblesOfDigits(hi: byte, lo: byte)
    requires hi < 16 && lo < 16
    ensures HighNibble((hi << 4) | lo) == hi && LowNibble((hi << 4) | lo) == lo
  {
  }

  /** The rendering of one byte reads back as that byte. */
  lemma ParseHexByte(b: byte)
    ensures DigitValue(HexByte(b)[0]) == Some(HighNibble(b))
    ensures DigitValue(HexByte(b)[1]) == Some(LowNibble(b))
    ensures (HighNibble(b) << 4) | LowNibble(b) == b
  {
    DigitValueOfTable(HighNibble(b));
    DigitValueOfTable(LowNibble(b));
    NibblesRecombine(b);
  }

  /** Reading the rendering back yields the bytes rendered. */
  lemma {:induction false} ParseHexString(bytes: seq<byte>)
    ensures ParseHex(HexString(bytes)) == Some(bytes)
  {
    if bytes != [] {
      var b := bytes[0];
      var s := HexString(bytes);
      ParseHexString(bytes[1..]);
      ParseHexByte(b);
      assert s == HexByte(b) + HexString(bytes[1..]);
      assert s[0] == HexByte(b)[0] && s[1] == HexByte(b)[1];
      assert s[2..] == HexString(bytes[1..]);
      assert [b] + bytes[1..] == bytes;
    }
  }

  /** A string that reads back as some bytes is exactly their rendering:
      the rendering is the only upper-case spelling of an address. */
  lemma {:induction false} HexStringOfParse(s: string, bytes: seq<byte>)
    requires ParseHex(s) == Some(bytes)
    ensures HexString(bytes) == s
  {
    if s != [] {
      var hi, lo := DigitValue(s[0]).value, DigitValue(s[1]).value;
      var rest := ParseHex(s[2..]).value;
      HexStringOfParse(s[2..], rest);
      var b := (hi << 4) | lo;
      NibblesOfDigits(hi, lo);
      assert HexByte(b) == [s[0], s[1]];
      assert bytes == [b] + rest;
      assert HexString(bytes) == HexByte(b) + HexString(rest);
      assert s == [s[0], s[1]] + s[2..];
    }
  }

  /** Renders `hwaddr` into a fresh 20-character buffer with a running
      counter, then terminates it; returns the buffer and the final counter,
      which is also the index of the terminator. */
  method FormatMac(hwaddr: array<byte>) returns (macString: seq<char>, c: nat)
    requires hwaddr.Length == NetifMaxHwaddrLen
    ensures |macString| == MacStringSize
    ensures c == 2 * NetifMaxHwaddrLen && c < MacStringSize
    ensures macString[..c] == HexString(hwaddr[..])
    ensures macString[c] == '\0'
    ensures forall k :: 0 <= k < c ==> IsUpperHexDigit(macString[k])
  {
    var buffer := new char[MacStringSize];
    c := 0;
    var i := 0;
    while i < hwaddr.Length
      invariant 0 <= i <= hwaddr.Length
      invariant c == 2 * i
      invariant buffer[..c] == HexString(hwaddr[..i])
    {
      ghost var done := buffer[..c];
      buffer[c] := HexDigits[HighNibble(hwaddr[i]) as int];
      c := c + 1;
      buffer[c] := HexDigits[LowNibble(hwaddr[i]) as int];
      c := c + 1;
      assert buffer[..c] == done + HexByte(hwaddr[i]);
      HexAppend(hwaddr[..i], hwaddr[i]);
      assert hwaddr[..i + 1] == hwaddr[..i] + [hwaddr[i]];
      i := i + 1;
    }
    buffer[c] := '\0';
    macString := buffer[..];
    assert hwaddr[..i] == hwaddr[..];
    assert macString[..c] == buffer[..c];
    HexStringShape(hwaddr[..]);
  }

  lemma {:induction false} HexAppend(bytes: seq<byte>, b: byte)
    ensures HexString(bytes + [b]) == HexString(bytes) + HexByte(b)
  {
    if bytes != [] {
      assert (bytes + [b])[1..] == bytes[1..] + [b];
      HexAppend(bytes[1..], b);
    } else {
      assert HexString([b]) == HexByte(b) + HexString([]);
    }
  }
}
