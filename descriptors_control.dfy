/**
 * The active USB descriptors of the stack and the string-descriptor encoder.
 *
 * A string descriptor (section 9.6.7 of the USB 2.0 specification) is sent as
 * 16-bit words: the first word holds bLength (the descriptor's size in bytes,
 * header included) in its low byte and bDescriptorType 3 in its high byte; the
 * words after it are the UTF-16 code units. Descriptor 0 carries the language
 * ID instead. The encoder widens each byte of a C string to one code unit and
 * keeps at most 31 of them, the room left in a 32-word buffer.
 */
module DescriptorsControl {
  import opened Common

  const MAX_DESC_BUF_SIZE: nat := 32
  /** bDescriptorType of a string descriptor (table 9-5 of the USB 2.0 specification). */
  const TUSB_DESC_STRING: nat := 3

  /** `tusb_desc_device_t`: the standard device descriptor (section 9.6.1 of the USB 2.0 specification). */
  datatype DeviceDescriptor = DeviceDescriptor(
    bLength: byte,
    bDescriptorType: byte,
    bcdUSB: uint16,
    bDeviceClass: byte,
    bDeviceSubClass: byte,
    bDeviceProtocol: byte,
    bMaxPacketSize0: byte,
    idVendor: uint16,
    idProduct: uint16,
    bcdDevice: uint16,
    iManufacturer: byte,
    iProduct: byte,
    iSerialNumber: byte,
    bNumConfigurations: byte)

  /** The descriptor after `memset(&s_descriptor, 0, ...)`. */
  const ZERO_DESCRIPTOR := DeviceDescriptor(0, 0, 0, 0, 0, 0, 0, 0, 0, 0, 0, 0, 0, 0)

  /** One `char *` of the string table: NULL, or the bytes readable from the pointer on. */
  datatype StrEntry = Null | Str(mem: seq<byte>)

  /** `strlen`: the number of bytes before the first NUL. */
  function CLength(mem: seq<byte>): (r: nat)
    requires 0 in mem
    ensures r < |mem| && mem[r] == 0
    ensures forall i :: 0 <= i < r ==> mem[i] != 0
  {
    if mem[0] == 0 then 0 else 1 + CLength(mem[1..])
  }

  /** `chr_count`: the `uint8_t` truncation of the length, capped at 31. */
  function CharCount(mem: seq<byte>): (r: nat)
    requires 0 in mem
    ensures r <= MAX_DESC_BUF_SIZE - 1 && r <= CLength(mem) % 0x100 <= CLength(mem)
    ensures r == CLength(mem) % 0x100 || r == MAX_DESC_BUF_SIZE - 1
  {
    var c := CLength(mem) % 0x100;
    if c > MAX_DESC_BUF_SIZE - 1 then MAX_DESC_BUF_SIZE - 1 else c
  }

  /** A `char` converted to a 16-bit code unit. */
  function Widen(s: seq<byte>): (r: seq<uint16>)
    ensures |r| == |s| && forall i :: 0 <= i < |s| ==> r[i] == s[i]
  {
    seq(|s|, i requires 0 <= i < |s| => s[i] as uint16)
  }

  /** The header word for `count` characters: type in the high byte, size in bytes in the low byte. */
  function Header(count: nat): (r: uint16)
    requires count <= MAX_DESC_BUF_SIZE - 1
  {
    TUSB_DESC_STRING * 0x100 + (2 * count + 2)
  }

  /** The word `memcpy` makes of two bytes on a little-endian core. */
  function LeWord(lo: byte, hi: byte): (r: uint16)
    ensures r % 0x100 == lo && r / 0x100 == hi
  {
    lo as int + 0x100 * hi as int
  }

  /** What `tud_descriptor_string_cb` reads: entry 0 has two bytes, the others are C strings. */
  predicate StringPre(table: seq<StrEntry>, index: byte) {
    && (index == 0 ==> |table| >= 1 && table[0].Str? && |table[0].mem| >= 2)
    && (0 < index < |table| ==> table[index].Str? && 0 in table[index].mem)
  }

  /** The descriptor `tud_descriptor_string_cb` returns for `index`, or None for NULL. */
  function StringDescriptor(table: seq<StrEntry>, index: byte): (r: Option<seq<uint16>>)
    requires StringPre(table, index)
    ensures r.None? <==> index != 0 && index >= |table|
    ensures r.Some? ==> 1 <= |r.value| <= MAX_DESC_BUF_SIZE
  {
    if index == 0 then
      var lang := table[0].mem;
      Some([Header(1), LeWord(lang[0], lang[1])])
    else if index >= |table| then None
    else
      var str := table[index].mem;
      var n := CharCount(str);
      Some([Header(n)] + Widen(str[..n]))
  }

  /**
   * A host-side reading of a string descriptor: check the type byte and an
   * even bLength of at least 2 that the words cover, and return the code units.
   */
  function ParseString(words: seq<uint16>): (r: Option<seq<uint16>>)
    ensures r.Some? ==> |r.value| < |words|
  {
    if |words| == 0 then None
    else
      var len := words[0] % 0x100;
      if words[0] / 0x100 != TUSB_DESC_STRING || len % 2 != 0 || len < 2 || len > 2 * |words| then None
      else Some(words[1..len / 2])
  }

  // ---------------------------------------------------------------------------
  // Properties of the encoding
  // ---------------------------------------------------------------------------

  /** The header's low byte is an even size of at most 64 bytes and its high byte is 3. */
  lemma HeaderFields(count: nat)
    requires count <= MAX_DESC_BUF_SIZE - 1
    ensures Header(count) / 0x100 == TUSB_DESC_STRING
    ensures Header(count) % 0x100 == 2 * count + 2
    ensures (Header(count) % 0x100) % 2 == 0 && Header(count) % 0x100 <= 2 * MAX_DESC_BUF_SIZE
  {
  }

  /** Every descriptor the encoder returns declares exactly its own size in bytes, and its type. */
  lemma DescriptorSelfDescribing(table: seq<StrEntry>, index: byte)
    requires StringPre(table, index) && StringDescriptor(table, index).Some?
    ensures var d := StringDescriptor(table, index).value;
      d[0] / 0x100 == TUSB_DESC_STRING && d[0] % 0x100 == 2 * |d| && d[0] % 0x100 <= 2 * MAX_DESC_BUF_SIZE
  {
    var d := StringDescriptor(table, index).value;
    HeaderFields(|d| - 1);
  }

  /**
   * Parsing an encoded descriptor gets back what was encoded: the language ID
   * for index 0, otherwise the string's first `CharCount` bytes, widened.
   */
  lemma ParseEncoded(table: seq<StrEntry>, index: byte)
    requires StringPre(table, index) && (index == 0 || index < |table|)
    ensures index == 0 ==>
              ParseString(StringDescriptor(table, 0).value) == Some([LeWord(table[0].mem[0], table[0].mem[1])])
    ensures index != 0 ==>
              var str := table[index].mem;
              ParseString(StringDescriptor(table, index).value) == Some(Widen(str[..CharCount(str)]))
  {
    var d := StringDescriptor(table, index).value;
    HeaderFields(|d| - 1);
    assert d[1..|d|] == d[1..];
  }

  /** A string of at most 31 bytes is sent whole. */
  lemma ShortStringWhole(table: seq<StrEntry>, index: byte)
    requires StringPre(table, index) && 0 < index < |table| && CLength(table[index].mem) <= MAX_DESC_BUF_SIZE - 1
    ensures var str := table[index].mem;
      ParseString(StringDescriptor(table, index).value) == Some(Widen(str[..CLength(str)]))
  {
    ParseEncoded(table, index);
  }

  /**
   * Because `chr_count` is a `uint8_t`, a 256-byte string is sent as an empty
   * descriptor (bLength 2), not cut to its first 31 bytes.
   */
  lemma WrappedLengthDropsString(table: seq<StrEntry>, index: byte)
    requires StringPre(table, index) && 0 < index < |table| && CLength(table[index].mem) == 0x100
    ensures StringDescriptor(table, index) == Some([Header(0)])
    ensures Header(0) == 0x0302
  {
    var str := table[index].mem;
    assert CharCount(str) == 0;
    assert [Header(0)] + Widen(str[..0]) == [Header(0)];
  }

  // ---------------------------------------------------------------------------
  // The stack's descriptor state
  // ---------------------------------------------------------------------------

  class DescriptorControl {
    /** USB_STRING_DESCRIPTOR_ARRAY_SIZE, the number of `s_str_descriptor` entries. */
    const tableSize: nat
    /** `_desc_str`, the buffer the encoder fills and returns. */
    const descStr: array<uint16>
    var descriptor: DeviceDescriptor     // s_descriptor
    var strTable: seq<StrEntry>          // s_str_descriptor
    var descSet: bool                    // tusb_desc_set

    ghost predicate Valid()
      reads this
    {
      descStr.Length == MAX_DESC_BUF_SIZE && |strTable| == tableSize
    }

    /** The statics before any call: everything zero. */
    constructor (size: nat)
      ensures Valid() && fresh(descStr) && tableSize == size
      ensures descriptor == ZERO_DESCRIPTOR && strTable == seq(size, _ => Null) && !descSet
      ensures descStr[..] == seq(MAX_DESC_BUF_SIZE, _ => 0)
    {
      tableSize := size;
      descStr := new uint16[MAX_DESC_BUF_SIZE](_ => 0);
      descriptor := ZERO_DESCRIPTOR;
      strTable := seq(size, _ => Null);
      descSet := false;
    }

    /**
     * `tud_descriptor_string_cb`: `found` is false for the NULL return. When a
     * descriptor is returned, `_desc_str` starts with it and its later words
     * are as they were; otherwise `_desc_str` is untouched.
     */
    method StringCallback(index: byte, langid: uint16) returns (found: bool)
      requires Valid() && StringPre(strTable, index)
      modifies descStr
      ensures found <==> StringDescriptor(strTable, index).Some?
      ensures found ==>
                var d := StringDescriptor(strTable, index).value;
                descStr[..|d|] == d && descStr[|d|..] == old(descStr[|d|..])
      ensures !found ==> descStr[..] == old(descStr[..])
    {
      ghost var before := descStr[..];
      var count: nat;
      ghost var body: seq<uint16>;
      if index == 0 {
        var lang := strTable[0].mem;
        descStr[1] := LeWord(lang[0], lang[1]);   // memcpy of two bytes
        count := 1;
        body := [LeWord(lang[0], lang[1])];
      } else {
        if index >= tableSize {
          return false;
        }
        var str := strTable[index].mem;
        count := CLength(str) % 0x100;
        if count > MAX_DESC_BUF_SIZE - 1 {
          count := MAX_DESC_BUF_SIZE - 1;
        }
        var i := 0;
        while i < count
          invariant 0 <= i <= count
          invariant descStr[1..1 + i] == Widen(str[..i])
          invariant descStr[1 + count..] == before[1 + count..]
          invariant descStr[0] == before[0]
        {
          descStr[1 + i] := str[i] as uint16;
          i := i + 1;
        }
        body := Widen(str[..count]);
      }
      assert descStr[1..1 + count] == body && descStr[1 + count..] == before[1 + count..];
      descStr[0] := Header(count);
      assert descStr[..1 + count] == [Header(count)] + body;
      assert StringDescriptor(strTable, index).value == [Header(count)] + body;
      found := true;
    }

    /**
     * `tusb_set_descriptor`: stores a copy of the device descriptor and, when
     * one is given, of the string table's pointers; marks the descriptors set.
     */
    method SetDescriptor(desc: DeviceDescriptor, strDesc: Option<seq<StrEntry>>)
      requires Valid() && (strDesc.Some? ==> |strDesc.value| == tableSize)
      modifies this
      ensures Valid() && descSet && descriptor == desc
      ensures strTable == if strDesc.Some? then strDesc.value else old(strTable)
    {
      descriptor := desc;
      if strDesc.Some? {
        strTable := strDesc.value;
      }
      descSet := true;
    }

    /** `tusb_get_active_desc`. */
    method GetActiveDesc() returns (d: DeviceDescriptor)
      ensures d == descriptor
    {
      d := descriptor;
    }

    /** `tusb_get_active_str_desc`. */
    method GetActiveStrDesc() returns (t: seq<StrEntry>)
      ensures t == strTable
    {
      t := strTable;
    }

    /** `tusb_clear_descriptor`: the descriptor and every table entry zeroed, the flag cleared. */
    method ClearDescriptor()
      requires Valid()
      modifies this
      ensures Valid() && !descSet && descriptor == ZERO_DESCRIPTOR
      ensures forall i :: 0 <= i < tableSize ==> strTable[i] == Null
    {
      descriptor := ZERO_DESCRIPTOR;
      strTable := seq(tableSize, _ => Null);
      descSet := false;
    }
  }
}
