/**
 * The RAM disk served to the host below block 50: a 50-block FAT12 volume
 * (boot sector, one FAT, a root directory with a volume label and README.TXT,
 * the README contents) and the startup patch that writes the real partition
 * capacity into the boot sector's 16-bit total-sectors field (BPB_TotSec16 at
 * byte offset 19, section 3.1 of Microsoft's FAT specification).
 */
module FatImage {
  import opened Common

  const DISK_BLOCK_NUM: nat := 50
  const DISK_BLOCK_SIZE: nat := 512
  const DISK_BYTES: nat := 25600   // DISK_BLOCK_NUM * DISK_BLOCK_SIZE

  /** Byte offset of BPB_TotSec16 in the boot sector. */
  const TOT_SEC16_OFFSET: nat := 19

  /** The two-byte boot-sector signature at offsets 510-511. */
  const SIGNATURE_LO: byte := 0x55
  const SIGNATURE_HI: byte := 0xAA

  /** ASCII text as the bytes a C string literal stores (every character used here is below 0x80). */
  function Ascii(s: string): (r: seq<byte>)
    ensures |r| == |s|
  {
    seq(|s|, i requires 0 <= i < |s| => (s[i] as int) % 0x100)
  }

  /** README_CONTENTS, with the macro's line splices joined. */
  const README_TEXT: string :=
    "This is tinyusb's MassStorage Class demo.\r\n\r\nIf you find any bugs or get any questions, feel free to file an\r\nissue at github.com/hathach/tinyusb11"

  /** The volume label, also the boot sector's BS_VolLab. */
  const VOLUME_LABEL: string := "ESP32S2 MSC"

  /** The 8.3 name of the one file. */
  const README_NAME: string := "README  TXT"

  function ReadmeContents(): (r: seq<byte>)
    ensures |r| == 147
  {
    Ascii(README_TEXT)
  }

  /** The first 64 bytes of the boot sector: jump, OEM name, BPB and extended BPB. */
  function BootSectorHeader(): (r: seq<byte>)
    ensures |r| == 64
  {
    [0xEB, 0x3C, 0x90, 0x4D, 0x53, 0x44, 0x4F, 0x53, 0x35, 0x2E, 0x30, 0x00, 0x02, 0x01, 0x01, 0x00,
     0x01, 0x10, 0x00, 0x10, 0x00, 0xF8, 0x01, 0x00, 0x01, 0x00, 0x01, 0x00, 0x00, 0x00, 0x00, 0x00,
     0x00, 0x00, 0x00, 0x00, 0x80, 0x00, 0x29, 0x34, 0x12, 0x00, 0x00] + Ascii(VOLUME_LABEL) +
    [0x46, 0x41, 0x54, 0x31, 0x32, 0x20, 0x20, 0x20, 0x00, 0x00]
  }

  /** Block 0: the boot sector, zero-filled up to the signature. */
  function BootSector(): (r: seq<byte>)
    ensures |r| == DISK_BLOCK_SIZE
    ensures r[..64] == BootSectorHeader()
    ensures r[11] == 0x00 && r[12] == 0x02          // BPB_BytsPerSec = 512
    ensures r[510] == SIGNATURE_LO && r[511] == SIGNATURE_HI
  {
    BootSectorHeader() + Zeros(446) + [SIGNATURE_LO, SIGNATURE_HI]
  }

  /** Block 1: the FAT. Entries 0 and 1 are reserved, entry 2 ends README.TXT's chain. */
  function FatTable(): (r: seq<byte>)
    ensures |r| == DISK_BLOCK_SIZE
  {
    [0xF8, 0xFF, 0xFF, 0xFF, 0x0F] + Zeros(507)
  }

  /** Block 2: the root directory, a volume-label entry and the README.TXT entry. */
  function RootDirectory(): (r: seq<byte>)
    ensures |r| == DISK_BLOCK_SIZE
    ensures r[..11] == Ascii(VOLUME_LABEL) && r[11] == 0x08         // DIR_Attr = ATTR_VOLUME_ID
    ensures r[32..43] == Ascii(README_NAME) && r[43] == 0x20        // DIR_Attr = ATTR_ARCHIVE
    ensures r[58] == 2 && r[59] == 0                                // DIR_FstClusLO = 2
    ensures r[60..64] == [|ReadmeContents()| as byte, 0, 0, 0]      // DIR_FileSize, little-endian
    ensures forall i :: 64 <= i < DISK_BLOCK_SIZE ==> r[i] == 0
  {
    var readmeSize := 147;   // |ReadmeContents()|
    // first entry: the volume label
    Ascii(VOLUME_LABEL) +
    [0x08, 0x00, 0x00, 0x00, 0x00,
     0x00, 0x00, 0x00, 0x00, 0x00, 0x00, 0x4F, 0x6D, 0x65, 0x43, 0x00, 0x00, 0x00, 0x00, 0x00, 0x00] +
    // second entry: README.TXT, first cluster 2, size in the last four bytes
    Ascii(README_NAME) +
    [0x20, 0x00, 0xC6, 0x52, 0x6D,
     0x65, 0x43, 0x65, 0x43, 0x00, 0x00, 0x88, 0x6D, 0x65, 0x43, 0x02, 0x00,
     readmeSize, 0x00, 0x00, 0x00]
    + Zeros(448)
  }

  /** Block 3: the README text, zero-filled (the literal's terminator included). */
  function ReadmeBlock(): (r: seq<byte>)
    ensures |r| == DISK_BLOCK_SIZE
    ensures r[..|ReadmeContents()|] == ReadmeContents()
    ensures forall i :: |ReadmeContents()| <= i < DISK_BLOCK_SIZE ==> r[i] == 0
  {
    ReadmeContents() + Zeros(DISK_BLOCK_SIZE - 147)
  }

  /** The compile-time template `_msc_disk[50][512]`, flattened. */
  function Template(): (r: seq<byte>)
    ensures |r| == DISK_BYTES
    ensures r[..DISK_BLOCK_SIZE] == BootSector()
    ensures r[510] == SIGNATURE_LO && r[511] == SIGNATURE_HI
  {
    BootSector() + FatTable() + RootDirectory() + ReadmeBlock() + Zeros(46 * DISK_BLOCK_SIZE)
  }

  /** Little-endian 16-bit field of `image` at byte offset `at`. */
  function Le16(image: seq<byte>, at: nat): (r: uint16)
    requires at + 2 <= |image|
  {
    image[at] as int + 0x100 * image[at + 1] as int
  }

  /** The block count the host is told about for a partition of `size` bytes. */
  function BlockCount(size: uint32): (r: uint32)
    ensures r * DISK_BLOCK_SIZE <= size < (r + 1) * DISK_BLOCK_SIZE
  {
    size / DISK_BLOCK_SIZE
  }

  /**
   * The RAM disk after startup: a copy of the template whose bytes 20 and 19
   * receive the two `uint8_t` truncations of the block count.
   */
  function Patched(size: uint32): (r: seq<byte>)
    ensures |r| == DISK_BYTES
    ensures r[TOT_SEC16_OFFSET] == BlockCount(size) % 0x100
    ensures r[TOT_SEC16_OFFSET + 1] == (BlockCount(size) / 0x100) % 0x100
    ensures forall i :: 0 <= i < DISK_BYTES && i != TOT_SEC16_OFFSET && i != TOT_SEC16_OFFSET + 1 ==>
              r[i] == Template()[i]
    ensures r[510] == SIGNATURE_LO && r[511] == SIGNATURE_HI
  {
    var count := BlockCount(size);
    Template()[TOT_SEC16_OFFSET + 1 := (count / 0x100) % 0x100][TOT_SEC16_OFFSET := count % 0x100]
  }

  /** Splitting a number into its low byte and the low byte of the rest is the 16-bit truncation. */
  lemma LowBytes(x: nat)
    ensures x % 0x100 + 0x100 * ((x / 0x100) % 0x100) == x % 0x1_0000
  {
    var q := x / 0x1_0000;
    var m := x % 0x1_0000;
    assert x == 0x1_0000 * q + m;
    assert x / 0x100 == 0x100 * q + m / 0x100;
    assert (x / 0x100) % 0x100 == (m / 0x100) % 0x100;
    assert x % 0x100 == m % 0x100;
  }

  /**
   * Read back as a little-endian 16-bit number, the patched BPB_TotSec16 is the
   * partition's block count truncated to 16 bits.
   */
  lemma PatchedTotSec16(size: uint32)
    ensures Le16(Patched(size), TOT_SEC16_OFFSET) == BlockCount(size) % 0x1_0000
    ensures BlockCount(size) < 0x1_0000 ==> Le16(Patched(size), TOT_SEC16_OFFSET) == BlockCount(size)
  {
    LowBytes(BlockCount(size));
  }
}
