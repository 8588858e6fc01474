/** The script image: a header with length and checksum, then the program. */
module FirmwareImage {
  import opened Bytes
  import opened Results
  import Crc

  const IMAGE_MAGIC: seq<byte> := [0x52, 0x53, 0x53, 0x56, 0x4d, 0x42, 0x43, 0]  // RSSVMBC
  const IMAGE_VERSION: u32 := 1
  const IMAGE_HEADER_LEN: nat := 20

  function ImageHeader(payloadLen: u32, crc: u32): (h: seq<byte>)
    ensures |h| == IMAGE_HEADER_LEN
  {
    IMAGE_MAGIC + LeU32(IMAGE_VERSION) + LeU32(payloadLen) + LeU32(crc)
  }

  function PayloadLen(h: seq<byte>): u32
    requires |h| == IMAGE_HEADER_LEN
  {
    ReadU32(h[12..16])
  }

  function PayloadCrc(h: seq<byte>): u32
    requires |h| == IMAGE_HEADER_LEN
  {
    ReadU32(h[16..20])
  }

  predicate HeaderValid(h: seq<byte>, partitionSize: nat)
    requires |h| == IMAGE_HEADER_LEN < partitionSize
  {
    h[..8] == IMAGE_MAGIC && ReadU32(h[8..12]) == IMAGE_VERSION &&
    PayloadLen(h) != 0 && PayloadLen(h) <= partitionSize - IMAGE_HEADER_LEN
  }

  /** `rustscript_load_partition` on the contents of the partition. */
  function Load(cells: seq<byte>): Option<seq<byte>>
  {
    if |cells| <= IMAGE_HEADER_LEN then None
    else
      var h := cells[..IMAGE_HEADER_LEN];
      if !HeaderValid(h, |cells|) then None
      else
        var payload := cells[IMAGE_HEADER_LEN..IMAGE_HEADER_LEN + PayloadLen(h)];
        if Crc.Checksum(payload) == PayloadCrc(h) then Some(payload) else None
  }

  lemma HeaderReadBack(payloadLen: u32, crc: u32)
    ensures var h := ImageHeader(payloadLen, crc);
            h[..8] == IMAGE_MAGIC && ReadU32(h[8..12]) == IMAGE_VERSION &&
            PayloadLen(h) == payloadLen && PayloadCrc(h) == crc
  {
    hide LeU32, ReadU32;
    var h := ImageHeader(payloadLen, crc);
    assert h[8..12] == LeU32(IMAGE_VERSION) && h[12..16] == LeU32(payloadLen) && h[16..20] == LeU32(crc);
    U32RoundTrip(IMAGE_VERSION); U32RoundTrip(payloadLen); U32RoundTrip(crc);
  }

  /** A partition that starts with a header and as many bytes as it announces: the checksum decides. */
  lemma LoadOfImage(payload: seq<byte>, crc: u32, rest: seq<byte>)
    requires 0 < |payload| < U32_SIZE
    ensures Load(ImageHeader(|payload|, crc) + payload + rest)
         == if Crc.Checksum(payload) == crc then Some(payload) else None
  {
    hide PayloadLen, PayloadCrc, ImageHeader, Crc.Checksum;
    var h := ImageHeader(|payload|, crc);
    var cells := h + payload + rest;
    HeaderReadBack(|payload|, crc);
    assert cells[..IMAGE_HEADER_LEN] == h;
    assert cells[IMAGE_HEADER_LEN..IMAGE_HEADER_LEN + |payload|] == payload;
  }

  // ----- the packer

  datatype PackError = PayloadEmpty | LengthField | ImageTooLarge(length: nat)

  /** `pack_vmbc`, whose checksum is that of the library with the table. */
  function PackVmbc(payload: seq<byte>, partitionSize: Option<nat>): (r: Result<seq<byte>, PackError>)
    ensures r.Ok? ==> |r.value| == IMAGE_HEADER_LEN + |payload|
    ensures r.Ok? <==> 0 < |payload| < U32_SIZE &&
                       (partitionSize.Some? ==> IMAGE_HEADER_LEN + |payload| <= partitionSize.value)
    ensures r.Err? ==> r.error == if payload == [] then PayloadEmpty
                                  else if |payload| >= U32_SIZE then LengthField
                                  else ImageTooLarge(IMAGE_HEADER_LEN + |payload|)
  {
    if payload == [] then Err(PayloadEmpty)
    else if |payload| >= U32_SIZE then Err(LengthField)
    else
      var image := ImageHeader(|payload|, Crc.TableCrc(payload) as int) + payload;
      if partitionSize.Some? && |image| > partitionSize.value then Err(ImageTooLarge(|image|))
      else Ok(image)
  }

  /** A packed image field by field, as the loader reads it. */
  lemma PackedFields(payload: seq<byte>, partitionSize: Option<nat>)
    requires PackVmbc(payload, partitionSize).Ok?
    ensures var image := PackVmbc(payload, partitionSize).value;
            |image| == 20 + |payload| && image[..8] == [0x52, 0x53, 0x53, 0x56, 0x4d, 0x42, 0x43, 0] &&
            ReadU32(image[8..12]) == 1 && ReadU32(image[12..16]) == |payload| &&
            ReadU32(image[16..20]) == Crc.Checksum(payload) && image[20..] == payload
  {
    hide ImageHeader, PayloadLen, PayloadCrc, Crc.TableCrc;
    Crc.TableAgrees(payload);
    ChecksumIs(payload);
    HeaderReadBack(|payload|, Crc.Checksum(payload));
    var image := PackVmbc(payload, partitionSize).value;
    var h := image[..IMAGE_HEADER_LEN];
    assert h == ImageHeader(|payload|, Crc.Checksum(payload));
    assert h[..8] == image[..8] && h[8..12] == image[8..12];
    assert h[12..16] == image[12..16] && h[16..20] == image[16..20];
    PayloadFields(h);
  }

  lemma PayloadFields(h: seq<byte>)
    requires |h| == IMAGE_HEADER_LEN
    ensures PayloadLen(h) == ReadU32(h[12..16]) && PayloadCrc(h) == ReadU32(h[16..20])
  {
  }

  lemma HeaderCanonical(h: seq<byte>)
    requires |h| == IMAGE_HEADER_LEN && h[..8] == IMAGE_MAGIC && ReadU32(h[8..12]) == IMAGE_VERSION
    ensures h == ImageHeader(PayloadLen(h), PayloadCrc(h))
  {
    hide LeU32, ReadU32;
    U32Canonical(h[8..12]); U32Canonical(h[12..16]); U32Canonical(h[16..20]);
    assert h == h[..8] + h[8..12] + h[12..16] + h[16..20];
  }

  /** The firmware loads a payload exactly when its packed image stands at the start of the partition and fits. */
  lemma LoadsIffPacked(cells: seq<byte>, payload: seq<byte>)
    ensures Load(cells) == Some(payload)
       <==> PackVmbc(payload, Some(|cells|)).Ok? && PackVmbc(payload, Some(|cells|)).value <= cells
  {
    hide ImageHeader, PayloadLen, PayloadCrc, Crc.Checksum, Crc.TableCrc;
    Crc.TableAgrees(payload);
    ChecksumIs(payload);
    if Load(cells) == Some(payload) {
      HeaderCanonical(cells[..IMAGE_HEADER_LEN]);
      assert cells[..IMAGE_HEADER_LEN] + payload == cells[..IMAGE_HEADER_LEN + |payload|];
    }
    if PackVmbc(payload, Some(|cells|)).Ok? && PackVmbc(payload, Some(|cells|)).value <= cells {
      var image := PackVmbc(payload, Some(|cells|)).value;
      LoadOfImage(payload, Crc.Checksum(payload), cells[|image|..]);
      assert cells == image + cells[|image|..];
    }
  }

  lemma ChecksumIs(payload: seq<byte>)
    ensures Crc.Checksum(payload) == Crc.Crc32(payload) as int
  {
  }
}
