/** The 10-byte tag header of section 3.1 of ID3v2.3.0 (header.c):
    "ID3", major and minor version, flags, sync-safe tag size, and the
    optional sync-safe extended-header size that follows it. */
module HeaderCodec {
  import opened Wrappers
  import opened Utils

  const ID3_HEADER: nat := 10
  const ID3_EXTENDED_HEADER_SIZE: nat := 4
  const FLAG_UNSYNCHRONISATION: byte := 0x80
  const FLAG_EXTENDED_HEADER: byte := 0x40

  /** The magic "ID3". */
  const ID3_TAG: seq<byte> := [0x49, 0x44, 0x33]

  /** ID3v2_header.  `unsynchronised` is false unless the flag is set, as in
      the zeroed allocation of new_header. */
  datatype Header = Header(
    tag: seq<byte>,
    majorVersion: byte,
    minorVersion: byte,
    flags: byte,
    tagSize: nat,
    unsynchronised: bool,
    extendedHeaderSize: nat)

  /** `flags & mask` is non-zero. */
  predicate HasFlag(flags: byte, mask: byte)
  {
    (flags as bv8) & (mask as bv8) != 0
  }

  predicate HasId3v2Tag(raw: seq<byte>)
    requires |raw| >= 3
  {
    raw[..3] == ID3_TAG
  }

  /** get_tag_header_with_buffer.  The C reads the extended-header size from
      bytes 10..14 although it only checks for 10 bytes; here a buffer too short
      for that field gives no header. */
  function GetTagHeaderWithBuffer(buffer: seq<byte>): (r: Option<Header>)
    ensures r.Some? <==>
      && |buffer| >= ID3_HEADER
      && buffer[..3] == ID3_TAG
      && (HasFlag(buffer[5], FLAG_EXTENDED_HEADER) ==> |buffer| >= ID3_HEADER + ID3_EXTENDED_HEADER_SIZE)
    ensures r.Some? ==>
      && r.value.tag == ID3_TAG
      && r.value.majorVersion == buffer[3]
      && r.value.minorVersion == buffer[4]
      && r.value.flags == buffer[5]
      && r.value.tagSize == SyncSafeDecode(buffer[6..10])
      && r.value.tagSize < 0x1000_0000
      && (r.value.unsynchronised <==> HasFlag(buffer[5], FLAG_UNSYNCHRONISATION))
      && r.value.extendedHeaderSize < 0x1000_0000
      && r.value.extendedHeaderSize ==
           if HasFlag(buffer[5], FLAG_EXTENDED_HEADER) then SyncSafeDecode(buffer[10..14]) else 0
  {
    if |buffer| < ID3_HEADER then None
    else if !HasId3v2Tag(buffer) then None
    else
      var flags := buffer[5];
      if HasFlag(flags, FLAG_EXTENDED_HEADER) && |buffer| < ID3_HEADER + ID3_EXTENDED_HEADER_SIZE then None
      else
        Some(Header(
          buffer[..3],
          buffer[3],
          buffer[4],
          flags,
          SyncSafeDecode(buffer[6..10]),
          HasFlag(flags, FLAG_UNSYNCHRONISATION),
          if HasFlag(flags, FLAG_EXTENDED_HEADER) then SyncSafeDecode(buffer[10..14]) else 0))
  }

  /** The header of an ID3v2.3.0 tag with no flags and size bytes 00 00 01 7F
      declares 255 bytes: 1 * 128 + 127. */
  lemma HeaderExample255()
    ensures GetTagHeaderWithBuffer([0x49, 0x44, 0x33, 3, 0, 0, 0, 0, 1, 0x7F])
         == Some(Header(ID3_TAG, 3, 0, 0, 255, false, 0))
  {
  }

  /** Size bytes 00 00 00 7F declare 127 bytes. */
  lemma HeaderExample127()
    ensures GetTagHeaderWithBuffer([0x49, 0x44, 0x33, 3, 0, 0, 0, 0, 0, 0x7F])
         == Some(Header(ID3_TAG, 3, 0, 0, 127, false, 0))
  {
  }

  /** get_tag_version: only major versions 3 and 4 are compatible; None stands
      for NO_COMPATIBLE_TAG. */
  function GetTagVersion(h: Header): (r: Option<Version>)
    ensures r == Some(V23) <==> h.majorVersion == 3
    ensures r == Some(V24) <==> h.majorVersion == 4
    ensures r != Some(V22)
  {
    match h.majorVersion
    case 3 => Some(V23)
    case 4 => Some(V24)
    case _ => None
  }

  /** get_tag_orig_version (utils.c, not part of this model): like
      get_tag_version, but major version 2 is accepted too, since the frame
      parser has a v2.2 branch. */
  function GetTagOrigVersion(h: Header): (r: Option<Version>)
    ensures r.Some? <==> 2 <= h.majorVersion <= 4
    ensures h.majorVersion == 2 <==> r == Some(V22)
  {
    match h.majorVersion
    case 2 => Some(V22)
    case 3 => Some(V23)
    case 4 => Some(V24)
    case _ => None
  }

  /** The two version maps agree on every header except one of major version 2. */
  lemma OrigVersionExtendsTagVersion(h: Header)
    ensures h.majorVersion != 2 ==> GetTagOrigVersion(h) == GetTagVersion(h)
    ensures h.majorVersion == 2 ==> GetTagVersion(h).None? && GetTagOrigVersion(h) == Some(V22)
  {
  }
}
