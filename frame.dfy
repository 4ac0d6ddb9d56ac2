/** Frames (frame.c): the frame-header layouts of section 3.2 of ID3v2.2
    (3-byte ID, 3-byte size) and section 3.3 of ID3v2.3 (4-byte ID, 4-byte
    size, 2 flag bytes; the size is sync-safe under ID3v2.4), the fixed
    v2.2-to-v2.3 frame-ID table, and the decoders for text (section 4.2),
    comment (section 4.11) and attached-picture (section 4.15) payloads. */
module FrameCodec {
  import opened Wrappers
  import opened Utils

  const ID3_FRAME: nat := 10
  const ID3_FRAME_v22: nat := 6
  const ID3_FRAME_ID: nat := 4
  const ID3_FRAME_ID_v22: nat := 3
  const ID3_FRAME_SIZE: nat := 4
  const ID3_FRAME_SIZE_v22: nat := 3
  const ID3_FRAME_FLAGS: nat := 2
  const ID3_FRAME_ENCODING: nat := 1
  const ID3_FRAME_LANGUAGE: nat := 3
  const ID3_FRAME_SHORT_DESCRIPTION: nat := 1

  /** Text encodings, section 4 of the ID3v2.4.0 structure document. */
  const ID3_TEXT_ENCODING_ISO_8859_1: byte := 0
  const ID3_TEXT_ENCODING_UTF16_WITH_BOM: byte := 1
  const ID3_TEXT_ENCODING_UTF16BE_WITHOUT_BOM: byte := 2
  const ID3_TEXT_ENCODING_UTF8: byte := 3

  /** ID3v2_frame.  The C `size` field is the length of `data`, which is
      allocated with exactly that many bytes. */
  datatype Frame = Frame(id: seq<byte>, flags: seq<byte>, data: seq<byte>, version: Version)
  {
    function Size(): nat { |data| }
  }

  /** What an attempt to parse one frame at an offset gives: a frame; no frame
      (the ID check failed, which is how padding is detected, or a v2.2 ID has
      no translation); or a frame whose bytes run past the buffer, where the C
      would read beyond it. */
  datatype FrameParse = Parsed(frame: Frame) | NoFrame | Truncated

  /** ID3v2_frame_text_content; its `size` is the length of `data`. */
  datatype TextContent = TextContent(encoding: byte, data: seq<byte>)

  /** ID3v2_frame_comment_content.  The encoding is the one of `text`. */
  datatype CommentContent = CommentContent(language: seq<byte>, shortDescription: seq<byte>, text: TextContent)

  /** ID3v2_frame_apic_content; `picture_size` is the length of `data`.  The
      C keeps `description` as a pointer into the frame payload; here it is
      the bytes of that string, without its terminator. */
  datatype ApicContent = ApicContent(
    encoding: byte,
    mimeType: seq<byte>,
    pictureType: byte,
    description: seq<byte>,
    data: seq<byte>)

  // ---------------------------------------------------------------------
  // Frame IDs

  /** is_valid_frame_id_char: 'A'..'Z' or '0'..'9'. */
  predicate IsValidFrameIdChar(c: byte)
  {
    (0x41 <= c <= 0x5A) || (0x30 <= c <= 0x39)
  }

  predicate IsValidFrameId(id: seq<byte>)
  {
    forall i :: 0 <= i < |id| ==> IsValidFrameIdChar(id[i])
  }

  datatype IdCheck = IdValid | IdInvalid | IdTruncated

  /** The chain `!is_valid_frame_id_char(f[0]) || ...` over n ID bytes at
      offset.  The C evaluates it left to right and stops at the first invalid
      character, so an invalid character is found before any byte past the
      end of the buffer is needed; reaching the end first is IdTruncated. */
  function CheckFrameId(bytes: seq<byte>, offset: nat, n: nat): IdCheck
    decreases n
  {
    if n == 0 then
      if offset <= |bytes| then IdValid else IdTruncated
    else if offset >= |bytes| then IdTruncated
    else if !IsValidFrameIdChar(bytes[offset]) then IdInvalid
    else CheckFrameId(bytes, offset + 1, n - 1)
  }

  /** The ID check is valid exactly when all n ID bytes exist and are valid
      ID characters, invalid exactly when an existing one among them is not,
      and truncated only when the buffer ends, on valid characters, before
      the n-th ID byte. */
  lemma {:induction false} CheckFrameIdSpec(bytes: seq<byte>, offset: nat, n: nat)
    ensures var r := CheckFrameId(bytes, offset, n);
      && (r == IdValid <==> offset + n <= |bytes| && IsValidFrameId(bytes[offset..offset + n]))
      && (r == IdInvalid <==>
            exists i :: offset <= i < offset + n && i < |bytes| && !IsValidFrameIdChar(bytes[i]))
      && (r == IdTruncated ==>
            offset + n > |bytes| && forall i :: offset <= i < |bytes| ==> IsValidFrameIdChar(bytes[i]))
    decreases n
  {
    if n > 0 && offset < |bytes| && IsValidFrameIdChar(bytes[offset]) {
      CheckFrameIdSpec(bytes, offset + 1, n - 1);
      if offset + n <= |bytes| {
        assert bytes[offset..offset + n] == [bytes[offset]] + bytes[offset + 1..offset + n];
      }
    }
  }

  // ---------------------------------------------------------------------
  // The v2.2 to v2.3 frame-ID table of convert_v22_frame_id

  const V22_TABLE: seq<(seq<byte>, seq<byte>)> := [
    ([0x42, 0x55, 0x46], [0x52, 0x42, 0x55, 0x46]),  // BUF -> RBUF
    ([0x43, 0x4F, 0x4D], [0x43, 0x4F, 0x4D, 0x4D]),  // COM -> COMM
    ([0x50, 0x49, 0x43], [0x41, 0x50, 0x49, 0x43]),  // PIC -> APIC
    ([0x54, 0x41, 0x4C], [0x54, 0x41, 0x4C, 0x42]),  // TAL -> TALB
    ([0x54, 0x42, 0x50], [0x54, 0x42, 0x50, 0x4D]),  // TBP -> TBPM
    ([0x54, 0x43, 0x4D], [0x54, 0x43, 0x4F, 0x4D]),  // TCM -> TCOM
    ([0x54, 0x43, 0x4F], [0x54, 0x43, 0x4F, 0x4E]),  // TCO -> TCON
    ([0x54, 0x43, 0x52], [0x54, 0x43, 0x4F, 0x50]),  // TCR -> TCOP
    ([0x54, 0x44, 0x41], [0x54, 0x44, 0x41, 0x54]),  // TDA -> TDAT
    ([0x54, 0x44, 0x59], [0x54, 0x44, 0x4C, 0x59]),  // TDY -> TDLY
    ([0x54, 0x45, 0x4E], [0x54, 0x45, 0x4E, 0x43]),  // TEN -> TENC
    ([0x54, 0x46, 0x54], [0x54, 0x46, 0x4C, 0x54]),  // TFT -> TFLT
    ([0x54, 0x49, 0x4D], [0x54, 0x49, 0x4D, 0x45]),  // TIM -> TIME
    ([0x54, 0x4B, 0x45], [0x54, 0x4B, 0x45, 0x59]),  // TKE -> TKEY
    ([0x54, 0x4C, 0x41], [0x54, 0x4C, 0x41, 0x4E]),  // TLA -> TLAN
    ([0x54, 0x4C, 0x45], [0x54, 0x4C, 0x45, 0x4E]),  // TLE -> TLEN
    ([0x54, 0x4D, 0x54], [0x54, 0x4D, 0x45, 0x44]),  // TMT -> TMED
    ([0x54, 0x4F, 0x41], [0x54, 0x4F, 0x50, 0x45]),  // TOA -> TOPE
    ([0x54, 0x4F, 0x46], [0x54, 0x4F, 0x46, 0x4E]),  // TOF -> TOFN
    ([0x54, 0x4F, 0x4C], [0x54, 0x4F, 0x4C, 0x59]),  // TOL -> TOLY
    ([0x54, 0x4F, 0x52], [0x54, 0x4F, 0x52, 0x59]),  // TOR -> TORY
    ([0x54, 0x4F, 0x54], [0x54, 0x4F, 0x41, 0x4C]),  // TOT -> TOAL
    ([0x54, 0x50, 0x31], [0x54, 0x50, 0x45, 0x31]),  // TP1 -> TPE1
    ([0x54, 0x50, 0x32], [0x54, 0x50, 0x45, 0x32]),  // TP2 -> TPE2
    ([0x54, 0x50, 0x33], [0x54, 0x50, 0x45, 0x33]),  // TP3 -> TPE3
    ([0x54, 0x50, 0x34], [0x54, 0x50, 0x45, 0x34]),  // TP4 -> TPE4
    ([0x54, 0x50, 0x41], [0x54, 0x50, 0x4F, 0x53]),  // TPA -> TPOS
    ([0x54, 0x50, 0x42], [0x54, 0x50, 0x55, 0x42]),  // TPB -> TPUB
    ([0x54, 0x52, 0x43], [0x54, 0x53, 0x52, 0x43]),  // TRC -> TSRC
    ([0x54, 0x52, 0x44], [0x54, 0x52, 0x44, 0x41]),  // TRD -> TRDA
    ([0x54, 0x52, 0x4B], [0x54, 0x52, 0x43, 0x4B]),  // TRK -> TRCK
    ([0x54, 0x53, 0x49], [0x54, 0x53, 0x49, 0x5A]),  // TSI -> TSIZ
    ([0x54, 0x53, 0x53], [0x54, 0x53, 0x53, 0x45]),  // TSS -> TSSE
    ([0x54, 0x54, 0x31], [0x54, 0x49, 0x54, 0x31]),  // TT1 -> TIT1
    ([0x54, 0x54, 0x32], [0x54, 0x49, 0x54, 0x32]),  // TT2 -> TIT2
    ([0x54, 0x54, 0x33], [0x54, 0x49, 0x54, 0x33]),  // TT3 -> TIT3
    ([0x54, 0x58, 0x54], [0x54, 0x45, 0x58, 0x54]),  // TXT -> TEXT
    ([0x54, 0x58, 0x58], [0x54, 0x58, 0x58, 0x58]),  // TXX -> TXXX
    ([0x54, 0x59, 0x45], [0x54, 0x59, 0x45, 0x52])   // TYE -> TYER
  ]

  /** Every key is three valid ID characters and every value four. */
  lemma V22TableWellFormed()
    ensures |V22_TABLE| == 39
    ensures forall i :: 0 <= i < |V22_TABLE| ==>
      && |V22_TABLE[i].0| == 3 && IsValidFrameId(V22_TABLE[i].0)
      && |V22_TABLE[i].1| == 4 && IsValidFrameId(V22_TABLE[i].1)
  {
  }

  /** A 3-byte key as a number, to compare keys by. */
  function KeyValue(k: seq<byte>): int
    requires |k| == 3
  {
    (k[0] as int * 256 + k[1]) * 256 + k[2]
  }

  /** Each key of the table is above the one before it, as the table is
      laid out in the source. */
  lemma V22TableSorted()
    ensures forall i :: 0 < i < |V22_TABLE| ==> KeyValue(V22_TABLE[i - 1].0) < KeyValue(V22_TABLE[i].0)
  {
  }

  /** The keys are pairwise distinct, so the first match is the only match. */
  lemma V22TableKeysDistinct()
    ensures forall i, j :: 0 <= i < j < |V22_TABLE| ==> V22_TABLE[i].0 != V22_TABLE[j].0
  {
    V22TableWellFormed();
    V22TableSorted();
    forall i, j | 0 <= i < j < |V22_TABLE|
      ensures KeyValue(V22_TABLE[i].0) < KeyValue(V22_TABLE[j].0)
    {
      var k := i + 1;
      while k < j
        invariant i < k <= j
        invariant KeyValue(V22_TABLE[i].0) < KeyValue(V22_TABLE[k].0)
      {
        k := k + 1;
      }
    }
  }

  /** The first entry of the table whose key equals key, as the C loop finds it. */
  function LookupIn(table: seq<(seq<byte>, seq<byte>)>, key: seq<byte>): Option<seq<byte>>
  {
    if table == [] then None
    else if table[0].0 == key then Some(table[0].1)
    else LookupIn(table[1..], key)
  }

  /** The lookup fails exactly when no entry has the key, and what it finds
      is the value of an entry with the key. */
  lemma {:induction false} LookupInSpec(table: seq<(seq<byte>, seq<byte>)>, key: seq<byte>)
    ensures LookupIn(table, key).None? <==> forall k :: 0 <= k < |table| ==> table[k].0 != key
    ensures LookupIn(table, key).Some? ==> exists k :: 0 <= k < |table| && table[k] == (key, LookupIn(table, key).value)
  {
    if table != [] && table[0].0 != key {
      LookupInSpec(table[1..], key);
      var r := LookupIn(table[1..], key);
      if r.Some? {
        var k :| 0 <= k < |table[1..]| && table[1..][k] == (key, r.value);
        assert table[k + 1] == (key, r.value);
      } else {
        assert forall k :: 1 <= k < |table| ==> table[k] == table[1..][k - 1];
      }
    }
  }

  function LookupV22(key: seq<byte>): Option<seq<byte>>
  {
    LookupIn(V22_TABLE, key)
  }

  /** A v2.2 ID translates to v exactly when (key, v) is an entry of the
      table, and every translation is a valid four-character v2.3 ID. */
  lemma LookupV22Spec(key: seq<byte>, v: seq<byte>)
    ensures LookupV22(key) == Some(v) <==> (key, v) in V22_TABLE
    ensures LookupV22(key).Some? ==> |LookupV22(key).value| == 4 && IsValidFrameId(LookupV22(key).value)
  {
    LookupInSpec(V22_TABLE, key);
    V22TableWellFormed();
    V22TableKeysDistinct();
    if (key, v) in V22_TABLE {
      var k :| 0 <= k < |V22_TABLE| && V22_TABLE[k] == (key, v);
      var w := LookupV22(key).value;
      var k' :| 0 <= k' < |V22_TABLE| && V22_TABLE[k'] == (key, w);
      assert k == k';
    }
  }

  /** convert_v22_frame_id: 0 (None) unless length is 3 and some table key
      equals the three source bytes, compared case-sensitively; otherwise the
      value of the first matching entry. */
  method ConvertV22FrameId(src: seq<byte>, length: int) returns (r: Option<seq<byte>>)
    requires |src| >= 3
    ensures r == if length == 3 then LookupV22(src[..3]) else None
  {
    if length != 3 {
      return None;
    }
    var i := 0;
    while i < |V22_TABLE|
      invariant 0 <= i <= |V22_TABLE|
      invariant LookupIn(V22_TABLE[i..], src[..3]) == LookupV22(src[..3])
    {
      if V22_TABLE[i].0 == src[..3] {
        return Some(V22_TABLE[i].1);
      }
      assert V22_TABLE[i..][1..] == V22_TABLE[i + 1..];
      i := i + 1;
    }
    return None;
  }

  // ---------------------------------------------------------------------
  // Frame headers

  /** The frame-header length: 6 bytes under v2.2, 10 otherwise. */
  function FrameHeaderSize(version: Version): (r: nat)
    ensures r > 0
  {
    if version == V22 then ID3_FRAME_v22 else ID3_FRAME
  }

  /** The frame-ID length: 3 bytes under v2.2, 4 otherwise. */
  function FrameIdSize(version: Version): nat
  {
    if version == V22 then ID3_FRAME_ID_v22 else ID3_FRAME_ID
  }

  /** The 4-byte size field of a v2.3/v2.4 frame: plain big-endian under
      v2.3, sync-safe under v2.4. */
  function FrameSize3(field: seq<byte>, version: Version): nat
    requires |field| == 4
  {
    if version == V24 then SyncSafeDecode(field) else BigEndian(field)
  }

  /** parse_frame2 at offset. */
  function ParseFrame2(bytes: seq<byte>, offset: nat, version: Version): FrameParse
  {
    match CheckFrameId(bytes, offset, ID3_FRAME_ID_v22)
    case IdInvalid => NoFrame
    case IdTruncated => Truncated
    case IdValid =>
      match LookupV22(bytes[offset..offset + ID3_FRAME_ID_v22])
      case None => NoFrame
      case Some(id) =>
        if offset + ID3_FRAME_v22 > |bytes| then Truncated
        else
          var size := BigEndian(bytes[offset + ID3_FRAME_ID_v22..offset + ID3_FRAME_v22]);
          if offset + ID3_FRAME_v22 + size > |bytes| then Truncated
          else
            Parsed(Frame(id, [0, 0], bytes[offset + ID3_FRAME_v22..offset + ID3_FRAME_v22 + size], version))
  }

  /** parse_frame3 at offset. */
  function ParseFrame3(bytes: seq<byte>, offset: nat, version: Version): FrameParse
  {
    match CheckFrameId(bytes, offset, ID3_FRAME_ID)
    case IdInvalid => NoFrame
    case IdTruncated => Truncated
    case IdValid =>
      if offset + ID3_FRAME > |bytes| then Truncated
      else
        var size := FrameSize3(bytes[offset + ID3_FRAME_ID..offset + ID3_FRAME_ID + ID3_FRAME_SIZE], version);
        if offset + ID3_FRAME + size > |bytes| then Truncated
        else
          Parsed(Frame(
            bytes[offset..offset + ID3_FRAME_ID],
            bytes[offset + ID3_FRAME_ID + ID3_FRAME_SIZE..offset + ID3_FRAME],
            bytes[offset + ID3_FRAME..offset + ID3_FRAME + size],
            version))
  }

  /** parse_frame: the v2.2 layout for v2.2 tags, the v2.3 layout otherwise. */
  function ParseFrame(bytes: seq<byte>, offset: nat, version: Version): FrameParse
  {
    if version == V22 then ParseFrame2(bytes, offset, version) else ParseFrame3(bytes, offset, version)
  }

  /** A parsed frame has a 4-byte valid ID, read from ID bytes that are all
      valid ID characters, 2 flag bytes and the version it was parsed under. */
  lemma ParsedFrameShape(bytes: seq<byte>, offset: nat, version: Version)
    requires ParseFrame(bytes, offset, version).Parsed?
    ensures var f := ParseFrame(bytes, offset, version).frame;
      && offset + FrameIdSize(version) <= |bytes|
      && IsValidFrameId(bytes[offset..offset + FrameIdSize(version)])
      && |f.id| == 4 && IsValidFrameId(f.id)
      && |f.flags| == 2
      && f.version == version
  {
    CheckFrameIdSpec(bytes, offset, FrameIdSize(version));
    if version == V22 {
      var key := bytes[offset..offset + ID3_FRAME_ID_v22];
      LookupV22Spec(key, LookupV22(key).value);
    }
  }

  /** A byte outside 'A'-'Z'/'0'-'9' among the ID bytes, in particular a
      zero padding byte at the offset, means there is no frame there. */
  lemma InvalidIdMeansNoFrame(bytes: seq<byte>, offset: nat, version: Version, i: nat)
    requires offset <= i < offset + FrameIdSize(version) && i < |bytes|
    requires !IsValidFrameIdChar(bytes[i])
    ensures ParseFrame(bytes, offset, version) == NoFrame
  {
    CheckFrameIdSpec(bytes, offset, FrameIdSize(version));
  }

  /** The v2.3/v2.4 layout: the ID is bytes o..o+4, the size is the
      big-endian value of bytes o+4..o+8 (sync-safe-decoded exactly when the
      version is v2.4), the flags are bytes o+8..o+10 and the data the size
      bytes after them; a frame that does not fit is Truncated. */
  lemma ParseFrame3Layout(bytes: seq<byte>, o: nat, version: Version)
    requires version != V22
    requires o + ID3_FRAME <= |bytes| && IsValidFrameId(bytes[o..o + 4])
    ensures var field := bytes[o + 4..o + 8];
            var size := if version == V24 then SyncSafeDecode(field) else BigEndian(field);
            ParseFrame(bytes, o, version) ==
              if o + 10 + size <= |bytes|
              then Parsed(Frame(bytes[o..o + 4], bytes[o + 8..o + 10], bytes[o + 10..o + 10 + size], version))
              else Truncated
  {
    CheckFrameIdSpec(bytes, o, ID3_FRAME_ID);
  }

  /** The v2.2 layout: the ID is the translation of bytes o..o+3 (no
      translation, no frame), the size is the big-endian 24-bit value of
      bytes o+3..o+6, both flag bytes are zero and the data follows. */
  lemma ParseFrame2Layout(bytes: seq<byte>, o: nat)
    requires o + ID3_FRAME_v22 <= |bytes| && IsValidFrameId(bytes[o..o + 3])
    ensures var size := BigEndian(bytes[o + 3..o + 6]);
            ParseFrame(bytes, o, V22) ==
              match LookupV22(bytes[o..o + 3])
              case None => NoFrame
              case Some(id) =>
                if o + 6 + size <= |bytes|
                then Parsed(Frame(id, [0, 0], bytes[o + 6..o + 6 + size], V22))
                else Truncated
    ensures BigEndian(bytes[o + 3..o + 6]) < 0x100_0000
  {
    CheckFrameIdSpec(bytes, o, ID3_FRAME_ID_v22);
    BigEndianBound(bytes[o + 3..o + 6]);
    assert Pow256(3) == 0x100_0000;
  }

  // ---------------------------------------------------------------------
  // Text content

  /** bytes_per_char_for_encoding: 2 for the two UTF-16 encodings, else 1. */
  function BytesPerCharForEncoding(encoding: byte): (r: nat)
    ensures r == 1 || r == 2
    ensures r == 2 <==> encoding == ID3_TEXT_ENCODING_UTF16_WITH_BOM || encoding == ID3_TEXT_ENCODING_UTF16BE_WITHOUT_BOM
  {
    if encoding == ID3_TEXT_ENCODING_UTF16_WITH_BOM || encoding == ID3_TEXT_ENCODING_UTF16BE_WITHOUT_BOM then 2 else 1
  }

  /** Unit k of text, counted in units of bpc bytes from its start, is not
      zero.  The C reads a 2-byte unit through a uint16_t pointer; it is zero
      exactly when both of its bytes are, whatever the byte order. */
  predicate UnitNonZero(text: seq<byte>, bpc: nat, k: nat)
    requires bpc == 1 || bpc == 2
    requires (k + 1) * bpc <= |text|
  {
    if bpc == 2 then text[2 * k] != 0 || text[2 * k + 1] != 0 else text[k] != 0
  }

  /** `penultimate_char` of parse_text_frame_content: non-zero also when the
      text is too short to have a penultimate unit. */
  predicate PenultimateNonZero(text: seq<byte>, bpc: nat)
    requires bpc == 1 || bpc == 2
  {
    if |text| >= 2 * bpc + 1 then UnitNonZero(text, bpc, |text| / bpc - 2) else true
  }

  /** `last_char` of parse_text_frame_content. */
  predicate LastNonZero(text: seq<byte>, bpc: nat)
    requires bpc == 1 || bpc == 2
  {
    if |text| >= bpc + 1 then UnitNonZero(text, bpc, |text| / bpc - 1) else true
  }

  /** The text ends in two zero units: a string terminator and a list terminator. */
  predicate EndsWithTwoZeroUnits(s: seq<byte>, bpc: nat)
    requires bpc == 1 || bpc == 2
  {
    |s| >= 2 * bpc && !UnitNonZero(s, bpc, |s| / bpc - 1) && !UnitNonZero(s, bpc, |s| / bpc - 2)
  }

  /** The number of zero units parse_text_frame_content appends, as written:
      one if the penultimate unit is non-zero, one more if the last is. */
  function PaddingUnitsAsWritten(text: seq<byte>, bpc: nat): nat
    requires bpc == 1 || bpc == 2
  {
    (if PenultimateNonZero(text, bpc) then 1 else 0) + (if LastNonZero(text, bpc) then 1 else 0)
  }

  /** parse_text_frame_content as written: None for no frame or a payload of
      fewer than 2 bytes; otherwise the encoding byte, the rest of the payload
      and 0, 1 or 2 zero units. */
  function ParseTextFrameContentAsWritten(frame: Option<Frame>): (r: Option<TextContent>)
    ensures r.None? <==> frame.None? || |frame.value.data| < ID3_FRAME_ENCODING + 1
    ensures r.Some? ==>
      var data := frame.value.data;
      var bpc := BytesPerCharForEncoding(data[0]);
      var extra := |r.value.data| - (|data| - 1);
      && r.value.encoding == data[0]
      && |r.value.data| >= |data| - 1
      && r.value.data[..|data| - 1] == data[1..]
      && (extra == 0 || extra == bpc || extra == 2 * bpc)
      && forall i :: |data| - 1 <= i < |r.value.data| ==> r.value.data[i] == 0
  {
    if frame.None? then None
    else
      var data := frame.value.data;
      if |data| < ID3_FRAME_ENCODING + 1 then None
      else
        var text := data[ID3_FRAME_ENCODING..];
        var bpc := BytesPerCharForEncoding(data[0]);
        Some(TextContent(data[0], text + Zeros(PaddingUnitsAsWritten(text, bpc) * bpc)))
  }

  /** The padding rule as written: units are added for a non-zero (or
      missing) penultimate unit and a non-zero (or missing) last unit.  The
      penultimate unit counts as missing unless the text has at least two
      units and one more byte, so only such a text that already ends in two
      zero units gets no extra bytes. */
  lemma TextPaddingAsWritten(frame: Frame)
    requires |frame.data| >= 2
    ensures var text := frame.data[1..];
            var bpc := BytesPerCharForEncoding(frame.data[0]);
            var out := ParseTextFrameContentAsWritten(Some(frame)).value.data;
            && |out| == |text| + PaddingUnitsAsWritten(text, bpc) * bpc
            && (|text| >= 2 * bpc + 1 && !UnitNonZero(text, bpc, |text| / bpc - 2)
                  && !UnitNonZero(text, bpc, |text| / bpc - 1)
                ==> out == text)
  {
  }

  /** As written, a text of exactly two zero units is one byte short of the
      length at which the penultimate unit is read, so it gets one more zero
      unit: the Latin-1 payload 00 00 00 and the UTF-16 payload 01 00 00 00 00. */
  lemma TextPaddingAsWrittenShortZeroText()
    ensures ParseTextFrameContentAsWritten(Some(Frame([0x54, 0x49, 0x54, 0x32], [0, 0], [0, 0, 0], V23)))
         == Some(TextContent(0, [0, 0, 0]))
    ensures ParseTextFrameContentAsWritten(Some(Frame([0x54, 0x49, 0x54, 0x32], [0, 0], [1, 0, 0, 0, 0], V23)))
         == Some(TextContent(1, [0, 0, 0, 0, 0, 0]))
  {
    var latin: seq<byte> := [0, 0, 0];
    assert latin[1..] == [0, 0];
    assert !UnitNonZero(latin[1..], 1, 1);
    assert latin[1..] + Zeros(1) == latin;
    var utf: seq<byte> := [1, 0, 0, 0, 0];
    assert utf[1..] == [0, 0, 0, 0];
    assert BytesPerCharForEncoding(1) == 2;
    assert !UnitNonZero(utf[1..], 2, 1);
    assert utf[1..] + Zeros(2) == [0, 0, 0, 0, 0, 0];
  }

  /** Finding, as written: when the last unit is non-zero but the one before
      it is zero, only one terminator is added, so the text does not end in
      two zero units.  It happens exactly then (for 1-byte units, or 2-byte
      units on an even-length text). */
  lemma {:induction false} TextPaddingAsWrittenMissesListTerminator(frame: Frame)
    requires |frame.data| >= 2
    requires var bpc := BytesPerCharForEncoding(frame.data[0]);
             bpc == 1 || (|frame.data| - 1) % 2 == 0
    ensures var text := frame.data[1..];
            var bpc := BytesPerCharForEncoding(frame.data[0]);
            var out := ParseTextFrameContentAsWritten(Some(frame)).value.data;
            !EndsWithTwoZeroUnits(out, bpc) <==>
              |text| >= 2 * bpc + 1 && !UnitNonZero(text, bpc, |text| / bpc - 2) && LastNonZero(text, bpc)
  {
    var text := frame.data[1..];
    var bpc := BytesPerCharForEncoding(frame.data[0]);
    var out := ParseTextFrameContentAsWritten(Some(frame)).value.data;
    PaddedUnits(text, bpc, PaddingUnitsAsWritten(text, bpc));
  }

  /** The Latin-1 text frame payload 00 61 00 62 ("a", NUL, "b") decodes to
      61 00 62 00: one NUL, not the two the decoder is meant to guarantee. */
  lemma TextPaddingAsWrittenCounterexample()
    ensures ParseTextFrameContentAsWritten(Some(Frame([0x54, 0x49, 0x54, 0x32], [0, 0], [0, 0x61, 0, 0x62], V23)))
         == Some(TextContent(0, [0x61, 0, 0x62, 0]))
    ensures !EndsWithTwoZeroUnits([0x61, 0, 0x62, 0], 1)
  {
    var f := Frame([0x54, 0x49, 0x54, 0x32], [0, 0], [0, 0x61, 0, 0x62], V23);
    var text := f.data[1..];
    assert text == [0x61, 0, 0x62];
    assert BytesPerCharForEncoding(0) == 1;
    assert !UnitNonZero(text, 1, 1);
    assert UnitNonZero(text, 1, 2);
    assert PaddingUnitsAsWritten(text, 1) == 1;
    assert Zeros(1) == [0];
    assert ParseTextFrameContentAsWritten(Some(f)) == Some(TextContent(0, text + Zeros(1)));
    assert text + Zeros(1) == [0x61, 0, 0x62, 0];
  }

  /** The number of zero units to append so that the text ends in a string
      terminator and a list terminator: two after a non-zero (or missing)
      last unit, one after a zero last unit that follows a non-zero (or
      missing) one, none otherwise. */
  function PaddingUnits(text: seq<byte>, bpc: nat): (r: nat)
    requires bpc == 1 || bpc == 2
    ensures r <= 2
  {
    if LastNonZero(text, bpc) then 2
    else if PenultimateNonZero(text, bpc) then 1
    else 0
  }

  /** parse_text_frame_content with the intended padding rule (see
      PaddingUnits): None for no frame or a payload of fewer than 2 bytes;
      otherwise the encoding byte, the rest of the payload and 0, 1 or 2
      zero units. */
  function ParseTextFrameContent(frame: Option<Frame>): (r: Option<TextContent>)
    ensures r.None? <==> frame.None? || |frame.value.data| < ID3_FRAME_ENCODING + 1
    ensures r.Some? ==>
      var data := frame.value.data;
      var bpc := BytesPerCharForEncoding(data[0]);
      var extra := |r.value.data| - (|data| - 1);
      && r.value.encoding == data[0]
      && |r.value.data| >= |data| - 1
      && r.value.data[..|data| - 1] == data[1..]
      && (extra == 0 || extra == bpc || extra == 2 * bpc)
      && forall i :: |data| - 1 <= i < |r.value.data| ==> r.value.data[i] == 0
  {
    if frame.None? then None
    else
      var data := frame.value.data;
      if |data| < ID3_FRAME_ENCODING + 1 then None
      else
        var text := data[ID3_FRAME_ENCODING..];
        var bpc := BytesPerCharForEncoding(data[0]);
        Some(TextContent(data[0], text + Zeros(PaddingUnits(text, bpc) * bpc)))
  }

  /** The decoder as written and the corrected one give the same content
      except exactly when the last unit is non-zero (or missing) and the one
      before it is zero, where the code as written adds one unit too few. */
  lemma TextDecodersAgree(frame: Frame)
    requires |frame.data| >= 2
    ensures var text := frame.data[1..];
            var bpc := BytesPerCharForEncoding(frame.data[0]);
            ParseTextFrameContentAsWritten(Some(frame)) == ParseTextFrameContent(Some(frame)) <==>
              !(LastNonZero(text, bpc) && !PenultimateNonZero(text, bpc))
  {
    var text := frame.data[1..];
    var bpc := BytesPerCharForEncoding(frame.data[0]);
    if LastNonZero(text, bpc) && !PenultimateNonZero(text, bpc) {
      assert |ParseTextFrameContentAsWritten(Some(frame)).value.data| == |text| + bpc;
      assert |ParseTextFrameContent(Some(frame)).value.data| == |text| + 2 * bpc;
    }
  }

  /** The frame "TIT2", size 6, flags 0, payload 00 "Hello" decodes, under
      the rule as written, to Latin-1 "Hello" followed by two NULs. */
  lemma TextContentExampleAsWritten()
    ensures ParseTextFrameContentAsWritten(Some(Frame([0x54, 0x49, 0x54, 0x32], [0, 0], [0, 0x48, 0x65, 0x6C, 0x6C, 0x6F], V23)))
         == Some(TextContent(0, [0x48, 0x65, 0x6C, 0x6C, 0x6F, 0, 0]))
  {
    var f := Frame([0x54, 0x49, 0x54, 0x32], [0, 0], [0, 0x48, 0x65, 0x6C, 0x6C, 0x6F], V23);
    var text := f.data[1..];
    assert text == [0x48, 0x65, 0x6C, 0x6C, 0x6F];
    assert BytesPerCharForEncoding(0) == 1;
    assert UnitNonZero(text, 1, 3) && UnitNonZero(text, 1, 4);
    assert PaddingUnitsAsWritten(text, 1) == 2;
    assert ParseTextFrameContentAsWritten(Some(f)) == Some(TextContent(0, text + Zeros(2)));
    assert text + Zeros(2) == [0x48, 0x65, 0x6C, 0x6C, 0x6F, 0, 0];
  }

  /** The units of text followed by u zero units: the new units are zero and
      the old ones are unchanged. */
  lemma PaddedUnits(text: seq<byte>, bpc: nat, u: nat)
    requires bpc == 1 || bpc == 2
    requires bpc == 1 || |text| % 2 == 0
    ensures var out := text + Zeros(u * bpc);
            && |out| / bpc == |text| / bpc + u
            && (forall k :: |text| / bpc <= k < |out| / bpc ==> !UnitNonZero(out, bpc, k))
            && (forall k :: 0 <= k < |text| / bpc ==> (UnitNonZero(out, bpc, k) <==> UnitNonZero(text, bpc, k)))
  {
  }

  /** Corrected rule: the decoded text always ends in two zero units (for
      1-byte units, and for 2-byte units on an even-length text, where units
      line up with the end). */
  lemma {:induction false} TextContentEndsWithTwoZeroUnits(frame: Frame)
    requires |frame.data| >= 2
    requires var bpc := BytesPerCharForEncoding(frame.data[0]);
             bpc == 1 || (|frame.data| - 1) % 2 == 0
    ensures EndsWithTwoZeroUnits(ParseTextFrameContent(Some(frame)).value.data,
                                 BytesPerCharForEncoding(frame.data[0]))
  {
    var text := frame.data[1..];
    var bpc := BytesPerCharForEncoding(frame.data[0]);
    PaddedUnits(text, bpc, PaddingUnits(text, bpc));
  }

  /** Corrected rule: decoding is idempotent.  Decoding a payload made of the
      encoding and an already decoded text gives that text back: a text that
      already ends in its terminators is not padded twice. */
  lemma {:induction false} TextContentIdempotent(frame: Frame)
    requires |frame.data| >= 2
    requires var bpc := BytesPerCharForEncoding(frame.data[0]);
             bpc == 1 || (|frame.data| - 1) % 2 == 0
    ensures var c := ParseTextFrameContent(Some(frame)).value;
            ParseTextFrameContent(Some(frame.(data := [c.encoding] + c.data))) == Some(c)
  {
    var text := frame.data[1..];
    var bpc := BytesPerCharForEncoding(frame.data[0]);
    var c := ParseTextFrameContent(Some(frame)).value;
    PaddedUnits(text, bpc, PaddingUnits(text, bpc));
    TextContentEndsWithTwoZeroUnits(frame);
    var u := PaddingUnits(text, bpc);
    assert |c.data| == |text| + u * bpc;
    assert |c.data| >= 2 * bpc + 1 by {
      if u == 0 {
        assert !PenultimateNonZero(text, bpc);
      } else if u == 1 {
        assert !LastNonZero(text, bpc);
      }
    }
    var f' := frame.(data := [c.encoding] + c.data);
    assert f'.data[1..] == c.data;
    assert f'.data[0] == frame.data[0];
    assert PaddingUnits(c.data, bpc) == 0;
    assert c.data + Zeros(0) == c.data;
  }

  /** Outside the even-length hypothesis: the UTF-16 payload 01 61 holds one
      byte of text, which gets two zero units, and the aligned units of the
      result are 61 00 and 00 00, not two zero units. */
  lemma TextContentOddUtf16Example()
    ensures ParseTextFrameContent(Some(Frame([0x54, 0x49, 0x54, 0x32], [0, 0], [1, 0x61], V23)))
         == Some(TextContent(1, [0x61, 0, 0, 0, 0]))
    ensures !EndsWithTwoZeroUnits([0x61, 0, 0, 0, 0], 2)
  {
    var f := Frame([0x54, 0x49, 0x54, 0x32], [0, 0], [1, 0x61], V23);
    var text := f.data[1..];
    assert text == [0x61];
    assert BytesPerCharForEncoding(1) == 2;
    assert PaddingUnits(text, 2) == 2;
    assert text + Zeros(4) == [0x61, 0, 0, 0, 0];
    assert UnitNonZero([0x61, 0, 0, 0, 0], 2, 0);
  }

  /** The frame "TIT2", size 6, flags 0, payload 00 "Hello" decodes to
      Latin-1 "Hello" followed by two NULs: neither of its last two
      characters is zero. */
  lemma TextContentExample()
    ensures ParseTextFrameContent(Some(Frame([0x54, 0x49, 0x54, 0x32], [0, 0], [0, 0x48, 0x65, 0x6C, 0x6C, 0x6F], V23)))
         == Some(TextContent(0, [0x48, 0x65, 0x6C, 0x6C, 0x6F, 0, 0]))
  {
    var f := Frame([0x54, 0x49, 0x54, 0x32], [0, 0], [0, 0x48, 0x65, 0x6C, 0x6C, 0x6F], V23);
    var text := f.data[1..];
    assert text == [0x48, 0x65, 0x6C, 0x6C, 0x6F];
    assert BytesPerCharForEncoding(0) == 1;
    assert UnitNonZero(text, 1, 4);
    assert PaddingUnits(text, 1) == 2;
    assert ParseTextFrameContent(Some(f)) == Some(TextContent(0, text + Zeros(2)));
    assert text + Zeros(2) == [0x48, 0x65, 0x6C, 0x6C, 0x6F, 0, 0];
  }

  // ---------------------------------------------------------------------
  // Comment content

  /** parse_comment_frame_content: encoding, 3-byte language, an ignored
      short description (taken to be the single byte 4) and the text.  The C
      copies size - 5 bytes without checking the size; a payload shorter than
      5 bytes gives None here. */
  function ParseCommentFrameContent(frame: Option<Frame>): (r: Option<CommentContent>)
    ensures r.None? <==> frame.None? || |frame.value.data| < 5
    ensures r.Some? ==>
      var data := frame.value.data;
      && r.value.text.encoding == data[0]
      && r.value.language == data[1..4]
      && r.value.shortDescription == []
      && |r.value.text.data| == |data| - 5
      && r.value.text.data == data[5..]
  {
    if frame.None? then None
    else
      var data := frame.value.data;
      if |data| < ID3_FRAME_ENCODING + ID3_FRAME_LANGUAGE + ID3_FRAME_SHORT_DESCRIPTION then None
      else
        Some(CommentContent(
          data[ID3_FRAME_ENCODING..ID3_FRAME_ENCODING + ID3_FRAME_LANGUAGE],
          [],
          TextContent(data[0], data[ID3_FRAME_ENCODING + ID3_FRAME_LANGUAGE + ID3_FRAME_SHORT_DESCRIPTION..])))
  }

  // ---------------------------------------------------------------------
  // Attached-picture content

  /** The first zero byte at or after index i: the `strlen`/`while
      (data[pos] != '\0')` scans.  None when the scan would run off the end. */
  function ZeroByteFrom(s: seq<byte>, i: nat): (r: Option<nat>)
    ensures r.Some? ==> i <= r.value < |s| && s[r.value] == 0 && forall j :: i <= j < r.value ==> s[j] != 0
    ensures r.None? ==> forall j :: i <= j < |s| ==> s[j] != 0
    decreases |s| - i
  {
    if i >= |s| then None
    else if s[i] == 0 then Some(i)
    else ZeroByteFrom(s, i + 1)
  }

  /** A zero byte at k with none between i and k is what the scan from i finds. */
  lemma {:induction false} ZeroByteFromFinds(s: seq<byte>, i: nat, k: nat)
    requires i <= k < |s| && s[k] == 0
    requires forall j :: i <= j < k ==> s[j] != 0
    ensures ZeroByteFrom(s, i) == Some(k)
    decreases k - i
  {
    if i < k {
      ZeroByteFromFinds(s, i + 1, k);
    }
  }

  /** The first zero 2-byte unit at index i, i+2, i+4, ...: the `while
      (*(uint16_t *)(data + pos)) pos += 2` scan.  None when the scan would
      read a unit past the end. */
  function ZeroUnitFrom(s: seq<byte>, i: nat): (r: Option<nat>)
    ensures r.Some? ==>
      && i <= r.value && r.value + 2 <= |s| && (r.value - i) % 2 == 0
      && s[r.value] == 0 && s[r.value + 1] == 0
      && forall j :: i <= j < r.value && (j - i) % 2 == 0 ==> s[j] != 0 || s[j + 1] != 0
    ensures r.None? ==>
      forall j :: i <= j && j + 1 < |s| && (j - i) % 2 == 0 ==> s[j] != 0 || s[j + 1] != 0
    decreases |s| - i
  {
    if i + 1 >= |s| then None
    else if s[i] == 0 && s[i + 1] == 0 then Some(i)
    else ZeroUnitFrom(s, i + 2)
  }

  /** ASCII `tolower`. */
  function ToLower(c: byte): (r: byte)
  {
    if 0x41 <= c <= 0x5A then c + 0x20 else c
  }

  /** parse_image_format (v2.2): "image/" followed by the three format
      characters in lower case; the cursor advances by 3. */
  function ParseImageFormat(format: seq<byte>): (r: (seq<byte>, nat))
    requires |format| >= 3
    ensures |r.0| == 9 && r.1 == 3
    ensures r.0[..6] == [0x69, 0x6D, 0x61, 0x67, 0x65, 0x2F]
    ensures forall i :: 0 <= i < 3 ==> r.0[6 + i] == ToLower(format[i])
  {
    ([0x69, 0x6D, 0x61, 0x67, 0x65, 0x2F, ToLower(format[0]), ToLower(format[1]), ToLower(format[2])], 3)
  }

  /** parse_mime_type (v2.3 and later): the string at `from` up to its NUL,
      and its length including the NUL.  The C `strdup` would run past the
      payload when there is no NUL; that gives None here. */
  method ParseMimeType(data: seq<byte>, from: nat) returns (r: Option<(seq<byte>, nat)>)
    requires from <= |data|
    ensures r == match ZeroByteFrom(data, from)
                 case None => None
                 case Some(k) => Some((data[from..k], k - from + 1))
  {
    var len := 0;
    while from + len < |data| && data[from + len] != 0
      invariant from + len <= |data|
      invariant ZeroByteFrom(data, from) == ZeroByteFrom(data, from + len)
    {
      len := len + 1;
    }
    if from + len == |data| {
      return None;
    }
    return Some((data[from..from + len], len + 1));
  }

  /** The MIME type of a picture payload and the number of bytes it takes. */
  function MimeTypeAt(data: seq<byte>, version: Version): Option<(seq<byte>, nat)>
    requires |data| >= 1
  {
    if version == V22 then
      if |data| < 4 then None else Some(ParseImageFormat(data[1..4]))
    else
      match ZeroByteFrom(data, 1)
      case None => None
      case Some(k) => Some((data[1..k], k))
  }

  /** Where the description that starts at `from` ends: its terminator, one
      byte or one 2-byte unit according to the encoding. */
  function DescriptionEnd(data: seq<byte>, from: nat, bpc: nat): Option<nat>
  {
    if bpc == 2 then ZeroUnitFrom(data, from) else ZeroByteFrom(data, from)
  }

  /** What parse_apic_frame_content computes.  Where the C would read past the
      payload (an empty payload, a MIME type or description without
      terminator, no picture-type byte), the result is None. */
  function ApicContentOf(frame: Option<Frame>): Option<ApicContent>
  {
    if frame.None? || |frame.value.data| == 0 then None
    else
      var data := frame.value.data;
      var bpc := BytesPerCharForEncoding(data[0]);
      match MimeTypeAt(data, frame.value.version)
      case None => None
      case Some(mime) =>
        var pos := 1 + mime.1;
        if pos >= |data| then None
        else
          match DescriptionEnd(data, pos + 1, bpc)
          case None => None
          case Some(end) =>
            Some(ApicContent(data[0], mime.0, data[pos], data[pos + 1..end], data[end + bpc..]))
  }

  /** The description scan of parse_apic_frame_content from `from`: the
      index of its terminator. */
  method SkipDescription(data: seq<byte>, from: nat, bpc: nat) returns (r: Option<nat>)
    requires from <= |data|
    ensures r == DescriptionEnd(data, from, bpc)
  {
    var pos := from;
    if bpc == 2 {
      // a UTF-16 description ends in a zero 2-byte unit
      while pos + 1 < |data| && (data[pos] != 0 || data[pos + 1] != 0)
        invariant from <= pos
        invariant ZeroUnitFrom(data, from) == ZeroUnitFrom(data, pos)
        decreases |data| - pos
      {
        pos := pos + 2;
      }
      if pos + 1 >= |data| {
        return None;
      }
    } else {
      // a Latin-1 or UTF-8 description ends in a zero byte
      while pos < |data| && data[pos] != 0
        invariant from <= pos <= |data|
        invariant ZeroByteFrom(data, from) == ZeroByteFrom(data, pos)
      {
        pos := pos + 1;
      }
      if pos == |data| {
        return None;
      }
    }
    return Some(pos);
  }

  /** parse_apic_frame_content: advances a cursor over the encoding byte, the
      MIME type, the picture type and the description, and copies the rest of
      the payload as the picture. */
  method ParseApicFrameContent(frame: Option<Frame>) returns (r: Option<ApicContent>)
    ensures r == ApicContentOf(frame)
  {
    if frame.None? || |frame.value.data| == 0 {
      return None;
    }
    var data := frame.value.data;
    var pos := 0;
    var encoding := data[pos];
    pos := pos + 1;
    var mime: Option<(seq<byte>, nat)>;
    if frame.value.version == V22 {
      mime := if |data| < pos + 3 then None else Some(ParseImageFormat(data[pos..pos + 3]));
    } else {
      mime := ParseMimeType(data, pos);
    }
    if mime.None? {
      return None;
    }
    pos := pos + mime.value.1;
    if pos >= |data| {
      return None;
    }
    var pictureType := data[pos];
    pos := pos + 1;
    var bpc := BytesPerCharForEncoding(encoding);
    var end := SkipDescription(data, pos, bpc);
    if end.None? {
      return None;
    }
    var description := data[pos..end.value];
    pos := end.value + bpc;
    return Some(ApicContent(encoding, mime.value.0, pictureType, description, data[pos..]));
  }

  /** The picture fields for a v2.3/v2.4 payload: the MIME type runs from
      byte 1 to the first NUL, the picture type is the byte after that NUL,
      the description runs to its first terminator (a zero byte, or a zero
      2-byte unit for UTF-16), and the picture is the rest of the payload, of
      size frame size minus its start. */
  lemma ApicLayout(frame: Frame)
    requires frame.version != V22
    requires ApicContentOf(Some(frame)).Some?
    ensures var c := ApicContentOf(Some(frame)).value;
            var data := frame.data;
            var m := |c.mimeType|;
            var bpc := BytesPerCharForEncoding(data[0]);
            var start := |data| - |c.data|;
            && c.encoding == data[0]
            && 2 + m < |data|
            && c.mimeType == data[1..1 + m] && NoNul(c.mimeType) && data[1 + m] == 0
            && c.pictureType == data[2 + m]
            && start == 3 + m + |c.description| + bpc
            && c.description == data[3 + m..start - bpc]
            && data[start - bpc..start] == Zeros(bpc)
            && DescriptionHasNoTerminator(c.description, bpc)
            && c.data == data[start..]
  {
    var data := frame.data;
    var mime := MimeTypeAt(data, frame.version).value;
    DescriptionScan(data, 2 + mime.1, BytesPerCharForEncoding(data[0]));
  }

  /** For a v2.2 payload the MIME type is "image/" and the lower-cased
      three-character image format of bytes 1..4, the picture type is byte
      4, the description runs from byte 5 to its first terminator, and the
      picture is the rest of the payload. */
  lemma ApicLayoutV22(frame: Frame)
    requires frame.version == V22
    requires ApicContentOf(Some(frame)).Some?
    ensures var c := ApicContentOf(Some(frame)).value;
            var data := frame.data;
            var bpc := BytesPerCharForEncoding(data[0]);
            var start := |data| - |c.data|;
            && |data| >= 5
            && c.encoding == data[0]
            && c.mimeType == [0x69, 0x6D, 0x61, 0x67, 0x65, 0x2F] + [ToLower(data[1]), ToLower(data[2]), ToLower(data[3])]
            && c.pictureType == data[4]
            && start == 5 + |c.description| + bpc
            && c.description == data[5..start - bpc]
            && data[start - bpc..start] == Zeros(bpc)
            && DescriptionHasNoTerminator(c.description, bpc)
            && c.data == data[start..]
  {
    DescriptionScan(frame.data, 5, BytesPerCharForEncoding(frame.data[0]));
  }

  /** No unit of the description, counted in units of bpc bytes, is zero:
      the scan stopped at the first terminator. */
  predicate DescriptionHasNoTerminator(d: seq<byte>, bpc: nat)
    requires bpc == 1 || bpc == 2
  {
    |d| % bpc == 0 && forall k :: 0 <= k < |d| / bpc ==> UnitNonZero(d, bpc, k)
  }

  /** The description scan from `from` stops at a terminator with no
      terminator unit before it. */
  lemma DescriptionScan(data: seq<byte>, from: nat, bpc: nat)
    requires bpc == 1 || bpc == 2
    requires DescriptionEnd(data, from, bpc).Some?
    ensures var end := DescriptionEnd(data, from, bpc).value;
            && from <= end && end + bpc <= |data|
            && data[end..end + bpc] == Zeros(bpc)
            && DescriptionHasNoTerminator(data[from..end], bpc)
  {
    var end := DescriptionEnd(data, from, bpc).value;
    var d := data[from..end];
    if bpc == 2 {
      assert data[end..end + 2] == [0, 0];
      forall k | 0 <= k < |d| / 2
        ensures UnitNonZero(d, 2, k)
      {
        assert d[2 * k] == data[from + 2 * k] && d[2 * k + 1] == data[from + 2 * k + 1];
      }
    } else {
      assert data[end..end + 1] == [0];
      forall k | 0 <= k < |d|
        ensures UnitNonZero(d, 1, k)
      {
        assert d[k] == data[from + k];
      }
    }
  }
}
