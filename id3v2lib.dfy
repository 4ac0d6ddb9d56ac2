/** Tag assembly (id3v2lib.c): the unsynchronisation reversal of section 5
    of ID3v2.3.0, the frame walk that builds a tag from a buffer, the
    find-or-append setters, and the byte layouts the writer emits. */
module Id3v2Lib {
  import opened Wrappers
  import opened Utils
  import opened HeaderCodec
  import opened FrameCodec

  // ---------------------------------------------------------------------
  // Unsynchronisation

  /** How many source bytes one step of the reversal consumes: two for a
      0xFF followed by 0x00, one otherwise. */
  function UnsyncSkip(s: seq<byte>, i: nat): (r: nat)
    requires i < |s|
    ensures i + r <= |s|
  {
    if s[i] == 0xFF && i + 1 < |s| && s[i + 1] == 0 then 2 else 1
  }

  /** What reverse_unsynchronisation leaves of s from index i on: every byte
      is copied, except a 0x00 that immediately follows a copied 0xFF. */
  function UnsyncFrom(s: seq<byte>, i: nat): (r: seq<byte>)
    requires i <= |s|
    ensures |r| <= |s| - i
    decreases |s| - i
  {
    if i == |s| then [] else [s[i]] + UnsyncFrom(s, i + UnsyncSkip(s, i))
  }

  function Unsync(s: seq<byte>): (r: seq<byte>)
    ensures |r| <= |s|
  {
    UnsyncFrom(s, 0)
  }

  /** The unsynchronisation scheme itself, in its simplest form: a 0x00 is
      inserted after every 0xFF. */
  function Unsynchronise(s: seq<byte>): (r: seq<byte>)
    ensures |r| >= |s|
  {
    if s == [] then []
    else if s[0] == 0xFF then [0xFF, 0] + Unsynchronise(s[1..])
    else [s[0]] + Unsynchronise(s[1..])
  }

  /** reverse_unsynchronisation: copies src into dest through a
      source/destination cursor pair, skipping the 0x00 after each 0xFF, and
      never reading past the end of src.  dest is the buffer of the length of
      src that the loader allocates; the bytes past the copy are left as they
      were. */
  method ReverseUnsynchronisation(dest: array<byte>, src: seq<byte>)
    requires dest.Length >= |src|
    modifies dest
    ensures dest[..|Unsync(src)|] == Unsync(src)
    ensures forall k :: |Unsync(src)| <= k < dest.Length ==> dest[k] == old(dest[k])
  {
    var i := 0;
    var j := 0;
    while i < |src|
      invariant 0 <= j <= i <= |src|
      invariant dest[..j] + UnsyncFrom(src, i) == Unsync(src)
      invariant forall k :: j <= k < dest.Length ==> dest[k] == old(dest[k])
    {
      ghost var done := dest[..j];
      ghost var next := i + UnsyncSkip(src, i);
      var c := src[i];
      dest[j] := c;
      assert dest[..j + 1] == done + [c];
      UnsyncStep(src, i, done);
      j := j + 1;
      i := i + 1;
      if c == 0xFF {
        if i == |src| {
          return;
        }
        if src[i] == 0 {
          i := i + 1;
        }
      }
      assert i == next;
    }
  }

  lemma ConcatAssoc(a: seq<byte>, b: seq<byte>, c: seq<byte>)
    ensures (a + b) + c == a + (b + c)
  {
  }

  /** A slice holding a + b holds a and then b. */
  lemma ConcatSlices(s: seq<byte>, o: nat, a: seq<byte>, b: seq<byte>)
    requires o + |a| + |b| <= |s| && s[o..o + |a| + |b|] == a + b
    ensures s[o..o + |a|] == a && s[o + |a|..o + |a| + |b|] == b
  {
    SliceOfSlice(s, o, o + |a| + |b|, 0, |a|);
    SliceOfSlice(s, o, o + |a| + |b|, |a|, |a| + |b|);
    assert (a + b)[..|a|] == a;
    assert (a + b)[|a|..] == b;
  }

  /** One step of the reversal: the byte at i is copied and the reversal
      continues after what that step consumes. */
  lemma UnsyncStep(s: seq<byte>, i: nat, done: seq<byte>)
    requires i < |s| && done + UnsyncFrom(s, i) == Unsync(s)
    ensures (done + [s[i]]) + UnsyncFrom(s, i + UnsyncSkip(s, i)) == Unsync(s)
  {
    ConcatAssoc(done, [s[i]], UnsyncFrom(s, i + UnsyncSkip(s, i)));
  }

  /** The reversal of s from index i reads nothing before i. */
  lemma {:induction false} UnsyncFromSuffix(s: seq<byte>, i: nat)
    requires i <= |s|
    ensures UnsyncFrom(s, i) == Unsync(s[i..])
    decreases |s| - i
  {
    UnsyncFromShift(s[..i], s[i..], 0);
    assert s[..i] + s[i..] == s;
  }

  /** Putting bytes in front of a stream does not change its reversal from
      the same position. */
  lemma {:induction false} UnsyncFromShift(a: seq<byte>, b: seq<byte>, k: nat)
    requires k <= |b|
    ensures UnsyncFrom(a + b, |a| + k) == UnsyncFrom(b, k)
    decreases |b| - k
  {
    if k < |b| {
      assert (a + b)[|a| + k] == b[k];
      if |a| + k + 1 < |a + b| {
        assert (a + b)[|a| + k + 1] == b[k + 1];
      }
      assert UnsyncSkip(a + b, |a| + k) == UnsyncSkip(b, k);
      UnsyncFromShift(a, b, k + UnsyncSkip(b, k));
    }
  }

  /** Reversing unsynchronisation keeps a zero tail zero: when every byte of
      s from index n on is zero, so is every byte of the reversal from s[i..]
      at position n - i and later (the bytes before n may shorten, never grow). */
  lemma {:induction false} UnsyncFromZeroTail(s: seq<byte>, n: nat, i: nat)
    requires i <= |s|
    requires forall k :: n <= k < |s| ==> s[k] == 0
    ensures forall j :: 0 <= j < |UnsyncFrom(s, i)| && j >= n - i ==> UnsyncFrom(s, i)[j] == 0
    decreases |s| - i
  {
    if i < |s| {
      var next := i + UnsyncSkip(s, i);
      UnsyncFromZeroTail(s, n, next);
      assert UnsyncFrom(s, i) == [s[i]] + UnsyncFrom(s, next);
    }
  }

  /** Unsync unfolded once: the first byte is copied, and the 0x00 after a
      leading 0xFF is swallowed. */
  lemma UnsyncUnfold(s: seq<byte>)
    requires s != []
    ensures Unsync(s) == [s[0]] + Unsync(s[UnsyncSkip(s, 0)..])
  {
    UnsyncFromSuffix(s, UnsyncSkip(s, 0));
  }

  /** Input without a 0xFF followed by 0x00, in particular input without any
      0xFF, comes back unchanged. */
  lemma {:induction false} UnsyncIdentity(s: seq<byte>)
    requires forall i :: 0 <= i < |s| - 1 ==> !(s[i] == 0xFF && s[i + 1] == 0)
    ensures Unsync(s) == s
  {
    if s != [] {
      UnsyncUnfold(s);
      UnsyncIdentity(s[1..]);
      assert [s[0]] + s[1..] == s;
    }
  }

  /** FF 00 FF 00 AB becomes FF FF AB. */
  lemma UnsyncExample()
    ensures Unsync([0xFF, 0, 0xFF, 0, 0xAB]) == [0xFF, 0xFF, 0xAB]
  {
    var s: seq<byte> := [0xFF, 0, 0xFF, 0, 0xAB];
    assert UnsyncFrom(s, 4) == [0xAB];
    assert UnsyncFrom(s, 2) == [0xFF, 0xAB];
  }

  /** A trailing 0xFF is copied literally. */
  lemma {:induction false} UnsyncTrailingFF(s: seq<byte>)
    ensures Unsync(s + [0xFF]) == Unsync(s) + [0xFF]
    decreases |s|
  {
    UnsyncUnfold(s + [0xFF]);
    if s == [] {
      assert [0xFF][1..] == [];
    } else {
      UnsyncUnfold(s);
      var k := UnsyncSkip(s, 0);
      assert UnsyncSkip(s + [0xFF], 0) == k;
      assert (s + [0xFF])[k..] == s[k..] + [0xFF];
      UnsyncTrailingFF(s[k..]);
    }
  }

  /** Reversing an unsynchronised stream gives the original stream back. */
  lemma {:induction false} UnsyncReversesUnsynchronise(s: seq<byte>)
    ensures Unsync(Unsynchronise(s)) == s
  {
    if s != [] {
      UnsyncReversesUnsynchronise(s[1..]);
      var u := Unsynchronise(s);
      UnsyncUnfold(u);
      if s[0] == 0xFF {
        assert u[0] == 0xFF && u[1] == 0 && u[2..] == Unsynchronise(s[1..]);
      } else {
        assert u[0] == s[0] && u[1..] == Unsynchronise(s[1..]);
      }
      assert [s[0]] + s[1..] == s;
    }
  }

  // ---------------------------------------------------------------------
  // Loading a tag from a buffer

  /** Why load_tag_with_buffer gives no tag.  The first three are the C's
      NULL returns; TruncatedFrame is a frame that runs past the bytes the
      tag has, where the C reads beyond its buffers. */
  datatype LoadError = NoValidHeader | NoCompatibleTag | NotEnoughBytes | TruncatedFrame

  /** The contents of an ID3v2_tag: header, raw tag body and frame list. */
  datatype TagImage = TagImage(header: Header, raw: seq<byte>, frames: seq<Frame>)

  function Prepend(fs: seq<Frame>, r: Result<seq<Frame>, LoadError>): Result<seq<Frame>, LoadError>
  {
    match r
    case Success(rest) => Success(fs + rest)
    case Failure(e) => Failure(e)
  }

  lemma PrependAssoc(fs: seq<Frame>, f: Frame, rest: Result<seq<Frame>, LoadError>)
    ensures Prepend(fs, Prepend([f], rest)) == Prepend(fs + [f], rest)
  {
    match rest {
      case Failure(e) =>
      case Success(r) => assert fs + ([f] + r) == (fs + [f]) + r;
    }
  }

  /** The frame list the loop of load_tag_with_buffer builds from offset on,
      for a frame parser `parse` and a frame header length: frames are parsed
      one after another, each starting right after the previous one's header
      and data, until the offset reaches the tag size or no frame is found. */
  function Walk(parse: nat -> FrameParse, offset: nat, tagSize: nat, headerSize: nat): (r: Result<seq<Frame>, LoadError>)
    requires headerSize > 0
    ensures r.Failure? ==> r.error == TruncatedFrame
    decreases tagSize - offset
  {
    if offset >= tagSize then Success([])
    else
      match parse(offset)
      case NoFrame => Success([])
      case Truncated => Failure(TruncatedFrame)
      case Parsed(f) => Prepend([f], Walk(parse, offset + f.Size() + headerSize, tagSize, headerSize))
  }

  /** The frame parser of a tag body under a version. */
  function Parser(raw: seq<byte>, version: Version): nat -> FrameParse
  {
    (o: nat) => ParseFrame(raw, o, version)
  }

  lemma ParserApply(raw: seq<byte>, version: Version, o: nat)
    ensures Parser(raw, version)(o) == ParseFrame(raw, o, version)
  {
  }

  /** The frames of the tag body raw from offset on. */
  function FramesFrom(raw: seq<byte>, offset: nat, tagSize: nat, version: Version): (r: Result<seq<Frame>, LoadError>)
    ensures r.Failure? ==> r.error == TruncatedFrame
  {
    Walk(Parser(raw, version), offset, tagSize, FrameHeaderSize(version))
  }

  /** Every frame the parser of a version finds is well formed. */
  lemma ParsedFramesWellFormed(raw: seq<byte>, version: Version)
    ensures forall o: nat :: Parser(raw, version)(o).Parsed? ==> WellFormed(Parser(raw, version)(o).frame)
  {
    forall o: nat | Parser(raw, version)(o).Parsed?
      ensures WellFormed(Parser(raw, version)(o).frame)
    {
      ParserApply(raw, version, o);
      ParsedFrameShape(raw, o, version);
    }
  }

  /** The bytes the frames are read from: the buffer, with the
      unsynchronisation reversed when the header says so. */
  function TagBytes(buffer: seq<byte>, h: Header): seq<byte>
  {
    if h.unsynchronised then Unsync(buffer) else buffer
  }

  /** Where the frames start: after the header, and after the extended header
      and its 4 size bytes when there is one. */
  function FramesStart(h: Header): nat
  {
    ID3_HEADER + if h.extendedHeaderSize != 0 then h.extendedHeaderSize + ID3_EXTENDED_HEADER_SIZE else 0
  }

  /** The n bytes of s from start on, or those of them that exist. */
  function Clip(s: seq<byte>, start: nat, n: nat): (r: seq<byte>)
    ensures |r| <= n
    ensures start + n <= |s| ==> r == s[start..start + n]
  {
    var a := if start <= |s| then start else |s|;
    var b := if start + n <= |s| then start + n else |s|;
    s[a..b]
  }

  /** What load_tag_with_buffer computes from a buffer of |buffer| bytes. */
  function LoadTag(buffer: seq<byte>): (r: Result<TagImage, LoadError>)
    ensures r == Failure(NoValidHeader) <==> GetTagHeaderWithBuffer(buffer).None?
    ensures r == Failure(NoCompatibleTag) <==>
      GetTagHeaderWithBuffer(buffer).Some? && GetTagOrigVersion(GetTagHeaderWithBuffer(buffer).value).None?
    ensures r == Failure(NotEnoughBytes) <==>
      && GetTagHeaderWithBuffer(buffer).Some?
      && GetTagOrigVersion(GetTagHeaderWithBuffer(buffer).value).Some?
      && |buffer| < GetTagHeaderWithBuffer(buffer).value.tagSize + ID3_HEADER
    ensures r.Success? ==>
      && r.value.header == GetTagHeaderWithBuffer(buffer).value
      && |r.value.raw| <= r.value.header.tagSize
  {
    match GetTagHeaderWithBuffer(buffer)
    case None => Failure(NoValidHeader)
    case Some(h) =>
      match GetTagOrigVersion(h)
      case None => Failure(NoCompatibleTag)
      case Some(version) =>
        if |buffer| < h.tagSize + ID3_HEADER then Failure(NotEnoughBytes)
        else
          var raw := Clip(TagBytes(buffer, h), FramesStart(h), h.tagSize);
          match FramesFrom(raw, 0, h.tagSize, version)
          case Failure(e) => Failure(e)
          case Success(frames) => Success(TagImage(h, raw, frames))
  }

  /** Where the k-th frame of a walk starts, relative to where the walk
      started: the sum of the sizes and header lengths of the frames before it. */
  function SpanBefore(fs: seq<Frame>, k: nat, headerSize: nat): nat
    requires k <= |fs|
  {
    if k == 0 then 0 else fs[0].Size() + headerSize + SpanBefore(fs[1..], k - 1, headerSize)
  }

  /** The head and tail of a list the walk built by prepending. */
  lemma PrependParts(fs: seq<Frame>, f: Frame, rest: Result<seq<Frame>, LoadError>, k: nat)
    requires Prepend([f], rest) == Success(fs) && 0 < k <= |fs|
    ensures rest.Success? && fs[0] == f && fs[1..] == rest.value && fs[k..] == rest.value[k - 1..]
  {
    assert fs == [f] + rest.value;
  }

  /** A walk from the start of its k-th frame finds the frames from the k-th
      on. */
  lemma {:induction false} WalkSuffixes(parse: nat -> FrameParse, o: nat, tagSize: nat, headerSize: nat, k: nat)
    requires headerSize > 0
    requires Walk(parse, o, tagSize, headerSize).Success?
    requires k <= |Walk(parse, o, tagSize, headerSize).value|
    ensures var fs := Walk(parse, o, tagSize, headerSize).value;
            Walk(parse, o + SpanBefore(fs, k, headerSize), tagSize, headerSize) == Success(fs[k..])
    decreases k
  {
    var fs := Walk(parse, o, tagSize, headerSize).value;
    if k == 0 {
      assert fs[0..] == fs;
    } else {
      var f := parse(o).frame;
      var o' := o + f.Size() + headerSize;
      PrependParts(fs, f, Walk(parse, o', tagSize, headerSize), k);
      WalkSuffixes(parse, o', tagSize, headerSize, k - 1);
    }
  }

  /** The frames of a walk come in buffer order: the k-th frame is the one
      parsed at the start offset plus the span of the frames before it, and
      that offset is below the tag size. */
  lemma WalkAt(parse: nat -> FrameParse, o: nat, tagSize: nat, headerSize: nat, k: nat)
    requires headerSize > 0
    requires Walk(parse, o, tagSize, headerSize).Success?
    requires k < |Walk(parse, o, tagSize, headerSize).value|
    ensures var fs := Walk(parse, o, tagSize, headerSize).value;
            && o + SpanBefore(fs, k, headerSize) < tagSize
            && parse(o + SpanBefore(fs, k, headerSize)) == Parsed(fs[k])
  {
    var fs := Walk(parse, o, tagSize, headerSize).value;
    WalkSuffixes(parse, o, tagSize, headerSize, k);
    var rest := fs[k..];
    assert rest[0] == fs[k];
  }

  /** A walk ends at the first offset at or past the tag size, or where no
      frame is found. */
  lemma WalkStops(parse: nat -> FrameParse, o: nat, tagSize: nat, headerSize: nat)
    requires headerSize > 0
    requires Walk(parse, o, tagSize, headerSize).Success?
    ensures var fs := Walk(parse, o, tagSize, headerSize).value;
            var end := o + SpanBefore(fs, |fs|, headerSize);
            end >= tagSize || parse(end) == NoFrame
  {
    var fs := Walk(parse, o, tagSize, headerSize).value;
    WalkSuffixes(parse, o, tagSize, headerSize, |fs|);
  }

  /** parse finds the frames fs one after another from o on, each right
      after the previous one's header and data. */
  predicate FindsAt(parse: nat -> FrameParse, o: nat, headerSize: nat, fs: seq<Frame>)
    decreases |fs|
  {
    fs == [] || (parse(o) == Parsed(fs[0]) && FindsAt(parse, o + fs[0].Size() + headerSize, headerSize, fs[1..]))
  }

  /** Conversely to WalkAt and WalkStops: frames found one after another,
      followed below the tag size by an offset with no frame, are what the
      walk gives. */
  lemma {:induction false} WalkFinds(parse: nat -> FrameParse, o: nat, tagSize: nat, headerSize: nat, fs: seq<Frame>)
    requires headerSize > 0
    requires FindsAt(parse, o, headerSize, fs)
    requires o + SpanBefore(fs, |fs|, headerSize) < tagSize
    requires parse(o + SpanBefore(fs, |fs|, headerSize)) == NoFrame
    ensures Walk(parse, o, tagSize, headerSize) == Success(fs)
    decreases |fs|
  {
    if fs != [] {
      var o' := o + fs[0].Size() + headerSize;
      assert |fs[1..]| == |fs| - 1;
      WalkFinds(parse, o', tagSize, headerSize, fs[1..]);
      assert fs == [fs[0]] + fs[1..];
    }
  }

  /** A frame walk that starts on a zero byte, such as padding, finds no
      frames. */
  lemma PaddingHasNoFrames(raw: seq<byte>, o: nat, tagSize: nat, version: Version)
    requires o < |raw| && raw[o] == 0
    ensures FramesFrom(raw, o, tagSize, version) == Success([])
  {
    InvalidIdMeansNoFrame(raw, o, version, o);
  }

  /** Where no 0xFF is followed by 0x00, from i up to m, the reversal copies
      those bytes one for one. */
  lemma {:induction false} UnsyncLengthNoPairs(s: seq<byte>, i: nat, m: nat)
    requires i <= m <= |s|
    requires forall k :: i <= k < m && k + 1 < |s| ==> !(s[k] == 0xFF && s[k + 1] == 0)
    ensures |UnsyncFrom(s, i)| == m - i + |UnsyncFrom(s, m)|
    decreases m - i
  {
    if i < m {
      assert UnsyncSkip(s, i) == 1;
      UnsyncLengthNoPairs(s, i + 1, m);
    }
  }

  /** Each step of the reversal keeps one byte of at most two. */
  lemma {:induction false} UnsyncHalfLength(s: seq<byte>, i: nat)
    requires i <= |s|
    ensures 2 * |UnsyncFrom(s, i)| >= |s| - i
    decreases |s| - i
  {
    if i < |s| {
      UnsyncHalfLength(s, i + UnsyncSkip(s, i));
    }
  }

  /** A header whose tag holds at least one byte keeps more than 10 bytes
      after the reversal of unsynchronisation when the body is zero: the only
      0xFF 0x00 pair the header can hold needs flags 0xFF, which announce an
      extended header and so a buffer of at least 14 bytes. */
  lemma UnsyncKeepsBody(buffer: seq<byte>)
    requires GetTagHeaderWithBuffer(buffer).Some?
    requires GetTagHeaderWithBuffer(buffer).value.unsynchronised
    requires forall i :: ID3_HEADER <= i < |buffer| ==> buffer[i] == 0
    requires GetTagOrigVersion(GetTagHeaderWithBuffer(buffer).value).Some?
    requires GetTagHeaderWithBuffer(buffer).value.tagSize > 0
    requires |buffer| >= GetTagHeaderWithBuffer(buffer).value.tagSize + ID3_HEADER
    ensures |Unsync(buffer)| > ID3_HEADER
  {
    var h := GetTagHeaderWithBuffer(buffer).value;
    if h.tagSize > ID3_HEADER {
      UnsyncHalfLength(buffer, 0);
    } else {
      assert buffer[..3] == ID3_TAG;
      assert buffer[5] != 0;
      assert forall k :: 6 <= k < ID3_HEADER ==> buffer[k] != 0xFF;
      UnsyncLengthNoPairs(buffer, ID3_HEADER, |buffer|);
      if buffer[5] == 0xFF && buffer[6] == 0 {
        assert HasFlag(buffer[5], FLAG_EXTENDED_HEADER);
        UnsyncLengthNoPairs(buffer, 0, 5);
        assert UnsyncSkip(buffer, 5) == 2;
        assert UnsyncFrom(buffer, 5) == [buffer[5]] + UnsyncFrom(buffer, 7);
        UnsyncLengthNoPairs(buffer, 7, |buffer|);
      } else {
        UnsyncLengthNoPairs(buffer, 0, |buffer|);
      }
    }
  }

  /** A tag whose body is all zero bytes loads, and holds no frames, whether
      or not it is unsynchronised. */
  lemma {:induction false} ZeroTagBodyHasNoFrames(buffer: seq<byte>)
    requires GetTagHeaderWithBuffer(buffer).Some?
    requires forall i :: ID3_HEADER <= i < |buffer| ==> buffer[i] == 0
    requires GetTagOrigVersion(GetTagHeaderWithBuffer(buffer).value).Some?
    requires |buffer| >= GetTagHeaderWithBuffer(buffer).value.tagSize + ID3_HEADER
    ensures LoadTag(buffer).Success? && LoadTag(buffer).value.frames == []
  {
    var h := GetTagHeaderWithBuffer(buffer).value;
    var version := GetTagOrigVersion(h).value;
    if HasFlag(buffer[5], FLAG_EXTENDED_HEADER) {
      assert buffer[10..14] == [0, 0, 0, 0];
    }
    assert FramesStart(h) == ID3_HEADER;
    var bytes := TagBytes(buffer, h);
    UnsyncFromZeroTail(buffer, ID3_HEADER, 0);
    assert forall j :: ID3_HEADER <= j < |bytes| ==> bytes[j] == 0;
    var raw := Clip(bytes, ID3_HEADER, h.tagSize);
    if h.tagSize > 0 {
      if h.unsynchronised {
        UnsyncKeepsBody(buffer);
      }
      assert raw[0] == bytes[ID3_HEADER];
      PaddingHasNoFrames(raw, 0, h.tagSize, version);
    }
  }

  // ---------------------------------------------------------------------
  // The writer's byte layouts

  /** The padding set_tag reserves after the frames. */
  const PADDING: nat := 2048

  /** A frame as the writer can lay it out: a 4-byte ID and 2 flag bytes, the
      fixed-size arrays of ID3v2_frame. */
  predicate WellFormed(f: Frame)
  {
    |f.id| == ID3_FRAME_ID && |f.flags| == ID3_FRAME_FLAGS
  }

  predicate AllWellFormed(fs: seq<Frame>)
  {
    forall i :: 0 <= i < |fs| ==> WellFormed(fs[i])
  }

  lemma AllWellFormedAppend(fs: seq<Frame>, f: Frame)
    requires AllWellFormed(fs) && WellFormed(f)
    ensures AllWellFormed(fs + [f])
  {
    assert forall i :: 0 <= i < |fs| ==> (fs + [f])[i] == fs[i];
  }

  /** write_header: "ID3", the version bytes, the flags and the sync-safe
      encoding of the tag size. */
  function WriteHeader(h: Header): (r: seq<byte>)
    ensures |r| == ID3_HEADER
  {
    ID3_TAG + [h.majorVersion, h.minorVersion, h.flags] + SyncSafeEncode(h.tagSize)
  }

  /** write_frame: the ID, the size as 4 plain big-endian bytes, the flags and
      the data, in the v2.3 layout whatever version the frame came from. */
  function WriteFrame(f: Frame): (r: seq<byte>)
    requires WellFormed(f)
    ensures |r| == ID3_FRAME + f.Size()
  {
    f.id + BigEndianBytes(f.Size()) + f.flags + f.data
  }

  /** The frames written one after another, as set_tag's loop over the list
      does. */
  function FramesBytes(fs: seq<Frame>): seq<byte>
    requires AllWellFormed(fs)
  {
    if fs == [] then [] else WriteFrame(fs[0]) + FramesBytes(fs[1..])
  }

  /** get_tag_size: the sum over the frames of their size plus the 10-byte
      v2.3 frame header. */
  function FramesSize(fs: seq<Frame>): nat
  {
    if fs == [] then 0 else fs[0].Size() + ID3_FRAME + FramesSize(fs[1..])
  }

  lemma {:induction false} FramesSizeAppend(fs: seq<Frame>, f: Frame)
    ensures FramesSize(fs + [f]) == FramesSize(fs) + f.Size() + ID3_FRAME
  {
    if fs != [] {
      assert (fs + [f])[1..] == fs[1..] + [f];
      FramesSizeAppend(fs[1..], f);
    } else {
      assert [f][1..] == [];
    }
  }

  lemma {:induction false} FramesBytesAppend(fs: seq<Frame>, f: Frame)
    requires AllWellFormed(fs)
    requires WellFormed(f)
    ensures FramesBytes(fs + [f]) == FramesBytes(fs) + WriteFrame(f)
  {
    if fs != [] {
      assert (fs + [f])[1..] == fs[1..] + [f];
      FramesBytesAppend(fs[1..], f);
    } else {
      assert [f][1..] == [];
    }
  }

  /** The written frames take exactly get_tag_size bytes. */
  lemma {:induction false} FramesBytesSize(fs: seq<Frame>)
    requires AllWellFormed(fs)
    ensures |FramesBytes(fs)| == FramesSize(fs)
  {
    if fs != [] {
      FramesBytesSize(fs[1..]);
    }
  }

  /** The header set_tag installs: "ID3", version 3.0, no flags, and a tag
      size of the frames' size plus the padding; the rest is zero, as from
      new_header. */
  function NewTagHeader(framesSize: nat): (r: Header)
    ensures r.tag == ID3_TAG && r.majorVersion == 3 && r.minorVersion == 0 && r.flags == 0
    ensures r.tagSize == framesSize + PADDING
    ensures !r.unsynchronised && r.extendedHeaderSize == 0
  {
    Header(ID3_TAG, 3, 0, 0, framesSize + PADDING, false, 0)
  }

  /** What follows the old tag in the file: everything from the old tag size
      plus the 10 header bytes on. */
  function Tail(file: seq<byte>, oldSize: nat): seq<byte>
  {
    if oldSize + ID3_HEADER <= |file| then file[oldSize + ID3_HEADER..] else []
  }

  /** The file set_tag writes: the new header, the frames, 2048 zero bytes and
      what followed the old tag. */
  function RewrittenFile(fs: seq<Frame>, file: seq<byte>, oldSize: nat): seq<byte>
    requires AllWellFormed(fs)
  {
    WriteHeader(NewTagHeader(FramesSize(fs))) + FramesBytes(fs) + Zeros(PADDING) + Tail(file, oldSize)
  }

  /** The declared tag size of a rewritten file is the frames' size plus
      exactly 2048, and the file is that tag followed by the old tail. */
  lemma RewrittenFileLayout(fs: seq<Frame>, file: seq<byte>, oldSize: nat)
    requires AllWellFormed(fs)
    ensures var out := RewrittenFile(fs, file, oldSize);
            var size := NewTagHeader(FramesSize(fs)).tagSize;
            && size == FramesSize(fs) + 2048
            && |out| == ID3_HEADER + size + |Tail(file, oldSize)|
            && out[ID3_HEADER + FramesSize(fs)..ID3_HEADER + size] == Zeros(PADDING)
            && out[ID3_HEADER + size..] == Tail(file, oldSize)
  {
    FramesBytesSize(fs);
    var out := RewrittenFile(fs, file, oldSize);
    var a := WriteHeader(NewTagHeader(FramesSize(fs))) + FramesBytes(fs);
    assert out == a + Zeros(PADDING) + Tail(file, oldSize);
    assert |a| == ID3_HEADER + FramesSize(fs);
  }

  /** Reading back a written header gives the fields that were written, the
      size modulo 2^28, when the extended-header flag is clear. */
  lemma {:induction false} WriteHeaderRoundTrip(h: Header, rest: seq<byte>)
    requires !HasFlag(h.flags, FLAG_EXTENDED_HEADER)
    ensures GetTagHeaderWithBuffer(WriteHeader(h) + rest) ==
      Some(Header(ID3_TAG, h.majorVersion, h.minorVersion, h.flags, h.tagSize % 0x1000_0000,
                  HasFlag(h.flags, FLAG_UNSYNCHRONISATION), 0))
  {
    var b := WriteHeader(h) + rest;
    assert b[..3] == ID3_TAG;
    assert b[3] == h.majorVersion && b[4] == h.minorVersion && b[5] == h.flags;
    assert b[6..10] == SyncSafeEncode(h.tagSize);
    SyncSafeRoundTrip(h.tagSize);
  }

  lemma SliceOfSlice(s: seq<byte>, a: nat, b: nat, i: nat, j: nat)
    requires a <= b <= |s| && i <= j <= b - a
    ensures s[a..b][i..j] == s[a + i..a + j]
  {
    assert forall k :: 0 <= k < j - i ==> s[a..b][i..j][k] == s[a + i + k];
  }

  /** The fields of a frame write_frame laid out at offset o. */
  lemma WrittenFrameFields(f: Frame, buffer: seq<byte>, o: nat)
    requires WellFormed(f)
    requires o + ID3_FRAME + f.Size() <= |buffer|
    requires buffer[o..o + ID3_FRAME + f.Size()] == WriteFrame(f)
    ensures buffer[o..o + 4] == f.id
    ensures buffer[o + 4..o + 8] == BigEndianBytes(f.Size())
    ensures buffer[o + 8..o + 10] == f.flags
    ensures buffer[o + 10..o + 10 + f.Size()] == f.data
  {
    var w := WriteFrame(f);
    var n := ID3_FRAME + f.Size();
    assert w == f.id + BigEndianBytes(f.Size()) + f.flags + f.data;
    assert w[..4] == f.id;
    assert w[4..8] == BigEndianBytes(f.Size());
    assert w[8..10] == f.flags;
    assert w[10..] == f.data;
    SliceOfSlice(buffer, o, o + n, 0, 4);
    SliceOfSlice(buffer, o, o + n, 4, 8);
    SliceOfSlice(buffer, o, o + n, 8, 10);
    SliceOfSlice(buffer, o, o + n, 10, n);
  }

  /** Parsing, as a v2.3 frame, the bytes write_frame emitted for a frame
      with a valid ID and a size below 2^32 gives back its ID, flags and data. */
  lemma {:induction false} WriteFrameRoundTrip(f: Frame, buffer: seq<byte>, o: nat)
    requires WellFormed(f) && IsValidFrameId(f.id) && f.Size() < 0x1_0000_0000
    requires o + ID3_FRAME + f.Size() <= |buffer|
    requires buffer[o..o + ID3_FRAME + f.Size()] == WriteFrame(f)
    ensures ParseFrame(buffer, o, V23) == Parsed(f.(version := V23))
  {
    WrittenFrameFields(f, buffer, o);
    BigEndianRoundTrip(f.Size());
    ParseFrame3Layout(buffer, o, V23);
  }

  /** AsV23(fs): the frames as the v2.3 parser reads them back. */
  function AsV23(fs: seq<Frame>): (r: seq<Frame>)
    ensures |r| == |fs|
  {
    if fs == [] then [] else [fs[0].(version := V23)] + AsV23(fs[1..])
  }

  /** The frames a writer can read back: valid IDs and sizes that fit the
      4-byte size field. */
  predicate Readable(fs: seq<Frame>)
  {
    forall i :: 0 <= i < |fs| ==> ReadableFrame(fs[i])
  }

  predicate ReadableFrame(f: Frame)
  {
    WellFormed(f) && IsValidFrameId(f.id) && f.Size() < 0x1_0000_0000
  }

  lemma ReadableTail(fs: seq<Frame>)
    requires fs != [] && Readable(fs)
    ensures Readable(fs[1..]) && FramesSize(fs) == FramesSize(fs[1..]) + ID3_FRAME + fs[0].Size()
  {
    assert forall i :: 0 <= i < |fs| - 1 ==> fs[1..][i] == fs[i + 1];
  }

  /** Where the bytes of a non-empty frame list lie in a buffer, the first
      frame's bytes come first and the rest's right after them. */
  lemma WrittenFramesAt(raw: seq<byte>, o: nat, fs: seq<Frame>)
    requires fs != [] && AllWellFormed(fs)
    requires o + FramesSize(fs) <= |raw| && raw[o..o + FramesSize(fs)] == FramesBytes(fs)
    ensures var n := ID3_FRAME + fs[0].Size();
            && FramesSize(fs) == n + FramesSize(fs[1..])
            && raw[o..o + n] == WriteFrame(fs[0])
            && raw[o + n..o + n + FramesSize(fs[1..])] == FramesBytes(fs[1..])
  {
    FramesBytesCons(fs);
    ConcatSlices(raw, o, WriteFrame(fs[0]), FramesBytes(fs[1..]));
  }

  lemma FramesBytesCons(fs: seq<Frame>)
    requires fs != [] && AllWellFormed(fs)
    ensures FramesBytes(fs) == WriteFrame(fs[0]) + FramesBytes(fs[1..])
    ensures FramesSize(fs) == ID3_FRAME + fs[0].Size() + FramesSize(fs[1..])
    ensures |FramesBytes(fs[1..])| == FramesSize(fs[1..])
  {
    FramesBytesSize(fs[1..]);
  }

  /** The k-th frame of a list laid out by write_frame sits at the span of
      the frames before it. */
  lemma {:induction false} WrittenFrameBytes(raw: seq<byte>, o: nat, fs: seq<Frame>, k: nat)
    requires Readable(fs) && k < |fs|
    requires o + FramesSize(fs) <= |raw| && raw[o..o + FramesSize(fs)] == FramesBytes(fs)
    ensures var at := o + SpanBefore(fs, k, ID3_FRAME);
            && at + ID3_FRAME + fs[k].Size() <= |raw|
            && raw[at..at + ID3_FRAME + fs[k].Size()] == WriteFrame(fs[k])
    decreases k
  {
    WrittenFramesAt(raw, o, fs);
    if k > 0 {
      ReadableTail(fs);
      WrittenFrameBytes(raw, o + ID3_FRAME + fs[0].Size(), fs[1..], k - 1);
      assert fs[1..][k - 1] == fs[k];
    }
  }

  /** Reading frames back as v2.3 keeps their order and changes only their
      version. */
  lemma {:induction false} AsV23At(fs: seq<Frame>, k: nat)
    requires k < |fs|
    ensures AsV23(fs)[k] == fs[k].(version := V23)
    decreases k
  {
    if k > 0 {
      AsV23At(fs[1..], k - 1);
    }
  }

  /** The frames' spans add up to their written size. */
  lemma {:induction false} SpanOfAll(fs: seq<Frame>)
    ensures SpanBefore(fs, |fs|, ID3_FRAME) == FramesSize(fs)
    decreases |fs|
  {
    if fs != [] {
      SpanOfAll(fs[1..]);
    }
  }

  /** parse finds the frames gs one after another when it finds the k-th of
      them at the span of the first k of fs, a list of frames of the same
      sizes. */
  lemma {:induction false} FindsAtEach(parse: nat -> FrameParse, o: nat, headerSize: nat, fs: seq<Frame>, gs: seq<Frame>)
    requires |gs| == |fs|
    requires forall k :: 0 <= k < |fs| ==> gs[k].Size() == fs[k].Size() && parse(o + SpanBefore(fs, k, headerSize)) == Parsed(gs[k])
    ensures FindsAt(parse, o, headerSize, gs)
    ensures SpanBefore(gs, |gs|, headerSize) == SpanBefore(fs, |fs|, headerSize)
    decreases |fs|
  {
    if fs != [] {
      assert parse(o + SpanBefore(fs, 0, headerSize)) == Parsed(gs[0]);
      var o' := o + fs[0].Size() + headerSize;
      forall k | 0 <= k < |fs[1..]|
        ensures gs[1..][k].Size() == fs[1..][k].Size() && parse(o' + SpanBefore(fs[1..], k, headerSize)) == Parsed(gs[1..][k])
      {
        assert parse(o + SpanBefore(fs, k + 1, headerSize)) == Parsed(gs[k + 1]);
      }
      FindsAtEach(parse, o', headerSize, fs[1..], gs[1..]);
    }
  }

  /** The frames of fs lie in raw one after another from o on, each as
      write_frame lays it out. */
  predicate LaidOut(raw: seq<byte>, o: nat, fs: seq<Frame>)
  {
    forall k {:trigger SpanBefore(fs, k, ID3_FRAME)} :: 0 <= k < |fs| ==> FrameLaidOutAt(raw, o + SpanBefore(fs, k, ID3_FRAME), fs[k])
  }

  predicate FrameLaidOutAt(raw: seq<byte>, at: nat, f: Frame)
  {
    WellFormed(f) && at + ID3_FRAME + f.Size() <= |raw| && raw[at..at + ID3_FRAME + f.Size()] == WriteFrame(f)
  }

  /** The bytes of FramesBytes(fs) lay the frames out one after another. */
  lemma WrittenFramesLaidOut(raw: seq<byte>, o: nat, fs: seq<Frame>)
    requires Readable(fs)
    requires o + FramesSize(fs) <= |raw| && raw[o..o + FramesSize(fs)] == FramesBytes(fs)
    ensures LaidOut(raw, o, fs)
  {
    forall k | 0 <= k < |fs|
      ensures FrameLaidOutAt(raw, o + SpanBefore(fs, k, ID3_FRAME), fs[k])
    {
      WrittenFrameBytes(raw, o, fs, k);
    }
  }

  /** The v2.3 parser reads a frame write_frame laid out back, as a v2.3 frame. */
  lemma ParsesWritten(raw: seq<byte>, at: nat, f: Frame)
    requires ReadableFrame(f) && FrameLaidOutAt(raw, at, f)
    ensures Parser(raw, V23)(at) == Parsed(f.(version := V23))
  {
    WriteFrameRoundTrip(f, raw, at);
    ParserApply(raw, V23, at);
  }

  /** parse reads every frame write_frame laid out in raw back, as a v2.3
      frame. */
  ghost predicate ReadsBackWritten(parse: nat -> FrameParse, raw: seq<byte>)
  {
    forall at: nat, f: Frame {:trigger FrameLaidOutAt(raw, at, f)} ::
      FrameLaidOutAt(raw, at, f) && ReadableFrame(f) ==> parse(at) == Parsed(f.(version := V23))
  }

  lemma ParserReadsBackWritten(raw: seq<byte>)
    ensures ReadsBackWritten(Parser(raw, V23), raw)
  {
    forall at: nat, f: Frame | FrameLaidOutAt(raw, at, f) && ReadableFrame(f)
      ensures Parser(raw, V23)(at) == Parsed(f.(version := V23))
    {
      ParsesWritten(raw, at, f);
    }
  }

  /** A parser that reads written frames back finds, one after another, the
      frames laid out from o on, and they span the frames' size. */
  lemma WrittenFramesFound(parse: nat -> FrameParse, raw: seq<byte>, o: nat, fs: seq<Frame>)
    requires ReadsBackWritten(parse, raw)
    requires Readable(fs) && LaidOut(raw, o, fs)
    ensures FindsAt(parse, o, ID3_FRAME, AsV23(fs))
    ensures SpanBefore(AsV23(fs), |fs|, ID3_FRAME) == FramesSize(fs)
  {
    WrittenFramesEach(parse, raw, o, fs);
    FindsAtEach(parse, o, ID3_FRAME, fs, AsV23(fs));
    SpanOfAll(fs);
  }

  /** Such a parser reads each laid-out frame back at its span. */
  lemma WrittenFramesEach(parse: nat -> FrameParse, raw: seq<byte>, o: nat, fs: seq<Frame>)
    requires ReadsBackWritten(parse, raw)
    requires Readable(fs) && LaidOut(raw, o, fs)
    ensures |AsV23(fs)| == |fs|
    ensures forall k :: 0 <= k < |fs| ==>
              AsV23(fs)[k].Size() == fs[k].Size() && parse(o + SpanBefore(fs, k, ID3_FRAME)) == Parsed(AsV23(fs)[k])
  {
    forall k | 0 <= k < |fs|
      ensures AsV23(fs)[k].Size() == fs[k].Size()
      ensures parse(o + SpanBefore(fs, k, ID3_FRAME)) == Parsed(AsV23(fs)[k])
    {
      ReadBackAt(parse, raw, o, fs, k);
    }
  }

  lemma ReadBackAt(parse: nat -> FrameParse, raw: seq<byte>, o: nat, fs: seq<Frame>, k: nat)
    requires ReadsBackWritten(parse, raw)
    requires Readable(fs) && LaidOut(raw, o, fs) && k < |fs|
    ensures AsV23(fs)[k].Size() == fs[k].Size()
    ensures parse(o + SpanBefore(fs, k, ID3_FRAME)) == Parsed(AsV23(fs)[k])
  {
    AsV23At(fs, k);
    assert FrameLaidOutAt(raw, o + SpanBefore(fs, k, ID3_FRAME), fs[k]);
    assert ReadableFrame(fs[k]);
  }

  /** Walking frames laid out by write_frame and followed by a zero byte
      gives the frames back, as v2.3 frames. */
  lemma WalkWrittenFrames(raw: seq<byte>, o: nat, fs: seq<Frame>, tagSize: nat)
    requires Readable(fs)
    requires o + FramesSize(fs) < |raw| && raw[o..o + FramesSize(fs)] == FramesBytes(fs)
    requires raw[o + FramesSize(fs)] == 0
    requires o + FramesSize(fs) < tagSize
    ensures FramesFrom(raw, o, tagSize, V23) == Success(AsV23(fs))
  {
    var end := o + FramesSize(fs);
    WrittenFramesLaidOut(raw, o, fs);
    ParserReadsBackWritten(raw);
    WrittenFramesFound(Parser(raw, V23), raw, o, fs);
    InvalidIdMeansNoFrame(raw, end, V23, end);
    ParserApply(raw, V23, end);
    WalkFinds(Parser(raw, V23), o, tagSize, ID3_FRAME, AsV23(fs));
  }

  /** The tag body set_tag writes: the frames' bytes and then zeros. */
  lemma PaddedBody(fs: seq<Frame>)
    requires AllWellFormed(fs)
    ensures var body := FramesBytes(fs) + Zeros(PADDING);
            && |body| == FramesSize(fs) + PADDING
            && body[0..FramesSize(fs)] == FramesBytes(fs)
            && body[FramesSize(fs)] == 0
  {
    FramesBytesSize(fs);
    var body := FramesBytes(fs) + Zeros(PADDING);
    assert body[FramesSize(fs)] == Zeros(PADDING)[0];
  }

  /** Loading a rewritten file gives the frames that were written, as v2.3
      frames, under the header set_tag installed, when every frame has a valid
      ID and the tag size fits the 28 bits of the sync-safe size field. */
  lemma {:induction false} LoadRewrittenFile(fs: seq<Frame>, file: seq<byte>, oldSize: nat)
    requires Readable(fs)
    requires FramesSize(fs) + PADDING < 0x1000_0000
    ensures var h := NewTagHeader(FramesSize(fs));
            LoadTag(RewrittenFile(fs, file, oldSize)) ==
              Success(TagImage(h, FramesBytes(fs) + Zeros(PADDING), AsV23(fs)))
  {
    var h := NewTagHeader(FramesSize(fs));
    var body := FramesBytes(fs) + Zeros(PADDING);
    RewrittenFileSplit(fs, file, oldSize);
    WrittenTagReadsBack(h, body, Tail(file, oldSize));
    PaddedBody(fs);
    WalkWrittenFrames(body, 0, fs, h.tagSize);
  }

  /** A rewritten file is the header followed by a tag body of tag-size
      bytes. */
  lemma RewrittenFileSplit(fs: seq<Frame>, file: seq<byte>, oldSize: nat)
    requires AllWellFormed(fs)
    ensures var h := NewTagHeader(FramesSize(fs));
            var body := FramesBytes(fs) + Zeros(PADDING);
            && RewrittenFile(fs, file, oldSize) == WriteHeader(h) + (body + Tail(file, oldSize))
            && |body| == h.tagSize
  {
    FramesBytesSize(fs);
  }

  /** A v2.3.0 header without flags followed by tag-size bytes reads back as
      that header, with those bytes as the tag body. */
  lemma WrittenTagReadsBack(h: Header, body: seq<byte>, tail: seq<byte>)
    requires h == Header(ID3_TAG, 3, 0, 0, |body|, false, 0) && |body| < 0x1000_0000
    ensures var out := WriteHeader(h) + (body + tail);
            && GetTagHeaderWithBuffer(out) == Some(h)
            && |out| >= h.tagSize + ID3_HEADER
            && Clip(TagBytes(out, h), FramesStart(h), h.tagSize) == body
  {
    var out := WriteHeader(h) + (body + tail);
    assert !HasFlag(0, FLAG_EXTENDED_HEADER) && !HasFlag(0, FLAG_UNSYNCHRONISATION);
    WriteHeaderRoundTrip(h, body + tail);
    assert out[ID3_HEADER..ID3_HEADER + |body|] == body;
  }

  // ---------------------------------------------------------------------
  // Frame lookup and the setters' payloads

  const FRONT_COVER: byte := 3

  /** The fields with a getter and a setter, and their frame IDs. */
  datatype Field = Title | Artist | Album | AlbumArtist | Genre | Track | Year | Comment | DiscNumber | Composer | AlbumCover
  {
    predicate IsTextField()
    {
      this != Comment && this != AlbumCover
    }

    function Id(): (r: seq<byte>)
      ensures |r| == 4 && IsValidFrameId(r)
    {
      match this
      case Title => [0x54, 0x49, 0x54, 0x32]        // TIT2
      case Artist => [0x54, 0x50, 0x45, 0x31]       // TPE1
      case Album => [0x54, 0x41, 0x4C, 0x42]        // TALB
      case AlbumArtist => [0x54, 0x50, 0x45, 0x32]  // TPE2
      case Genre => [0x54, 0x43, 0x4F, 0x4E]        // TCON
      case Track => [0x54, 0x52, 0x43, 0x4B]        // TRCK
      case Year => [0x54, 0x59, 0x45, 0x52]         // TYER
      case Comment => [0x43, 0x4F, 0x4D, 0x4D]      // COMM
      case DiscNumber => [0x54, 0x50, 0x4F, 0x53]   // TPOS
      case Composer => [0x54, 0x43, 0x4F, 0x4D]     // TCOM
      case AlbumCover => [0x41, 0x50, 0x49, 0x43]   // APIC
    }
  }

  /** The eleven fields have eleven different frame IDs. */
  lemma FieldIdsDistinct(a: Field, b: Field)
    ensures a.Id() == b.Id() ==> a == b
  {
  }

  /** The position of the first frame with the given ID (get_from_list). */
  function FirstIndexOf(fs: seq<Frame>, id: seq<byte>): (r: Option<nat>)
    ensures r.Some? ==> r.value < |fs| && fs[r.value].id == id && forall j :: 0 <= j < r.value ==> fs[j].id != id
    ensures r.None? ==> forall j :: 0 <= j < |fs| ==> fs[j].id != id
  {
    if fs == [] then None
    else if fs[0].id == id then Some(0)
    else
      match FirstIndexOf(fs[1..], id)
      case None => None
      case Some(k) => Some(k + 1)
  }

  function FindFrame(fs: seq<Frame>, id: seq<byte>): Option<Frame>
  {
    match FirstIndexOf(fs, id)
    case None => None
    case Some(k) => Some(fs[k])
  }

  /** How many frames carry the ID. */
  function CountId(fs: seq<Frame>, id: seq<byte>): nat
  {
    if fs == [] then 0 else (if fs[0].id == id then 1 else 0) + CountId(fs[1..], id)
  }

  /** set_text_frame's payload: the encoding byte, then the text. */
  function TextFrameData(text: seq<byte>, encoding: byte): seq<byte>
  {
    [encoding] + text
  }

  /** set_comment_frame's payload: the encoding byte, the language "eng", an
      empty short description and the comment. */
  function CommentFrameData(text: seq<byte>, encoding: byte): seq<byte>
  {
    [encoding, 0x65, 0x6E, 0x67, 0] + text
  }

  /** set_album_cover_frame's payload: Latin-1 encoding, the MIME type and its
      NUL, the front-cover picture type, an empty description and the picture. */
  function AlbumCoverFrameData(picture: seq<byte>, mimeType: seq<byte>): seq<byte>
  {
    [0] + mimeType + [0, FRONT_COVER, 0] + picture
  }

  /** set_text_frame, set_comment_frame and set_album_cover_frame: the frame
      gets the ID and the payload; its flags and version stay as they were. */
  function SetFrame(frame: Frame, id: seq<byte>, data: seq<byte>): Frame
  {
    frame.(id := id, data := data)
  }

  /** new_frame.  The C leaves every field uninitialised; here the frame
      starts with zero flags, version 2.3 and no data. */
  function NewFrame(): Frame
  {
    Frame([0, 0, 0, 0], [0, 0], [], V23)
  }

  /** The frame list after a tag_set_* call: the first frame with the ID gets
      the payload, or a new frame with it is appended. */
  function Upsert(fs: seq<Frame>, id: seq<byte>, data: seq<byte>): seq<Frame>
  {
    match FirstIndexOf(fs, id)
    case Some(k) => fs[k := SetFrame(fs[k], id, data)]
    case None => fs + [SetFrame(NewFrame(), id, data)]
  }

  /** Find-or-append: when a frame with the ID exists the list keeps its
      length and only the first such frame is rewritten (its flags and
      version kept); otherwise one frame is appended at the end.  Every other
      frame is untouched. */
  lemma UpsertFindOrAppend(fs: seq<Frame>, id: seq<byte>, data: seq<byte>)
    ensures var r := Upsert(fs, id, data);
      match FirstIndexOf(fs, id)
      case Some(k) =>
        && |r| == |fs|
        && r[k] == Frame(id, fs[k].flags, data, fs[k].version)
        && (forall j :: 0 <= j < |fs| && j != k ==> r[j] == fs[j])
      case None =>
        && |r| == |fs| + 1
        && r[..|fs|] == fs
        && r[|fs|] == Frame(id, [0, 0], data, V23)
  {
  }

  /** After a set, the getter for the ID finds a frame holding the payload. */
  lemma GetAfterUpsert(fs: seq<Frame>, id: seq<byte>, data: seq<byte>)
    ensures FindFrame(Upsert(fs, id, data), id).Some?
    ensures FindFrame(Upsert(fs, id, data), id).value.data == data
  {
    var r := Upsert(fs, id, data);
    match FirstIndexOf(fs, id) {
      case Some(k) => FirstIndexOfUnique(r, id, k);
      case None => FirstIndexOfUnique(r, id, |fs|);
    }
  }

  /** After a set, the getter for any other ID finds what it found before. */
  lemma GetOtherAfterUpsert(fs: seq<Frame>, id: seq<byte>, data: seq<byte>, other: seq<byte>)
    requires other != id
    ensures FindFrame(Upsert(fs, id, data), other) == FindFrame(fs, other)
  {
    var r := Upsert(fs, id, data);
    match FirstIndexOf(fs, other) {
      case None =>
        assert FirstIndexOf(r, other).None?;
      case Some(m) =>
        FirstIndexOfUnique(r, other, m);
    }
  }

  /** The first position holding the ID is the one FirstIndexOf finds. */
  lemma FirstIndexOfUnique(fs: seq<Frame>, id: seq<byte>, k: nat)
    requires k < |fs| && fs[k].id == id && forall j :: 0 <= j < k ==> fs[j].id != id
    ensures FirstIndexOf(fs, id) == Some(k)
  {
  }

  lemma {:induction false} CountIdAppend(fs: seq<Frame>, f: Frame, id: seq<byte>)
    ensures CountId(fs + [f], id) == CountId(fs, id) + (if f.id == id then 1 else 0)
  {
    if fs == [] {
      assert [f][1..] == [];
    } else {
      assert (fs + [f])[1..] == fs[1..] + [f];
      CountIdAppend(fs[1..], f, id);
    }
  }

  lemma {:induction false} CountIdUpdate(fs: seq<Frame>, k: nat, f: Frame, id: seq<byte>)
    requires k < |fs|
    ensures CountId(fs[k := f], id) ==
      CountId(fs, id) - (if fs[k].id == id then 1 else 0) + (if f.id == id then 1 else 0)
  {
    if k == 0 {
      assert fs[k := f][1..] == fs[1..];
    } else {
      assert fs[k := f][1..] == fs[1..][k - 1 := f];
      CountIdUpdate(fs[1..], k - 1, f, id);
    }
  }

  lemma {:induction false} CountIdZero(fs: seq<Frame>, id: seq<byte>)
    ensures CountId(fs, id) == 0 <==> forall j :: 0 <= j < |fs| ==> fs[j].id != id
  {
    if fs != [] {
      CountIdZero(fs[1..], id);
      if forall j :: 0 <= j < |fs[1..]| ==> fs[1..][j].id != id {
        assert forall j :: 1 <= j < |fs| ==> fs[j].id != id by {
          forall j | 1 <= j < |fs| ensures fs[j].id != id {
            assert fs[1..][j - 1] == fs[j];
          }
        }
      }
    }
  }

  /** A set never duplicates a frame: the ID occurs once afterwards if it did
      not occur before, and as often as before otherwise. */
  lemma {:induction false} UpsertCount(fs: seq<Frame>, id: seq<byte>, data: seq<byte>)
    ensures CountId(Upsert(fs, id, data), id) == if CountId(fs, id) == 0 then 1 else CountId(fs, id)
  {
    CountIdZero(fs, id);
    match FirstIndexOf(fs, id)
    case Some(k) =>
      CountIdUpdate(fs, k, SetFrame(fs[k], id, data), id);
    case None =>
      CountIdAppend(fs, SetFrame(NewFrame(), id, data), id);
  }

  /** Setting a field twice on a list without its frame leaves exactly one
      frame with that ID, holding the second payload. */
  lemma SetTwice(fs: seq<Frame>, id: seq<byte>, first: seq<byte>, second: seq<byte>)
    requires CountId(fs, id) == 0
    ensures CountId(Upsert(Upsert(fs, id, first), id, second), id) == 1
    ensures FindFrame(Upsert(Upsert(fs, id, first), id, second), id).Some?
    ensures FindFrame(Upsert(Upsert(fs, id, first), id, second), id).value.data == second
  {
    UpsertCount(fs, id, first);
    UpsertCount(Upsert(fs, id, first), id, second);
    GetAfterUpsert(Upsert(fs, id, first), id, second);
  }

  /** A text frame built from a C string (no NUL) reads back, once decoded,
      as that text with a string and a list terminator; an empty text gives a
      frame of size 1, which decodes to nothing. */
  lemma {:induction false} TextFrameRoundTrip(frame: Frame, id: seq<byte>, text: seq<byte>, encoding: byte)
    requires NoNul(text)
    ensures var bpc := BytesPerCharForEncoding(encoding);
            ParseTextFrameContent(Some(SetFrame(frame, id, TextFrameData(text, encoding)))) ==
              if text == [] then None else Some(TextContent(encoding, text + Zeros(2 * bpc)))
  {
    var f := SetFrame(frame, id, TextFrameData(text, encoding));
    assert f.data[1..] == text;
    var bpc := BytesPerCharForEncoding(encoding);
    if text != [] && |text| >= bpc + 1 {
      if bpc == 2 {
        assert text[2 * (|text| / 2 - 1)] != 0;
      } else {
        assert text[|text| - 1] != 0;
      }
      assert LastNonZero(text, bpc);
    }
  }

  /** The same round trip through the decoder as written: a text without NUL
      has non-zero last and penultimate units, where both rules agree. */
  lemma {:induction false} TextFrameRoundTripAsWritten(frame: Frame, id: seq<byte>, text: seq<byte>, encoding: byte)
    requires NoNul(text)
    ensures var bpc := BytesPerCharForEncoding(encoding);
            ParseTextFrameContentAsWritten(Some(SetFrame(frame, id, TextFrameData(text, encoding)))) ==
              if text == [] then None else Some(TextContent(encoding, text + Zeros(2 * bpc)))
  {
    var f := SetFrame(frame, id, TextFrameData(text, encoding));
    TextFrameRoundTrip(frame, id, text, encoding);
    if text != [] {
      assert f.data[1..] == text;
      var bpc := BytesPerCharForEncoding(encoding);
      if |text| >= 2 * bpc + 1 {
        if bpc == 2 {
          assert text[2 * (|text| / 2 - 2)] != 0;
        } else {
          assert text[|text| - 2] != 0;
        }
      }
      assert PenultimateNonZero(text, bpc);
      TextDecodersAgree(f);
    }
  }

  /** A comment frame built by set_comment_frame reads back with the given
      encoding, language "eng", no short description and the comment text. */
  lemma CommentFrameRoundTrip(frame: Frame, text: seq<byte>, encoding: byte)
    ensures ParseCommentFrameContent(Some(SetFrame(frame, Field.Comment.Id(), CommentFrameData(text, encoding))))
         == Some(CommentContent([0x65, 0x6E, 0x67], [], TextContent(encoding, text)))
  {
    var d := CommentFrameData(text, encoding);
    assert d[1..4] == [0x65, 0x6E, 0x67];
    assert d[5..] == text;
  }

  /** An album-cover frame of a v2.3/v2.4 tag reads back as Latin-1, the
      MIME type, a front cover, an empty description and the picture. */
  lemma {:induction false} AlbumCoverFrameRoundTrip(frame: Frame, picture: seq<byte>, mimeType: seq<byte>)
    requires NoNul(mimeType)
    requires frame.version != V22
    ensures ApicContentOf(Some(SetFrame(frame, Field.AlbumCover.Id(), AlbumCoverFrameData(picture, mimeType))))
         == Some(ApicContent(0, mimeType, FRONT_COVER, [], picture))
  {
    var d := AlbumCoverFrameData(picture, mimeType);
    var m := |mimeType|;
    assert d[1..1 + m] == mimeType;
    assert d[1 + m] == 0 && d[2 + m] == FRONT_COVER && d[3 + m] == 0;
    assert forall j :: 1 <= j < 1 + m ==> d[j] == mimeType[j - 1];
    ZeroByteFromFinds(d, 1, 1 + m);
    ZeroByteFromFinds(d, 3 + m, 3 + m);
    assert d[4 + m..] == picture;
    var f := SetFrame(frame, Field.AlbumCover.Id(), d);
    assert f.data == d && f.version == frame.version;
    assert MimeTypeAt(d, f.version) == Some((mimeType, 1 + m));
    assert BytesPerCharForEncoding(d[0]) == 1;
    assert DescriptionEnd(d, 3 + m, 1) == Some(3 + m);
    assert d[3 + m..3 + m] == [];
  }

  // ---------------------------------------------------------------------
  // The tag

  /** ID3v2_tag: its header, the raw tag body the frames were read from, and
      the ordered frame list. */
  class Tag {
    var header: Header
    var raw: seq<byte>
    var frames: seq<Frame>

    /** Every frame has a 4-byte ID and 2 flag bytes. */
    predicate Valid()
      reads this
    {
      AllWellFormed(frames)
    }

    function Image(): TagImage
      reads this
    {
      TagImage(header, raw, frames)
    }

    /** new_tag: a zeroed header and an empty frame list. */
    constructor ()
      ensures Valid()
      ensures header == Header([0, 0, 0], 0, 0, 0, 0, false, 0)
      ensures raw == [] && frames == []
    {
      header := Header([0, 0, 0], 0, 0, 0, 0, false, 0);
      raw := [];
      frames := [];
    }

    /** load_tag_with_buffer: validates the header, reverses the
        unsynchronisation if the header says so, skips the extended header,
        and walks the frames, appending them in buffer order. */
    static method LoadTagWithBuffer(buffer: seq<byte>) returns (r: Result<Tag, LoadError>)
      ensures r.Success? ==> fresh(r.value) && r.value.Valid() && LoadTag(buffer) == Success(r.value.Image())
      ensures r.Failure? ==> LoadTag(buffer) == Failure(r.error)
    {
      var tagHeader := GetTagHeaderWithBuffer(buffer);
      if tagHeader.None? {
        return Failure(NoValidHeader);
      }
      var h := tagHeader.value;
      var orig := GetTagOrigVersion(h);
      if orig.None? {
        return Failure(NoCompatibleTag);
      }
      if |buffer| < h.tagSize + ID3_HEADER {
        return Failure(NotEnoughBytes);
      }
      var tag := new Tag();
      tag.header := h;
      tag.raw := ReadTagBody(buffer, h);
      var e := tag.LoadFrames(orig.value);
      if e.Some? {
        return Failure(e.value);
      }
      return Success(tag);
    }

    /** The bytes the loader copies into `raw`: the buffer, reversed if the
        tag is unsynchronised, from the first frame on, at most tag-size
        bytes. */
    static method ReadTagBody(buffer: seq<byte>, h: Header) returns (raw: seq<byte>)
      ensures raw == Clip(TagBytes(buffer, h), FramesStart(h), h.tagSize)
    {
      var bytes := buffer;
      if h.unsynchronised {
        var copy := new byte[|buffer|];
        ReverseUnsynchronisation(copy, buffer);
        bytes := copy[..|Unsync(buffer)|];
      }
      raw := Clip(bytes, FramesStart(h), h.tagSize);
    }

    /** The frame loop of load_tag_with_buffer, run with the frame parser of
        the tag's version and its frame-header length. */
    method LoadFrames(version: Version) returns (e: Option<LoadError>)
      requires frames == []
      modifies this
      ensures header == old(header) && raw == old(raw) && Valid()
      ensures e.None? ==> FramesFrom(raw, 0, header.tagSize, version) == Success(frames)
      ensures e.Some? ==> FramesFrom(raw, 0, header.tagSize, version) == Failure(e.value)
    {
      var frameHeaderSize := if version == V22 then ID3_FRAME_v22 else ID3_FRAME;
      ParsedFramesWellFormed(raw, version);
      e := WalkFrames(Parser(raw, version), frameHeaderSize);
    }

    /** The frame loop itself: parses frames from `raw` while the offset is
        below the tag size and appends each to the list, stopping where no
        frame is found and failing on a truncated frame. */
    method WalkFrames(parse: nat -> FrameParse, frameHeaderSize: nat) returns (e: Option<LoadError>)
      requires frames == [] && frameHeaderSize > 0
      requires forall o: nat :: parse(o).Parsed? ==> WellFormed(parse(o).frame)
      modifies this
      ensures header == old(header) && raw == old(raw) && Valid()
      ensures e.None? ==> Walk(parse, 0, header.tagSize, frameHeaderSize) == Success(frames)
      ensures e.Some? ==> Walk(parse, 0, header.tagSize, frameHeaderSize) == Failure(e.value)
    {
      var offset := 0;
      ghost var all := Walk(parse, 0, header.tagSize, frameHeaderSize);
      if all.Success? {
        assert [] + all.value == all.value;
      }
      while offset < header.tagSize
        invariant header == old(header) && raw == old(raw) && Valid()
        invariant all == Prepend(frames, Walk(parse, offset, header.tagSize, frameHeaderSize))
        decreases header.tagSize - offset
      {
        var frame := parse(offset);
        if frame.NoFrame? {
          break;
        }
        if frame.Truncated? {
          return Some(TruncatedFrame);
        }
        var next := offset + frame.frame.Size() + frameHeaderSize;
        PrependAssoc(frames, frame.frame, Walk(parse, next, header.tagSize, frameHeaderSize));
        AllWellFormedAppend(frames, frame.frame);
        frames := frames + [frame.frame];
        offset := next;
      }
      assert frames + [] == frames;
      return None;
    }

    /** get_tag_size: the accumulator loop over the frame list. */
    method GetTagSize() returns (size: nat)
      ensures size == FramesSize(frames)
    {
      size := 0;
      var i := 0;
      while i < |frames|
        invariant 0 <= i <= |frames|
        invariant size == FramesSize(frames[..i])
      {
        FramesSizeAppend(frames[..i], frames[i]);
        assert frames[..i + 1] == frames[..i] + [frames[i]];
        size := size + frames[i].Size() + ID3_FRAME;
        i := i + 1;
      }
      assert frames[..i] == frames;
    }

    /** The header-building and byte-producing part of set_tag: installs the
        new v2.3.0 header and returns the bytes written over the file, which
        is given as its old contents. */
    method SetTag(file: seq<byte>) returns (written: seq<byte>)
      requires Valid()
      modifies this
      ensures header == NewTagHeader(FramesSize(frames))
      ensures frames == old(frames) && raw == old(raw) && Valid()
      ensures written == RewrittenFile(frames, file, old(header).tagSize)
    {
      var oldSize := header.tagSize;
      var size := GetTagSize();
      header := NewTagHeader(size);
      written := WriteHeader(header);
      var fs := frames;
      var i := 0;
      while i < |fs|
        invariant 0 <= i <= |fs|
        invariant header == NewTagHeader(size) && frames == fs && raw == old(raw)
        invariant forall j :: 0 <= j < i ==> WellFormed(fs[..i][j])
        invariant written == WriteHeader(NewTagHeader(size)) + FramesBytes(fs[..i])
      {
        assert fs[..i + 1] == fs[..i] + [fs[i]];
        FramesBytesAppend(fs[..i], fs[i]);
        written := written + WriteFrame(fs[i]);
        i := i + 1;
      }
      assert fs[..i] == fs;
      written := written + Zeros(PADDING) + Tail(file, oldSize);
    }

    /** The find-or-append of every tag_set_*: the first frame with the ID,
        or a new frame appended for it, gets the payload. */
    method SetField(id: seq<byte>, data: seq<byte>)
      requires Valid() && |id| == ID3_FRAME_ID
      modifies this
      ensures frames == Upsert(old(frames), id, data)
      ensures header == old(header) && raw == old(raw) && Valid()
    {
      var k := FirstIndexOf(frames, id);
      if k.None? {
        frames := frames + [NewFrame()];
        k := Some(|frames| - 1);
      }
      frames := frames[k.value := SetFrame(frames[k.value], id, data)];
    }

    /** tag_set_title, tag_set_artist, tag_set_album, tag_set_album_artist,
        tag_set_genre, tag_set_track, tag_set_year, tag_set_disc_number and
        tag_set_composer. */
    method SetTextField(field: Field, text: seq<byte>, encoding: byte)
      requires Valid() && field.IsTextField() && NoNul(text)
      modifies this
      ensures frames == Upsert(old(frames), field.Id(), TextFrameData(text, encoding))
      ensures header == old(header) && raw == old(raw) && Valid()
    {
      SetField(field.Id(), TextFrameData(text, encoding));
    }

    /** tag_set_comment. */
    method SetComment(text: seq<byte>, encoding: byte)
      requires Valid() && NoNul(text)
      modifies this
      ensures frames == Upsert(old(frames), Field.Comment.Id(), CommentFrameData(text, encoding))
      ensures header == old(header) && raw == old(raw) && Valid()
    {
      SetField(Field.Comment.Id(), CommentFrameData(text, encoding));
    }

    /** tag_set_album_cover_from_bytes; the picture size is |picture|. */
    method SetAlbumCoverFromBytes(picture: seq<byte>, mimeType: seq<byte>)
      requires Valid() && NoNul(mimeType)
      modifies this
      ensures frames == Upsert(old(frames), Field.AlbumCover.Id(), AlbumCoverFrameData(picture, mimeType))
      ensures header == old(header) && raw == old(raw) && Valid()
    {
      SetField(Field.AlbumCover.Id(), AlbumCoverFrameData(picture, mimeType));
    }
  }

  /** tag_get_title, tag_get_artist, ..., tag_get_album_cover: no frame for
      no tag, otherwise the first frame with the field's ID. */
  function TagGet(tag: Tag?, field: Field): (r: Option<Frame>)
    reads tag
    ensures r.Some? <==> tag != null && exists j :: 0 <= j < |tag.frames| && tag.frames[j].id == field.Id()
    ensures r.Some? ==> r.value.id == field.Id() && r.value in tag.frames
    ensures r.Some? ==>
      exists k :: 0 <= k < |tag.frames| && r.value == tag.frames[k] &&
        forall j :: 0 <= j < k ==> tag.frames[j].id != field.Id()
  {
    if tag == null then None else FindFrame(tag.frames, field.Id())
  }
}
