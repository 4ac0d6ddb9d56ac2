/** Byte-level helpers the codec relies on: big-endian integers (`btoi`,
    `itob`) and the sync-safe integer format of section 6.2 of the ID3v2.4.0
    structure document (`syncint_decode`, `syncint_encode`).  The C helpers
    live in utils.c, which is not part of this model; they are defined here
    from the standard. */
module Utils {

  /** One octet of a buffer, read as an unsigned value. */
  type byte = x: int | 0 <= x < 0x100

  /** The tag version a tag was written under (constants.h). */
  datatype Version = V22 | V23 | V24

  /** n zero bytes, as calloc or the writer's padding loop produce them. */
  function Zeros(n: nat): (r: seq<byte>)
    ensures |r| == n && forall i :: 0 <= i < n ==> r[i] == 0
  {
    seq(n, _ => 0)
  }

  predicate NoNul(s: seq<byte>)
  {
    forall i :: 0 <= i < |s| ==> s[i] != 0
  }

  function Pow256(n: nat): (r: nat)
    ensures r >= 1
  {
    if n == 0 then 1 else 256 * Pow256(n - 1)
  }

  /** `btoi`: the big-endian unsigned value of the bytes. */
  function BigEndian(s: seq<byte>): nat
  {
    if s == [] then 0 else BigEndian(s[..|s| - 1]) * 256 + s[|s| - 1]
  }

  /** n bytes hold a big-endian value below 256^n. */
  lemma {:induction false} BigEndianBound(s: seq<byte>)
    ensures BigEndian(s) < Pow256(|s|)
    decreases |s|
  {
    if s != [] {
      var p := BigEndian(s[..|s| - 1]);
      BigEndianBound(s[..|s| - 1]);
      assert p * 256 <= Pow256(|s|) - 256;
    }
  }

  lemma BigEndian3(s: seq<byte>)
    requires |s| == 3
    ensures BigEndian(s) == (s[0] as int * 256 + s[1]) * 256 + s[2]
  {
    assert s[..2][..1] == s[..1];
    assert s[..1][..0] == [];
    assert BigEndian(s[..1]) == s[0];
    assert BigEndian(s[..2]) == s[0] as int * 256 + s[1];
  }

  lemma BigEndian4(s: seq<byte>)
    requires |s| == 4
    ensures BigEndian(s) == ((s[0] as int * 256 + s[1]) * 256 + s[2]) * 256 + s[3]
  {
    BigEndian3(s[..3]);
  }

  /** `itob`: the four big-endian bytes of the low 32 bits of v. */
  function BigEndianBytes(v: nat): (r: seq<byte>)
    ensures |r| == 4
  {
    [v / 0x100 / 0x100 / 0x100 % 0x100, v / 0x100 / 0x100 % 0x100, v / 0x100 % 0x100, v % 0x100]
  }

  /** Reading back what `itob` wrote gives the value, modulo 2^32. */
  lemma {:induction false} BigEndianRoundTrip(v: nat)
    ensures BigEndian(BigEndianBytes(v)) == v % 0x1_0000_0000
  {
    var q1, r0 := v / 0x100, v % 0x100;
    var q2, r1 := q1 / 0x100, q1 % 0x100;
    var q3, r2 := q2 / 0x100, q2 % 0x100;
    var q4, r3 := q3 / 0x100, q3 % 0x100;
    assert BigEndianBytes(v) == [r3, r2, r1, r0];
    BigEndian4([r3, r2, r1, r0]);
    var d := ((r3 * 0x100 + r2) * 0x100 + r1) * 0x100 + r0;
    assert v == ((q4 * 0x100 + r3) * 0x100 + r2) * 0x100 * 0x100 + r1 * 0x100 + r0;
    assert v == q4 * 0x1_0000_0000 + d;
    ModOf2To32(v, q4, d);
  }

  lemma ModOf2To32(v: nat, q: nat, d: nat)
    requires 0 <= d < 0x1_0000_0000 && v == q * 0x1_0000_0000 + d
    ensures v % 0x1_0000_0000 == d
  {
  }

  /** `syncint_decode` of a 4-byte field: 7 bits per byte, high bits ignored. */
  function SyncSafeDecode(b: seq<byte>): (r: nat)
    requires |b| == 4
    ensures r < 0x1000_0000
  {
    (b[0] as int % 0x80) * 0x20_0000 + (b[1] as int % 0x80) * 0x4000 + (b[2] as int % 0x80) * 0x80 + b[3] as int % 0x80
  }

  /** `syncint_encode`: the low 28 bits of v, 7 bits per byte, as 4 bytes. */
  function SyncSafeEncode(v: nat): (r: seq<byte>)
    ensures |r| == 4
    ensures forall i :: 0 <= i < 4 ==> r[i] < 0x80
  {
    [v / 0x80 / 0x80 / 0x80 % 0x80, v / 0x80 / 0x80 % 0x80, v / 0x80 % 0x80, v % 0x80]
  }

  /** Decoding an encoding gives back the value, modulo 2^28. */
  lemma {:induction false} SyncSafeRoundTrip(v: nat)
    ensures SyncSafeDecode(SyncSafeEncode(v)) == v % 0x1000_0000
  {
    var q1, r0 := v / 0x80, v % 0x80;
    var q2, r1 := q1 / 0x80, q1 % 0x80;
    var q3, r2 := q2 / 0x80, q2 % 0x80;
    var q4, r3 := q3 / 0x80, q3 % 0x80;
    assert SyncSafeEncode(v) == [r3, r2, r1, r0];
    var d := SyncSafeDecode([r3, r2, r1, r0]);
    SyncSafeDigits(r3, r2, r1, r0);
    assert v == ((q4 * 0x80 + r3) * 0x80 + r2) * 0x80 * 0x80 + r1 * 0x80 + r0;
    assert v == q4 * 0x1000_0000 + d;
    ModOf2To28(v, q4, d);
  }

  lemma SyncSafeDigits(r3: nat, r2: nat, r1: nat, r0: nat)
    requires r3 < 0x80 && r2 < 0x80 && r1 < 0x80 && r0 < 0x80
    ensures SyncSafeDecode([r3, r2, r1, r0]) == ((r3 * 0x80 + r2) * 0x80 + r1) * 0x80 + r0
    ensures SyncSafeDecode([r3, r2, r1, r0]) == (r3 * 0x80 + r2) * 0x4000 + r1 * 0x80 + r0
  {
  }

  lemma ModOf2To28(v: nat, q: nat, d: nat)
    requires 0 <= d < 0x1000_0000 && v == q * 0x1000_0000 + d
    ensures v % 0x1000_0000 == d
  {
  }

  /** Encoding a decoded field gives back the field when no byte has its high bit set. */
  lemma {:induction false} SyncSafeEncodeDecode(b: seq<byte>)
    requires |b| == 4
    requires forall i :: 0 <= i < 4 ==> b[i] < 0x80
    ensures SyncSafeEncode(SyncSafeDecode(b)) == b
  {
    var v := SyncSafeDecode(b);
    assert v == ((b[0] as int * 0x80 + b[1]) * 0x80 + b[2]) * 0x80 + b[3];
    assert v / 0x80 == (b[0] as int * 0x80 + b[1]) * 0x80 + b[2];
    assert v / 0x80 / 0x80 == b[0] as int * 0x80 + b[1];
    assert v / 0x80 / 0x80 / 0x80 == b[0];
  }
}
