/** Machine words, byte strings and the fixed-width encodings the wire format uses. */
module Words {

  type byte = x: int | 0 <= x < 256
  type uint16 = x: int | 0 <= x < 0x1_0000
  type uint64 = x: int | 0 <= x < 0x1_0000_0000_0000_0000
  type bytes = seq<byte>

  const U64_MAX: uint64 := 0xFFFF_FFFF_FFFF_FFFF

  datatype Result<+T, +E> = Ok(value: T) | Err(error: E)

  datatype Option<+T> = None | Some(value: T)

  function SaturatingAdd(a: uint64, b: uint64): uint64 {
    if a + b <= U64_MAX then a + b else U64_MAX
  }

  function SaturatingSub(a: uint64, b: uint64): uint64 {
    if a < b then 0 else a - b
  }

  function AbsDiff(a: uint64, b: uint64): uint64 {
    if a < b then b - a else a - b
  }

  function Min(a: nat, b: nat): nat {
    if a <= b then a else b
  }

  // ---- slices --------------------------------------------------------------

  lemma GluePrefix(s: bytes, g: nat, m: nat)
    requires g + m <= |s|
    ensures s[..g] + s[g..][..m] == s[..g + m]
  {
  }

  lemma GluedIsPrefix(s: bytes, a: bytes, b: bytes)
    requires |a| + |b| <= |s| && a == s[..|a|] && b == s[|a|..][..|b|]
    ensures a + b <= s
  {
    GluePrefix(s, |a|, |b|);
  }

  lemma PrefixIff(p: bytes, s: bytes)
    ensures p <= s <==> |p| <= |s| && s[..|p|] == p
  {
  }

  // ---- quotients -----------------------------------------------------------

  lemma Quotient(x: nat, len: nat, q: nat)
    requires len > 0 && len * q <= x < len * q + len
    ensures x / len == q
  {
    var p := x / len;
    assert len * p <= x < len * p + len;
    if p < q {
      Times(len, p + 1, q);
    } else if q < p {
      Times(len, q + 1, p);
    }
  }

  lemma Times(len: nat, p: nat, q: nat)
    requires p <= q
    ensures len * p <= len * q
  {
  }

  // ---- fixed-width integers ------------------------------------------------

  function Pow256(n: nat): nat {
    if n == 0 then 1 else 256 * Pow256(n - 1)
  }

  /** The `width` low-order bytes of `n`, least significant first. */
  function ToLe(n: nat, width: nat): (s: bytes)
    ensures |s| == width
  {
    if width == 0 then [] else [n % 256] + ToLe(n / 256, width - 1)
  }

  function FromLe(s: bytes): nat {
    if s == [] then 0 else s[0] + 256 * FromLe(s[1..])
  }

  lemma {:induction false} FromLeOfToLe(n: nat, width: nat)
    requires n < Pow256(width)
    ensures FromLe(ToLe(n, width)) == n
  {
    if width > 0 {
      FromLeOfToLe(n / 256, width - 1);
      assert ToLe(n, width)[1..] == ToLe(n / 256, width - 1);
    }
  }

  lemma {:induction false} ToLeOfFromLe(s: bytes)
    ensures FromLe(s) < Pow256(|s|)
    ensures ToLe(FromLe(s), |s|) == s
  {
    if s != [] {
      ToLeOfFromLe(s[1..]);
      assert FromLe(s) / 256 == FromLe(s[1..]);
      assert s == [s[0]] + s[1..];
    }
  }

  lemma Pow256Of8()
    ensures Pow256(8) == U64_MAX + 1
  {
    assert Pow256(2) == 0x1_0000;
    assert Pow256(4) == 0x1_0000_0000;
    assert Pow256(6) == 0x1_0000_0000_0000;
  }

  /** `u64::to_le_bytes`. */
  function Le64(n: uint64): (s: bytes)
    ensures |s| == 8
  {
    ToLe(n, 8)
  }

  /** `u64::from_le_bytes`. */
  function FromLe64(s: bytes): uint64
    requires |s| == 8
  {
    ToLeOfFromLe(s);
    Pow256Of8();
    FromLe(s)
  }

  /** The two directions together: eight bytes and a 64-bit word determine each other. */
  lemma Le64Bijective(n: uint64, s: bytes)
    requires |s| == 8
    ensures s == Le64(n) <==> FromLe64(s) == n
  {
    Pow256Of8();
    FromLeOfToLe(n, 8);
    ToLeOfFromLe(s);
  }

  /** The value of eight little-endian bytes, written out. */
  lemma Le64Value(s: bytes)
    requires |s| == 8
    ensures FromLe64(s) ==
      (s[0] as int) + 0x100 * (s[1] as int) + 0x1_0000 * (s[2] as int) + 0x100_0000 * (s[3] as int)
      + 0x1_0000_0000 * (s[4] as int) + 0x100_0000_0000 * (s[5] as int) + 0x1_0000_0000_0000 * (s[6] as int)
      + 0x100_0000_0000_0000 * (s[7] as int)
  {
    var b := s[1..];
    var c := b[1..];
    var d := c[1..];
    var e := d[1..];
    var f := e[1..];
    var g := f[1..];
    assert FromLe(g) == (s[6] as int) + 0x100 * (s[7] as int) by { assert FromLe(g[1..]) == s[7]; }
    assert FromLe(e) == (s[4] as int) + 0x100 * (s[5] as int) + 0x1_0000 * FromLe(g);
    assert FromLe(c) == (s[2] as int) + 0x100 * (s[3] as int) + 0x1_0000 * FromLe(e);
    assert FromLe(s) == (s[0] as int) + 0x100 * (s[1] as int) + 0x1_0000 * FromLe(c);
  }

  /** `u16::to_be_bytes`. */
  function Be16(n: uint16): (s: bytes)
    ensures |s| == 2
  {
    [n / 256, n % 256]
  }

  /** `u16::from_be_bytes`. */
  function FromBe16(hi: byte, lo: byte): uint16 {
    256 * hi + lo
  }

  // ---- UTF-8 ---------------------------------------------------------------

  predicate Tail(b: byte) {
    0x80 <= b <= 0xBF
  }

  /** Length of the UTF-8 character that starts `s` (section 4 of RFC 3629); 0 when there is none. */
  function Utf8CharLen(s: bytes): (n: nat)
    ensures n <= |s|
  {
    if s == [] then 0
    else if s[0] <= 0x7F then 1
    else if 0xC2 <= s[0] <= 0xDF then
      if |s| >= 2 && Tail(s[1]) then 2 else 0
    else if 0xE0 <= s[0] <= 0xEF then
      if |s| >= 3 && Tail(s[1]) && Tail(s[2])
         && (s[0] == 0xE0 ==> 0xA0 <= s[1])
         && (s[0] == 0xED ==> s[1] <= 0x9F)
      then 3 else 0
    else if 0xF0 <= s[0] <= 0xF4 then
      if |s| >= 4 && Tail(s[1]) && Tail(s[2]) && Tail(s[3])
         && (s[0] == 0xF0 ==> 0x90 <= s[1])
         && (s[0] == 0xF4 ==> s[1] <= 0x8F)
      then 4 else 0
    else 0
  }

  predicate ValidUtf8(s: bytes)
    decreases |s|
  {
    s == [] || (Utf8CharLen(s) > 0 && ValidUtf8(s[Utf8CharLen(s)..]))
  }

  /** The content of a Rust `String`: bytes that are valid UTF-8. */
  type Utf8 = s: bytes | ValidUtf8(s) witness []

  lemma {:induction false} AsciiIsUtf8(s: bytes)
    requires forall i :: 0 <= i < |s| ==> s[i] <= 0x7F
    ensures ValidUtf8(s)
  {
    if s != [] {
      AsciiIsUtf8(s[1..]);
    }
  }
}
