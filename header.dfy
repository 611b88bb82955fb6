/** The 8-byte prefix generate_automaton_image puts before the pixel bytes
    for its JavaScript caller: the image width, then its height, each as a
    little-endian u32 (src/lib.rs). */
module Header {

  /** The byte whose value is `n`. */
  function ByteOf(n: nat): (b: bv8)
    requires n < 0x100
  {
    if n == 0 then 0 else ByteOf(n - 1) + 1
  }

  /** The bytes of a u32 `v`, least significant first. */
  function Le32(v: nat): (b: seq<bv8>)
    requires v < 0x1_0000_0000
    ensures |b| == 4
  {
    Base256Digits(v);
    [ByteOf(v % 0x100), ByteOf(v / 0x100 % 0x100), ByteOf(v / 0x1_0000 % 0x100), ByteOf(v / 0x100_0000)]
  }

  /** The number four little-endian bytes stand for. */
  function FromLe32(b: seq<bv8>): nat
    requires |b| == 4
  {
    b[0] as nat + 0x100 * b[1] as nat + 0x1_0000 * b[2] as nat + 0x100_0000 * b[3] as nat
  }

  lemma Le32RoundTrip(v: nat)
    requires v < 0x1_0000_0000
    ensures FromLe32(Le32(v)) == v
  {
    ByteValue(v % 0x100);
    ByteValue(v / 0x100 % 0x100);
    ByteValue(v / 0x1_0000 % 0x100);
    ByteValue(v / 0x100_0000);
    Base256Digits(v);
  }

  /** `ByteOf(n)` has value `n`. */
  lemma {:induction false} ByteValue(n: nat)
    requires n < 0x100
    ensures ByteOf(n) as int == n
  {
    if n > 0 {
      ByteValue(n - 1);
      Increment(ByteOf(n - 1));
    }
  }

  /** Adding 1 to a byte below 255 does not wrap. */
  lemma Increment(b: bv8)
    requires b as int < 0xFF
    ensures (b + 1) as int == b as int + 1
  {
  }

  /** A u32 is the sum of its base-256 digits. */
  lemma Base256Digits(v: nat)
    requires v < 0x1_0000_0000
    ensures v == v % 0x100 + 0x100 * (v / 0x100 % 0x100) + 0x1_0000 * (v / 0x1_0000 % 0x100)
                 + 0x100_0000 * (v / 0x100_0000)
    ensures v / 0x100_0000 < 0x100
  {
    var q1, q2, q3 := v / 0x100, v / 0x1_0000, v / 0x100_0000;
    assert q2 == q1 / 0x100 && q3 == q2 / 0x100;
  }

  /** The caller's output: width and height, then the pixel bytes untouched. */
  method PrefixDimensions(w: nat, h: nat, buf: seq<bv8>) returns (out: seq<bv8>)
    requires w < 0x1_0000_0000 && h < 0x1_0000_0000
    ensures |out| == 8 + |buf|
    ensures FromLe32(out[..4]) == w && FromLe32(out[4..8]) == h
    ensures out[8..] == buf
  {
    out := [];
    out := out + Le32(w);
    out := out + Le32(h);
    out := out + buf;
    Le32RoundTrip(w);
    Le32RoundTrip(h);
    assert out[..4] == Le32(w) && out[4..8] == Le32(h);
  }
}
