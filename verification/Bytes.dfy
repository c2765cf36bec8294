/** Bytes, results and positional notation, shared by every component. */
module Bytes {

  /** A `u8`. */
  type byte = b: int | 0 <= b < 256

  datatype Option<+T> = None | Some(value: T)

  /** The error classes the codecs report (`AetherError`, message text dropped). */
  datatype Error = Compression | Decompression | ResourceLimit

  datatype Result<+T> = Ok(value: T) | Err(error: Error)

  /** 64 MiB (`format.rs`). */
  const MAX_DECOMPRESSED_BLOCK_SIZE: nat := 64 * 1024 * 1024

  const TWO32: nat := 0x1_0000_0000

  function Repeat<T>(x: T, n: nat): (s: seq<T>)
    ensures |s| == n && forall i :: 0 <= i < n ==> s[i] == x
  {
    seq(n, _ => x)
  }

  lemma MulLe(a: int, b: int, c: nat)
    ensures a <= b ==> a * c <= b * c
  {
    if a <= b {
      assert 0 <= (b - a) * c;
    }
  }

  lemma MulPositive(a: int, b: int)
    requires a > 0 && b > 0
    ensures a * b > 0
  {
  }

  lemma Distribute(a: int, b: int, c: int)
    ensures (a + b) * c == a * c + b * c
  {
  }

  lemma Associate(a: int, p: int, q: int)
    ensures a * (p * q) == a * p * q
  {
  }

  function Pow256(k: nat): (p: nat)
    ensures p >= 1
  {
    if k == 0 then 1 else 256 * Pow256(k - 1)
  }

  lemma {:induction false} Pow256Add(a: nat, b: nat)
    ensures Pow256(a + b) == Pow256(a) * Pow256(b)
  {
    if a == 0 {
    } else {
      Pow256Add(a - 1, b);
    }
  }

  /** The number a byte string denotes, most significant byte first. */
  function BigEndian(s: seq<byte>): nat {
    if s == [] then 0 else BigEndian(s[..|s| - 1]) * 256 + s[|s| - 1]
  }

  lemma {:induction false} BigEndianPush(s: seq<byte>, b: byte)
    ensures BigEndian(s + [b]) == BigEndian(s) * 256 + b
  {
    assert (s + [b])[..|s|] == s;
  }

  /** A prefix of a byte string is its value cut off at that byte. */
  lemma {:induction false} BigEndianPrefix(s: seq<byte>, m: nat)
    requires m <= |s|
    ensures BigEndian(s[..m]) * Pow256(|s| - m) <= BigEndian(s) < (BigEndian(s[..m]) + 1) * Pow256(|s| - m)
    decreases |s| - m
  {
    if m == |s| {
      assert s[..m] == s;
    } else {
      BigEndianPrefix(s, m + 1);
      assert s[..m + 1][..m] == s[..m];
      DropDigit(BigEndian(s[..m]), s[m], Pow256(|s| - m - 1), BigEndian(s));
    }
  }

  lemma DropDigit(v: nat, b: byte, p: nat, n: nat)
    requires (v * 256 + b) * p <= n < (v * 256 + b + 1) * p
    ensures v * (256 * p) <= n < (v + 1) * (256 * p)
  {
    var d: int := b;
    assert (v * 256 + d) * p == v * (256 * p) + d * p;
    assert (v * 256 + d + 1) * p == v * (256 * p) + (d + 1) * p;
    assert (d + 1) * p <= 256 * p;
    assert (v + 1) * (256 * p) == v * (256 * p) + 256 * p;
  }

  /** `u32::to_le_bytes`. */
  function ToLe32(n: nat): (s: seq<byte>)
    requires n < TWO32
    ensures |s| == 4
  {
    [n % 256, n / 256 % 256, n / 65536 % 256, n / 16777216]
  }

  /** `u32::from_le_bytes`. */
  function FromLe32(s: seq<byte>): (n: nat)
    requires |s| == 4
    ensures n < TWO32
  {
    s[0] as int + s[1] as int * 256 + s[2] as int * 65536 + s[3] as int * 16777216
  }

  lemma Le32RoundTrip(n: nat)
    requires n < TWO32
    ensures FromLe32(ToLe32(n)) == n
  {
    assert n / 65536 == n / 256 / 256;
    assert n / 16777216 == n / 256 / 256 / 256;
  }

  lemma Le32Unique(s: seq<byte>)
    requires |s| == 4
    ensures ToLe32(FromLe32(s)) == s
  {
    var b0: nat, b1: nat, b2: nat, b3: nat := s[0], s[1], s[2], s[3];
    var n, t, u := FromLe32(s), b1 + 256 * (b2 + 256 * b3), b2 + 256 * b3;
    Digit(n, b0, t);
    Digit(t, b1, u);
    Digit(u, b2, b3);
    TwoDigits(n, b0 + 256 * b1, u);
    ThreeDigits(n, b0 + 256 * b1 + 65536 * b2, b3);
  }

  lemma Digit(n: nat, b: nat, rest: nat)
    requires n == b + 256 * rest && b < 256
    ensures n % 256 == b && n / 256 == rest
  {
  }

  lemma TwoDigits(n: nat, b: nat, rest: nat)
    requires n == b + 65536 * rest && b < 65536
    ensures n / 65536 == rest
  {
  }

  lemma ThreeDigits(n: nat, b: nat, rest: nat)
    requires n == b + 16777216 * rest && b < 16777216
    ensures n / 16777216 == rest
  {
  }

  /** Little-endian is big-endian read backwards. */
  lemma Le32IsReversed(s: seq<byte>)
    requires |s| == 4
    ensures FromLe32(s) == BigEndian([s[3], s[2], s[1], s[0]])
  {
    var a: seq<byte> := [s[3]];
    assert a == [] + [s[3]];
    BigEndianPush([], s[3]);
    BigEndianPush(a, s[2]);
    BigEndianPush(a + [s[2]], s[1]);
    BigEndianPush(a + [s[2]] + [s[1]], s[0]);
    assert a + [s[2]] + [s[1]] + [s[0]] == [s[3], s[2], s[1], s[0]];
  }
}
