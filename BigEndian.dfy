/**
 * The wire format of one group statistic: a Java `long` as eight bytes,
 * most significant byte first, two's complement (the DataInput.readLong and
 * DataOutput.writeLong contract).
 */
module BigEndian {

  newtype byte = x: int | 0 <= x < 256

  const TWO_63: int := 0x8000_0000_0000_0000
  const TWO_64: int := 0x1_0000_0000_0000_0000

  /** A Java long. */
  type long = x: int | -TWO_63 <= x < TWO_63

  function Pow256(n: nat): (p: nat)
    ensures p > 0
  {
    if n == 0 then 1 else 256 * Pow256(n - 1)
  }

  lemma Pow256Eight()
    ensures Pow256(8) == TWO_64
  {
  }

  /** The unsigned value of a big-endian byte string. */
  function Unsigned(s: seq<byte>): (n: nat)
    ensures n < Pow256(|s|)
  {
    if |s| == 0 then 0 else Unsigned(s[..|s| - 1]) * 256 + s[|s| - 1] as int
  }

  /** The `len`-byte big-endian form of `n`. */
  function ToBytes(n: nat, len: nat): (s: seq<byte>)
    requires n < Pow256(len)
    ensures |s| == len
  {
    if len == 0 then [] else ToBytes(n / 256, len - 1) + [(n % 256) as byte]
  }

  lemma {:induction false} UnsignedToBytes(n: nat, len: nat)
    requires n < Pow256(len)
    ensures Unsigned(ToBytes(n, len)) == n
  {
    if len > 0 {
      var s := ToBytes(n, len);
      assert s[..len - 1] == ToBytes(n / 256, len - 1);
      UnsignedToBytes(n / 256, len - 1);
    }
  }

  lemma {:induction false} ToBytesUnsigned(s: seq<byte>)
    ensures ToBytes(Unsigned(s), |s|) == s
  {
    if |s| > 0 {
      var p, last := s[..|s| - 1], s[|s| - 1] as int;
      var n := Unsigned(s);
      assert n / 256 == Unsigned(p) && n % 256 == last;
      ToBytesUnsigned(p);
      assert s == p + [s[|s| - 1]];
    }
  }

  /** readLong: eight bytes as a signed big-endian long. */
  function ReadLong(b: seq<byte>): long
    requires |b| == 8
  {
    Pow256Eight();
    var u := Unsigned(b);
    if u >= TWO_63 then u - TWO_64 else u
  }

  /** writeLong: the eight bytes a long is sent as. */
  function WriteLong(x: long): (b: seq<byte>)
    ensures |b| == 8
  {
    Pow256Eight();
    ToBytes(if x < 0 then x + TWO_64 else x, 8)
  }

  lemma ReadWriteLong(x: long)
    ensures ReadLong(WriteLong(x)) == x
  {
    Pow256Eight();
    UnsignedToBytes(if x < 0 then x + TWO_64 else x, 8);
  }

  lemma WriteReadLong(b: seq<byte>)
    requires |b| == 8
    ensures WriteLong(ReadLong(b)) == b
  {
    Pow256Eight();
    ToBytesUnsigned(b);
  }

  /** The longs of a byte stream: one per complete 8-byte group, in order; a short tail yields none. */
  function Longs(s: seq<byte>): (xs: seq<long>)
    ensures |xs| == |s| / 8
  {
    if |s| < 8 then [] else [ReadLong(s[..8])] + Longs(s[8..])
  }

  function WriteLongs(xs: seq<long>): (s: seq<byte>)
    ensures |s| == 8 * |xs|
  {
    if xs == [] then [] else WriteLong(xs[0]) + WriteLongs(xs[1..])
  }

  /** The k-th long of a stream is decoded from bytes 8k to 8k+8. */
  lemma {:induction false} LongsAt(s: seq<byte>, k: nat)
    requires 8 * k + 8 <= |s|
    ensures Longs(s)[k] == ReadLong(s[8 * k..8 * k + 8])
  {
    if k > 0 {
      var j := 8 * (k - 1);
      assert 8 + j == 8 * k;
      var tail := s[8..];
      LongsAt(tail, k - 1);
      var a, b := tail[j..j + 8], s[8 * k..8 * k + 8];
      forall i | 0 <= i < 8 ensures a[i] == b[i] {
        assert tail[j + i] == s[8 + j + i];
      }
      assert a == b;
    }
  }

  /** Decoding what the writer sent gives back every long, in order. */
  lemma {:induction false} LongsWriteLongs(xs: seq<long>)
    ensures Longs(WriteLongs(xs)) == xs
  {
    if xs != [] {
      var s := WriteLongs(xs);
      assert s[..8] == WriteLong(xs[0]);
      assert s[8..] == WriteLongs(xs[1..]);
      ReadWriteLong(xs[0]);
      LongsWriteLongs(xs[1..]);
    }
  }
}
