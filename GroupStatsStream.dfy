/**
 * GroupStatsStreamReader: a forward-only iterator over `count` group
 * statistics read as big-endian longs from a socket. The socket is the byte
 * sequence the peer sends and a read position; a read that needs more bytes
 * than are left fails, as DataInputStream.readLong does at end of stream,
 * after consuming what was left.
 */
module GroupStatsStream {
  import opened BigEndian
  import opened Wrappers

  const INT_MIN: int := -0x8000_0000
  const INT_MAX: int := 0x7fff_ffff

  /** A Java int. */
  type int32 = x: int | INT_MIN <= x <= INT_MAX

  /** `x++` on a Java int: wraps from the largest int to the smallest. */
  function Inc32(x: int32): (r: int32)
    ensures x < INT_MAX ==> r == x + 1
    ensures x == INT_MAX ==> r == INT_MIN
  {
    if x == INT_MAX then INT_MIN else x + 1
  }

  /** Why nextLong can fail: the transport ran out of bytes, or the reader was closed (a null stream). */
  datatype ReadError = EndOfStream | StreamClosed

  class GroupStatsStreamReader {
    /** Everything the peer writes to the socket. */
    const input: seq<byte>
    /** How many bytes of `input` the reader has consumed. */
    var pos: nat
    /** The source's `stream != null`. */
    var open: bool
    const count: int32
    /** Whether close drains the remaining values first. */
    const exhaust: bool
    /** The number of nextLong calls so far, as a Java int. */
    var index: int32
    /** The values nextLong has returned so far. */
    ghost var delivered: seq<long>

    /**
     * The values returned so far are the first longs of the stream, and the
     * read position is just after them, or at the end once a read has failed.
     */
    ghost predicate Valid()
      reads this
    {
      && pos <= |input|
      && |delivered| <= |input| / 8
      && delivered == Longs(input)[..|delivered|]
      && (pos == 8 * |delivered| || (pos == |input| && |input| < 8 * |delivered| + 8))
    }

    constructor (input: seq<byte>, count: int32, exhaust: bool)
      ensures Valid()
      ensures this.input == input && this.count == count && this.exhaust == exhaust
      ensures pos == 0 && open && index == 0 && delivered == []
    {
      this.input := input;
      this.count := count;
      this.exhaust := exhaust;
      pos := 0;
      open := true;
      index := 0;
      delivered := [];
    }

    /** getNumGroups: always the count given at construction. */
    method GetNumGroups() returns (n: int32)
      ensures n == count
    {
      n := count;
    }

    /** hasNext: the reader is not closed and fewer than `count` values have been asked for. */
    method HasNext() returns (b: bool)
      ensures b <==> open && index < count
    {
      b := open && index < count;
    }

    /**
     * nextLong: counts the call first, then reads the next eight bytes. It
     * does not consult hasNext, so it reads past `count` if asked to.
     */
    method NextLong() returns (r: Result<long, ReadError>)
      requires Valid()
      modifies this
      ensures Valid()
      ensures index == Inc32(old(index)) && open == old(open)
      ensures !old(open) ==> r == Failure(StreamClosed) && pos == old(pos) && delivered == old(delivered)
      ensures old(open) && old(pos) + 8 <= |input| ==>
        && r == Success(ReadLong(input[old(pos)..old(pos) + 8]))
        && pos == old(pos) + 8
        && delivered == old(delivered) + [r.value]
      ensures old(open) && old(pos) + 8 > |input| ==>
        r == Failure(EndOfStream) && pos == |input| && delivered == old(delivered)
      ensures r.Success? ==> r.value == Longs(input)[|old(delivered)|]
    {
      index := Inc32(index);
      if !open {
        return Failure(StreamClosed);
      }
      if pos + 8 <= |input| {
        var x := ReadLong(input[pos..pos + 8]);
        LongsAt(input, |delivered|);
        assert Longs(input)[..|delivered| + 1] == Longs(input)[..|delivered|] + [x];
        delivered := delivered + [x];
        pos := pos + 8;
        r := Success(x);
      } else {
        pos := |input|;
        r := Failure(EndOfStream);
      }
    }

    /**
     * close: with `exhaust`, first read and discard values while hasNext
     * holds, stopping at the first failed read; then release the stream.
     * Without `exhaust` nothing more is read.
     */
    method Close()
      requires Valid()
      modifies this
      ensures Valid() && !open
      ensures !(exhaust && old(open)) ==>
        pos == old(pos) && index == old(index) && delivered == old(delivered)
      ensures exhaust && old(open) ==>
        var need := if old(index) < count then count - old(index) else 0;
        var avail := (|input| - old(pos)) / 8;
        if need <= avail then
          pos == old(pos) + 8 * need && index == old(index) + need &&
          |delivered| == |old(delivered)| + need
        else
          pos == |input| && index == old(index) + avail + 1 &&
          |delivered| == |old(delivered)| + avail
    {
      if exhaust {
        ghost var i0, p0, d0 := index, pos, |delivered|;
        ghost var need := if i0 < count then count - i0 else 0;
        ghost var avail := (|input| - p0) / 8;
        ghost var k: nat := 0;
        var more := HasNext();
        while more
          invariant Valid() && open == old(open)
          invariant k <= need && k <= avail && (!open ==> k == 0)
          invariant index == i0 + k && pos == p0 + 8 * k && |delivered| == d0 + k
          invariant more <==> open && index < count
          decreases count - index
        {
          var r := NextLong();
          if r.Failure? {
            break;
          }
          k := k + 1;
          more := HasNext();
        }
      }
      open := false;
    }
  }

  /** A reader over what the writer sent for `xs`, asked for |xs| values, returns exactly `xs`. */
  method ReadAll(xs: seq<long>) returns (ys: seq<long>)
    requires |xs| <= INT_MAX
    ensures ys == xs
  {
    LongsWriteLongs(xs);
    var reader := new GroupStatsStreamReader(WriteLongs(xs), |xs|, true);
    ys := [];
    var more := reader.HasNext();
    while more
      invariant reader.Valid() && reader.open && reader.input == WriteLongs(xs)
      invariant reader.count == |xs| && 0 <= reader.index <= |xs|
      invariant reader.delivered == ys && |ys| == reader.index
      invariant more <==> reader.index < |xs|
      decreases |xs| - reader.index
    {
      var r := reader.NextLong();
      ys := ys + [r.value];
      more := reader.HasNext();
    }
    reader.Close();
  }
}
