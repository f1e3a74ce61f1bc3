/** The byte streams the codec talks to: a `std::io::Write` sink and a
    `BufReader` over a socket. Socket set-up and I/O errors other than the
    end of the stream are not part of this model. */
module Io {
  import opened Prelude

  /** A `Write` sink: every byte accepted so far, and how many times it
      was flushed. */
  class Writer {
    var written: seq<Byte>
    var flushes: nat

    constructor ()
      ensures written == [] && flushes == 0
    {
      written := [];
      flushes := 0;
    }

    /** `write_all`. */
    method WriteAll(bytes: seq<Byte>)
      modifies this
      ensures written == old(written) + bytes && flushes == old(flushes)
    {
      written := written + bytes;
    }

    /** `flush`. */
    method Flush()
      modifies this
      ensures written == old(written) && flushes == old(flushes) + 1
    {
      flushes := flushes + 1;
    }
  }

  /** A `BufReader` over a socket: the bytes it holds but has not handed
      out yet, and the chunks successive reads of the socket deliver, the
      end of the stream after the last. */
  class Reader {
    var buffered: seq<Byte>
    var chunks: seq<seq<Byte>>

    /** A socket read returns no bytes only at the end of the stream. */
    ghost predicate Valid()
      reads this
    {
      forall i :: 0 <= i < |chunks| ==> chunks[i] != []
    }

    /** Every byte still to come, in order. */
    function Incoming(): seq<Byte>
      reads this
    {
      buffered + Flatten(chunks)
    }

    constructor (chunks: seq<seq<Byte>>)
      requires forall i :: 0 <= i < |chunks| ==> chunks[i] != []
      ensures Valid() && buffered == [] && this.chunks == chunks
    {
      buffered := [];
      this.chunks := chunks;
    }

    /** `fill_buf`: the held bytes, after one socket read if none were
        held; empty only at the end of the stream. */
    method FillBuf() returns (buf: seq<Byte>)
      requires Valid()
      modifies this
      ensures Valid() && Incoming() == old(Incoming())
      ensures buf == buffered
      ensures buf == [] <==> old(Incoming()) == []
      ensures old(buffered) != [] ==> buffered == old(buffered) && chunks == old(chunks)
      ensures old(buffered) == [] && old(chunks) != [] ==>
        buffered == old(chunks)[0] && chunks == old(chunks)[1..]
    {
      if buffered == [] && chunks != [] {
        buffered := chunks[0];
        chunks := chunks[1..];
      }
      buf := buffered;
    }

    /** `consume`: hands out `n` held bytes, or all of them if fewer are
        held. */
    method Consume(n: nat)
      modifies this
      ensures buffered == if n <= |old(buffered)| then old(buffered)[n..] else []
      ensures chunks == old(chunks)
    {
      if n <= |buffered| {
        buffered := buffered[n..];
      } else {
        buffered := [];
      }
    }

    /** `read`: at most `max` bytes, at least one unless `max` is zero or
        the stream has ended. */
    method Read(max: nat) returns (bytes: seq<Byte>)
      requires Valid()
      modifies this
      ensures Valid()
      ensures |bytes| <= max
      ensures old(Incoming()) == bytes + Incoming()
      ensures bytes == [] <==> max == 0 || old(Incoming()) == []
    {
      var buf := FillBuf();
      ghost var later := Flatten(chunks);
      assert old(Incoming()) == buf + later;
      var k := if max < |buf| then max else |buf|;
      bytes := buf[..k];
      Consume(k);
      assert buf == bytes + buffered;
      assert Incoming() == buffered + later;
    }

    /** `read_exact`: exactly `n` bytes, or `UnexpectedEof` (`false`) once
        the stream ends before that, having used up what was left. */
    method ReadExact(n: nat) returns (ok: bool, bytes: seq<Byte>)
      requires Valid()
      modifies this
      ensures Valid()
      ensures ok <==> n <= |old(Incoming())|
      ensures ok ==> |bytes| == n && old(Incoming()) == bytes + Incoming()
      ensures !ok ==> Incoming() == []
    {
      bytes := [];
      while |bytes| < n
        invariant Valid()
        invariant |bytes| <= n
        invariant old(Incoming()) == bytes + Incoming()
        decreases n - |bytes|
      {
        var more := Read(n - |bytes|);
        if more == [] {
          return false, bytes;
        }
        bytes := bytes + more;
      }
      return true, bytes;
    }
  }
}
