/**
 Writing items into a compressed chunk of fixed size, over a compressor whose output is
 some function of what it has been told so far.
 */
module ChunkWriters {
  import opened Sequences
  import opened Wrappers

  newtype byte = x: int | 0 <= x < 256

  type Bytes = seq<byte>

  /** What a compressor can be told. */
  datatype Op = Feed(bytes: Bytes) | Sync | End

  /** All output up to now, and what a finished stream decompresses to. */
  datatype Codec = Codec(output: seq<Op> -> Bytes, inflate: Bytes -> Option<Bytes>)

  function Fed(ops: seq<Op>): Bytes {
    if |ops| == 0 then []
    else Fed(ops[..|ops| - 1]) + if ops[|ops| - 1].Feed? then ops[|ops| - 1].bytes else []
  }

  /** Output is never taken back. */
  ghost predicate OutputKept(codec: Codec, ops: seq<Op>, op: Op) {
    codec.output(ops) <= codec.output(ops + [op])
  }

  /** A finished stream gives back what was fed. */
  ghost predicate Inflates(codec: Codec, ops: seq<Op>) {
    codec.inflate(codec.output(ops + [End])) == Some(Fed(ops))
  }

  ghost predicate Faithful(codec: Codec) {
    && codec.output([]) == []
    && (forall ops, op: Op {:trigger OutputKept(codec, ops, op)} :: OutputKept(codec, ops, op))
    && (forall ops {:trigger Inflates(codec, ops)} :: Inflates(codec, ops))
  }

  lemma FedAppend(ops: seq<Op>, op: Op)
    ensures Fed(ops + [op]) == Fed(ops) + if op.Feed? then op.bytes else []
  {
    assert (ops + [op])[..|ops|] == ops;
  }

  class Compressor {
    const codec: Codec
    var ops: seq<Op>

    constructor (codec: Codec)
      ensures this.codec == codec && ops == []
    {
      this.codec, ops := codec, [];
    }

    /** Tell the compressor something, and take what that adds to its output. */
    method Tell(op: Op) returns (out: Bytes)
      requires Faithful(codec)
      modifies this
      ensures ops == old(ops) + [op] && codec.output(ops) == codec.output(old(ops)) + out
      ensures Fed(ops) == Fed(old(ops)) + if op.Feed? then op.bytes else []
    {
      assert OutputKept(codec, ops, op);
      FedAppend(ops, op);
      out := codec.output(ops + [op])[|codec.output(ops)|..];
      ops := ops + [op];
    }

    method Compress(bytes: Bytes) returns (out: Bytes)
      requires Faithful(codec)
      modifies this
      ensures ops == old(ops) + [Feed(bytes)] && codec.output(ops) == codec.output(old(ops)) + out
      ensures Fed(ops) == Fed(old(ops)) + bytes
    {
      out := Tell(Feed(bytes));
    }

    /** Feed, and flush so that all of it is in the output. */
    method CompressAndSync(bytes: Bytes) returns (out: Bytes)
      requires Faithful(codec)
      modifies this
      ensures ops == old(ops) + [Feed(bytes)] + [Sync] && codec.output(ops) == codec.output(old(ops)) + out
      ensures Fed(ops) == Fed(old(ops)) + bytes
    {
      out := Compress(bytes);
      var more := Tell(Sync);
      out := out + more;
    }

    /** Feed all items to a new compressor, and keep what output there is. */
    method FeedAll(items: seq<Bytes>) returns (bytesOut: seq<Bytes>)
      requires Faithful(codec) && ops == []
      modifies this
      ensures ops == Feeds(items) && Concat(bytesOut) == codec.output(ops) && Fed(ops) == Concat(items)
    {
      bytesOut := [];
      for i := 0 to |items|
        invariant ops == Feeds(items[..i]) && Concat(bytesOut) == codec.output(ops) && Fed(ops) == Concat(items[..i])
      {
        assert items[..i + 1] == items[..i] + [items[i]];
        FeedsAppend(items[..i], items[i]);
        ConcatAppend(items[..i], items[i]);
        var out := Compress(items[i]);
        ConcatAppend(bytesOut, out);
        if |out| > 0 {
          bytesOut := bytesOut + [out];
        }
      }
      assert items[..|items|] == items;
    }
  }

  lemma FeedsAppend(items: seq<Bytes>, item: Bytes)
    ensures Feeds(items + [item]) == Feeds(items) + [Feed(item)]
  {
    assert (items + [item])[..|items|] == items;
  }

  /** A fresh compressor that was fed all items, and flushed after one more if given. */
  function Repacked(items: seq<Bytes>, extra: Option<Bytes>): seq<Op> {
    Feeds(items) + if extra.Some? && |extra.value| > 0 then [Feed(extra.value)] + [Sync] else []
  }

  function Feeds(items: seq<Bytes>): seq<Op> {
    if |items| == 0 then [] else Feeds(items[..|items| - 1]) + [Feed(items[|items| - 1])]
  }

  /**
   The ways an item can go: refused by a closed chunk; added as it surely fits; refused
   without trying; added with a flush; added by packing all anew; or left out of that.
   */
  datatype Course = Closed | Plain | GivenUp | Flushed | Tighter | Dropped {
    predicate Refused() {
      Closed? || GivenUp? || Dropped?
    }

    /** What the compressor in use has been told afterwards. */
    function Told(ops: seq<Op>, items: seq<Bytes>, bytes: Bytes): seq<Op> {
      match this
      case Plain => ops + [Feed(bytes)]
      case Flushed => ops + [Feed(bytes)] + [Sync]
      case Tighter => Repacked(items, Some(bytes))
      case Dropped => Repacked(items, None)
      case _ => ops
    }

    /** The count that closes the chunk once it exceeds its limit. */
    function RepackCount(count: nat, limit: nat): nat {
      match this
      case GivenUp => count + 1
      case Tighter => if count + 1 >= limit then count + 2 else count + 1
      case Dropped => limit + 1
      case _ => count
    }

    function FlushCount(count: nat): nat {
      if Closed? || Plain? then count else count + 1
    }

    function Unflushed(count: nat, size: nat): nat {
      if Plain? then count + size else if Closed? || GivenUp? then count else 0
    }
  }

  /** All items one after another, with nothing between them. */
  lemma {:induction false} FeedsAt(items: seq<Bytes>, i: nat)
    requires i < |items|
    ensures |Feeds(items)| == |items| && Feeds(items)[i] == Feed(items[i])
  {
    var last := |items| - 1;
    if last > 0 {
      FeedsAt(items[..last], if i < last then i else 0);
    }
  }

  /** What each course tells a compressor, and how it counts. */
  lemma CourseEffects(c: Course, ops: seq<Op>, items: seq<Bytes>, bytes: Bytes, count: nat, limit: nat, flushes: nat, unflushed: nat)
    ensures c.Told(ops, items, bytes) ==
              (if c == Plain then ops + [Feed(bytes)]
               else if c == Flushed then ops + [Feed(bytes), Sync]
               else if c == Tighter && |bytes| > 0 then Feeds(items) + [Feed(bytes), Sync]
               else if c == Tighter || c == Dropped then Feeds(items)
               else ops)
    ensures c == Closed || c == GivenUp || c == Dropped <==> c.Refused()
    ensures c.RepackCount(count, limit) > limit <==>
              c == Dropped || count > limit || (c == Tighter && count + 1 >= limit) || (c == GivenUp && count == limit)
    ensures c.RepackCount(count, limit) ==
              if c == Dropped then limit + 1
              else count + (if c == GivenUp then 1 else if c != Tighter then 0 else if count + 1 < limit then 1 else 2)
    ensures c.FlushCount(flushes) == flushes + if c == Closed || c == Plain then 0 else 1
    ensures c.Unflushed(unflushed, |bytes|) ==
              if c == Plain then unflushed + |bytes| else if c == Flushed || c == Tighter || c == Dropped then 0 else unflushed
  {
    assert ops + [Feed(bytes)] + [Sync] == ops + [Feed(bytes), Sync];
    assert Repacked(items, None) == Feeds(items);
  }

  class ChunkWriter {
    const codec: Codec
    const chunkSize: nat
    const reservedSize: nat
    var compressor: Compressor
    /** The items accepted so far. */
    var bytesIn: seq<Bytes>
    var bytesList: seq<Bytes>
    var bytesOutLen: nat
    var unflushedInBytes: nat
    var numRepack: nat
    var numZsync: nat
    var unusedBytes: Option<Bytes>
    var maxRepack: nat
    var maxZsync: nat

    /** The output is what the compressor gave for exactly the accepted items. */
    ghost predicate Valid()
      reads this, compressor
    {
      && Faithful(codec) && compressor.codec == codec
      && Concat(bytesList) == codec.output(compressor.ops) && bytesOutLen == |Concat(bytesList)|
      && Fed(compressor.ops) == Concat(bytesIn)
    }

    /** Nothing more is taken outside the reserved space. */
    predicate Full()
      reads this
    {
      numRepack > maxRepack
    }

    function Capacity(reserved: bool): int {
      if reserved then chunkSize else chunkSize - reservedSize
    }

    /** The item fits even if it does not get any shorter. */
    predicate SurelyFits(bytes: Bytes, reserved: bool)
      reads this
    {
      unflushedInBytes + |bytes| < Capacity(reserved) - bytesOutLen - 10
    }

    /** Flushing for every item that may not fit is given up after some time. */
    predicate OutOfFlushes()
      reads this
    {
      maxRepack == 0 && numZsync >= maxZsync
    }

    /** Too long with a flush after it, by the safety margin. */
    predicate TooLongFlushed(bytes: Bytes, reserved: bool)
      reads this, compressor
    {
      |codec.output(compressor.ops + [Feed(bytes)] + [Sync])| + (if numRepack == 0 then 100 else 10) > Capacity(reserved)
    }

    /** Too long even when everything is packed anew. */
    predicate TooLongRepacked(bytes: Bytes, reserved: bool)
      reads this
    {
      |codec.output(Repacked(bytesIn, Some(bytes)))| + 10 > Capacity(reserved)
    }

    /** What becomes of an item. */
    function CourseOf(bytes: Bytes, reserved: bool): Course
      reads this, compressor
    {
      if Full() && !reserved then Closed
      else if SurelyFits(bytes, reserved) then Plain
      else if OutOfFlushes() then GivenUp
      else if !TooLongFlushed(bytes, reserved) then Flushed
      else if !TooLongRepacked(bytes, reserved) then Tighter
      else Dropped
    }

    /** When an item is refused, and whether it is just added, flushed or packed anew if it is not. */
    lemma CourseIs(bytes: Bytes, reserved: bool)
      ensures var space := (if reserved then chunkSize else chunkSize - reservedSize) - 10;
              var closed := numRepack > maxRepack && !reserved;
              var fits := bytesOutLen + unflushedInBytes + |bytes| < space;
              var givenUp := maxRepack == 0 && numZsync >= maxZsync;
              var flushed := |codec.output(compressor.ops + [Feed(bytes), Sync])| + if numRepack == 0 then 90 else 0;
              var anew := |codec.output(if |bytes| > 0 then Feeds(bytesIn) + [Feed(bytes), Sync] else Feeds(bytesIn))|;
              && (CourseOf(bytes, reserved) == Closed <==> closed)
              && (CourseOf(bytes, reserved) == Plain <==> !closed && fits)
              && (CourseOf(bytes, reserved) == GivenUp <==> !closed && !fits && givenUp)
              && (CourseOf(bytes, reserved) == Flushed <==> !closed && !fits && !givenUp && flushed <= space)
              && (CourseOf(bytes, reserved) == Tighter <==> !closed && !fits && !givenUp && flushed > space && anew <= space)
              && (CourseOf(bytes, reserved) == Dropped <==> !closed && !fits && !givenUp && flushed > space && anew > space)
    {
      assert compressor.ops + [Feed(bytes)] + [Sync] == compressor.ops + [Feed(bytes), Sync];
      assert Repacked(bytesIn, Some(bytes)) == if |bytes| > 0 then Feeds(bytesIn) + [Feed(bytes), Sync] else Feeds(bytesIn) by {
        assert [Feed(bytes)] + [Sync] == [Feed(bytes), Sync];
      }
    }

    constructor (codec: Codec, chunkSize: nat, reserved: nat, optimizeForSize: bool)
      requires Faithful(codec)
      ensures Valid() && fresh(compressor) && bytesIn == [] && unusedBytes == None && !Full()
      ensures this.codec == codec && this.chunkSize == chunkSize && reservedSize == reserved
    {
      this.codec, this.chunkSize, reservedSize := codec, chunkSize, reserved;
      compressor := new Compressor(codec);
      bytesIn, bytesList, bytesOutLen, unflushedInBytes := [], [], 0, 0;
      numRepack, numZsync, unusedBytes := 0, 0, None;
      new;
      SetOptimize(optimizeForSize);
    }

    method SetOptimize(forSize: bool)
      modifies this`maxRepack, this`maxZsync
      ensures (maxRepack, maxZsync) == if forSize then (20, 0) else (0, 8)
    {
      if forSize {
        maxRepack, maxZsync := 20, 0;
      } else {
        maxRepack, maxZsync := 0, 8;
      }
    }

    /** Append to the output what the compressor gave, if it gave anything. */
    method Emit(out: Bytes)
      modifies this`bytesList, this`bytesOutLen
      requires bytesOutLen == |Concat(bytesList)|
      ensures Concat(bytesList) == Concat(old(bytesList)) + out && bytesOutLen == |Concat(bytesList)|
    {
      if |out| > 0 {
        ConcatAppend(bytesList, out);
        bytesList := bytesList + [out];
        bytesOutLen := bytesOutLen + |out|;
      } else {
        assert Concat(bytesList) + out == Concat(bytesList);
      }
    }

    /** Start over with the accepted items, and more if given. */
    method RecompressAllBytesIn(extraBytes: Option<Bytes>)
        returns (bytesOut: seq<Bytes>, outLen: nat, fresher: Compressor)
      requires Faithful(codec)
      ensures fresh(fresher) && fresher.codec == codec && fresher.ops == Repacked(bytesIn, extraBytes)
      ensures Concat(bytesOut) == codec.output(fresher.ops) && outLen == |Concat(bytesOut)|
      ensures Fed(fresher.ops) == Concat(bytesIn) + if extraBytes.Some? then extraBytes.value else []
    {
      fresher := new Compressor(codec);
      bytesOut := fresher.FeedAll(bytesIn);
      if extraBytes.Some? && |extraBytes.value| > 0 {
        var out := fresher.CompressAndSync(extraBytes.value);
        ConcatAppend(bytesOut, out);
        bytesOut := bytesOut + [out];
      } else {
        assert Concat(bytesIn) + [] == Concat(bytesIn) && Feeds(bytesIn) + [] == Feeds(bytesIn);
      }
      outLen := |Concat(bytesOut)|;
    }

    /**
     Write an item: `refused` says that it was not added. A refusal closes the chunk for
     all but reserved writes, and leaves what was accepted as it was.
     */
    method Write(bytes: Bytes, reserved: bool) returns (refused: bool)
      requires Valid()
      modifies this, compressor
      ensures Valid() && (compressor == old(compressor) || fresh(compressor))
      ensures maxRepack == old(maxRepack) && maxZsync == old(maxZsync)
      ensures var course := old(CourseOf(bytes, reserved));
              && refused == course.Refused()
              && compressor.ops == course.Told(old(compressor.ops), old(bytesIn), bytes)
              && numRepack == course.RepackCount(old(numRepack), maxRepack)
              && numZsync == course.FlushCount(old(numZsync))
              && unflushedInBytes == course.Unflushed(old(unflushedInBytes), |bytes|)
      ensures bytesIn == if refused then old(bytesIn) else old(bytesIn) + [bytes]
      ensures unusedBytes == if refused then Some(bytes) else old(unusedBytes)
      ensures refused || old(Full()) ==> Full()
      ensures old(Full()) && !reserved ==> refused
    {
      ghost var course := CourseOf(bytes, reserved);
      if numRepack > maxRepack && !reserved {
        assert course == Closed;
        unusedBytes := Some(bytes);
        return true;
      }
      var nextUnflushed := unflushedInBytes + |bytes|;
      var remainingCapacity := Capacity(reserved) - bytesOutLen - 10;
      if nextUnflushed < remainingCapacity {
        assert course == Plain;
        WritePlain(bytes);
        return false;
      }
      numZsync := numZsync + 1;
      if maxRepack == 0 && numZsync > maxZsync {
        assert course == GivenUp;
        numRepack := numRepack + 1;
        unusedBytes := Some(bytes);
        return true;
      }
      refused := WriteWithSync(bytes, reserved);
    }

    method WritePlain(bytes: Bytes)
      requires Valid()
      modifies this`bytesIn, this`bytesList, this`bytesOutLen, this`unflushedInBytes, compressor
      ensures Valid() && compressor.ops == old(compressor.ops) + [Feed(bytes)] && bytesIn == old(bytesIn) + [bytes]
      ensures unflushedInBytes == old(unflushedInBytes) + |bytes|
    {
      ConcatAppend(bytesIn, bytes);
      var out := compressor.Compress(bytes);
      Emit(out);
      bytesIn := bytesIn + [bytes];
      unflushedInBytes := unflushedInBytes + |bytes|;
    }

    /** Add the item with a flush, and pack everything anew when that is too long. */
    method WriteWithSync(bytes: Bytes, reserved: bool) returns (refused: bool)
      requires Valid()
      modifies this, compressor
      ensures Valid() && (compressor == old(compressor) || fresh(compressor))
      ensures maxRepack == old(maxRepack) && maxZsync == old(maxZsync) && numZsync == old(numZsync)
      ensures var course := if !old(TooLongFlushed(bytes, reserved)) then Flushed
                            else if !old(TooLongRepacked(bytes, reserved)) then Tighter else Dropped;
              && refused == course.Refused()
              && compressor.ops == course.Told(old(compressor.ops), old(bytesIn), bytes)
              && numRepack == course.RepackCount(old(numRepack), maxRepack)
      ensures unflushedInBytes == 0
      ensures bytesIn == if refused then old(bytesIn) else old(bytesIn) + [bytes]
      ensures unusedBytes == if refused then Some(bytes) else old(unusedBytes)
    {
      ConcatAppend(bytesIn, bytes);
      var out := compressor.CompressAndSync(bytes);
      unflushedInBytes := 0;
      Emit(out);
      var safetyMargin := if numRepack == 0 then 100 else 10;
      if bytesOutLen + safetyMargin <= Capacity(reserved) {
        bytesIn := bytesIn + [bytes];
        return false;
      }
      refused := Repack(bytes, reserved);
    }

    /** Pack everything anew, without the item if it still is too long. */
    method Repack(bytes: Bytes, reserved: bool) returns (refused: bool)
      requires Faithful(codec)
      modifies this
      ensures Valid() && fresh(compressor)
      ensures maxRepack == old(maxRepack) && maxZsync == old(maxZsync) && numZsync == old(numZsync)
      ensures refused == old(TooLongRepacked(bytes, reserved))
      ensures compressor.ops == Repacked(old(bytesIn), if refused then None else Some(bytes))
      ensures numRepack == (if refused then Dropped else Tighter).RepackCount(old(numRepack), maxRepack)
      ensures unflushedInBytes == old(unflushedInBytes)
      ensures bytesIn == if refused then old(bytesIn) else old(bytesIn) + [bytes]
      ensures unusedBytes == if refused then Some(bytes) else old(unusedBytes)
    {
      var bytesOut, thisLen, fresher := RecompressAllBytesIn(Some(bytes));
      CountRepack();
      refused := thisLen + 10 > Capacity(reserved);
      if refused {
        Drop(bytes);
      } else {
        Adopt(bytes, bytesOut, thisLen, fresher);
      }
    }

    method CountRepack()
      modifies this`numRepack
      ensures numRepack == Tighter.RepackCount(old(numRepack), maxRepack)
    {
      numRepack := numRepack + 1;
      if numRepack >= maxRepack {
        numRepack := numRepack + 1;
      }
    }

    /** Use the new packing, which has one item more. */
    method Adopt(bytes: Bytes, bytesOut: seq<Bytes>, thisLen: nat, fresher: Compressor)
      requires Faithful(codec) && fresher.codec == codec && Fed(fresher.ops) == Concat(bytesIn) + bytes
      requires Concat(bytesOut) == codec.output(fresher.ops) && thisLen == |Concat(bytesOut)|
      modifies this`compressor, this`bytesList, this`bytesOutLen, this`bytesIn
      ensures Valid() && compressor == fresher && bytesIn == old(bytesIn) + [bytes]
    {
      ConcatAppend(bytesIn, bytes);
      bytesIn := bytesIn + [bytes];
      compressor, bytesList, bytesOutLen := fresher, bytesOut, thisLen;
    }

    /** Go back to the accepted items and close the chunk. */
    method Drop(bytes: Bytes)
      requires Faithful(codec)
      modifies this`compressor, this`bytesList, this`bytesOutLen, this`numRepack, this`unusedBytes
      ensures Valid() && fresh(compressor) && compressor.ops == Repacked(bytesIn, None)
      ensures numRepack == maxRepack + 1 && unusedBytes == Some(bytes)
    {
      var bytesOut, thisLen, fresher := RecompressAllBytesIn(None);
      assert Fed(fresher.ops) == Concat(bytesIn);
      numRepack := maxRepack + 1;
      compressor, bytesList, bytesOutLen := fresher, bytesOut, thisLen;
      unusedBytes := Some(bytes);
    }

    /**
     Close the chunk: the output, padded with null bytes to the chunk size. Too much output
     is an error.
     */
    method Finish() returns (r: Result<(seq<Bytes>, Option<Bytes>, nat), nat>)
      requires Valid()
      modifies this, compressor
      ensures match r
              case Failure(length) => length == |codec.output(old(compressor.ops) + [End])| > chunkSize
              case Success((chunk, unused, nulls)) =>
                && |Concat(chunk)| == chunkSize && unused == old(unusedBytes) && nulls <= chunkSize
                && codec.inflate(Concat(chunk)[..chunkSize - nulls]) == Some(Concat(old(bytesIn)))
                && forall i | chunkSize - nulls <= i < chunkSize :: Concat(chunk)[i] == 0
    {
      ghost var ops := compressor.ops;
      assert Inflates(codec, ops);
      bytesIn := [];
      var out := compressor.Tell(End);
      ConcatAppend(bytesList, out);
      bytesList := bytesList + [out];
      bytesOutLen := bytesOutLen + |out|;
      if bytesOutLen > chunkSize {
        return Failure(bytesOutLen);
      }
      var nullsNeeded: nat := chunkSize - bytesOutLen;
      ghost var stream := Concat(bytesList);
      if nullsNeeded > 0 {
        ConcatAppend(bytesList, Nulls(nullsNeeded));
        bytesList := bytesList + [Nulls(nullsNeeded)];
      }
      assert Concat(bytesList)[..bytesOutLen] == stream;
      r := Success((bytesList, unusedBytes, nullsNeeded));
    }
  }

  function Nulls(n: nat): (r: Bytes)
    ensures |r| == n && forall i | 0 <= i < n :: r[i] == 0
  {
    if n == 0 then [] else Nulls(n - 1) + [0]
  }

  /** The items that were not refused, in order. */
  function Accepted(writes: seq<(Bytes, bool)>, refused: seq<bool>): seq<Bytes>
    requires |writes| == |refused|
  {
    if |writes| == 0 then []
    else
      var last := |writes| - 1;
      Accepted(writes[..last], refused[..last]) + if refused[last] then [] else [writes[last].0]
  }

  lemma AcceptedNext(writes: seq<(Bytes, bool)>, refused: seq<bool>, i: nat, no: bool)
    requires |refused| == i < |writes|
    ensures Accepted(writes[..i + 1], refused + [no]) == Accepted(writes[..i], refused) + if no then [] else [writes[i].0]
  {
    assert writes[..i + 1][..i] == writes[..i] && (refused + [no])[..i] == refused;
  }

  /** After a refusal only reserved writes are accepted. */
  ghost predicate ClosedByRefusal(writes: seq<(Bytes, bool)>, refused: seq<bool>) {
    && |refused| <= |writes|
    && forall i, j {:trigger refused[i], refused[j]} | 0 <= i < j < |refused| && refused[i] && !writes[j].1 :: refused[j]
  }

  lemma ClosedNext(writes: seq<(Bytes, bool)>, refused: seq<bool>, no: bool)
    requires |refused| < |writes| && ClosedByRefusal(writes, refused)
    requires (exists i :: 0 <= i < |refused| && refused[i]) && !writes[|refused|].1 ==> no
    ensures ClosedByRefusal(writes, refused + [no])
  {
  }

  /** Write the items one after another. */
  method WriteAll(writer: ChunkWriter, writes: seq<(Bytes, bool)>) returns (refused: seq<bool>)
    requires writer.Valid() && writer.bytesIn == []
    modifies writer, writer.compressor
    ensures writer.Valid() && (writer.compressor == old(writer.compressor) || fresh(writer.compressor))
    ensures |refused| == |writes| && ClosedByRefusal(writes, refused)
    ensures writer.bytesIn == Accepted(writes, refused)
  {
    refused := [];
    for i := 0 to |writes|
      invariant writer.Valid() && (writer.compressor == old(writer.compressor) || fresh(writer.compressor))
      invariant |refused| == i && ClosedByRefusal(writes, refused)
      invariant writer.bytesIn == Accepted(writes[..i], refused)
      invariant (exists j :: 0 <= j < i && refused[j]) ==> writer.Full()
    {
      var no := writer.Write(writes[i].0, writes[i].1);
      AcceptedNext(writes, refused, i, no);
      ClosedNext(writes, refused, no);
      refused := refused + [no];
    }
    assert writes[..|writes|] == writes;
  }

  /**
   Any sequence of reserved and other writes, then the end. Without the padding the chunk
   decompresses to exactly the items that were not refused, in order, and it is as long as
   asked for; after one refusal only reserved writes can succeed.
   */
  method PackChunk(codec: Codec, chunkSize: nat, reserved: nat, forSize: bool, writes: seq<(Bytes, bool)>)
      returns (refused: seq<bool>, r: Result<(seq<Bytes>, Option<Bytes>, nat), nat>)
    requires Faithful(codec)
    ensures |refused| == |writes| && ClosedByRefusal(writes, refused)
    ensures match r
            case Failure(length) =>
              length > chunkSize && exists ops :: Fed(ops) == Concat(Accepted(writes, refused)) && length == |codec.output(ops + [End])|
            case Success((chunk, _, nulls)) =>
              && |Concat(chunk)| == chunkSize && nulls <= chunkSize
              && codec.inflate(Concat(chunk)[..chunkSize - nulls]) == Some(Concat(Accepted(writes, refused)))
  {
    var writer := new ChunkWriter(codec, chunkSize, reserved, forSize);
    refused := WriteAll(writer, writes);
    ghost var ops := writer.compressor.ops;
    r := writer.Finish();
    assert Fed(ops) == Concat(Accepted(writes, refused));
  }
}
