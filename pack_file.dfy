/** The decoding session of pkg/pack/packfile.go: a PackFile owns a read-ahead
    buffer over the pack's bytes, the cursor `curOffset`, the header fields and
    the catalog of objects, and decodes the file front to back. */
module PackReader {
  import opened PackFormat
  import opened ZStream
  import opened PackWalk

  class PackFile {
    /** The whole file, as the buffer's byte source would deliver it. */
    const source: seq<byte>
    /** How many bytes one read from the file brings into the buffer at least. */
    const chunk: nat

    /** The buffer: `pos` bytes of `source` have been used, the next `avail`
        are buffered and unused. */
    var pos: nat
    var avail: nat

    var version: u32
    var objectNums: u32
    var curOffset: u32
    var objects: seq<Object>

    /** The cursor is the number of bytes ever used, as a uint32. */
    ghost predicate Valid()
      reads this
    {
      pos + avail <= |source| && curOffset == pos % Two32
    }

    /** NewPackFile, with the opened file given as its contents. */
    constructor (source: seq<byte>, chunk: nat)
      ensures Valid()
      ensures this.source == source && this.chunk == chunk
      ensures pos == 0 && avail == 0 && curOffset == 0
      ensures version == 0 && objectNums == 0 && objects == []
    {
      this.source := source;
      this.chunk := chunk;
      pos, avail := 0, 0;
      version, objectNums, curOffset := 0, 0, 0;
      objects := [];
    }

    /** pf.buffer(): the whole buffered, unused span. */
    function Buffer(): seq<byte>
      reads this
      requires Valid()
    {
      source[pos..pos + avail]
    }

    /** pf.fill(min): makes at least `min` unused bytes available and returns
        the buffered span, or fails when the file has fewer than `min` bytes
        left. */
    method Fill(min: nat) returns (r: Result<seq<byte>>)
      requires Valid()
      modifies this`avail
      ensures Valid()
      ensures r.Ok? <==> pos + min <= |source|
      ensures r.Ok? ==> min <= avail && avail >= old(avail) && r.value == Buffer()
      ensures old(avail) <= avail && old(Buffer()) == Buffer()[..old(avail)]
      ensures r.Err? ==> r.error == Truncated && avail == old(avail)
    {
      if |source| - pos < min {
        return Err(Truncated);
      }
      if avail < min {
        var want := if chunk < min then min else chunk;
        avail := if pos + want <= |source| then want else |source| - pos;
      }
      return Ok(Buffer());
    }

    /** pf.use(length): the first `length` buffered bytes are used and the
        cursor advances by `length`, wrapping as a uint32. */
    method Use(length: nat)
      requires Valid() && length <= avail
      modifies this`pos, this`avail, this`curOffset
      ensures Valid()
      ensures pos == old(pos) + length && avail == old(avail) - length
      ensures curOffset == (old(curOffset) + length) % Two32
      ensures Buffer() == old(Buffer())[length..]
    {
      pos, avail := pos + length, avail - length;
      curOffset := (curOffset + length) % Two32;
    }

    /** pf.readByte(): the first unused byte, with the cursor advanced by one;
        or Truncated with nothing moved. */
    method ReadByte() returns (r: Result<byte>)
      requires Valid()
      modifies this`pos, this`avail, this`curOffset
      ensures Valid()
      ensures old(pos) < |source| ==>
        r == Ok(source[old(pos)]) && pos == old(pos) + 1 && curOffset == (old(curOffset) + 1) % Two32
      ensures old(pos) >= |source| ==>
        r == Err(Truncated) && pos == old(pos) && avail == old(avail) && curOffset == old(curOffset)
    {
      var buf := Fill(1);
      if buf.Err? {
        return Err(buf.error);
      }
      var c := buf.value[0];
      Use(1);
      return Ok(c);
    }

    /** ParseHeader: the 12-byte header is filled, checked and, once filled,
        used whatever the checks say (the `defer pf.use(headerSize)`). */
    method ParseHeader() returns (r: Outcome)
      requires Valid()
      modifies this`pos, this`avail, this`curOffset, this`version, this`objectNums
      ensures Valid()
      ensures old(pos) + HeaderSize > |source| ==>
        r == Fail(Truncated) && pos == old(pos) && curOffset == old(curOffset) &&
        version == old(version) && objectNums == old(objectNums)
      ensures old(pos) + HeaderSize <= |source| ==>
        pos == old(pos) + HeaderSize && curOffset == (old(curOffset) + HeaderSize) % Two32 &&
        match DecodePackHeader(source[old(pos)..old(pos) + HeaderSize])
        case Ok(hd) => r == Pass && version == hd.version && objectNums == hd.count
        case Err(e) => r == Fail(e) && version == old(version) && objectNums == old(objectNums)
    {
      var filled := Fill(HeaderSize);
      if filled.Err? {
        return Fail(filled.error);
      }
      var header := filled.value;
      assert header[..HeaderSize] == source[old(pos)..old(pos) + HeaderSize];
      var signature := BigEndian32(header, 0);
      if signature != Signature {
        r := Fail(BadSignature(signature));
      } else {
        var v := BigEndian32(header, 4);
        if v != 2 && v != 3 {
          r := Fail(BadVersion(v));
        } else {
          version := v;
          objectNums := BigEndian32(header, 8);
          r := Pass;
        }
      }
      Use(HeaderSize);
    }

    /** The type/size loop of ParseObjects, proved against DecodeTypeSize. */
    method ReadTypeAndSize() returns (r: Result<TypeSize>)
      requires Valid()
      modifies this`pos, this`avail, this`curOffset
      ensures Valid() && old(pos) <= pos
      ensures r == DecodeTypeSize(source, old(pos))
      ensures r.Ok? ==> pos == r.value.next
    {
      var first := ReadByte();
      if first.Err? {
        return Err(first.error);
      }
      var b := first.value;
      var tag := TypeBits(b);
      var size: u64 := Low4(b);
      var shift := 4;
      while HasMore(b)
        invariant Valid() && old(pos) < pos <= |source|
        invariant tag == TypeBits(source[old(pos)])
        invariant SizeTail(source, pos, size, shift, b) ==
                  SizeTail(source, old(pos) + 1, Low4(source[old(pos)]), 4, source[old(pos)])
        decreases |source| - pos
      {
        var next := ReadByte();
        if next.Err? {
          return Err(next.error);
        }
        b := next.value;
        size := ShiftIn(size, b, shift);
        shift := shift + 7;
      }
      return Ok(TypeSize(tag, size, pos));
    }

    /** The ofs-delta loop of ParseObjects, proved against DecodeOfsOffset. */
    method ReadOfsOffset() returns (r: Result<byte>)
      requires Valid()
      modifies this`pos, this`avail, this`curOffset
      ensures Valid() && old(pos) <= pos
      ensures match DecodeOfsOffset(source, old(pos))
        case Ok((baseOffset, next)) => r == Ok(baseOffset) && pos == next
        case Err(e) => r == Err(e)
    {
      var first := ReadByte();
      if first.Err? {
        return Err(first.error);
      }
      var b := first.value;
      var baseOffset: byte := Low7(b);
      while HasMore(b)
        invariant Valid() && old(pos) < pos <= |source|
        invariant OfsTail(source, pos, baseOffset, b) == DecodeOfsOffset(source, old(pos))
        decreases |source| - pos
      {
        baseOffset := (baseOffset + 1) % 256;
        if baseOffset == 0 {
          return Err(OffsetOverflow);
        }
        var next := ReadByte();
        if next.Err? {
          return Err(next.error);
        }
        b := next.value;
        baseOffset := OfsShift(baseOffset, b);
      }
      return Ok(baseOffset);
    }

    /** One object header of ParseObjects (packfile.go:77-150), proved against
        DecodeObjectHeader: the cursor ends on the compressed data. */
    method ReadObjectHeader() returns (r: Result<ObjectHeader>)
      requires Valid()
      modifies this`pos, this`avail, this`curOffset
      ensures Valid() && old(pos) <= pos
      ensures r == DecodeObjectHeader(source, old(pos))
      ensures r.Ok? ==> pos == r.value.next
    {
      var at := curOffset;
      var ts := ReadTypeAndSize();
      if ts.Err? {
        return Err(ts.error);
      }
      var kind := TypeOfTag(ts.value.tag);
      if kind.None? {
        return Err(BadType(ts.value.tag));
      }
      if kind.value == RefDelta {
        var id := Fill(HashSize);
        if id.Err? {
          return Err(id.error);
        }
        Use(HashSize);
      } else if kind.value == OfsDelta {
        var baseOffset := ReadOfsOffset();
        if baseOffset.Err? {
          return Err(baseOffset.error);
        }
        if OutOfBound(at, baseOffset.value) {
          return Err(DeltaBaseOutOfBound);
        }
      }
      return Ok(ObjectHeader(kind.value, ts.value.size, pos));
    }

    /** One pass of unpackEntryData's loop on the stream `z`: make at least
        one byte available, give the whole buffered span to the inflater
        (SetInBuf, Inflate), and, unless the inflater failed, use the bytes it
        took. Truncated, with nothing used, when the file has no bytes left;
        otherwise `window` is the span the inflater was given, which starts at
        the cursor, and `r` is what the inflater returned. */
    method InflateBuffered(size: u64, inflate: Inflater, z: Stream) returns (r: Result<Step>, window: seq<byte>)
      requires Valid() && Conforming(inflate)
      modifies this`pos, this`avail, this`curOffset
      ensures Valid()
      ensures r.Err? <==> old(pos) == |source|
      ensures r.Err? ==> r.error == Truncated && pos == old(pos)
      ensures r.Ok? ==>
        r.value == inflate(z, window, size) && 0 < |window| && pos + avail == old(pos) + |window| &&
        old(pos) + |window| <= |source| && window == source[old(pos)..old(pos) + |window|] &&
        (r.value.Failed? ==> pos == old(pos)) &&
        (r.value.Step? ==> r.value.availIn <= |window| && pos == old(pos) + |window| - r.value.availIn)
    {
      var filled := Fill(1);
      if filled.Err? {
        return Err(filled.error), [];
      }
      window := Buffer();
      var step := inflate(z, window, size);
      if step.Failed? {
        return Ok(step), window;
      }
      assert StepConforms(z, window, size, step);
      Use(|window| - step.availIn);
      return Ok(step), window;
    }

    /** unpackEntryData: feeds the whole buffered span to the inflater and uses
        exactly the bytes it took, until it stops reporting Z_OK. `trace` is the
        run of Inflate calls it made, each on the span starting right after
        what the stream had consumed. The outcome is read off the last call:
        success on Z_STREAM_END with TotalOut equal to the declared size, the
        inflater's error, Truncated when the file ends while the stream still
        wants input, and otherwise "inflate returned" with the last status. */
    method UnpackEntryData(size: u64, inflate: Inflater) returns (r: Result<Stream>, ghost trace: seq<Call>)
      requires Valid() && Conforming(inflate)
      modifies this`pos, this`avail, this`curOffset
      ensures Valid() && old(pos) <= pos
      ensures Drives(inflate, source, old(pos), size, trace)
      ensures r == RunResult(size, trace)
      ensures r == Err(Truncated) ==> pos == |source|
      ensures pos == old(pos) + |After(trace).consumed|
    {
      var z := Fresh;
      trace := [];
      while z.status == ZOk
        invariant Valid() && old(pos) <= pos
        invariant Drives(inflate, source, old(pos), size, trace)
        invariant trace != [] ==> Last(trace).step.Step?
        invariant z == After(trace)
        invariant pos == old(pos) + |z.consumed|
        invariant z.totalOut <= size
        invariant old(pos) + |z.consumed| <= |source|
        decreases if z.status == ZOk then 1 else 0, |source| - pos + size - z.totalOut
      {
        var fed, input := InflateBuffered(size, inflate, z);
        if fed.Err? {
          return Err(fed.error), trace;
        }
        var step := fed.value;
        DrivesAppend(inflate, source, old(pos), size, trace, input, step);
        trace := trace + [Call(z, input, step)];
        if step.Failed? {
          return Err(InflateFailed(step.code)), trace;
        }
        z := Advance(z, input, step);
      }
      r := if z.status != ZStreamEnd || z.totalOut != size then Err(InflateReturned(z.status)) else Ok(z);
    }

    /** One pass of ParseObjects' loop: decode the header at the cursor,
        append its entry with the cursor it started at, and inflate its data.
        A header that does not decode leaves the catalog alone; otherwise the
        entry stays even when the data then fails. `run` is the Inflate run on
        the object's data. */
    method ParseObject(inflate: Inflater) returns (r: Outcome, ghost added: seq<Object>, ghost run: seq<Call>)
      requires Valid() && Conforming(inflate)
      modifies this`pos, this`avail, this`curOffset, this`objects
      ensures Valid() && old(pos) <= pos
      ensures objects == old(objects) + added
      ensures RecordRead(inflate, source, old(pos), pos, r, added, run)
    {
      var at := curOffset;
      var header := ReadObjectHeader();
      if header.Err? {
        return Fail(header.error), [], [];
      }
      var obj := Object(at, header.value.kind, header.value.size);
      objects := objects + [obj];
      var data;
      data, run := UnpackEntryData(header.value.size, inflate);
      if data.Err? {
        return Fail(data.error), [obj], run;
      }
      return Pass, [obj], run;
    }

    /** ParseObjects: `objectNums` times, decode a header, append its entry
        and inflate its data. Entries appended before an error stay in the
        catalog. `entries` are the appended entries, `starts` the indices of
        their headers and `runs` the Inflate runs on their data; `failAt` is
        where the record that failed starts. */
    method ParseObjects(inflate: Inflater)
      returns (r: Outcome, ghost starts: seq<nat>, ghost entries: seq<Object>, ghost runs: seq<seq<Call>>,
               ghost failAt: nat)
      requires Valid() && Conforming(inflate)
      modifies this`pos, this`avail, this`curOffset, this`objects
      ensures Valid() && old(pos) <= pos
      ensures objects == old(objects) + entries && |entries| <= objectNums
      ensures Walks(inflate, source, old(pos), starts, entries, runs)
      ensures r.Pass? ==>
        |entries| == objectNums && LastCompletes(entries, runs) && pos == WalkEnd(source, old(pos), starts, runs)
      ensures r.Fail? ==>
        (|entries| < objectNums && HeaderFailed(source, old(pos), starts, entries, runs, failAt, r.error)) ||
        DataFailed(source, starts, entries, runs, failAt, pos, r.error)
    {
      var i: u32 := 0;
      starts, entries, runs, failAt := [], [], [], pos;
      while i < objectNums
        invariant Valid() && old(pos) <= pos
        invariant i <= objectNums && |entries| == i
        invariant objects == old(objects) + entries
        invariant Walks(inflate, source, old(pos), starts, entries, runs)
        invariant LastCompletes(entries, runs)
        invariant pos == WalkEnd(source, old(pos), starts, runs)
      {
        ghost var start := pos;
        var step, added, run := ParseObject(inflate);
        AppendAssoc(old(objects), entries, added);
        starts, entries, runs := NextRecord(inflate, source, old(pos), starts, entries, runs, pos, step, added, run);
        if step.Fail? {
          return step, starts, entries, runs, start;
        }
        i := i + 1;
      }
      return Pass, starts, entries, runs, failAt;
    }
  }
}
