/**
 * The demultiplexing pipeline of src/download_internals.rs: one `DropWriter` per drop, each
 * writing into its destination file and feeding an MD5 context, and a pipeline that reads the
 * chunk response once and hands each drop its slice of the stream, in drop order.
 *
 * The disk and the response body are objects whose state the methods change. I/O failures
 * are nondeterministic: any open, read, write, seek or flush may fail, and every failure
 * aborts the operation that met it. Each failure is counted in the ghost `faults` of the disk
 * or the body it struck, so a contract can say that an operation fails only when one of its
 * steps did. The MD5 digest is a function parameter.
 */
module DownloadInternals {
  import opened Results
  import opened Models
  import opened FileImage

  /** The size of the copy buffer: no read asks for more bytes than this. */
  const MAX_PACKET_LENGTH: nat := 4096 * 4

  /** An MD5 digest, as the `md5` crate returns it. */
  type Digest = seq<bv8>

  /** One call to `read`: how many bytes were asked for, and how many came back. */
  datatype ReadCall = ReadCall(asked: nat, got: nat)

  /** What failed, for the caller's message. */
  datatype IoError = OpenFailed(path: Path) | ReadFailed | WriteFailed | SeekFailed | FlushFailed

  /** The file system the writers write into: every file's content, by path. */
  class Disk {
    var files: map<Path, seq<bv8>>
    /** How many open, write, seek and flush failures have struck this disk. */
    ghost var faults: nat

    constructor (files0: map<Path, seq<bv8>>)
      ensures files == files0 && faults == 0
    {
      files := files0;
      faults := 0;
    }
  }

  /**
   * The body of the chunk response: the bytes the server sends, consumed from `cursor` on.
   * A read may fail, and may return fewer bytes than asked for but at least one when asked
   * for any (the stream holds enough bytes for every drop).
   */
  class ByteSource {
    const data: seq<bv8>
    var cursor: nat
    /** Every `read` made so far, failed ones with nothing returned. */
    ghost var calls: seq<ReadCall>
    /** How many reads have failed. */
    ghost var faults: nat

    constructor (data0: seq<bv8>)
      ensures data == data0 && cursor == 0 && calls == [] && faults == 0
    {
      data := data0;
      cursor := 0;
      calls := [];
      faults := 0;
    }

    /** `Read::read` into `buf[0..n]`. */
    method Read(buf: array<bv8>, n: nat) returns (r: Result<nat, IoError>)
      requires n <= buf.Length && cursor + n <= |data|
      modifies this, buf
      ensures r.Err? ==> cursor == old(cursor) && calls == old(calls) + [ReadCall(n, 0)]
      ensures r.Err? ==> r.error == ReadFailed
      ensures faults == if r.Ok? then old(faults) else old(faults) + 1
      ensures r.Ok? ==> calls == old(calls) + [ReadCall(n, r.value)]
      ensures r.Ok? ==>
        && (n == 0 ==> r.value == 0)
        && (n > 0 ==> 1 <= r.value <= n)
        && cursor == old(cursor) + r.value
        && buf[..r.value] == data[old(cursor)..cursor]
    {
      var failed: bool := *;
      if failed {
        calls := calls + [ReadCall(n, 0)];
        faults := faults + 1;
        return Err(ReadFailed);
      }
      var k: nat := 0;
      if n > 0 {
        k :| 1 <= k <= n;
      }
      forall i | 0 <= i < k {
        buf[i] := data[cursor + i];
      }
      cursor := cursor + k;
      calls := calls + [ReadCall(n, k)];
      return Ok(k);
    }
  }

  /**
   * `DropWriter`: a handle on the destination file, with its own write position, and the MD5
   * context fed with every byte written through it (`hashed` is what the context has seen).
   */
  class DropWriter {
    const disk: Disk
    const path: Path
    var position: nat
    var hashed: seq<bv8>

    constructor Fresh(disk0: Disk, path0: Path)
      ensures disk == disk0 && path == path0 && position == 0 && hashed == []
    {
      disk := disk0;
      path := path0;
      position := 0;
      hashed := [];
    }

    /**
     * `DropWriter::new`: open the path for writing, creating it when absent and never
     * truncating it. The new handle writes at offset 0 and has hashed nothing.
     */
    static method New(disk: Disk, path: Path) returns (r: Result<DropWriter, IoError>)
      modifies disk
      ensures r.Err? ==> disk.files == old(disk.files)
      ensures disk.faults == if r.Ok? then old(disk.faults) else old(disk.faults) + 1
      ensures r.Ok? ==> fresh(r.value)
      ensures r.Ok? ==> r.value.disk == disk && r.value.path == path
      ensures r.Ok? ==> r.value.position == 0 && r.value.hashed == []
      ensures r.Ok? ==> disk.files == Opened(old(disk.files), path)
    {
      var failed: bool := *;
      if failed {
        disk.faults := disk.faults + 1;
        return Err(OpenFailed(path));
      }
      disk.files := Opened(disk.files, path);
      var w := new DropWriter.Fresh(disk, path);
      return Ok(w);
    }

    /**
     * `write_all` through the writer: nothing at all for an empty buffer; otherwise the hasher
     * takes the bytes first, then the file receives them at the current position, which
     * advances past them. The file write may fail.
     */
    method WriteAll(bytes: seq<bv8>) returns (r: Result<(), IoError>)
      modifies this, disk
      ensures bytes == [] ==> r.Ok? && hashed == old(hashed) && position == old(position) && disk.files == old(disk.files)
      ensures bytes != [] ==> hashed == old(hashed) + bytes
      ensures r.Err? ==> disk.files == old(disk.files) && position == old(position)
      ensures r.Err? ==> r.error == WriteFailed
      ensures disk.faults == if r.Ok? then old(disk.faults) else old(disk.faults) + 1
      ensures r.Ok? && bytes != [] ==>
        && position == old(position) + |bytes|
        && disk.files == old(disk.files)[path := WriteAt(FileOf(old(disk.files), path), old(position), bytes)]
    {
      if bytes == [] {
        return Ok(());
      }
      hashed := hashed + bytes;
      var failed: bool := *;
      if failed {
        disk.faults := disk.faults + 1;
        return Err(WriteFailed);
      }
      disk.files := disk.files[path := WriteAt(FileOf(disk.files, path), position, bytes)];
      position := position + |bytes|;
      return Ok(());
    }

    /** `seek(SeekFrom::Start(offset))`: move the write position; it may fail. */
    method Seek(offset: nat) returns (r: Result<nat, IoError>)
      modifies this, disk
      ensures hashed == old(hashed) && disk.files == old(disk.files)
      ensures disk.faults == if r.Ok? then old(disk.faults) else old(disk.faults) + 1
      ensures r.Err? ==> position == old(position)
      ensures r.Ok? ==> r.value == offset && position == offset
    {
      var failed: bool := *;
      if failed {
        disk.faults := disk.faults + 1;
        return Err(SeekFailed);
      }
      position := offset;
      return Ok(offset);
    }

    /** `DropWriter::finish`: flush, which may fail, then the digest of every byte written. */
    method Finish(md5: seq<bv8> -> Digest) returns (r: Result<Digest, IoError>)
      modifies disk
      ensures disk.files == old(disk.files)
      ensures disk.faults == if r.Ok? then old(disk.faults) else old(disk.faults) + 1
      ensures r.Ok? ==> r.value == md5(hashed)
    {
      var failed: bool := *;
      if failed {
        disk.faults := disk.faults + 1;
        return Err(FlushFailed);
      }
      return Ok(md5(hashed));
    }
  }

  /**
   * `DropDownloadPipeline`: the response body, the bucket's drops, and one writer per drop.
   * The writers are distinct handles on the one disk, each on its drop's path.
   */
  class DropDownloadPipeline {
    const source: ByteSource
    const drops: seq<DownloadDrop>
    const destination: seq<DropWriter>
    const disk: Disk

    /** One writer per drop, on the drop's path, no handle shared between two drops. */
    predicate Wired()
    {
      && |destination| == |drops|
      && (forall k :: 0 <= k < |drops| ==> destination[k].disk == disk && destination[k].path == drops[k].path)
      && (forall i, j :: 0 <= i < j < |destination| ==> destination[i] != destination[j])
    }

    /** No writer has written, hashed or moved yet. */
    predicate Unused()
      reads destination
    {
      forall k :: 0 <= k < |destination| ==> destination[k].position == 0 && destination[k].hashed == []
    }

    constructor Assemble(source0: ByteSource, drops0: seq<DownloadDrop>, destination0: seq<DropWriter>, disk0: Disk)
      ensures source == source0 && drops == drops0 && destination == destination0 && disk == disk0
    {
      source := source0;
      drops := drops0;
      destination := destination0;
      disk := disk0;
    }

    /** A writer just opened on `path`: at offset 0, nothing hashed. */
    static predicate Blank(w: DropWriter, disk: Disk, path: Path)
      reads w
    {
      w.disk == disk && w.path == path && w.position == 0 && w.hashed == []
    }

    /**
     * `DropDownloadPipeline::new`: open a writer for every drop, in drop order. The first
     * open that fails ends the construction; the files opened before it stay created.
     */
    static method New(source: ByteSource, drops: seq<DownloadDrop>, disk: Disk) returns (r: Result<DropDownloadPipeline, IoError>)
      modifies disk
      ensures r.Err? ==> exists k :: 0 <= k < |drops| && disk.files == OpenAll(old(disk.files), drops, k)
      ensures disk.faults == if r.Ok? then old(disk.faults) else old(disk.faults) + 1
      ensures r.Ok? ==> fresh(r.value) && fresh(r.value.destination)
      ensures r.Ok? ==> r.value.source == source && r.value.drops == drops && r.value.disk == disk
      ensures r.Ok? ==> r.value.Wired() && r.value.Unused()
      ensures r.Ok? ==> disk.files == OpenAll(old(disk.files), drops, |drops|)
    {
      var writers := OpenWriters(drops, disk);
      if writers.Err? {
        return Err(writers.error);
      }
      var p := new DropDownloadPipeline.Assemble(source, drops, writers.value, disk);
      return Ok(p);
    }

    /** The `try_collect` of `DropWriter::new` over the drops' paths. */
    static method OpenWriters(drops: seq<DownloadDrop>, disk: Disk) returns (r: Result<seq<DropWriter>, IoError>)
      modifies disk
      ensures r.Err? ==> exists k :: 0 <= k < |drops| && disk.files == OpenAll(old(disk.files), drops, k)
      ensures disk.faults == if r.Ok? then old(disk.faults) else old(disk.faults) + 1
      ensures r.Ok? ==> |r.value| == |drops|
      ensures r.Ok? ==> forall i :: 0 <= i < |drops| ==> fresh(r.value[i]) && Blank(r.value[i], disk, drops[i].path)
      ensures r.Ok? ==> forall i, j :: 0 <= i < j < |drops| ==> r.value[i] != r.value[j]
      ensures r.Ok? ==> disk.files == OpenAll(old(disk.files), drops, |drops|)
    {
      var writers: seq<DropWriter> := [];
      var k := 0;
      while k < |drops|
        invariant 0 <= k <= |drops| && |writers| == k
        invariant disk.files == OpenAll(old(disk.files), drops, k)
        invariant disk.faults == old(disk.faults)
        invariant forall i :: 0 <= i < k ==> fresh(writers[i]) && Blank(writers[i], disk, drops[i].path)
        invariant forall i, j :: 0 <= i < j < k ==> writers[i] != writers[j]
      {
        var made := DropWriter.New(disk, drops[k].path);
        if made.Err? {
          return Err(made.error);
        }
        writers := writers + [made.value];
        k := k + 1;
      }
      return Ok(writers);
    }

    /**
     * `copy`: for each drop in order, seek its writer to the drop's start unless that is 0,
     * then read the drop's length from the source in pieces of at most `MAX_PACKET_LENGTH`
     * bytes, writing each piece through the writer. Any read, write or seek error aborts.
     */
    method Copy() returns (r: Result<bool, IoError>)
      requires Wired() && Unused()
      requires source.cursor + TotalLength(drops) <= |source.data|
      requires PathsOf(drops, |drops|) <= disk.files.Keys
      modifies source, disk, destination
      ensures source.faults >= old(source.faults) && disk.faults >= old(disk.faults)
      ensures r.Ok? <==> source.faults == old(source.faults) && disk.faults == old(disk.faults)
      ensures r.Ok? ==> r.value
      ensures r.Ok? ==>
        var stream := old(source.data[source.cursor..]);
        && TotalLength(drops) <= |stream|
        && source.cursor == old(source.cursor) + TotalLength(drops)
        && (forall k :: 0 <= k < |drops| ==> destination[k].hashed == DropBytes(stream, drops, k))
        && disk.files == DemuxFiles(old(disk.files), drops, stream)
    {
      ghost var stream := source.data[source.cursor..];
      ghost var files0 := disk.files;
      ghost var base := source.cursor;
      var copyBuffer := new bv8[MAX_PACKET_LENGTH];
      var index := 0;
      assert CopyState(source.data, source.cursor, disk.files, files0, drops, base, stream, 0);
      while index < |drops|
        invariant CopiedUpTo(index, files0, base, stream)
        invariant source.faults == old(source.faults) && disk.faults == old(disk.faults)
      {
        var result := CopyNextDrop(index, copyBuffer, files0, base, stream);
        if result.Err? {
          return Err(result.error);
        }
        index := index + 1;
      }
      CopyEnds(source.data, source.cursor, disk.files, files0, drops, base, stream);
      return Ok(true);
    }

    /**
     * `copy`'s progress after `index` drops: the source has moved past their bytes, the files
     * are the pass over them, their writers have hashed their slices, and the later writers are
     * untouched.
     */
    ghost predicate CopiedUpTo(index: nat, files0: map<Path, seq<bv8>>, base: nat, stream: seq<bv8>)
      reads source, disk, destination
    {
      && CopyState(source.data, source.cursor, disk.files, files0, drops, base, stream, index)
      && (forall k :: 0 <= k < index ==> k < |destination| && destination[k].hashed == DropBytes(stream, drops, k))
      && (forall k :: index <= k < |drops| ==> k < |destination| && destination[k].position == 0 && destination[k].hashed == [])
    }

    /** One turn of `copy`'s outer loop: drop `index` copied, the pass extended by that drop. */
    method CopyNextDrop(index: nat, copyBuffer: array<bv8>, ghost files0: map<Path, seq<bv8>>, ghost base: nat, ghost stream: seq<bv8>)
      returns (r: Result<(), IoError>)
      requires Wired() && index < |drops| && copyBuffer.Length == MAX_PACKET_LENGTH
      requires PathsOf(drops, |drops|) <= files0.Keys
      requires CopiedUpTo(index, files0, base, stream)
      modifies source, disk, destination[index], copyBuffer
      ensures source.faults >= old(source.faults) && disk.faults >= old(disk.faults)
      ensures r.Ok? <==> source.faults == old(source.faults) && disk.faults == old(disk.faults)
      ensures r.Ok? ==> CopiedUpTo(index + 1, files0, base, stream)
    {
      NextDropReady(source.data, source.cursor, disk.files, files0, drops, base, stream, index);
      ghost var before := disk.files;
      ghost var at := source.cursor;
      r := CopyDrop(index, copyBuffer);
      if r.Ok? {
        CopyStep(files0, before, drops, source.data, base, stream, index, at, destination[index].hashed);
      }
    }

    /**
     * The body of `copy`'s outer loop for drop `index`: the drop's writer, moved to the drop's
     * start, receives the next `length` bytes of the source, and hashes them.
     */
    method CopyDrop(index: nat, copyBuffer: array<bv8>) returns (r: Result<(), IoError>)
      requires Wired() && index < |drops| && copyBuffer.Length == MAX_PACKET_LENGTH
      requires source.cursor + drops[index].length <= |source.data|
      requires drops[index].path in disk.files
      requires destination[index].position == 0 && destination[index].hashed == []
      modifies source, disk, destination[index], copyBuffer
      ensures forall k :: 0 <= k < |drops| && k != index ==>
        destination[k].hashed == old(destination[k].hashed) && destination[k].position == old(destination[k].position)
      ensures r.Err? && r.error.SeekFailed? ==> drops[index].start != 0
      ensures source.faults >= old(source.faults) && disk.faults >= old(disk.faults)
      ensures r.Ok? <==> source.faults == old(source.faults) && disk.faults == old(disk.faults)
      ensures r.Ok? ==>
        && source.cursor == old(source.cursor) + drops[index].length
        && destination[index].hashed == source.data[old(source.cursor)..old(source.cursor) + drops[index].length]
        && disk.files == old(disk.files)[drops[index].path :=
             WriteAt(old(disk.files)[drops[index].path], drops[index].start, destination[index].hashed)]
    {
      var drop := drops[index];
      var destination := this.destination[index];
      if drop.start != 0 {
        var seeked := destination.Seek(drop.start);
        if seeked.Err? {
          return Err(seeked.error);
        }
      }
      r := Pump(source, destination, drop.length, copyBuffer);
    }

    /**
     * `copy`'s inner loop: read at most a buffer's worth, and no more than the drop still
     * lacks, then write what came back through the writer, until `length` bytes have passed.
     * The first read is made even for an empty drop.
     */
    static method Pump(source: ByteSource, w: DropWriter, length: nat, copyBuffer: array<bv8>)
      returns (r: Result<(), IoError>)
      requires copyBuffer.Length == MAX_PACKET_LENGTH
      requires source.cursor + length <= |source.data|
      requires w.path in w.disk.files && w.hashed == []
      modifies source, w, w.disk, copyBuffer
      ensures r.Ok? ==>
        && source.cursor == old(source.cursor) + length
        && w.hashed == source.data[old(source.cursor)..old(source.cursor) + length]
        && w.disk.files == old(w.disk.files)[w.path := WriteAt(old(w.disk.files)[w.path], old(w.position), w.hashed)]
      ensures r.Ok? ==> ReadsOneDrop(old(source.calls), source.calls, length)
      ensures r.Err? ==> r.error.ReadFailed? || r.error.WriteFailed?
      ensures source.faults >= old(source.faults) && w.disk.faults >= old(w.disk.faults)
      ensures r.Ok? <==> source.faults == old(source.faults) && w.disk.faults == old(w.disk.faults)
    {
      ghost var at := source.cursor;
      ghost var before := w.disk.files;
      ghost var start := w.position;
      ghost var calls0 := source.calls;
      ghost var mine: seq<ReadCall> := [];
      var remaining: nat := length;
      assert before[w.path := WriteAt(before[w.path], start, [])] == before;
      while true
        invariant Pumped(source, w, length, remaining, at, start, before, calls0, mine)
        invariant mine == [] || remaining > 0
        invariant source.faults == old(source.faults) && w.disk.faults == old(w.disk.faults)
        decreases remaining
      {
        var step;
        step, mine := PumpPacket(source, w, length, remaining, copyBuffer, at, start, before, calls0, mine);
        if step.Err? {
          return Err(step.error);
        }
        remaining := step.value;
        if remaining == 0 {
          break;
        }
      }
      assert ReadsOneDrop(calls0, source.calls, length) by {
        assert source.calls[|calls0|..] == mine;
      }
      return Ok(());
    }

    /**
     * Where `Pump` stands with `remaining` bytes still to pass: the writer, which started at
     * `start` over the files `before`, has written and hashed the source's bytes from `at` up
     * to the cursor, and the reads made since `calls0` are `mine`.
     */
    static ghost predicate Pumped(source: ByteSource, w: DropWriter, length: nat, remaining: nat, at: nat, start: nat,
                                  before: map<Path, seq<bv8>>, calls0: seq<ReadCall>, mine: seq<ReadCall>)
      reads source, w, w.disk
    {
      && source.calls == calls0 + mine
      && w.position == start + |w.hashed|
      && PumpState(source.data, source.cursor, w.hashed, w.disk.files, w.path, length, remaining, at, start, before, mine)
    }

    /** One pass of `Pump`'s loop: one read, and the write of what it returned. */
    static method PumpPacket(source: ByteSource, w: DropWriter, length: nat, remaining: nat, copyBuffer: array<bv8>,
                             ghost at: nat, ghost start: nat, ghost before: map<Path, seq<bv8>>,
                             ghost calls0: seq<ReadCall>, ghost mine: seq<ReadCall>)
      returns (r: Result<nat, IoError>, ghost mine': seq<ReadCall>)
      requires copyBuffer.Length == MAX_PACKET_LENGTH
      requires Pumped(source, w, length, remaining, at, start, before, calls0, mine) && (mine == [] || remaining > 0)
      modifies source, w, w.disk, copyBuffer
      ensures r.Ok? ==> mine' != [] && (r.value == 0 || r.value < remaining)
      ensures r.Err? ==> r.error.ReadFailed? || r.error.WriteFailed?
      ensures source.faults >= old(source.faults) && w.disk.faults >= old(w.disk.faults)
      ensures r.Ok? <==> source.faults == old(source.faults) && w.disk.faults == old(w.disk.faults)
      ensures r.Ok? ==> Pumped(source, w, length, r.value, at, start, before, calls0, mine')
    {
      mine' := mine;
      var size: nat := if MAX_PACKET_LENGTH < remaining then MAX_PACKET_LENGTH else remaining;
      ghost var done := w.hashed;
      ghost var from := source.cursor;
      ghost var files := w.disk.files;
      var read := source.Read(copyBuffer, size);
      if read.Err? {
        return Err(read.error), mine';
      }
      var n := read.value;
      mine' := mine + [ReadCall(size, n)];
      var piece := copyBuffer[..n];
      var written := w.WriteAll(piece);
      if written.Err? {
        return Err(written.error), mine';
      }
      PumpAdvance(source.data, from, done, files, w.path, length, remaining, at, start, before, mine, size, piece,
                  source.cursor, w.hashed, w.disk.files);
      r := Ok(remaining - n);
    }

    /**
     * `finish`: finish every writer, in drop order, and collect one digest per drop. The first
     * flush that fails ends it.
     */
    method Finish(md5: seq<bv8> -> Digest) returns (r: Result<seq<Digest>, IoError>)
      requires Wired()
      modifies disk
      ensures disk.files == old(disk.files)
      ensures disk.faults >= old(disk.faults)
      ensures r.Ok? <==> disk.faults == old(disk.faults)
      ensures r.Ok? ==> |r.value| == |destination|
      ensures r.Ok? ==> forall k :: 0 <= k < |destination| ==> r.value[k] == md5(destination[k].hashed)
    {
      var digests: seq<Digest> := [];
      var k := 0;
      while k < |destination|
        invariant 0 <= k <= |destination| && |digests| == k
        invariant forall i :: 0 <= i < k ==> digests[i] == md5(destination[i].hashed)
        invariant disk.files == old(disk.files) && disk.faults == old(disk.faults)
      {
        var digest := destination[k].Finish(md5);
        if digest.Err? {
          return Err(digest.error);
        }
        digests := digests + [digest.value];
        k := k + 1;
      }
      return Ok(digests);
    }
  }

  /** The bytes a sequence of reads returned. */
  function Consumed(calls: seq<ReadCall>): (n: nat)
    ensures calls == [] ==> n == 0
  {
    if calls == [] then 0 else Consumed(calls[..|calls| - 1]) + calls[|calls| - 1].got
  }

  /**
   * The reads `copy` makes for a drop of `length` bytes, so far: each asks for the smaller of
   * the buffer size and what the drop still lacks, gets no more than it asked for, and is made
   * only while the drop still lacks bytes (the first one always).
   */
  ghost predicate Paced(calls: seq<ReadCall>, length: nat)
    decreases |calls|
  {
    calls == [] ||
      var init, last := calls[..|calls| - 1], calls[|calls| - 1];
      && Paced(init, length)
      && (init == [] || Consumed(init) < length)
      && last.asked == (if MAX_PACKET_LENGTH < length - Consumed(init) then MAX_PACKET_LENGTH else length - Consumed(init))
      && last.got <= last.asked
  }

  /** All the reads for one drop: paced, at least one, and together returning exactly its bytes. */
  ghost predicate DropReads(calls: seq<ReadCall>, length: nat)
  {
    calls != [] && Paced(calls, length) && Consumed(calls) == length
  }

  /**
   * `Pump`'s loop invariant on values: `remaining` of `length` bytes still to pass, the bytes
   * from `at` to `cursor` written at `start` over the files `before` and hashed, and the reads
   * so far paced and returning exactly those bytes.
   */
  ghost predicate PumpState(data: seq<bv8>, cursor: nat, hashed: seq<bv8>, files: map<Path, seq<bv8>>, path: Path,
                            length: nat, remaining: nat, at: nat, start: nat, before: map<Path, seq<bv8>>,
                            mine: seq<ReadCall>)
  {
    && remaining <= length
    && at + length <= |data|
    && Paced(mine, length) && Consumed(mine) + remaining == length
    && cursor == at + (length - remaining)
    && hashed == data[at..cursor]
    && path in before
    && files == before[path := WriteAt(before[path], start, hashed)]
  }

  /** A read of `|piece|` bytes of the asked-for size, then the write of `piece`, keeps `PumpState`. */
  lemma PumpAdvance(data: seq<bv8>, cursor: nat, hashed: seq<bv8>, files: map<Path, seq<bv8>>, path: Path,
                    length: nat, remaining: nat, at: nat, start: nat, before: map<Path, seq<bv8>>,
                    mine: seq<ReadCall>, size: nat, piece: seq<bv8>,
                    cursor': nat, hashed': seq<bv8>, files': map<Path, seq<bv8>>)
    requires PumpState(data, cursor, hashed, files, path, length, remaining, at, start, before, mine)
    requires mine == [] || remaining > 0
    requires size == (if MAX_PACKET_LENGTH < remaining then MAX_PACKET_LENGTH else remaining) && |piece| <= size
    requires cursor' == cursor + |piece| && cursor' <= |data| && piece == data[cursor..cursor']
    requires hashed' == hashed + piece
    requires files' == if piece == [] then files else files[path := WriteAt(FileOf(files, path), start + |hashed|, piece)]
    ensures PumpState(data, cursor', hashed', files', path, length, remaining - |piece|, at, start, before,
                      mine + [ReadCall(size, |piece|)])
  {
    PacedSnoc(mine, length, remaining, size, |piece|);
    SliceJoin(data, at, cursor, cursor');
    PieceStep(before, path, start, hashed, piece);
    if piece == [] {
      assert hashed + piece == hashed;
    }
  }

  /** One more read, of the size `copy` asks for, keeps the reads paced. */
  lemma PacedSnoc(mine: seq<ReadCall>, length: nat, remaining: nat, size: nat, n: nat)
    requires Paced(mine, length) && Consumed(mine) + remaining == length && (mine == [] || remaining > 0)
    requires size == (if MAX_PACKET_LENGTH < remaining then MAX_PACKET_LENGTH else remaining) && n <= size
    ensures Paced(mine + [ReadCall(size, n)], length) && Consumed(mine + [ReadCall(size, n)]) + (remaining - n) == length
  {
    assert (mine + [ReadCall(size, n)])[..|mine|] == mine;
  }

  /** The reads made after `before`, to reach `after`, are all the reads for one drop of `length` bytes. */
  ghost predicate ReadsOneDrop(before: seq<ReadCall>, after: seq<ReadCall>, length: nat)
  {
    |before| <= |after| && DropReads(after[|before|..], length)
  }

  /** No read asks for more than the buffer holds, nor for more than the drop still lacks. */
  lemma {:induction false} PacedAsks(calls: seq<ReadCall>, length: nat)
    requires Paced(calls, length)
    ensures forall i :: 0 <= i < |calls| ==>
      calls[i].asked <= MAX_PACKET_LENGTH && Consumed(calls[..i]) + calls[i].asked <= length
  {
    if calls != [] {
      var init := calls[..|calls| - 1];
      PacedAsks(init, length);
      forall i | 0 <= i < |calls|
        ensures calls[i].asked <= MAX_PACKET_LENGTH && Consumed(calls[..i]) + calls[i].asked <= length
      {
        if i < |init| {
          assert calls[..i] == init[..i];
        } else {
          assert calls[..i] == init;
        }
      }
    }
  }

  /** A drop of no bytes makes exactly one read, which asks for nothing and gets nothing. */
  lemma EmptyDropReads(calls: seq<ReadCall>)
    requires DropReads(calls, 0)
    ensures calls == [ReadCall(0, 0)]
  {
    var init := calls[..|calls| - 1];
    if init != [] {
      assert false;
    }
  }

  /** Writing a drop piece by piece: each piece lands right after the bytes already written. */
  lemma PieceStep(before: map<Path, seq<bv8>>, p: Path, start: nat, done: seq<bv8>, piece: seq<bv8>)
    requires p in before
    ensures
      var mid := before[p := WriteAt(before[p], start, done)];
      mid[p := WriteAt(FileOf(mid, p), start + |done|, piece)] == before[p := WriteAt(before[p], start, done + piece)]
  {
    WriteAtAppend(before[p], start, done, piece);
  }

  /** Two adjacent slices of a sequence make one. */
  lemma SliceJoin(data: seq<bv8>, a: nat, b: nat, c: nat)
    requires a <= b <= c <= |data|
    ensures data[a..b] + data[b..c] == data[a..c]
  {
  }

  /** A slice of a suffix is a slice of the whole. */
  lemma SliceOfSuffix(s: seq<bv8>, a: nat, b: nat, c: nat)
    requires a <= |s| && b <= c <= |s| - a
    ensures s[a..][b..c] == s[a + b..a + c]
  {
    var l := s[a..][b..c];
    var r := s[a + b..a + c];
    assert |l| == |r|;
    forall i | 0 <= i < |l| ensures l[i] == r[i] {
    }
  }

  /** Drop `index` ends within the bucket's total length. */
  lemma DropWithin(drops: seq<DownloadDrop>, index: nat)
    requires index < |drops|
    ensures Offset(drops, index) + drops[index].length <= TotalLength(drops)
  {
    assert Offset(drops, index + 1) == Offset(drops, index) + drops[index].length;
    OffsetMono(drops, index + 1, |drops|);
    OffsetTotal(drops);
  }

  /** Drop `index`'s slice of the stream that starts at `base` in the response body, in body positions `[base + o, base + o + len)`. */
  lemma DropSlice(data: seq<bv8>, base: nat, drops: seq<DownloadDrop>, index: nat, o: nat, len: nat)
    requires index < |drops| && base + TotalLength(drops) <= |data|
    requires o == Offset(drops, index) && len == drops[index].length && o + len <= TotalLength(drops)
    ensures DropBytes(data[base..], drops, index) == data[base + o..base + o + len]
  {
    SliceOfSuffix(data, base, o, o + len);
  }

  /**
   * `copy`'s progress on values: the stream is the response body from `base` on, the cursor
   * has passed the first `index` drops' bytes, and the files are the pass over those drops.
   */
  ghost predicate CopyState(data: seq<bv8>, cursor: nat, files: map<Path, seq<bv8>>, files0: map<Path, seq<bv8>>,
                            drops: seq<DownloadDrop>, base: nat, stream: seq<bv8>, index: nat)
  {
    && index <= |drops| && base <= |data| && stream == data[base..]
    && TotalLength(drops) <= |stream|
    && cursor == base + Offset(drops, index)
    && files == DemuxUpTo(files0, drops, stream, index)
  }

  /** Once every drop is copied, the cursor has passed the bucket's bytes and the files are the whole pass. */
  lemma CopyEnds(data: seq<bv8>, cursor: nat, files: map<Path, seq<bv8>>, files0: map<Path, seq<bv8>>,
                 drops: seq<DownloadDrop>, base: nat, stream: seq<bv8>)
    requires CopyState(data, cursor, files, files0, drops, base, stream, |drops|)
    ensures cursor == base + TotalLength(drops) && files == DemuxFiles(files0, drops, stream)
  {
    OffsetTotal(drops);
  }

  /** Before drop `index` is copied, its file is open and the body holds its bytes. */
  lemma NextDropReady(data: seq<bv8>, cursor: nat, files: map<Path, seq<bv8>>, files0: map<Path, seq<bv8>>,
                      drops: seq<DownloadDrop>, base: nat, stream: seq<bv8>, index: nat)
    requires CopyState(data, cursor, files, files0, drops, base, stream, index) && index < |drops|
    requires PathsOf(drops, |drops|) <= files0.Keys
    ensures drops[index].path in files && cursor + drops[index].length <= |data|
  {
    DropWithin(drops, index);
    assert drops[index].path in PathsOf(drops, |drops|);
    DemuxKeys(files0, drops, stream, index);
  }

  /**
   * After drop `index` has been copied from body position `at` on, the files are those of the
   * pass over one more drop, and the writer has hashed exactly the drop's slice.
   */
  lemma CopyStep(files0: map<Path, seq<bv8>>, before: map<Path, seq<bv8>>, drops: seq<DownloadDrop>, data: seq<bv8>,
                 base: nat, stream: seq<bv8>, index: nat, at: nat, hashed: seq<bv8>)
    requires CopyState(data, at, before, files0, drops, base, stream, index) && index < |drops|
    requires drops[index].path in before
    requires at + drops[index].length <= |data| && hashed == data[at..at + drops[index].length]
    ensures hashed == DropBytes(stream, drops, index)
    ensures CopyState(data, at + drops[index].length, before[drops[index].path := WriteAt(before[drops[index].path], drops[index].start, hashed)],
                      files0, drops, base, stream, index + 1)
  {
    DropWithin(drops, index);
    DropSlice(data, base, drops, index, Offset(drops, index), drops[index].length);
  }
}
