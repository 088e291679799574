/**
 * The body of `download_game_bucket` in src/download.rs once the chunk request has been
 * answered with status 200: check the `Content-Lengths` header against the bucket's drops,
 * demultiplex the response body into the drops' files, and compare every drop's digest with
 * its manifest checksum. The response arrives as its header value and its body; the request
 * itself is returned as the body the client would send.
 */
module BucketTransfer {
  import opened Results
  import opened Models
  import opened ResponseChecks
  import opened FileImage
  import opened DownloadInternals

  /** Why a bucket transfer fails: the header disagrees with the drops, or an I/O step failed. */
  datatype BucketError = HeaderRejected(header: HeaderError) | Io(io: IoError)

  /**
   * One bucket: the request names every drop, the header must agree with the drops, every
   * drop's bytes land in its file and are hashed, and digests that differ from the manifest
   * are only reported in `mismatched`, never turned into an error: once the header agrees,
   * the transfer fails only when an I/O step on the disk or the body failed.
   */
  method DownloadGameBucket(bucket: DownloadBucket, context: DownloadContext, header: string,
                            source: ByteSource, disk: Disk, md5: seq<bv8> -> Digest, hex: Digest -> string)
    returns (body: ChunkBody, r: Result<(), BucketError>, mismatched: seq<nat>)
    requires HeaderAgrees(Split(header, ','), bucket.drops) ==> source.cursor + TotalLength(bucket.drops) <= |source.data|
    modifies source, disk
    ensures body == CreateChunkBody(context, bucket.drops)
    ensures source.faults >= old(source.faults) && disk.faults >= old(disk.faults)
    ensures r.Err? && r.error.Io? ==> source.faults > old(source.faults) || disk.faults > old(disk.faults)
    ensures HeaderAgrees(Split(header, ','), bucket.drops) && source.faults == old(source.faults) && disk.faults == old(disk.faults) ==>
      r.Ok?
    ensures r.Ok? ==> HeaderAgrees(Split(header, ','), bucket.drops)
    ensures r.Err? && r.error.HeaderRejected? ==> !HeaderAgrees(Split(header, ','), bucket.drops)
    ensures !HeaderAgrees(Split(header, ','), bucket.drops) ==>
      r.Err? && r.error.HeaderRejected? && disk.files == old(disk.files) && source.cursor == old(source.cursor)
    ensures r.Err? ==> mismatched == []
    ensures r.Ok? ==> Transferred(bucket.drops, old(disk.files), old(source.data[source.cursor..]), disk.files)
    ensures r.Ok? ==> source.cursor == old(source.cursor) + TotalLength(bucket.drops)
    ensures r.Ok? ==> MismatchesReported(bucket.drops, old(source.data[source.cursor..]), md5, hex, mismatched)
  {
    body := CreateChunkBody(context, bucket.drops);
    mismatched := [];
    var drops := bucket.drops;
    var checked := CheckContentLengths(header, drops);
    if checked.Err? {
      return body, Err(HeaderRejected(checked.error)), [];
    }
    var digests := RunPipeline(drops, source, disk, md5);
    if digests.Err? {
      return body, Err(Io(digests.error)), [];
    }
    mismatched := DigestMismatches(drops, digests.value, hex);
    r := Ok(());
  }

  /**
   * The pipeline's part of a bucket: open a writer per drop, copy the body into them, and
   * finish them, the first failure ending it. Digest `k` is the MD5 of drop `k`'s slice.
   */
  method RunPipeline(drops: seq<DownloadDrop>, source: ByteSource, disk: Disk, md5: seq<bv8> -> Digest)
    returns (r: Result<seq<Digest>, IoError>)
    requires source.cursor + TotalLength(drops) <= |source.data|
    modifies source, disk
    ensures source.faults >= old(source.faults) && disk.faults >= old(disk.faults)
    ensures r.Ok? <==> source.faults == old(source.faults) && disk.faults == old(disk.faults)
    ensures r.Ok? ==> Transferred(drops, old(disk.files), old(source.data[source.cursor..]), disk.files)
    ensures r.Ok? ==> source.cursor == old(source.cursor) + TotalLength(drops)
    ensures r.Ok? ==> Digests(drops, old(source.data[source.cursor..]), md5, r.value)
  {
    ghost var files0 := disk.files;
    var made := DropDownloadPipeline.New(source, drops, disk);
    if made.Err? {
      return Err(made.error);
    }
    var pipeline := made.value;
    OpenAllFiles(files0, drops, |drops|);
    var copied := pipeline.Copy();
    if copied.Err? {
      return Err(copied.error);
    }
    r := pipeline.Finish(md5);
  }

  /** One digest per drop: the MD5 of the drop's slice of the stream. */
  ghost predicate Digests(drops: seq<DownloadDrop>, stream: seq<bv8>, md5: seq<bv8> -> Digest, digests: seq<Digest>)
  {
    && TotalLength(drops) <= |stream|
    && |digests| == |drops|
    && forall k :: 0 <= k < |drops| ==> digests[k] == md5(DropBytes(stream, drops, k))
  }

  /** The files after a transfer: the drops' destinations opened, then every drop's slice written at its start. */
  ghost predicate Transferred(drops: seq<DownloadDrop>, files0: map<Path, seq<bv8>>, stream: seq<bv8>,
                              files: map<Path, seq<bv8>>)
  {
    TotalLength(drops) <= |stream| && files == DemuxFiles(OpenAll(files0, drops, |drops|), drops, stream)
  }

  /** Drop `k` is reported exactly when the hex digest of its slice of the stream is not its checksum. */
  ghost predicate MismatchesReported(drops: seq<DownloadDrop>, stream: seq<bv8>, md5: seq<bv8> -> Digest,
                                     hex: Digest -> string, mismatched: seq<nat>)
  {
    && TotalLength(drops) <= |stream|
    && (forall k :: k in mismatched ==> k < |drops|)
    && forall k :: 0 <= k < |drops| ==> (k in mismatched <==> hex(md5(DropBytes(stream, drops, k))) != drops[k].checksum)
  }

  /**
   * A server that sends every drop's bytes, in drop order and at the drop's length: each
   * digest is the MD5 of that drop's own bytes.
   */
  lemma {:induction false} HonestStreamDigests(drops: seq<DownloadDrop>, parts: seq<seq<bv8>>, md5: seq<bv8> -> Digest,
                                               digests: seq<Digest>)
    requires |parts| == |drops| && forall j :: 0 <= j < |drops| ==> drops[j].length == |parts[j]|
    requires Digests(drops, Concat(parts), md5, digests)
    ensures forall k :: 0 <= k < |drops| ==> digests[k] == md5(parts[k])
  {
    ConcatSlices(parts, drops);
  }

  /** When every drop's checksum is the hex MD5 of the bytes the server sends for it, nothing is reported. */
  lemma {:induction false} HonestStreamNoMismatch(drops: seq<DownloadDrop>, parts: seq<seq<bv8>>, md5: seq<bv8> -> Digest,
                                                  hex: Digest -> string, mismatched: seq<nat>)
    requires |parts| == |drops| && forall j :: 0 <= j < |drops| ==> drops[j].length == |parts[j]|
    requires forall j :: 0 <= j < |drops| ==> drops[j].checksum == hex(md5(parts[j]))
    requires MismatchesReported(drops, Concat(parts), md5, hex, mismatched)
    ensures mismatched == []
  {
    ConcatSlices(parts, drops);
    assert forall k :: 0 <= k < |drops| ==> k !in mismatched;
    HeadListed(mismatched);
  }

  /** A non-empty list holds its first element. */
  lemma HeadListed(xs: seq<nat>)
    ensures xs != [] ==> xs[0] in xs
  {
  }

  /**
   * With disjoint ranges, after a transfer each drop's file holds exactly the bytes the server
   * sent for that drop, at `[start, start + length)`.
   */
  lemma {:induction false} HonestStreamPlaces(drops: seq<DownloadDrop>, parts: seq<seq<bv8>>, files0: map<Path, seq<bv8>>,
                                              files: map<Path, seq<bv8>>, k: nat)
    requires |parts| == |drops| && forall j :: 0 <= j < |drops| ==> drops[j].length == |parts[j]|
    requires DisjointRanges(drops) && k < |drops|
    requires Transferred(drops, files0, Concat(parts), files)
    ensures drops[k].length == 0 || drops[k].start + drops[k].length <= |FileOf(files, drops[k].path)|
    ensures forall i :: 0 <= i < drops[k].length ==> FileOf(files, drops[k].path)[drops[k].start + i] == parts[k][i]
  {
    ConcatSlices(parts, drops);
    DemuxPlacesDrop(OpenAll(files0, drops, |drops|), drops, Concat(parts), k);
  }
}
