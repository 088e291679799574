/**
 * The record types of src/models.rs that the planner, the response checks and the
 * download pipeline share, and the request body built from a bucket's drops.
 */
module Models {

  /** Rust's `u32`, the type of a file's permission bitmask. */
  newtype u32 = x: int | 0 <= x < 0x1_0000_0000

  /**
   * A destination path: the install directory joined with the manifest's relative path.
   * How the two are joined into one string is not modelled; two paths name the same file
   * exactly when they are equal.
   */
  datatype Path = Path(root: string, relative: string)

  /** One manifest entry: the byte-range lengths of one file, one checksum per range. */
  datatype DropChunk = DropChunk(
    permissions: u32,
    ids: seq<string>,
    checksums: seq<string>,
    lengths: seq<nat>,
    versionName: string)

  /** One byte range of one file. */
  datatype DownloadDrop = DownloadDrop(
    index: nat,
    filename: string,
    path: Path,
    start: nat,
    length: nat,
    checksum: string,
    permissions: u32)

  /** One transfer unit: drops of one version, streamed by the server in this order. */
  datatype DownloadBucket = DownloadBucket(gameId: string, version: string, drops: seq<DownloadDrop>)

  /** The opaque per-version token that authorizes chunk requests. */
  datatype DownloadContext = DownloadContext(context: string)

  datatype ChunkBodyFile = ChunkBodyFile(filename: string, chunkIndex: nat)

  /** The JSON body of a chunk request. */
  datatype ChunkBody = ChunkBody(context: string, files: seq<ChunkBodyFile>)

  /** The number of bytes a sequence of drops covers, in total. */
  function TotalLength(drops: seq<DownloadDrop>): nat
  {
    if drops == [] then 0 else TotalLength(drops[..|drops| - 1]) + drops[|drops| - 1].length
  }

  /** Entry `i` of the request names drop `i`: its file and its range index. */
  function RequestedFiles(drops: seq<DownloadDrop>): (files: seq<ChunkBodyFile>)
    ensures |files| == |drops|
    ensures forall i :: 0 <= i < |drops| ==>
      files[i].filename == drops[i].filename && files[i].chunkIndex == drops[i].index
  {
    if drops == [] then []
    else [ChunkBodyFile(drops[0].filename, drops[0].index)] + RequestedFiles(drops[1..])
  }

  /** `ChunkBody::create`: the context token and one request entry per drop, in drop order. */
  function CreateChunkBody(context: DownloadContext, drops: seq<DownloadDrop>): (body: ChunkBody)
    ensures body.context == context.context
    ensures |body.files| == |drops|
    ensures forall i :: 0 <= i < |drops| ==>
      body.files[i] == ChunkBodyFile(drops[i].filename, drops[i].index)
  {
    ChunkBody(context.context, RequestedFiles(drops))
  }

  /** Building the request commutes with splitting the drop list: order is kept, nothing is merged. */
  lemma {:induction false} RequestedFilesAppend(a: seq<DownloadDrop>, b: seq<DownloadDrop>)
    ensures RequestedFiles(a + b) == RequestedFiles(a) + RequestedFiles(b)
  {
    if a != [] {
      assert (a + b)[1..] == a[1..] + b;
      RequestedFilesAppend(a[1..], b);
    }
  }

  /** The request of a bucket with no drops names no files. */
  lemma EmptyRequest(context: DownloadContext)
    ensures CreateChunkBody(context, []).files == []
  {
  }
}
