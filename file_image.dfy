/**
 * What the demultiplexer does to the files on disk, stated without objects: a positional
 * write with zero padding, the opening of files without truncation, and the fold of every
 * drop's write over the files (the specification the pipeline's `copy` is proved against).
 *
 * The folds run over the first `n` drops of a bucket, counted by index.
 */
module FileImage {
  import opened Results
  import opened Models

  function Max(a: nat, b: nat): nat { if a < b then b else a }

  /** The content of `p`, an absent file reading as empty. */
  function FileOf(files: map<Path, seq<bv8>>, p: Path): seq<bv8>
  {
    if p in files then files[p] else []
  }

  /**
   * Writing `bytes` at offset `start` of a file holding `content`. A write past the end
   * pads the gap with zero bytes; a write of no bytes leaves the file as it was, even when
   * `start` lies past its end.
   */
  function WriteAt(content: seq<bv8>, start: nat, bytes: seq<bv8>): (r: seq<bv8>)
    ensures |r| == if bytes == [] then |content| else Max(|content|, start + |bytes|)
  {
    if bytes == [] then content
    else seq(Max(|content|, start + |bytes|), i => WrittenByte(content, start, bytes, i))
  }

  /** Byte `i` after the write: from `bytes` inside the range, else the old byte, else padding. */
  function WrittenByte(content: seq<bv8>, start: nat, bytes: seq<bv8>, i: int): bv8
  {
    if start <= i < start + |bytes| then bytes[i - start]
    else if 0 <= i < |content| then content[i] else 0
  }

  /** Byte by byte: the written range holds `bytes`, the rest the old content or zero padding. */
  lemma WriteAtBytes(content: seq<bv8>, start: nat, bytes: seq<bv8>)
    ensures var r := WriteAt(content, start, bytes);
      forall i :: 0 <= i < |r| ==>
        r[i] == if start <= i < start + |bytes| then bytes[i - start]
                else if i < |content| then content[i] else 0
  {
  }

  /** Two consecutive writes, the second starting where the first ended, are one write. */
  lemma {:induction false} WriteAtAppend(content: seq<bv8>, start: nat, a: seq<bv8>, b: seq<bv8>)
    ensures WriteAt(WriteAt(content, start, a), start + |a|, b) == WriteAt(content, start, a + b)
  {
    if a != [] && b != [] {
      var lhs := WriteAt(WriteAt(content, start, a), start + |a|, b);
      var rhs := WriteAt(content, start, a + b);
      WriteAtBytes(content, start, a);
      WriteAtBytes(WriteAt(content, start, a), start + |a|, b);
      WriteAtBytes(content, start, a + b);
      assert |lhs| == |rhs|;
      forall i | 0 <= i < |lhs| ensures lhs[i] == rhs[i] {
        if start <= i < start + |a| {
          assert rhs[i] == (a + b)[i - start];
        } else if start + |a| <= i < start + |a| + |b| {
          assert rhs[i] == (a + b)[i - start];
        }
      }
    } else if a == [] {
      assert a + b == b;
    } else {
      assert a + b == a;
    }
  }

  /** Opening `p` with create(true), truncate(false): an absent file appears empty, a present one keeps its bytes. */
  function Opened(files: map<Path, seq<bv8>>, p: Path): (r: map<Path, seq<bv8>>)
    ensures p in r && r.Keys == files.Keys + {p}
    ensures forall q :: q in files ==> r[q] == files[q]
    ensures p !in files ==> r[p] == []
  {
    if p in files then files else files[p := []]
  }

  /** The paths the first `n` drops write to. */
  function PathsOf(drops: seq<DownloadDrop>, n: nat): set<Path>
    requires n <= |drops|
  {
    set k | 0 <= k < n :: drops[k].path
  }

  lemma PathsOfStep(drops: seq<DownloadDrop>, n: nat)
    requires 0 < n <= |drops|
    ensures PathsOf(drops, n) == PathsOf(drops, n - 1) + {drops[n - 1].path}
  {
    assert drops[n - 1].path in PathsOf(drops, n);
  }

  /** Opening the destinations of the first `n` drops, in drop order. */
  function OpenAll(files: map<Path, seq<bv8>>, drops: seq<DownloadDrop>, n: nat): map<Path, seq<bv8>>
    requires n <= |drops|
  {
    if n == 0 then files
    else Opened(OpenAll(files, drops, n - 1), drops[n - 1].path)
  }

  /**
   * After opening, the files are the old ones and the drops' destinations; every old file
   * keeps its content and every new one is empty.
   */
  lemma {:induction false} OpenAllFiles(files: map<Path, seq<bv8>>, drops: seq<DownloadDrop>, n: nat)
    requires n <= |drops|
    ensures OpenAll(files, drops, n).Keys == files.Keys + PathsOf(drops, n)
    ensures forall q :: q in files ==> OpenAll(files, drops, n)[q] == files[q]
    ensures forall q :: q in OpenAll(files, drops, n) && q !in files ==> OpenAll(files, drops, n)[q] == []
  {
    if n > 0 {
      OpenAllFiles(files, drops, n - 1);
      PathsOfStep(drops, n);
    }
  }

  /** Where drop `k`'s bytes begin in the bucket's stream: the total length of the drops before it. */
  function Offset(drops: seq<DownloadDrop>, k: nat): nat
    requires k <= |drops|
  {
    if k == 0 then 0 else Offset(drops, k - 1) + drops[k - 1].length
  }

  lemma {:induction false} OffsetMono(drops: seq<DownloadDrop>, k: nat, m: nat)
    requires k <= m <= |drops|
    ensures Offset(drops, k) <= Offset(drops, m)
  {
    if k < m {
      OffsetMono(drops, k, m - 1);
    }
  }

  lemma {:induction false} OffsetPrefix(drops: seq<DownloadDrop>, n: nat, k: nat)
    requires k <= n <= |drops|
    ensures Offset(drops[..n], k) == Offset(drops, k)
  {
    if k > 0 {
      OffsetPrefix(drops, n, k - 1);
      assert drops[..n][k - 1] == drops[k - 1];
    }
  }

  /** The offset past the last drop is the bucket's total length. */
  lemma {:induction false} OffsetTotal(drops: seq<DownloadDrop>)
    ensures Offset(drops, |drops|) == TotalLength(drops)
  {
    if drops != [] {
      var n := |drops| - 1;
      OffsetTotal(drops[..n]);
      OffsetPrefix(drops, n, n);
    }
  }

  /** The slice of the stream that belongs to drop `k`. */
  function DropBytes(stream: seq<bv8>, drops: seq<DownloadDrop>, k: nat): (b: seq<bv8>)
    requires k < |drops| && TotalLength(drops) <= |stream|
    ensures |b| == drops[k].length
  {
    OffsetTotal(drops);
    OffsetMono(drops, k + 1, |drops|);
    stream[Offset(drops, k)..Offset(drops, k + 1)]
  }

  /**
   * The files after the first `n` drops have written their slices of the stream at their
   * start offsets, in drop order. A drop whose file is absent writes into an empty file, as
   * opening it would.
   */
  function DemuxUpTo(files: map<Path, seq<bv8>>, drops: seq<DownloadDrop>, stream: seq<bv8>, n: nat): map<Path, seq<bv8>>
    requires n <= |drops| && TotalLength(drops) <= |stream|
  {
    if n == 0 then files
    else
      var before := DemuxUpTo(files, drops, stream, n - 1);
      var d := drops[n - 1];
      before[d.path := WriteAt(FileOf(before, d.path), d.start, DropBytes(stream, drops, n - 1))]
  }

  /** The whole demultiplexing pass over a bucket. */
  function DemuxFiles(files: map<Path, seq<bv8>>, drops: seq<DownloadDrop>, stream: seq<bv8>): map<Path, seq<bv8>>
    requires TotalLength(drops) <= |stream|
  {
    DemuxUpTo(files, drops, stream, |drops|)
  }

  /** Updating a path's content adds the path to the map's keys and no other. */
  lemma UpdateKeys(files: map<Path, seq<bv8>>, p: Path, content: seq<bv8>)
    ensures files[p := content].Keys == files.Keys + {p}
  {
  }

  /** The pass touches exactly the files it was given and the drops' destinations. */
  lemma {:induction false} DemuxKeys(files: map<Path, seq<bv8>>, drops: seq<DownloadDrop>, stream: seq<bv8>, n: nat)
    requires n <= |drops| && TotalLength(drops) <= |stream|
    ensures DemuxUpTo(files, drops, stream, n).Keys == files.Keys + PathsOf(drops, n)
  {
    if n > 0 {
      var before, d := DemuxUpTo(files, drops, stream, n - 1), drops[n - 1];
      DemuxKeys(files, drops, stream, n - 1);
      PathsOfStep(drops, n);
      UpdateKeys(before, d.path, WriteAt(FileOf(before, d.path), d.start, DropBytes(stream, drops, n - 1)));
    }
  }

  /** Byte `i` of file `p` lies in drop `d`'s range. */
  predicate Covers(d: DownloadDrop, p: Path, i: nat)
  {
    d.path == p && d.start <= i < d.start + d.length
  }

  /** The last of the first `n` drops whose range holds byte `i` of file `p`, if any: the one whose write wins. */
  function LastCover(drops: seq<DownloadDrop>, n: nat, p: Path, i: nat): (r: Option<nat>)
    requires n <= |drops|
    ensures r.Some? ==> r.value < n && Covers(drops[r.value], p, i)
    ensures r.Some? ==> forall j :: r.value < j < n ==> !Covers(drops[j], p, i)
    ensures r.None? ==> forall j :: 0 <= j < n ==> !Covers(drops[j], p, i)
  {
    if n == 0 then None
    else if Covers(drops[n - 1], p, i) then Some(n - 1)
    else LastCover(drops, n - 1, p, i)
  }

  /** The end of the furthest non-empty drop into file `p` among the first `n`, or 0 when there is none. */
  function End(drops: seq<DownloadDrop>, n: nat, p: Path): (e: nat)
    requires n <= |drops|
    ensures forall j :: 0 <= j < n && drops[j].path == p && drops[j].length > 0 ==>
      drops[j].start + drops[j].length <= e
    ensures e == 0 || exists j :: 0 <= j < n && drops[j].path == p && drops[j].length > 0
                                  && drops[j].start + drops[j].length == e
  {
    if n == 0 then 0
    else
      var d := drops[n - 1];
      var e0 := End(drops, n - 1, p);
      if d.path == p && d.length > 0 then Max(e0, d.start + d.length) else e0
  }

  /** Byte `i` of file `p` after the first `n` drops, told by which drop (if any) wrote it last. */
  function DemuxedByte(files: map<Path, seq<bv8>>, drops: seq<DownloadDrop>, stream: seq<bv8>, n: nat, p: Path, i: nat): bv8
    requires n <= |drops| && TotalLength(drops) <= |stream|
  {
    match LastCover(drops, n, p, i)
    case Some(k) => DropBytes(stream, drops, k)[i - drops[k].start]
    case None => if i < |FileOf(files, p)| then FileOf(files, p)[i] else 0
  }

  /** One step of DemuxAt: if the first `n - 1` drops satisfy it at `p`, byte `i` after drop `n - 1` does. */
  lemma {:induction false} DemuxAtByte(files: map<Path, seq<bv8>>, drops: seq<DownloadDrop>, stream: seq<bv8>, n: nat, p: Path,
                                       before: seq<bv8>, after: seq<bv8>, i: nat)
    requires 0 < n <= |drops| && TotalLength(drops) <= |stream|
    requires |before| == Max(|FileOf(files, p)|, End(drops, n - 1, p))
    requires forall j :: 0 <= j < |before| ==> before[j] == DemuxedByte(files, drops, stream, n - 1, p, j)
    requires after == if drops[n - 1].path == p
                      then WriteAt(before, drops[n - 1].start, DropBytes(stream, drops, n - 1))
                      else before
    requires i < |after|
    ensures after[i] == DemuxedByte(files, drops, stream, n, p, i)
  {
    if Covers(drops[n - 1], p, i) {
      DemuxAtCovered(files, drops, stream, n, p, before, i);
    } else {
      DemuxAtUncovered(files, drops, stream, n, p, before, after, i);
    }
  }

  /** Byte `i` inside drop `n - 1`'s range comes from that drop's slice. */
  lemma DemuxAtCovered(files: map<Path, seq<bv8>>, drops: seq<DownloadDrop>, stream: seq<bv8>, n: nat, p: Path,
                       before: seq<bv8>, i: nat)
    requires 0 < n <= |drops| && TotalLength(drops) <= |stream|
    requires Covers(drops[n - 1], p, i)
    ensures var after := WriteAt(before, drops[n - 1].start, DropBytes(stream, drops, n - 1));
      i < |after| && after[i] == DemuxedByte(files, drops, stream, n, p, i)
  {
    var bytes := DropBytes(stream, drops, n - 1);
    WriteAtBytes(before, drops[n - 1].start, bytes);
    assert LastCover(drops, n, p, i) == Some(n - 1);
    assert DemuxedByte(files, drops, stream, n, p, i) == bytes[i - drops[n - 1].start];
  }

  /** Byte `i` outside drop `n - 1`'s range is what the first `n - 1` drops left there. */
  lemma DemuxAtUncovered(files: map<Path, seq<bv8>>, drops: seq<DownloadDrop>, stream: seq<bv8>, n: nat, p: Path,
                         before: seq<bv8>, after: seq<bv8>, i: nat)
    requires 0 < n <= |drops| && TotalLength(drops) <= |stream|
    requires |before| == Max(|FileOf(files, p)|, End(drops, n - 1, p))
    requires forall j :: 0 <= j < |before| ==> before[j] == DemuxedByte(files, drops, stream, n - 1, p, j)
    requires after == if drops[n - 1].path == p
                      then WriteAt(before, drops[n - 1].start, DropBytes(stream, drops, n - 1))
                      else before
    requires i < |after| && !Covers(drops[n - 1], p, i)
    ensures after[i] == DemuxedByte(files, drops, stream, n, p, i)
  {
    assert LastCover(drops, n, p, i) == LastCover(drops, n - 1, p, i);
    assert DemuxedByte(files, drops, stream, n, p, i) == DemuxedByte(files, drops, stream, n - 1, p, i);
    if drops[n - 1].path == p {
      WriteAtBytes(before, drops[n - 1].start, DropBytes(stream, drops, n - 1));
    }
    if i < |before| {
      assert after[i] == before[i];
    } else {
      assert after[i] == 0;
      assert LastCover(drops, n - 1, p, i).None?;
    }
  }

  /** Drop `n - 1`'s write is the only change the `n`-th step makes to file `p`. */
  lemma DemuxStep(files: map<Path, seq<bv8>>, drops: seq<DownloadDrop>, stream: seq<bv8>, n: nat, p: Path)
    requires 0 < n <= |drops| && TotalLength(drops) <= |stream|
    ensures var before := FileOf(DemuxUpTo(files, drops, stream, n - 1), p);
      FileOf(DemuxUpTo(files, drops, stream, n), p)
        == if drops[n - 1].path == p then WriteAt(before, drops[n - 1].start, DropBytes(stream, drops, n - 1)) else before
  {
  }

  /** The length part of one step of DemuxAt. */
  lemma DemuxStepLength(files: map<Path, seq<bv8>>, drops: seq<DownloadDrop>, stream: seq<bv8>, n: nat, p: Path,
                        before: seq<bv8>, after: seq<bv8>)
    requires 0 < n <= |drops| && TotalLength(drops) <= |stream|
    requires |before| == Max(|FileOf(files, p)|, End(drops, n - 1, p))
    requires after == if drops[n - 1].path == p
                      then WriteAt(before, drops[n - 1].start, DropBytes(stream, drops, n - 1))
                      else before
    ensures |after| == Max(|FileOf(files, p)|, End(drops, n, p))
  {
    var d := drops[n - 1];
    assert End(drops, n, p) == if d.path == p && d.length > 0 then Max(End(drops, n - 1, p), d.start + d.length)
                               else End(drops, n - 1, p);
  }

  /**
   * The file `p` after the first `n` drops, byte by byte: it is as long as the longer of its
   * old content and the furthest non-empty drop into it; each byte comes from the last drop
   * covering it, or is the old byte, or a zero of the padding.
   */
  lemma {:induction false} DemuxAt(files: map<Path, seq<bv8>>, drops: seq<DownloadDrop>, stream: seq<bv8>, n: nat, p: Path)
    requires n <= |drops| && TotalLength(drops) <= |stream|
    ensures |FileOf(DemuxUpTo(files, drops, stream, n), p)| == Max(|FileOf(files, p)|, End(drops, n, p))
    ensures forall i :: 0 <= i < |FileOf(DemuxUpTo(files, drops, stream, n), p)| ==>
      FileOf(DemuxUpTo(files, drops, stream, n), p)[i] == DemuxedByte(files, drops, stream, n, p, i)
  {
    if n > 0 {
      DemuxAt(files, drops, stream, n - 1, p);
      var before := FileOf(DemuxUpTo(files, drops, stream, n - 1), p);
      var after := FileOf(DemuxUpTo(files, drops, stream, n), p);
      DemuxStep(files, drops, stream, n, p);
      DemuxStepLength(files, drops, stream, n, p, before, after);
      forall i | 0 <= i < |after| ensures after[i] == DemuxedByte(files, drops, stream, n, p, i) {
        DemuxAtByte(files, drops, stream, n, p, before, after, i);
      }
    }
  }

  /** Two drops into the same file never share a byte. */
  predicate DisjointRanges(drops: seq<DownloadDrop>)
  {
    forall i, j :: 0 <= i < j < |drops| && drops[i].path == drops[j].path ==>
      drops[i].start + drops[i].length <= drops[j].start || drops[j].start + drops[j].length <= drops[i].start
  }

  /** With disjoint ranges, the byte at offset `i` of drop `k`'s range was last written by drop `k`. */
  lemma LastCoverDisjoint(drops: seq<DownloadDrop>, k: nat, i: nat)
    requires DisjointRanges(drops) && k < |drops| && i < drops[k].length
    ensures LastCover(drops, |drops|, drops[k].path, drops[k].start + i) == Some(k)
  {
    var r := LastCover(drops, |drops|, drops[k].path, drops[k].start + i);
    assert Covers(drops[k], drops[k].path, drops[k].start + i);
    assert r.Some?;
    if r.value != k {
      assert false;
    }
  }

  /** With disjoint ranges, byte `i` of drop `k`'s range holds byte `i` of the drop's slice. */
  lemma {:induction false} DemuxPlacesByte(files: map<Path, seq<bv8>>, drops: seq<DownloadDrop>, stream: seq<bv8>, k: nat, i: nat)
    requires TotalLength(drops) <= |stream| && DisjointRanges(drops) && k < |drops| && i < drops[k].length
    ensures var f := FileOf(DemuxFiles(files, drops, stream), drops[k].path);
      drops[k].start + i < |f| && f[drops[k].start + i] == DropBytes(stream, drops, k)[i]
  {
    var d := drops[k];
    var f := FileOf(DemuxUpTo(files, drops, stream, |drops|), d.path);
    DemuxAt(files, drops, stream, |drops|, d.path);
    assert d.start + d.length <= End(drops, |drops|, d.path);
    LastCoverDisjoint(drops, k, i);
    assert f[d.start + i] == DemuxedByte(files, drops, stream, |drops|, d.path, d.start + i);
    assert DemuxedByte(files, drops, stream, |drops|, d.path, d.start + i) == DropBytes(stream, drops, k)[i];
  }

  /** With disjoint ranges, the file of drop `k` holds exactly that drop's slice of the stream at `[start, start + length)`. */
  lemma {:induction false} DemuxPlacesDrop(files: map<Path, seq<bv8>>, drops: seq<DownloadDrop>, stream: seq<bv8>, k: nat)
    requires TotalLength(drops) <= |stream| && DisjointRanges(drops) && k < |drops|
    ensures var f := FileOf(DemuxFiles(files, drops, stream), drops[k].path);
      && (drops[k].length == 0 || drops[k].start + drops[k].length <= |f|)
      && forall i :: 0 <= i < drops[k].length ==> f[drops[k].start + i] == DropBytes(stream, drops, k)[i]
  {
    if drops[k].length > 0 {
      DemuxPlacesByte(files, drops, stream, k, drops[k].length - 1);
    }
    forall i | 0 <= i < drops[k].length
      ensures FileOf(DemuxFiles(files, drops, stream), drops[k].path)[drops[k].start + i] == DropBytes(stream, drops, k)[i]
    {
      DemuxPlacesByte(files, drops, stream, k, i);
    }
  }

  /** Bytes of a file that no drop covers keep their previous contents: the file is never truncated. */
  lemma {:induction false} DemuxKeepsUntouched(files: map<Path, seq<bv8>>, drops: seq<DownloadDrop>, stream: seq<bv8>, p: Path, i: nat)
    requires TotalLength(drops) <= |stream| && i < |FileOf(files, p)|
    requires forall k :: 0 <= k < |drops| ==> !Covers(drops[k], p, i)
    ensures i < |FileOf(DemuxFiles(files, drops, stream), p)|
    ensures FileOf(DemuxFiles(files, drops, stream), p)[i] == FileOf(files, p)[i]
  {
    DemuxAt(files, drops, stream, |drops|, p);
    assert LastCover(drops, |drops|, p, i).None?;
  }

  /** Running the pass again over the same stream and drops rewrites the same bytes and changes nothing. */
  lemma {:induction false} DemuxIdempotent(files: map<Path, seq<bv8>>, drops: seq<DownloadDrop>, stream: seq<bv8>)
    requires TotalLength(drops) <= |stream|
    ensures DemuxFiles(DemuxFiles(files, drops, stream), drops, stream) == DemuxFiles(files, drops, stream)
  {
    var g := DemuxFiles(files, drops, stream);
    var h := DemuxFiles(g, drops, stream);
    DemuxKeys(files, drops, stream, |drops|);
    DemuxKeys(g, drops, stream, |drops|);
    forall p | p in h ensures h[p] == g[p] {
      DemuxAt(files, drops, stream, |drops|, p);
      DemuxAt(g, drops, stream, |drops|, p);
      assert |FileOf(h, p)| == |FileOf(g, p)|;
      forall i | 0 <= i < |h[p]| ensures h[p][i] == g[p][i] {
        assert h[p][i] == DemuxedByte(g, drops, stream, |drops|, p, i);
        assert g[p][i] == DemuxedByte(files, drops, stream, |drops|, p, i);
      }
    }
  }

  /** The stream a server sends: the byte ranges one after another. */
  function Concat(parts: seq<seq<bv8>>): (s: seq<bv8>)
  {
    if parts == [] then [] else Concat(parts[..|parts| - 1]) + parts[|parts| - 1]
  }

  /** The concatenation of the first `k` parts begins the concatenation of all of them. */
  lemma {:induction false} ConcatPrefix(parts: seq<seq<bv8>>, k: nat)
    requires k <= |parts|
    ensures |Concat(parts[..k])| <= |Concat(parts)|
    ensures Concat(parts)[..|Concat(parts[..k])|] == Concat(parts[..k])
  {
    if k < |parts| {
      var n := |parts| - 1;
      ConcatPrefix(parts[..n], k);
      assert parts[..n][..k] == parts[..k];
    } else {
      assert parts[..k] == parts;
    }
  }

  /** With drops as long as the parts, drop `k` starts where the first `k` parts end. */
  lemma {:induction false} ConcatOffset(parts: seq<seq<bv8>>, drops: seq<DownloadDrop>, k: nat)
    requires |parts| == |drops| && k <= |drops|
    requires forall j :: 0 <= j < |drops| ==> drops[j].length == |parts[j]|
    ensures Offset(drops, k) == |Concat(parts[..k])|
  {
    if k > 0 {
      ConcatOffset(parts, drops, k - 1);
      assert parts[..k][..k - 1] == parts[..k - 1];
    }
  }

  /**
   * Round trip: cutting the concatenation of known byte ranges by drops of those lengths
   * gives back each range.
   */
  lemma {:induction false} ConcatSlices(parts: seq<seq<bv8>>, drops: seq<DownloadDrop>)
    requires |parts| == |drops|
    requires forall j :: 0 <= j < |drops| ==> drops[j].length == |parts[j]|
    ensures TotalLength(drops) == |Concat(parts)|
    ensures forall k :: 0 <= k < |drops| ==> DropBytes(Concat(parts), drops, k) == parts[k]
  {
    OffsetTotal(drops);
    ConcatOffset(parts, drops, |drops|);
    assert parts[..|drops|] == parts;
    forall k | 0 <= k < |drops| ensures DropBytes(Concat(parts), drops, k) == parts[k] {
      ConcatSlice(parts, drops, k);
    }
  }

  lemma ConcatSlice(parts: seq<seq<bv8>>, drops: seq<DownloadDrop>, k: nat)
    requires |parts| == |drops| && k < |drops|
    requires forall j :: 0 <= j < |drops| ==> drops[j].length == |parts[j]|
    requires TotalLength(drops) == |Concat(parts)|
    ensures DropBytes(Concat(parts), drops, k) == parts[k]
  {
    ConcatOffset(parts, drops, k);
    ConcatOffset(parts, drops, k + 1);
    ConcatPrefix(parts, k + 1);
    assert parts[..k + 1][..k] == parts[..k];
    var whole := Concat(parts);
    var upto := Concat(parts[..k + 1]);
    assert upto == Concat(parts[..k]) + parts[k];
    assert whole[Offset(drops, k)..Offset(drops, k + 1)] == upto[Offset(drops, k)..Offset(drops, k + 1)];
  }
}
