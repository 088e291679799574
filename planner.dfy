/**
 * The bucket planner, `generate_buckets` in src/download.rs: every file's chunk lengths become
 * drops with running start offsets, and the drops are packed per version into buckets bounded
 * by a byte-size target and a drop count.
 *
 * `GenerateBuckets` is the imperative planner over two maps. It is proved against `PlanItems`,
 * the fold of one placement step `Place` over the manifest's drops, and the lemmas below prove
 * what that fold promises: bounds, no empty bucket, and every drop in exactly one bucket.
 */
module Planner {
  import opened Results
  import opened Models

  /** Buckets are sealed before their total would reach this many bytes. */
  const TARGET_BUCKET_SIZE: nat := 63 * 1000 * 1000

  /** The server multiplexes at most this many files per request. */
  const MAX_FILES_PER_BUCKET: nat := 1024 / 4 - 1

  /**
   * The manifest, a map from relative path to chunk, in the order its iteration presents
   * the entries (the source iterates a hash map, so any order is possible).
   */
  type Manifest = seq<(string, DropChunk)>

  /** Indexing a chunk's checksums past their end panics: the one way planning can fail here. */
  datatype PlanError = ChecksumMissing(filename: string, index: nat)

  /** Every chunk has a checksum for each of its ranges. */
  predicate WellFormed(manifest: Manifest)
  {
    forall e :: 0 <= e < |manifest| ==> |manifest[e].1.lengths| <= |manifest[e].1.checksums|
  }

  function SumLengths(lengths: seq<nat>): nat
  {
    if lengths == [] then 0 else SumLengths(lengths[..|lengths| - 1]) + lengths[|lengths| - 1]
  }

  lemma {:induction false} SumLengthsSnoc(lengths: seq<nat>, i: nat)
    requires i < |lengths|
    ensures SumLengths(lengths[..i + 1]) == SumLengths(lengths[..i]) + lengths[i]
  {
    assert lengths[..i + 1][..i] == lengths[..i];
  }

  /** Drop `i` of a file: its range starts where the ranges before it end. */
  function MakeDrop(installDir: string, rawPath: string, chunk: DropChunk, i: nat): (d: DownloadDrop)
    requires i < |chunk.lengths| && i < |chunk.checksums|
    ensures d.index == i && d.filename == rawPath && d.path == Path(installDir, rawPath)
    ensures d.length == chunk.lengths[i] && d.checksum == chunk.checksums[i] && d.permissions == chunk.permissions
    ensures i == 0 ==> d.start == 0
    ensures i > 0 ==> d.start == SumLengths(chunk.lengths[..i - 1]) + chunk.lengths[i - 1]
  {
    assert i > 0 ==> SumLengths(chunk.lengths[..i]) == SumLengths(chunk.lengths[..i - 1]) + chunk.lengths[i - 1] by {
      if i > 0 {
        SumLengthsSnoc(chunk.lengths, i - 1);
      }
    }
    DownloadDrop(
      index := i,
      filename := rawPath,
      path := Path(installDir, rawPath),
      start := SumLengths(chunk.lengths[..i]),
      length := chunk.lengths[i],
      checksum := chunk.checksums[i],
      permissions := chunk.permissions)
  }

  /** A range ends no later than any later range of the same file starts. */
  lemma {:induction false} SumLengthsGrows(lengths: seq<nat>, i: nat, j: nat)
    requires i < j <= |lengths|
    ensures SumLengths(lengths[..i]) + lengths[i] <= SumLengths(lengths[..j])
    decreases j
  {
    SumLengthsSnoc(lengths, j - 1);
    if i < j - 1 {
      SumLengthsGrows(lengths, i, j - 1);
    }
  }

  /** A file's drops tile it: the first starts at 0, each starts where the previous ends, the last ends at the file's size. */
  lemma {:induction false} FileDropsTile(installDir: string, rawPath: string, chunk: DropChunk)
    requires |chunk.lengths| <= |chunk.checksums|
    ensures |chunk.lengths| > 0 ==> MakeDrop(installDir, rawPath, chunk, 0).start == 0
    ensures forall i :: 0 < i < |chunk.lengths| ==>
      MakeDrop(installDir, rawPath, chunk, i).start
        == MakeDrop(installDir, rawPath, chunk, i - 1).start + MakeDrop(installDir, rawPath, chunk, i - 1).length
    ensures |chunk.lengths| > 0 ==>
      var last := MakeDrop(installDir, rawPath, chunk, |chunk.lengths| - 1);
      last.start + last.length == SumLengths(chunk.lengths)
  {
    forall i | 0 < i < |chunk.lengths|
      ensures MakeDrop(installDir, rawPath, chunk, i).start
        == MakeDrop(installDir, rawPath, chunk, i - 1).start + MakeDrop(installDir, rawPath, chunk, i - 1).length
    {
      SumLengthsSnoc(chunk.lengths, i - 1);
    }
    if |chunk.lengths| > 0 {
      SumLengthsSnoc(chunk.lengths, |chunk.lengths| - 1);
      assert chunk.lengths[..|chunk.lengths|] == chunk.lengths;
    }
  }

  /** Drops of one file never overlap, and come in increasing order of offset. */
  lemma {:induction false} FileDropsOrdered(installDir: string, rawPath: string, chunk: DropChunk, i: nat, j: nat)
    requires i < j < |chunk.lengths| && j < |chunk.checksums|
    ensures MakeDrop(installDir, rawPath, chunk, i).start + MakeDrop(installDir, rawPath, chunk, i).length
      <= MakeDrop(installDir, rawPath, chunk, j).start
  {
    SumLengthsGrows(chunk.lengths, i, j);
  }

  /** A drop together with the version of the chunk it came from. */
  datatype Placed = Placed(version: string, drop: DownloadDrop)

  /** The first `n` drops of one file, tagged with the file's version. */
  function FileItems(installDir: string, rawPath: string, chunk: DropChunk, n: nat): (items: seq<Placed>)
    requires n <= |chunk.lengths| && n <= |chunk.checksums|
    ensures |items| == n
    ensures forall i :: 0 <= i < n ==> items[i] == Placed(chunk.versionName, MakeDrop(installDir, rawPath, chunk, i))
  {
    if n == 0 then [] else FileItems(installDir, rawPath, chunk, n - 1) + [Placed(chunk.versionName, MakeDrop(installDir, rawPath, chunk, n - 1))]
  }

  /** Every drop of the manifest, file after file, in iteration order. */
  function ManifestItems(installDir: string, manifest: Manifest): seq<Placed>
    requires WellFormed(manifest)
  {
    if manifest == [] then []
    else
      var n := |manifest| - 1;
      var (rawPath, chunk) := manifest[n];
      ManifestItems(installDir, manifest[..n]) + FileItems(installDir, rawPath, chunk, |chunk.lengths|)
  }

  /** The drops of a bucket, each tagged with the bucket's version. */
  function Tag(version: string, drops: seq<DownloadDrop>): (items: seq<Placed>)
    ensures |items| == |drops|
    ensures forall i :: 0 <= i < |drops| ==> items[i] == Placed(version, drops[i])
  {
    if drops == [] then [] else Tag(version, drops[..|drops| - 1]) + [Placed(version, drops[|drops| - 1])]
  }

  /** Every drop of every bucket, tagged with its bucket's version. */
  function Tagged(buckets: seq<DownloadBucket>): seq<Placed>
  {
    if buckets == [] then []
    else
      var b := buckets[|buckets| - 1];
      Tagged(buckets[..|buckets| - 1]) + Tag(b.version, b.drops)
  }

  lemma {:induction false} TaggedSnoc(buckets: seq<DownloadBucket>, b: DownloadBucket)
    ensures Tagged(buckets + [b]) == Tagged(buckets) + Tag(b.version, b.drops)
  {
    assert (buckets + [b])[..|buckets|] == buckets;
  }

  /** The planner's working state: the buckets sealed so far, and per version the open bucket and its byte count. */
  datatype PlanState = PlanState(sealed: seq<DownloadBucket>, open: map<string, DownloadBucket>, sizes: map<string, nat>)

  /**
   * Placing one drop. A drop of at least the target size is sealed at once, alone, and the
   * open buckets are left as they are. A smaller drop goes into its version's open bucket,
   * which is sealed first when it is non-empty and the drop would bring it to the target
   * or it already holds the maximum number of drops.
   */
  function Place(gameId: string, st: PlanState, item: Placed): (r: PlanState)
    ensures |st.sealed| <= |r.sealed| <= |st.sealed| + 1 && r.sealed[..|st.sealed|] == st.sealed
    ensures item.drop.length >= TARGET_BUCKET_SIZE ==>
      && r.open == st.open && r.sizes == st.sizes
      && r.sealed == st.sealed + [DownloadBucket(gameId, item.version, [item.drop])]
  {
    var v := item.version;
    var drop := item.drop;
    if drop.length >= TARGET_BUCKET_SIZE then
      st.(sealed := st.sealed + [DownloadBucket(gameId, v, [drop])])
    else
      var size := if v in st.sizes then st.sizes[v] else 0;
      var current := if v in st.open then st.open[v] else DownloadBucket(gameId, v, []);
      if (size + drop.length >= TARGET_BUCKET_SIZE || |current.drops| >= MAX_FILES_PER_BUCKET) && current.drops != [] then
        PlanState(st.sealed + [current], st.open[v := DownloadBucket(gameId, v, [drop])], st.sizes[v := drop.length])
      else
        PlanState(st.sealed, st.open[v := current.(drops := current.drops + [drop])], st.sizes[v := size + drop.length])
  }

  /** The state after placing every item, in order, starting with nothing sealed and nothing open. */
  function PlanItems(gameId: string, items: seq<Placed>): PlanState
  {
    if items == [] then PlanState([], map[], map[])
    else Place(gameId, PlanItems(gameId, items[..|items| - 1]), items[|items| - 1])
  }

  /** An emitted bucket: non-empty, and either one oversized drop or a bounded group of drops. */
  predicate Sound(gameId: string, b: DownloadBucket)
  {
    && b.gameId == gameId
    && b.drops != []
    && ((|b.drops| == 1 && b.drops[0].length >= TARGET_BUCKET_SIZE)
        || (|b.drops| <= MAX_FILES_PER_BUCKET && TotalLength(b.drops) < TARGET_BUCKET_SIZE))
  }

  predicate AllSound(gameId: string, buckets: seq<DownloadBucket>)
  {
    forall i :: 0 <= i < |buckets| ==> Sound(gameId, buckets[i])
  }

  /**
   * The open buckets: one per version, each tagged with its version, within both bounds,
   * and each version's running size is the byte count of its open bucket.
   */
  predicate OpenBucketsBounded(gameId: string, st: PlanState)
  {
    && st.open.Keys == st.sizes.Keys
    && forall v :: v in st.open ==>
      && st.open[v].gameId == gameId
      && st.open[v].version == v
      && |st.open[v].drops| <= MAX_FILES_PER_BUCKET
      && st.sizes[v] == TotalLength(st.open[v].drops)
      && st.sizes[v] < TARGET_BUCKET_SIZE
  }

  lemma {:induction false} TotalLengthSnoc(drops: seq<DownloadDrop>, d: DownloadDrop)
    ensures TotalLength(drops + [d]) == TotalLength(drops) + d.length
  {
    assert (drops + [d])[..|drops|] == drops;
  }

  lemma {:induction false} AllSoundSnoc(gameId: string, buckets: seq<DownloadBucket>, b: DownloadBucket)
    requires AllSound(gameId, buckets) && Sound(gameId, b)
    ensures AllSound(gameId, buckets + [b])
  {
  }

  /** Replacing one version's open bucket by a bounded one keeps the open buckets bounded. */
  lemma {:induction false} BoundedUpdate(gameId: string, st: PlanState, sealed: seq<DownloadBucket>, b: DownloadBucket, size: nat)
    requires OpenBucketsBounded(gameId, st)
    requires b.gameId == gameId && |b.drops| <= MAX_FILES_PER_BUCKET
    requires size == TotalLength(b.drops) && size < TARGET_BUCKET_SIZE
    ensures OpenBucketsBounded(gameId, PlanState(sealed, st.open[b.version := b], st.sizes[b.version := size]))
  {
  }

  /** Placing a drop keeps every sealed bucket sound and the open buckets bounded. */
  lemma {:induction false} PlaceKeepsBounds(gameId: string, st: PlanState, item: Placed)
    requires OpenBucketsBounded(gameId, st) && AllSound(gameId, st.sealed)
    ensures OpenBucketsBounded(gameId, Place(gameId, st, item)) && AllSound(gameId, Place(gameId, st, item).sealed)
  {
    if item.drop.length >= TARGET_BUCKET_SIZE {
      AllSoundSnoc(gameId, st.sealed, DownloadBucket(gameId, item.version, [item.drop]));
    } else {
      SealKeepsBounds(gameId, st, item);
      GrowKeepsBounds(gameId, st, item);
    }
  }

  lemma {:induction false} SealKeepsBounds(gameId: string, st: PlanState, item: Placed)
    requires OpenBucketsBounded(gameId, st) && AllSound(gameId, st.sealed)
    requires item.drop.length < TARGET_BUCKET_SIZE
    ensures var v := item.version;
      var size := if v in st.sizes then st.sizes[v] else 0;
      var current := if v in st.open then st.open[v] else DownloadBucket(gameId, v, []);
      (size + item.drop.length >= TARGET_BUCKET_SIZE || |current.drops| >= MAX_FILES_PER_BUCKET) && current.drops != [] ==>
      OpenBucketsBounded(gameId, Place(gameId, st, item)) && AllSound(gameId, Place(gameId, st, item).sealed)
  {
    var v := item.version;
    var current := if v in st.open then st.open[v] else DownloadBucket(gameId, v, []);
    PlaceSeals(gameId, st, item);
    if current.drops != [] {
      AllSoundSnoc(gameId, st.sealed, current);
      TotalLengthSnoc([], item.drop);
      assert [] + [item.drop] == [item.drop];
      BoundedUpdate(gameId, st, st.sealed + [current], DownloadBucket(gameId, v, [item.drop]), item.drop.length);
    }
  }

  lemma {:induction false} GrowKeepsBounds(gameId: string, st: PlanState, item: Placed)
    requires OpenBucketsBounded(gameId, st) && AllSound(gameId, st.sealed)
    requires item.drop.length < TARGET_BUCKET_SIZE
    ensures var v := item.version;
      var size := if v in st.sizes then st.sizes[v] else 0;
      var current := if v in st.open then st.open[v] else DownloadBucket(gameId, v, []);
      !((size + item.drop.length >= TARGET_BUCKET_SIZE || |current.drops| >= MAX_FILES_PER_BUCKET) && current.drops != []) ==>
      OpenBucketsBounded(gameId, Place(gameId, st, item)) && AllSound(gameId, Place(gameId, st, item).sealed)
  {
    var v := item.version;
    var size := if v in st.sizes then st.sizes[v] else 0;
    var current := if v in st.open then st.open[v] else DownloadBucket(gameId, v, []);
    PlaceGrows(gameId, st, item);
    assert size == TotalLength(current.drops);
    TotalLengthSnoc(current.drops, item.drop);
    if !((size + item.drop.length >= TARGET_BUCKET_SIZE || |current.drops| >= MAX_FILES_PER_BUCKET) && current.drops != []) {
      BoundedUpdate(gameId, st, st.sealed, current.(drops := current.drops + [item.drop]), size + item.drop.length);
    }
  }

  /** Every state the fold reaches has sound sealed buckets and bounded open buckets. */
  lemma {:induction false} PlanBounds(gameId: string, items: seq<Placed>)
    ensures OpenBucketsBounded(gameId, PlanItems(gameId, items))
    ensures AllSound(gameId, PlanItems(gameId, items).sealed)
  {
    if items != [] {
      PlanBounds(gameId, items[..|items| - 1]);
      PlaceKeepsBounds(gameId, PlanItems(gameId, items[..|items| - 1]), items[|items| - 1]);
    }
  }

  /** Some key of a non-empty map. */
  ghost function AnyKey<K, V>(m: map<K, V>): (k: K)
    requires m != map[]
    ensures k in m
  {
    var k :| k in m; k
  }

  lemma {:induction false} RemoveShrinks<K, V>(m: map<K, V>, k: K)
    requires k in m
    ensures |m - {k}| < |m|
  {
    assert (m - {k}).Keys == m.Keys - {k};
  }

  /** The union, over every entry of `m`, of `f` applied to its value. */
  ghost function MapSum<K, V, T>(m: map<K, V>, f: V -> multiset<T>): multiset<T>
    decreases |m|
  {
    if m == map[] then multiset{}
    else
      var k := AnyKey(m);
      RemoveShrinks(m, k);
      f(m[k]) + MapSum(m - {k}, f)
  }

  /** The union does not depend on which entry is taken first. */
  lemma {:induction false} MapSumPick<K, V, T>(m: map<K, V>, f: V -> multiset<T>, k: K)
    requires k in m
    ensures MapSum(m, f) == f(m[k]) + MapSum(m - {k}, f)
    decreases |m|
  {
    var j := AnyKey(m);
    if j != k {
      RemoveShrinks(m, j);
      RemoveShrinks(m, k);
      var withoutJ := m - {j};
      var withoutK := m - {k};
      assert k in withoutJ && withoutJ[k] == m[k];
      assert j in withoutK && withoutK[j] == m[j];
      MapSumPick(withoutJ, f, k);
      MapSumPick(withoutK, f, j);
      assert withoutJ - {k} == withoutK - {j};
    }
  }

  /** The drops of one bucket, tagged with its version. */
  ghost function BucketTags(b: DownloadBucket): multiset<Placed>
  {
    multiset(Tag(b.version, b.drops))
  }

  /** The drops held by the open buckets, tagged with their versions. */
  ghost function OpenTagged(open: map<string, DownloadBucket>): multiset<Placed>
  {
    MapSum(open, BucketTags)
  }

  lemma {:induction false} OpenTaggedPick(open: map<string, DownloadBucket>, k: string)
    requires k in open
    ensures OpenTagged(open) == multiset(Tag(open[k].version, open[k].drops)) + OpenTagged(open - {k})
  {
    MapSumPick(open, BucketTags, k);
  }

  lemma {:induction false} OpenTaggedUpdate(open: map<string, DownloadBucket>, k: string, b: DownloadBucket)
    ensures OpenTagged(open[k := b]) == multiset(Tag(b.version, b.drops)) + OpenTagged(open - {k})
  {
    OpenTaggedPick(open[k := b], k);
    assert open[k := b] - {k} == open - {k};
  }

  lemma {:induction false} OpenTaggedRemove(open: map<string, DownloadBucket>, k: string)
    ensures OpenTagged(open) == (if k in open then multiset(Tag(open[k].version, open[k].drops)) else multiset{}) + OpenTagged(open - {k})
  {
    if k in open {
      OpenTaggedPick(open, k);
    } else {
      assert open - {k} == open;
    }
  }

  lemma {:induction false} PlaceGrows(gameId: string, st: PlanState, item: Placed)
    requires item.drop.length < TARGET_BUCKET_SIZE
    ensures var v := item.version;
      var size := if v in st.sizes then st.sizes[v] else 0;
      var current := if v in st.open then st.open[v] else DownloadBucket(gameId, v, []);
      !((size + item.drop.length >= TARGET_BUCKET_SIZE || |current.drops| >= MAX_FILES_PER_BUCKET) && current.drops != []) ==>
      Place(gameId, st, item) == PlanState(st.sealed, st.open[v := current.(drops := current.drops + [item.drop])], st.sizes[v := size + item.drop.length])
  {
  }

  lemma {:induction false} PlaceSeals(gameId: string, st: PlanState, item: Placed)
    requires item.drop.length < TARGET_BUCKET_SIZE
    ensures var v := item.version;
      var size := if v in st.sizes then st.sizes[v] else 0;
      var current := if v in st.open then st.open[v] else DownloadBucket(gameId, v, []);
      (size + item.drop.length >= TARGET_BUCKET_SIZE || |current.drops| >= MAX_FILES_PER_BUCKET) && current.drops != [] ==>
      Place(gameId, st, item) == PlanState(st.sealed + [current], st.open[v := DownloadBucket(gameId, v, [item.drop])], st.sizes[v := item.drop.length])
  {
  }

  /** Replacing one version's open bucket moves exactly what the replacement says it moves. */
  lemma {:induction false} ReplaceOpenConserves(sealed: seq<DownloadBucket>, open: map<string, DownloadBucket>, v: string,
                                                 newSealed: seq<DownloadBucket>, b: DownloadBucket, added: multiset<Placed>)
    requires multiset(Tagged(newSealed)) + multiset(Tag(b.version, b.drops))
      == multiset(Tagged(sealed)) + (if v in open then multiset(Tag(open[v].version, open[v].drops)) else multiset{}) + added
    ensures multiset(Tagged(newSealed)) + OpenTagged(open[v := b]) == multiset(Tagged(sealed)) + OpenTagged(open) + added
  {
    OpenTaggedRemove(open, v);
    OpenTaggedUpdate(open, v, b);
  }

  lemma {:induction false} PlaceConservesSeal(gameId: string, st: PlanState, item: Placed, current: DownloadBucket)
    requires OpenBucketsBounded(gameId, st)
    requires current == if item.version in st.open then st.open[item.version] else DownloadBucket(gameId, item.version, [])
    ensures multiset(Tagged(st.sealed + [current])) + OpenTagged(st.open[item.version := DownloadBucket(gameId, item.version, [item.drop])])
      == multiset(Tagged(st.sealed)) + OpenTagged(st.open) + multiset{item}
  {
    var v := item.version;
    assert current.version == v;
    TaggedSnoc(st.sealed, current);
    assert Tag(v, [item.drop]) == [item];
    ReplaceOpenConserves(st.sealed, st.open, v, st.sealed + [current], DownloadBucket(gameId, v, [item.drop]), multiset{item});
  }

  lemma {:induction false} PlaceConservesGrow(gameId: string, st: PlanState, item: Placed, current: DownloadBucket)
    requires OpenBucketsBounded(gameId, st)
    requires current == if item.version in st.open then st.open[item.version] else DownloadBucket(gameId, item.version, [])
    ensures multiset(Tagged(st.sealed)) + OpenTagged(st.open[item.version := current.(drops := current.drops + [item.drop])])
      == multiset(Tagged(st.sealed)) + OpenTagged(st.open) + multiset{item}
  {
    var v := item.version;
    assert current.version == v;
    var grown := current.(drops := current.drops + [item.drop]);
    assert Tag(v, grown.drops) == Tag(v, current.drops) + [item] by {
      assert grown.drops[..|grown.drops| - 1] == current.drops;
    }
    ReplaceOpenConserves(st.sealed, st.open, v, st.sealed, grown, multiset{item});
  }

  /** Placing a drop moves it into the sealed or open buckets; nothing else is added or lost. */
  lemma {:induction false} PlaceConserves(gameId: string, st: PlanState, item: Placed)
    requires OpenBucketsBounded(gameId, st)
    ensures var r := Place(gameId, st, item);
      multiset(Tagged(r.sealed)) + OpenTagged(r.open) == multiset(Tagged(st.sealed)) + OpenTagged(st.open) + multiset{item}
  {
    var v := item.version;
    if item.drop.length >= TARGET_BUCKET_SIZE {
      TaggedSnoc(st.sealed, DownloadBucket(gameId, v, [item.drop]));
      assert Tag(v, [item.drop]) == [item];
    } else {
      var current := if v in st.open then st.open[v] else DownloadBucket(gameId, v, []);
      PlaceSeals(gameId, st, item);
      PlaceGrows(gameId, st, item);
      PlaceConservesSeal(gameId, st, item, current);
      PlaceConservesGrow(gameId, st, item, current);
    }
  }

  /** The fold keeps every drop: the sealed and open buckets together hold exactly the items placed. */
  lemma {:induction false} PlanConserves(gameId: string, items: seq<Placed>)
    ensures var st := PlanItems(gameId, items);
      multiset(Tagged(st.sealed)) + OpenTagged(st.open) == multiset(items)
  {
    if items == [] {
      assert PlanItems(gameId, items) == PlanState([], map[], map[]);
      assert OpenTagged(map[]) == multiset{};
    } else {
      var n := |items| - 1;
      assert items == items[..n] + [items[n]];
      assert multiset(items) == multiset(items[..n]) + multiset{items[n]};
      var prev := PlanItems(gameId, items[..n]);
      assert PlanItems(gameId, items) == Place(gameId, prev, items[n]);
      PlanConserves(gameId, items[..n]);
      PlanBounds(gameId, items[..n]);
      PlaceConserves(gameId, prev, items[n]);
    }
  }

  /** The flushed tail: the non-empty open buckets, each once, in any order. */
  predicate IsFlushOf(flushed: seq<DownloadBucket>, open: map<string, DownloadBucket>)
  {
    && (forall i :: 0 <= i < |flushed| ==>
          flushed[i].version in open && open[flushed[i].version] == flushed[i] && flushed[i].drops != [])
    && (forall i, j :: 0 <= i < j < |flushed| ==> flushed[i].version != flushed[j].version)
    && (forall v :: v in open && open[v].drops != [] ==> exists i :: 0 <= i < |flushed| && flushed[i].version == v)
  }

  lemma {:induction false} PlanItemsSnoc(gameId: string, items: seq<Placed>, item: Placed)
    ensures PlanItems(gameId, items + [item]) == Place(gameId, PlanItems(gameId, items), item)
  {
    assert (items + [item])[..|items|] == items;
  }

  lemma {:induction false} FileItemsSnoc(done: seq<Placed>, installDir: string, rawPath: string, chunk: DropChunk, n: nat)
    requires n < |chunk.lengths| && n < |chunk.checksums|
    ensures done + FileItems(installDir, rawPath, chunk, n + 1)
      == (done + FileItems(installDir, rawPath, chunk, n)) + [Placed(chunk.versionName, MakeDrop(installDir, rawPath, chunk, n))]
  {
  }

  lemma {:induction false} WellFormedSnoc(manifest: Manifest, e: nat)
    requires e < |manifest| && WellFormed(manifest[..e]) && |manifest[e].1.lengths| <= |manifest[e].1.checksums|
    ensures WellFormed(manifest[..e + 1])
  {
    assert forall k :: 0 <= k < e ==> manifest[..e + 1][k] == manifest[..e][k];
  }

  lemma {:induction false} ManifestItemsSnoc(installDir: string, manifest: Manifest, e: nat)
    requires e < |manifest| && WellFormed(manifest[..e + 1])
    ensures WellFormed(manifest[..e])
    ensures ManifestItems(installDir, manifest[..e + 1])
      == ManifestItems(installDir, manifest[..e]) + FileItems(installDir, manifest[e].0, manifest[e].1, |manifest[e].1.lengths|)
  {
    assert manifest[..e + 1][..e] == manifest[..e];
    assert manifest[..e + 1][e] == manifest[e];
  }

  /**
   * The body of the inner loop of `generate_buckets`, from the point the drop is built: an
   * oversized drop is sealed alone; otherwise the version's open bucket (created empty on first
   * use) is sealed and restarted when it is non-empty and the drop would bring it to the target
   * or it is full, and the drop is appended to it.
   */
  method PlaceDrop(gameId: string, buckets0: seq<DownloadBucket>, currentBuckets0: map<string, DownloadBucket>,
                   currentBucketSizes0: map<string, nat>, version: string, drop: DownloadDrop)
    returns (buckets: seq<DownloadBucket>, currentBuckets: map<string, DownloadBucket>, currentBucketSizes: map<string, nat>)
    ensures PlanState(buckets, currentBuckets, currentBucketSizes)
      == Place(gameId, PlanState(buckets0, currentBuckets0, currentBucketSizes0), Placed(version, drop))
  {
    ghost var before := PlanState(buckets0, currentBuckets0, currentBucketSizes0);
    ghost var item := Placed(version, drop);
    buckets, currentBuckets, currentBucketSizes := buckets0, currentBuckets0, currentBucketSizes0;
    var length := drop.length;
    if length >= TARGET_BUCKET_SIZE {
      buckets := buckets + [DownloadBucket(gameId, version, [drop])];
      return;
    }
    var currentBucketSize: nat := if version in currentBucketSizes then currentBucketSizes[version] else 0;
    var currentBucket := if version in currentBuckets then currentBuckets[version] else DownloadBucket(gameId, version, []);
    if (currentBucketSize + length >= TARGET_BUCKET_SIZE || |currentBucket.drops| >= MAX_FILES_PER_BUCKET) && currentBucket.drops != [] {
      // move the open bucket to the output and start a new one
      PlaceSeals(gameId, before, item);
      buckets := buckets + [currentBucket];
      currentBucket := DownloadBucket(gameId, version, []);
      currentBucketSize := 0;
      assert [] + [drop] == [drop];
    } else {
      PlaceGrows(gameId, before, item);
    }
    currentBucket := currentBucket.(drops := currentBucket.drops + [drop]);
    currentBucketSize := currentBucketSize + length;
    currentBuckets := currentBuckets[version := currentBucket];
    currentBucketSizes := currentBucketSizes[version := currentBucketSize];
  }

  /**
   * The inner loop of `generate_buckets` over one file's ranges: each range becomes a drop
   * starting at the file's running offset and is placed as `Place` says. A range without a
   * checksum stops planning.
   */
  method PackFile(gameId: string, installDir: string, rawPath: string, chunk: DropChunk,
                  buckets0: seq<DownloadBucket>, currentBuckets0: map<string, DownloadBucket>, currentBucketSizes0: map<string, nat>,
                  ghost done: seq<Placed>)
    returns (r: Result<PlanState, PlanError>)
    requires PlanState(buckets0, currentBuckets0, currentBucketSizes0) == PlanItems(gameId, done)
    ensures r.Err? <==> |chunk.checksums| < |chunk.lengths|
    ensures r.Err? ==> r.error == ChecksumMissing(rawPath, |chunk.checksums|)
    ensures r.Ok? ==> r.value == PlanItems(gameId, done + FileItems(installDir, rawPath, chunk, |chunk.lengths|))
  {
    var buckets: seq<DownloadBucket> := buckets0;
    var currentBuckets: map<string, DownloadBucket> := currentBuckets0;
    var currentBucketSizes: map<string, nat> := currentBucketSizes0;
    var path := Path(installDir, rawPath);
    var fileRunningOffset := 0;
    var index := 0;
    assert done + FileItems(installDir, rawPath, chunk, 0) == done;
    while index < |chunk.lengths|
      invariant 0 <= index <= |chunk.lengths| && index <= |chunk.checksums|
      invariant fileRunningOffset == SumLengths(chunk.lengths[..index])
      invariant PlanState(buckets, currentBuckets, currentBucketSizes) == PlanItems(gameId, done + FileItems(installDir, rawPath, chunk, index))
    {
      if index >= |chunk.checksums| {
        return Err(ChecksumMissing(rawPath, index));
      }
      var length := chunk.lengths[index];
      var drop := DownloadDrop(index, rawPath, path, fileRunningOffset, length, chunk.checksums[index], chunk.permissions);
      ghost var item := Placed(chunk.versionName, drop);
      ghost var before := PlanItems(gameId, done + FileItems(installDir, rawPath, chunk, index));
      assert item == Placed(chunk.versionName, MakeDrop(installDir, rawPath, chunk, index));
      PlanItemsSnoc(gameId, done + FileItems(installDir, rawPath, chunk, index), item);
      FileItemsSnoc(done, installDir, rawPath, chunk, index);
      SumLengthsSnoc(chunk.lengths, index);
      fileRunningOffset := fileRunningOffset + length;

      buckets, currentBuckets, currentBucketSizes := PlaceDrop(gameId, buckets, currentBuckets, currentBucketSizes, chunk.versionName, drop);
      index := index + 1;
    }
    return Ok(PlanState(buckets, currentBuckets, currentBucketSizes));
  }

  /** Open buckets that are all empty hold no drop. */
  lemma {:induction false} EmptyOpenTagged(open: map<string, DownloadBucket>)
    requires forall v :: v in open ==> open[v].drops == []
    ensures OpenTagged(open) == multiset{}
    decreases |open|
  {
    if open != map[] {
      var k := AnyKey(open);
      OpenTaggedPick(open, k);
      RemoveShrinks(open, k);
      EmptyOpenTagged(open - {k});
    }
  }

  /** Removing a flushed bucket's version from the map leaves a flush of the rest. */
  lemma {:induction false} FlushOfInit(flushed: seq<DownloadBucket>, open: map<string, DownloadBucket>)
    requires flushed != [] && IsFlushOf(flushed, open)
    ensures IsFlushOf(flushed[..|flushed| - 1], open - {flushed[|flushed| - 1].version})
  {
    var n := |flushed| - 1;
    var v := flushed[n].version;
    var init := flushed[..n];
    forall u | u in open - {v} && (open - {v})[u].drops != []
      ensures exists i :: 0 <= i < |init| && init[i].version == u
    {
      var i :| 0 <= i < |flushed| && flushed[i].version == u;
      assert i != n;
      assert init[i].version == u;
    }
  }

  /** A flush of the open buckets after the sealed ones holds exactly the drops of both. */
  lemma {:induction false} FlushConserves(sealed: seq<DownloadBucket>, flushed: seq<DownloadBucket>, open: map<string, DownloadBucket>)
    requires IsFlushOf(flushed, open)
    ensures multiset(Tagged(sealed + flushed)) == multiset(Tagged(sealed)) + OpenTagged(open)
    decreases |flushed|
  {
    if flushed == [] {
      assert sealed + flushed == sealed;
      forall v | v in open
        ensures open[v].drops == []
      {
        if open[v].drops != [] {
          assert false;
        }
      }
      EmptyOpenTagged(open);
    } else {
      var n := |flushed| - 1;
      var b := flushed[n];
      assert sealed + flushed == (sealed + flushed[..n]) + [b];
      TaggedSnoc(sealed + flushed[..n], b);
      FlushOfInit(flushed, open);
      FlushConserves(sealed, flushed[..n], open - {b.version});
      OpenTaggedPick(open, b.version);
    }
  }

  /** Part way through the flush: what is flushed is a flush of the entries already taken out of `rest`. */
  predicate FlushProgress(flushed: seq<DownloadBucket>, open: map<string, DownloadBucket>, rest: map<string, DownloadBucket>)
  {
    && (forall v :: v in open ==> open[v].version == v)
    && (forall v :: v in rest ==> v in open && rest[v] == open[v])
    && IsFlushOf(flushed, open - rest.Keys)
  }

  lemma {:induction false} FlushStep(flushed: seq<DownloadBucket>, open: map<string, DownloadBucket>, rest: map<string, DownloadBucket>, version: string)
    requires FlushProgress(flushed, open, rest) && version in rest
    ensures FlushProgress(if rest[version].drops != [] then flushed + [rest[version]] else flushed, open, rest - {version})
  {
    var b := rest[version];
    assert b.version == version;
    var out := if b.drops != [] then flushed + [b] else flushed;
    var taken := open - rest.Keys;
    var taken' := open - (rest - {version}).Keys;
    assert taken' == taken[version := b];
    forall i | 0 <= i < |out|
      ensures out[i].version in taken' && taken'[out[i].version] == out[i] && out[i].drops != []
    {
      if i < |flushed| {
        assert out[i] == flushed[i];
      }
    }
    forall i, j | 0 <= i < j < |out|
      ensures out[i].version != out[j].version
    {
      if j < |flushed| {
        assert out[i] == flushed[i] && out[j] == flushed[j];
      } else {
        assert out[i] == flushed[i];
      }
    }
    forall v | v in taken' && taken'[v].drops != []
      ensures exists i :: 0 <= i < |out| && out[i].version == v
    {
      if v == version {
        assert out[|out| - 1].version == v;
      } else {
        var i :| 0 <= i < |flushed| && flushed[i].version == v;
        assert out[i] == flushed[i];
      }
    }
  }

  /** Every flushed bucket is a non-empty bounded open bucket, so it is sound. */
  lemma {:induction false} FlushSound(gameId: string, sealed: seq<DownloadBucket>, flushed: seq<DownloadBucket>,
                                      open: map<string, DownloadBucket>, sizes: map<string, nat>)
    requires OpenBucketsBounded(gameId, PlanState(sealed, open, sizes)) && AllSound(gameId, sealed)
    requires IsFlushOf(flushed, open)
    ensures AllSound(gameId, sealed + flushed)
  {
    forall i | 0 <= i < |sealed + flushed|
      ensures Sound(gameId, (sealed + flushed)[i])
    {
      if i >= |sealed| {
        var b := flushed[i - |sealed|];
        assert b == open[b.version];
      }
    }
  }

  /** Once `rest` is empty the whole open map is flushed, soundly and without loss. */
  lemma {:induction false} FlushDone(gameId: string, sealed: seq<DownloadBucket>, flushed: seq<DownloadBucket>,
                                     open: map<string, DownloadBucket>, sizes: map<string, nat>, rest: map<string, DownloadBucket>)
    requires OpenBucketsBounded(gameId, PlanState(sealed, open, sizes)) && AllSound(gameId, sealed)
    requires FlushProgress(flushed, open, rest) && rest == map[]
    ensures (sealed + flushed)[..|sealed|] == sealed
    ensures IsFlushOf((sealed + flushed)[|sealed|..], open)
    ensures AllSound(gameId, sealed + flushed)
    ensures multiset(Tagged(sealed + flushed)) == multiset(Tagged(sealed)) + OpenTagged(open)
  {
    assert (sealed + flushed)[..|sealed|] == sealed && (sealed + flushed)[|sealed|..] == flushed;
    assert open - rest.Keys == open;
    FlushSound(gameId, sealed, flushed, open, sizes);
    FlushConserves(sealed, flushed, open);
  }

  /**
   * The final loop of `generate_buckets`: every non-empty open bucket is appended once, in
   * the map's iteration order, which the model leaves free.
   */
  method FlushOpen(gameId: string, sealed: seq<DownloadBucket>, open: map<string, DownloadBucket>, sizes: map<string, nat>)
    returns (buckets: seq<DownloadBucket>)
    requires OpenBucketsBounded(gameId, PlanState(sealed, open, sizes)) && AllSound(gameId, sealed)
    ensures |sealed| <= |buckets| && buckets[..|sealed|] == sealed
    ensures IsFlushOf(buckets[|sealed|..], open)
    ensures AllSound(gameId, buckets)
    ensures multiset(Tagged(buckets)) == multiset(Tagged(sealed)) + OpenTagged(open)
  {
    buckets := sealed;
    ghost var flushed: seq<DownloadBucket> := [];
    var rest := open;
    assert open - rest.Keys == map[];
    while rest != map[]
      invariant buckets == sealed + flushed
      invariant FlushProgress(flushed, open, rest)
      decreases |rest|
    {
      var version :| version in rest;
      var bucket := rest[version];
      ghost var flushedBefore := flushed;
      if bucket.drops != [] {
        assert sealed + (flushed + [bucket]) == (sealed + flushed) + [bucket];
        buckets := buckets + [bucket];
        flushed := flushed + [bucket];
      }
      FlushStep(flushedBefore, open, rest, version);
      RemoveShrinks(rest, version);
      rest := rest - {version};
    }
    FlushDone(gameId, sealed, flushed, open, sizes, rest);
  }

  /**
   * `generate_buckets`: walk the manifest file by file and each file's ranges in order, sealing
   * oversized drops alone and packing the rest into per-version open buckets; at the end flush
   * every non-empty open bucket. A chunk with fewer checksums than ranges stops planning.
   */
  method GenerateBuckets(gameId: string, installDir: string, manifest: Manifest) returns (r: Result<seq<DownloadBucket>, PlanError>)
    ensures r.Err? <==> !WellFormed(manifest)
    ensures r.Err? ==> exists e :: (0 <= e < |manifest| && WellFormed(manifest[..e])
      && manifest[e].0 == r.error.filename && r.error.index == |manifest[e].1.checksums| < |manifest[e].1.lengths|)
    ensures r.Ok? ==>
      var plan := PlanItems(gameId, ManifestItems(installDir, manifest));
      && |plan.sealed| <= |r.value|
      && r.value[..|plan.sealed|] == plan.sealed
      && IsFlushOf(r.value[|plan.sealed|..], plan.open)
    ensures r.Ok? ==> AllSound(gameId, r.value)
    ensures r.Ok? ==> multiset(Tagged(r.value)) == multiset(ManifestItems(installDir, manifest))
  {
    var st := PlanState([], map[], map[]);
    ghost var done: seq<Placed> := [];
    var e := 0;
    while e < |manifest|
      invariant 0 <= e <= |manifest|
      invariant WellFormed(manifest[..e])
      invariant done == ManifestItems(installDir, manifest[..e])
      invariant st == PlanItems(gameId, done)
    {
      var (rawPath, chunk) := manifest[e];
      var packed := PackFile(gameId, installDir, rawPath, chunk, st.sealed, st.open, st.sizes, done);
      if packed.Err? {
        assert !(|manifest[e].1.lengths| <= |manifest[e].1.checksums|);
        return Err(packed.error);
      }
      st := packed.value;
      WellFormedSnoc(manifest, e);
      ManifestItemsSnoc(installDir, manifest, e);
      done := done + FileItems(installDir, rawPath, chunk, |chunk.lengths|);
      e := e + 1;
    }
    assert manifest[..e] == manifest;
    PlanBounds(gameId, done);
    PlanConserves(gameId, done);
    var buckets := FlushOpen(gameId, st.sealed, st.open, st.sizes);
    return Ok(buckets);
  }

  /**
   * Two ranges of one file, of 40 MB and 30 MB: together they would reach the target, so the
   * first is sealed in a bucket of its own and the second stays open for its version.
   */
  lemma ScenarioTwoLargeRanges()
    ensures var chunk := DropChunk(0, ["c"], ["x", "y"], [40 * 1000 * 1000, 30 * 1000 * 1000], "v1");
      var plan := PlanItems("g", ManifestItems("/games", [("data.pak", chunk)]));
      && plan.sealed == [DownloadBucket("g", "v1", [MakeDrop("/games", "data.pak", chunk, 0)])]
      && plan.open == map["v1" := DownloadBucket("g", "v1", [MakeDrop("/games", "data.pak", chunk, 1)])]
      && MakeDrop("/games", "data.pak", chunk, 1).start == 40 * 1000 * 1000
  {
    var chunk := DropChunk(0, ["c"], ["x", "y"], [40 * 1000 * 1000, 30 * 1000 * 1000], "v1");
    var manifest := [("data.pak", chunk)];
    var d0 := MakeDrop("/games", "data.pak", chunk, 0);
    var d1 := MakeDrop("/games", "data.pak", chunk, 1);
    assert chunk.lengths[..1] == [40 * 1000 * 1000];
    assert SumLengths([40 * 1000 * 1000]) == 40 * 1000 * 1000 by {
      assert [40 * 1000 * 1000][..0] == [];
    }
    assert manifest[..0] == [];
    assert ManifestItems("/games", manifest) == [Placed("v1", d0), Placed("v1", d1)];
    var s1 := PlanItems("g", [Placed("v1", d0)]);
    PlanItemsSnoc("g", [], Placed("v1", d0));
    assert [] + [Placed("v1", d0)] == [Placed("v1", d0)];
    assert PlanItems("g", []) == PlanState([], map[], map[]);
    PlaceGrows("g", PlanState([], map[], map[]), Placed("v1", d0));
    assert [] + [d0] == [d0];
    assert s1 == PlanState([], map["v1" := DownloadBucket("g", "v1", [d0])], map["v1" := 40 * 1000 * 1000]);
    PlanItemsSnoc("g", [Placed("v1", d0)], Placed("v1", d1));
    PlaceSeals("g", s1, Placed("v1", d1));
  }
}
