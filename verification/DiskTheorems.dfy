/** The index refines the set: a lookup in the encoding of a name list is membership in the list. */
module DiskTheorems {
  import opened Bytes
  import opened DiskFormat

  lemma {:induction false} BelowExtremes(H: Hash, ds: seq<Name>, n: nat)
    requires n <= |ds|
    ensures BelowBucket(H, ds, 0, n) == 0 && BelowBucket(H, ds, BUCKET_COUNT, n) == n
  {
    if n > 0 { BelowExtremes(H, ds, n - 1); }
  }

  /** In hash order the names of one bucket sit next to each other: name `i` is among the first
      `BelowBucket(b)` exactly when its bucket is below `b`. */
  lemma {:induction false} BucketsAreRuns(H: Hash, ds: seq<Name>, b: nat, n: nat, i: nat)
    requires Ordered(H, ds) && i < n <= |ds|
    ensures i < BelowBucket(H, ds, b, n) <==> BucketOf(H(ds[i])) < b
  {
    if n > 1 {
      BucketsAreRuns(H, ds, b, n - 1, n - 2);
      if i < n - 1 { BucketsAreRuns(H, ds, b, n - 1, i); }
    }
  }

  lemma {:induction false} CountsAreRuns(H: Hash, ds: seq<Name>, file: seq<byte>, k: nat)
    requires Encodes(H, ds, file) && k <= BUCKET_COUNT
    ensures CountBefore(BucketsOf(file), k) == BelowBucket(H, ds, k, |ds|)
  {
    BelowExtremes(H, ds, |ds|);
    if k > 0 {
      CountsAreRuns(H, ds, file, k - 1);
      assert HoldsBucket(H, ds, file, k - 1);
    }
  }

  /** Every file `build` writes is accepted, with the right total. */
  lemma EncodedFileOpens(H: Hash, ds: seq<Name>, file: seq<byte>)
    requires Encodes(H, ds, file)
    ensures OpenSpec(file) == Opened(Disk(|ds|, BucketsOf(file), HEADER_SIZE + RecordBytes(|ds|)))
  {
    var bs := BucketsOf(file);
    var base := HEADER_SIZE + RecordBytes(|ds|);
    CountsAreRuns(H, ds, file, BUCKET_COUNT);
    BelowExtremes(H, ds, |ds|);
    forall k | 0 <= k < BUCKET_COUNT
      ensures HEADER_SIZE <= bs[k].offset && BucketEnd(bs[k]) <= base
      ensures 0 < k ==> BucketEnd(bs[k - 1]) <= bs[k].offset
    {
      assert HoldsBucket(H, ds, file, k);
      if 0 < k { assert HoldsBucket(H, ds, file, k - 1); }
    }
    ChecksPassIf(bs, base, 0, None);
  }

  lemma RecordShift(H: Hash, ds: seq<Name>, file: seq<byte>, k: Bucket, lo: nat, i: nat)
    requires k.offset == HEADER_SIZE + RecordBytes(lo) && lo + i < |ds|
    requires HEADER_SIZE + RecordBytes(|ds|) <= |file| && HoldsRecord(H, ds, file, lo + i)
    ensures Describes(H, ds, RecordAt(file, k.offset, i), lo + i)
  {
  }

  /** Where bucket `b` of an encoded file sits, in terms of the names alone. */
  lemma EncodedBucket(H: Hash, ds: seq<Name>, file: seq<byte>, b: nat)
    requires Encodes(H, ds, file) && b < BUCKET_COUNT
    ensures var k := BucketsOf(file)[b]; var lo := BelowBucket(H, ds, b, |ds|);
      && k.count == BelowBucket(H, ds, b + 1, |ds|) - lo && lo + k.count <= |ds|
      && k.offset == HEADER_SIZE + RecordBytes(lo)
      && BucketEnd(k) <= HEADER_SIZE + RecordBytes(|ds|) <= |file|
  {
    assert HoldsBucket(H, ds, file, b);
  }

  /** Record `i` of bucket `b` describes the name `i` places into the bucket's run. */
  lemma EncodedRecord(H: Hash, ds: seq<Name>, file: seq<byte>, b: nat, i: nat)
    requires Encodes(H, ds, file) && b < BUCKET_COUNT && i < BucketsOf(file)[b].count
    ensures var k := BucketsOf(file)[b]; var n := BelowBucket(H, ds, b, |ds|) + i;
      BucketEnd(k) <= |file| && n < |ds| && Describes(H, ds, RecordAt(file, k.offset, i), n)
  {
    hide StrOffset, RecordAt, ReadU32, HoldsBucket, HoldsString;
    EncodedBucket(H, ds, file, b);
    var lo := BelowBucket(H, ds, b, |ds|);
    assert HoldsRecord(H, ds, file, lo + i);
    RecordShift(H, ds, file, BucketsOf(file)[b], lo, i);
  }

  /** So every bucket of an encoded file is sorted by hash. */
  lemma EncodedBucketSorted(H: Hash, ds: seq<Name>, file: seq<byte>, b: nat)
    requires Encodes(H, ds, file) && Ordered(H, ds) && b < BUCKET_COUNT
    ensures BucketEnd(BucketsOf(file)[b]) <= |file| && BucketSorted(BucketsOf(file)[b], file)
  {
    EncodedBucket(H, ds, file, b);
    var k := BucketsOf(file)[b];
    forall i: nat, j: nat | i < j < k.count
      ensures RecordAt(file, k.offset, i).hash <= RecordAt(file, k.offset, j).hash
    {
      EncodedRecord(H, ds, file, b, i);
      EncodedRecord(H, ds, file, b, j);
    }
  }

  lemma DescribedHit(H: Hash, ds: seq<Name>, file: seq<byte>, base: nat, k: Bucket, h: u64, q: Name, i: nat, n: nat)
    requires BucketEnd(k) <= |file| && i < k.count && n < |ds|
    requires Describes(H, ds, RecordAt(file, k.offset, i), n) && HoldsString(ds, file, base, n)
    ensures Hit(file, base, k, h, q, i) <==> H(ds[n]) == h && EqFold(ds[n], q)
  {
  }

  ghost predicate FoldsCase(H: Hash) {
    forall a, b :: EqFold(a, b) ==> H(a) == H(b)
  }

  /** The bucket of `q` is within the read cap of a lookup. */
  predicate WithinCap(H: Hash, disk: Disk, q: Name)
    requires |disk.buckets| == BUCKET_COUNT
  {
    RecordBytes(disk.buckets[BucketOf(H(q))].count) <= MAX_READ_BYTES
  }

  /** Which of the first `n` names fall in bucket `b`. */
  ghost function InBucket(H: Hash, ds: seq<Name>, b: nat, n: nat): set<nat>
    requires n <= |ds|
  {
    set i | 0 <= i < n && H(ds[i]) / 0x100_0000_0000_0000 == b
  }

  lemma {:induction false} InBucketSize(H: Hash, ds: seq<Name>, b: nat, n: nat)
    requires n <= |ds|
    ensures |InBucket(H, ds, b, n)| == BelowBucket(H, ds, b + 1, n) - BelowBucket(H, ds, b, n)
  {
    if n == 0 {
      assert InBucket(H, ds, b, 0) == {};
    } else {
      InBucketSize(H, ds, b, n - 1);
      var here := H(ds[n - 1]) / 0x100_0000_0000_0000 == b;
      assert InBucket(H, ds, b, n) == InBucket(H, ds, b, n - 1) + if here then {n - 1} else {};
    }
  }

  /** The cap in names: at most 4 793 490 listed names have a hash with the top byte of `q`'s. */
  lemma CapInNames(H: Hash, ds: seq<Name>, file: seq<byte>, q: Name)
    requires Encodes(H, ds, file)
    ensures OpenSpec(file).Opened? && |OpenSpec(file).disk.buckets| == 256
    ensures WithinCap(H, OpenSpec(file).disk, q) <==>
      |set i | 0 <= i < |ds| && H(ds[i]) / 0x100_0000_0000_0000 == H(q) / 0x100_0000_0000_0000| <= 4_793_490
  {
    EncodedFileOpens(H, ds, file);
    hide Encodes, OpenSpec, BelowBucket;
    var b := BucketOf(H(q));
    InBucketSize(H, ds, b, |ds|);
    EncodedBucket(H, ds, file, b);
  }

  /** A hit in a bucket is a listed name with that hash equal to `q` ignoring case. */
  lemma HitIsMember(H: Hash, ds: seq<Name>, file: seq<byte>, b: nat, k: Bucket, h: u64, q: Name, i: nat)
    requires Encodes(H, ds, file) && b < BUCKET_COUNT && k == BucketsOf(file)[b] && i < k.count
    ensures var n := BelowBucket(H, ds, b, |ds|) + i; var base := HEADER_SIZE + RecordBytes(|ds|);
      && BucketEnd(k) <= |file| && n < |ds|
      && (Hit(file, base, k, h, q, i) <==> H(ds[n]) == h && EqFold(ds[n], q))
  {
    hide StrOffset, BelowBucket, RecordAt, Describes, Hit, HoldsString, HoldsBucket, HoldsRecord, BucketsOf;
    EncodedRecord(H, ds, file, b, i);
    var n := BelowBucket(H, ds, b, |ds|) + i;
    var base := HEADER_SIZE + RecordBytes(|ds|);
    assert HoldsString(ds, file, base, n);
    DescribedHit(H, ds, file, base, k, h, q, i, n);
  }

  ghost predicate Listed(ds: seq<Name>, q: Name) { exists d :: d in ds && EqFold(d, q) }

  lemma FoundIsListed(H: Hash, ds: seq<Name>, file: seq<byte>, disk: Disk, q: Name)
    requires Encodes(H, ds, file)
    requires disk == Disk(|ds|, BucketsOf(file), HEADER_SIZE + RecordBytes(|ds|))
    requires Finds(H, disk, file, q)
    ensures Listed(ds, q)
  {
    hide StrOffset, RecordAt, StoresName, Hit, ReadU32, BelowBucket;
    var b := BucketOf(H(q));
    var k := disk.buckets[b];
    var i: nat :| i < k.count && Hit(file, disk.stringsBase, k, H(q), q, i);
    HitIsMember(H, ds, file, b, k, H(q), q, i);
    assert ds[BelowBucket(H, ds, b, |ds|) + i] in ds;
  }

  lemma ListedIsFound(H: Hash, ds: seq<Name>, file: seq<byte>, disk: Disk, q: Name)
    requires FoldsCase(H) && Ordered(H, ds) && Encodes(H, ds, file)
    requires disk == Disk(|ds|, BucketsOf(file), HEADER_SIZE + RecordBytes(|ds|))
    requires q != [] && Listed(ds, q) && WithinCap(H, disk, q)
    ensures Finds(H, disk, file, q)
  {
    hide StrOffset, RecordAt, Describes, StoresName, Hit, HoldsBucket;
    hide HoldsRecord, HoldsString, Ordered, ReadU32, BelowBucket;
    var b := BucketOf(H(q));
    var k := disk.buckets[b];
    EncodedBucket(H, ds, file, b);
    var j :| 0 <= j < |ds| && EqFold(ds[j], q);
    BucketsAreRuns(H, ds, b, |ds|, j);
    BucketsAreRuns(H, ds, b + 1, |ds|, j);
    HitIsMember(H, ds, file, b, k, H(q), q, j - BelowBucket(H, ds, b, |ds|));
  }

  /** Looking `q` up in the encoding of `ds` finds it exactly when `q` is not empty, some listed
      name equals it ignoring ASCII case, and its bucket is within the read cap. */
  lemma IndexRefinesSet(H: Hash, ds: seq<Name>, file: seq<byte>, q: Name)
    requires FoldsCase(H) && Ordered(H, ds) && Encodes(H, ds, file)
    ensures OpenSpec(file).Opened? && |OpenSpec(file).disk.buckets| == BUCKET_COUNT
    ensures Finds(H, OpenSpec(file).disk, file, q) <==>
      q != [] && Listed(ds, q) && WithinCap(H, OpenSpec(file).disk, q)
  {
    EncodedFileOpens(H, ds, file);
    var disk := OpenSpec(file).disk;
    EncodedBucket(H, ds, file, BucketOf(H(q)));
    if Finds(H, disk, file, q) { FoundIsListed(H, ds, file, disk, q); }
    if q != [] && Listed(ds, q) && WithinCap(H, disk, q) {
      ListedIsFound(H, ds, file, disk, q);
    }
  }
}
