/** The on-disk blocklist as bytes: what a well-formed file is, which files `open` accepts, and
    what a lookup in an accepted file means. Everything is stated for an arbitrary hash `H`, so
    collisions are allowed everywhere; `Fnv` at the end is the hash the program uses. */
module DiskFormat {
  import opened Bytes

  const HEADER_SIZE: nat := 4096
  const BUCKET_COUNT: nat := 256
  const MAX_READ_BYTES: nat := 64 * 1024 * 1024
  const MAGIC: seq<byte> := [83, 71, 66, 76]

  /** `n` records of 14 bytes: hash (8), string offset (4), string length (2). */
  function RecordBytes(n: int): int { 14 * n }

  type Hash = Name -> u64

  datatype Bucket = Bucket(offset: u32, count: u32)
  datatype Record = Record(hash: u64, strOff: u32, strLen: u16)

  /** The in-memory part of an opened store. */
  datatype Disk = Disk(total: u32, buckets: seq<Bucket>, stringsBase: nat)

  datatype OpenError =
    | TooSmall | BadMagic | BadVersion | ShorterThanIndex | CountMismatch
    | BelowHeader(bucket: nat) | PastStrings(bucket: nat) | NotMonotonic(bucket: nat)

  datatype OpenResult = Opened(disk: Disk) | Rejected(error: OpenError)

  // ---------------------------------------------------------------- reading the layout

  function ReadU32(file: seq<byte>, p: nat): u32
    requires p + 4 <= |file|
  {
    Widths(); ReadLE(file, p, 4)
  }

  function BucketAt(file: seq<byte>, b: nat): Bucket
    requires HEADER_SIZE <= |file| && b < BUCKET_COUNT
  {
    Bucket(ReadU32(file, 16 + 8 * b), ReadU32(file, 20 + 8 * b))
  }

  /** Record `i` of the array of records that starts at `offset`. */
  function RecordAt(file: seq<byte>, offset: nat, i: nat): Record
    requires offset + RecordBytes(i + 1) <= |file|
  {
    Widths();
    var p := offset + RecordBytes(i);
    Record(ReadLE(file, p, 8), ReadLE(file, p + 8, 4), ReadLE(file, p + 12, 2))
  }

  function BucketOf(h: u64): (b: nat)
    ensures b < BUCKET_COUNT
  {
    h / 0x100_0000_0000_0000
  }

  /** Domains counted by the first `k` buckets. */
  function CountBefore(bs: seq<Bucket>, k: nat): nat
    requires k <= |bs|
  {
    if k == 0 then 0 else CountBefore(bs, k - 1) + bs[k - 1].count
  }

  // ---------------------------------------------------------------- open

  function BucketsOf(file: seq<byte>): (bs: seq<Bucket>)
    requires HEADER_SIZE <= |file|
    ensures |bs| == BUCKET_COUNT && forall b :: 0 <= b < BUCKET_COUNT ==> bs[b] == BucketAt(file, b)
  {
    seq(BUCKET_COUNT, b requires 0 <= b < BUCKET_COUNT => BucketAt(file, b))
  }

  function BucketEnd(k: Bucket): nat { k.offset + RecordBytes(k.count) }

  /** The per-bucket checks from bucket `b` on, `prevEnd` being where the one before it ends. */
  function CheckBuckets(bs: seq<Bucket>, base: nat, b: nat, prevEnd: Option<nat>): Option<OpenError>
    requires b <= |bs|
    decreases |bs| - b
  {
    if b == |bs| then None
    else if bs[b].offset < HEADER_SIZE then Some(BelowHeader(b))
    else if BucketEnd(bs[b]) > base then Some(PastStrings(b))
    else if prevEnd.Some? && bs[b].offset < prevEnd.value then Some(NotMonotonic(b))
    else CheckBuckets(bs, base, b + 1, Some(BucketEnd(bs[b])))
  }

  function OpenSpec(file: seq<byte>): OpenResult {
    if |file| < HEADER_SIZE then Rejected(TooSmall)
    else if file[0..4] != MAGIC then Rejected(BadMagic)
    else if ReadU32(file, 4) != 1 then Rejected(BadVersion)
    else
      var total := ReadU32(file, 8);
      var bs := BucketsOf(file);
      var base := HEADER_SIZE + RecordBytes(total);
      if |file| < base then Rejected(ShorterThanIndex)
      else if CountBefore(bs, BUCKET_COUNT) != total then Rejected(CountMismatch)
      else match CheckBuckets(bs, base, 0, None)
        case Some(e) => Rejected(e)
        case None => Opened(Disk(total, bs, base))
  }

  /** The little-endian numbers of 2 and 4 bytes. */
  function U16At(file: seq<byte>, p: nat): nat
    requires p + 2 <= |file|
  {
    file[p] as nat + 0x100 * file[p + 1] as nat
  }

  function U32At(file: seq<byte>, p: nat): nat
    requires p + 4 <= |file|
  {
    U16At(file, p) + 0x1_0000 * U16At(file, p + 2)
  }

  /** Where the fields stand: bucket `b`'s offset and count are two 32-bit numbers from byte 16 + 8 * b on; a
      record is a 64-bit hash, a 32-bit string offset and a 16-bit length. */
  lemma FieldsInBytes(file: seq<byte>, b: nat, offset: nat, i: nat)
    requires |file| >= 4096 && b < 256 && offset + 14 * i + 14 <= |file|
    ensures BucketAt(file, b) == Bucket(U32At(file, 16 + 8 * b), U32At(file, 20 + 8 * b))
    ensures var (r, p) := (RecordAt(file, offset, i), offset + 14 * i);
      && r.hash == U32At(file, p) + 0x1_0000_0000 * U32At(file, p + 4)
      && r.strOff == U32At(file, p + 8) && r.strLen == U16At(file, p + 12)
  {
    var p := offset + 14 * i;
    FourBytes(file, 16 + 8 * b);
    FourBytes(file, 20 + 8 * b);
    FourBytes(file, p);
    FourBytes(file, p + 4);
    FourBytes(file, p + 8);
    hide ReadLE, U16At, U32At;
  }

  lemma FourBytes(file: seq<byte>, p: nat)
    requires p + 4 <= |file|
    ensures ReadLE(file, p, 4) == U32At(file, p)
  {
    assert ReadLE(file, p + 1, 3) == file[p + 1] + 256 * ReadLE(file, p + 2, 2);
  }

  /** The files `open` accepts: "SGBL" and version 1, room for the index, counts that add up, and buckets in
      order between byte 4096 and the strings. */
  lemma AcceptedExactly(file: seq<byte>)
    ensures OpenSpec(file).Opened? <==>
      && |file| >= 4096 && file[..4] == [83, 71, 66, 76] && U32At(file, 4) == 1
      && |file| >= 4096 + 14 * U32At(file, 8)
      && CountBefore(BucketsOf(file), 256) == U32At(file, 8)
      && InIndex(BucketsOf(file), 4096 + 14 * U32At(file, 8))
  {
    hide ReadLE, U32At, BucketsOf, BucketAt, CountBefore, InIndex, CheckBuckets;
    if |file| >= 4096 {
      FourBytes(file, 4);
      FourBytes(file, 8);
      var bs, base := BucketsOf(file), 4096 + 14 * U32At(file, 8);
      ChecksPassExactly(bs, base);
    }
  }

  /** The buckets lie between the header and `base`, in order and apart. */
  predicate InIndex(bs: seq<Bucket>, base: nat) {
    && (forall b :: 0 <= b < |bs| ==> 4096 <= bs[b].offset && bs[b].offset + 14 * bs[b].count <= base)
    && (forall b :: 0 < b < |bs| ==> bs[b - 1].offset + 14 * bs[b - 1].count <= bs[b].offset)
  }

  lemma ChecksPassExactly(bs: seq<Bucket>, base: nat)
    ensures CheckBuckets(bs, base, 0, None).None? <==> InIndex(bs, base)
  {
    if CheckBuckets(bs, base, 0, None).None? { ChecksPass(bs, base, 0, None); }
    if InIndex(bs, base) { ChecksPassIf(bs, base, 0, None); }
  }

  // ---------------------------------------------------------------- the buckets tile the index

  lemma {:induction false} ChecksPass(bs: seq<Bucket>, base: nat, b: nat, prevEnd: Option<nat>)
    requires b <= |bs| && CheckBuckets(bs, base, b, prevEnd).None?
    ensures forall k :: b <= k < |bs| ==> HEADER_SIZE <= bs[k].offset && BucketEnd(bs[k]) <= base
    ensures b < |bs| && prevEnd.Some? ==> prevEnd.value <= bs[b].offset
    ensures forall k :: b < k < |bs| ==> BucketEnd(bs[k - 1]) <= bs[k].offset
    decreases |bs| - b
  {
    if b < |bs| { ChecksPass(bs, base, b + 1, Some(BucketEnd(bs[b]))); }
  }

  lemma {:induction false} ChecksPassIf(bs: seq<Bucket>, base: nat, b: nat, prevEnd: Option<nat>)
    requires b <= |bs|
    requires forall k :: b <= k < |bs| ==> HEADER_SIZE <= bs[k].offset && BucketEnd(bs[k]) <= base
    requires b < |bs| && prevEnd.Some? ==> prevEnd.value <= bs[b].offset
    requires forall k :: b < k < |bs| ==> BucketEnd(bs[k - 1]) <= bs[k].offset
    ensures CheckBuckets(bs, base, b, prevEnd).None?
    decreases |bs| - b
  {
    if b < |bs| {
      assert b + 1 < |bs| ==> BucketEnd(bs[b + 1 - 1]) <= bs[b + 1].offset;
      ChecksPassIf(bs, base, b + 1, Some(BucketEnd(bs[b])));
    }
  }

  /** Offsets are at least the packed position (from the left) … */
  lemma {:induction false} OffsetsFromLeft(bs: seq<Bucket>, k: nat)
    requires k < |bs|
    requires forall j :: 0 <= j < |bs| ==> HEADER_SIZE <= bs[j].offset
    requires forall j :: 0 < j < |bs| ==> BucketEnd(bs[j - 1]) <= bs[j].offset
    ensures bs[k].offset >= HEADER_SIZE + RecordBytes(CountBefore(bs, k))
  {
    if k > 0 { OffsetsFromLeft(bs, k - 1); }
  }

  /** … and at most it, because what remains must still fit below the strings. */
  lemma {:induction false} OffsetsFromRight(bs: seq<Bucket>, k: nat, base: nat)
    requires k < |bs|
    requires forall j :: 0 <= j < |bs| ==> BucketEnd(bs[j]) <= base
    requires forall j :: 0 < j < |bs| ==> BucketEnd(bs[j - 1]) <= bs[j].offset
    ensures bs[k].offset + RecordBytes(CountBefore(bs, |bs|) - CountBefore(bs, k)) <= base
    decreases |bs| - k
  {
    if k + 1 < |bs| {
      OffsetsFromRight(bs, k + 1, base);
      assert BucketEnd(bs[k + 1 - 1]) <= bs[k + 1].offset;
    }
  }

  /** In any file `open` accepts the buckets tile the index section: no gap and no overlap. */
  lemma AcceptedBucketsTile(file: seq<byte>, b: nat)
    requires OpenSpec(file).Opened? && b < BUCKET_COUNT
    ensures var d := OpenSpec(file).disk;
      && d.buckets[b].offset == HEADER_SIZE + RecordBytes(CountBefore(d.buckets, b))
      && BucketEnd(d.buckets[b]) == HEADER_SIZE + RecordBytes(CountBefore(d.buckets, b + 1))
      && CountBefore(d.buckets, BUCKET_COUNT) == d.total
      && d.stringsBase == HEADER_SIZE + RecordBytes(d.total) <= |file|
  {
    hide ReadLE, BucketAt, CheckBuckets;
    var d := OpenSpec(file).disk;
    ChecksPass(d.buckets, d.stringsBase, 0, None);
    OffsetsFromLeft(d.buckets, b);
    OffsetsFromRight(d.buckets, b, d.stringsBase);
  }

  // ---------------------------------------------------------------- what a lookup means

  /** Record `r` stores a name equal to `q` up to ASCII case. */
  predicate StoresName(file: seq<byte>, base: nat, r: Record, q: Name) {
    && r.strLen == |q|
    && base + r.strOff + r.strLen <= |file|
    && EqFold(file[base + r.strOff..base + r.strOff + r.strLen], q)
  }

  /** The bucket can be read at all: every guard the lookup runs before it searches. */
  predicate Readable(disk: Disk, k: Bucket, file: seq<byte>) {
    && 0 < k.count <= disk.total
    && RecordBytes(k.count) <= MAX_READ_BYTES
    && HEADER_SIZE <= k.offset
    && BucketEnd(k) <= disk.stringsBase
    && BucketEnd(k) <= |file|
  }

  predicate Hit(file: seq<byte>, base: nat, k: Bucket, h: u64, q: Name, i: nat)
    requires BucketEnd(k) <= |file| && i < k.count
  {
    RecordAt(file, k.offset, i).hash == h && StoresName(file, base, RecordAt(file, k.offset, i), q)
  }

  ghost predicate Finds(H: Hash, disk: Disk, file: seq<byte>, q: Name)
    requires |disk.buckets| == BUCKET_COUNT
  {
    var k := disk.buckets[BucketOf(H(q))];
    && disk.total != 0 && q != []
    && Readable(disk, k, file)
    && exists i: nat :: i < k.count && Hit(file, disk.stringsBase, k, H(q), q, i)
  }

  ghost predicate BucketSorted(k: Bucket, file: seq<byte>)
    requires BucketEnd(k) <= |file|
  {
    forall i: nat, j: nat :: i < j < k.count ==> RecordAt(file, k.offset, i).hash <= RecordAt(file, k.offset, j).hash
  }

  // ---------------------------------------------------------------- well-formed files

  /** Names in strictly increasing (hash, text) order. */
  predicate Before(H: Hash, a: Name, b: Name) {
    H(a) < H(b) || (H(a) == H(b) && LexLess(a, b))
  }

  ghost predicate Ordered(H: Hash, ds: seq<Name>) {
    forall i, j :: 0 <= i < j < |ds| ==> Before(H, ds[i], ds[j])
  }

  /** Where name `i` starts in the strings section. */
  function StrOffset(ds: seq<Name>, i: nat): nat
    requires i <= |ds|
  {
    if i == 0 then 0 else StrOffset(ds, i - 1) + |ds[i - 1]|
  }

  /** Of the first `n` names, how many fall in a bucket below `b`. */
  function BelowBucket(H: Hash, ds: seq<Name>, b: nat, n: nat): (c: nat)
    requires n <= |ds|
    ensures c <= n
  {
    if n == 0 then 0
    else BelowBucket(H, ds, b, n - 1) + if BucketOf(H(ds[n - 1])) < b then 1 else 0
  }

  predicate StringFits(ds: seq<Name>, i: nat)
    requires i < |ds|
  {
    StrOffset(ds, i) <= U32_MAX && |ds[i]| <= U16_MAX
  }

  /** Exactly when `build` succeeds on the sorted names: the index section ends inside 32-bit
      offsets, every string starts inside them, and every length fits 16 bits. */
  ghost predicate Encodable(ds: seq<Name>) {
    && HEADER_SIZE + RecordBytes(|ds|) <= U32_MAX
    && forall i :: 0 <= i < |ds| ==> StringFits(ds, i)
  }

  /** The limits in numbers: at most 306 783 085 names, none longer than 65 535 bytes, and none that starts
      after byte 4 294 967 295 of the strings. */
  lemma EncodableInNumbers(ds: seq<Name>)
    ensures Encodable(ds) <==>
      |ds| <= 306_783_085 && forall i :: 0 <= i < |ds| ==> |ds[i]| <= 65_535 && StrOffset(ds, i) <= 4_294_967_295
  {
    if Encodable(ds) {
      forall i | 0 <= i < |ds| ensures |ds[i]| <= 65_535 && StrOffset(ds, i) <= 4_294_967_295 {
        assert StringFits(ds, i);
      }
    } else if HEADER_SIZE + RecordBytes(|ds|) <= U32_MAX {
      var i :| 0 <= i < |ds| && !StringFits(ds, i);
      assert !(|ds[i]| <= 65_535 && StrOffset(ds, i) <= 4_294_967_295);
    }
  }

  /** Record `r` is the index entry of name `i`. */
  predicate Describes(H: Hash, ds: seq<Name>, r: Record, i: nat)
    requires i < |ds|
  {
    r.hash == H(ds[i]) && r.strOff == StrOffset(ds, i) && r.strLen == |ds[i]|
  }

  predicate HoldsRecord(H: Hash, ds: seq<Name>, file: seq<byte>, i: nat)
    requires i < |ds| && HEADER_SIZE + RecordBytes(|ds|) <= |file|
  {
    Describes(H, ds, RecordAt(file, HEADER_SIZE, i), i)
  }

  /** Name `i` is stored at its place in a strings section that starts at `base`. */
  predicate HoldsString(ds: seq<Name>, file: seq<byte>, base: nat, i: nat)
    requires i < |ds|
  {
    var p := base + StrOffset(ds, i);
    p + |ds[i]| <= |file| && file[p..p + |ds[i]|] == ds[i]
  }

  ghost predicate HoldsStrings(ds: seq<Name>, file: seq<byte>, base: nat, n: nat)
    requires n <= |ds|
  {
    forall i :: 0 <= i < n ==> HoldsString(ds, file, base, i)
  }

  predicate HoldsBucket(H: Hash, ds: seq<Name>, file: seq<byte>, b: nat)
    requires HEADER_SIZE <= |file| && b < BUCKET_COUNT
  {
    var k := BucketAt(file, b);
    && k.offset == HEADER_SIZE + RecordBytes(BelowBucket(H, ds, b, |ds|))
    && k.count == BelowBucket(H, ds, b + 1, |ds|) - BelowBucket(H, ds, b, |ds|)
  }

  /** `file` is the encoding of the ordered names `ds`. */
  ghost predicate Encodes(H: Hash, ds: seq<Name>, file: seq<byte>) {
    && |file| == HEADER_SIZE + RecordBytes(|ds|) + StrOffset(ds, |ds|)
    && file[0..4] == MAGIC && ReadU32(file, 4) == 1
    && ReadU32(file, 8) == |ds| && ReadU32(file, 12) == BUCKET_COUNT
    && (forall b :: 0 <= b < BUCKET_COUNT ==> HoldsBucket(H, ds, file, b))
    && (forall i :: 0 <= i < |ds| ==> HoldsRecord(H, ds, file, i))
    && HoldsStrings(ds, file, HEADER_SIZE + RecordBytes(|ds|), |ds|)
  }
}
