/** `DiskBlocklist`: building the file, opening it, and looking a name up by binary search and a
    scan over equal hashes. */
module DiskStore {
  import opened Bytes
  import opened DiskFormat
  import opened DiskTheorems

  // ---------------------------------------------------------------- the hash

  const FNV_OFFSET: bv64 := 0xcbf29ce484222325
  const FNV_PRIME: bv64 := 0x100000001b3

  /** A running hash over the case-folded bytes of `s`. */
  function Fold(step: (bv64, byte) -> bv64, h: bv64, s: Name): bv64
    decreases |s|
  {
    if s == [] then h else Fold(step, step(h, LowerByte(s[0])), s[1..])
  }

  function FnvStep(h: bv64, b: byte): bv64 { (h ^ (b as bv64)) * FNV_PRIME }

  /** 64-bit FNV-1a; the multiplication wraps. */
  function Fnv(s: Name): u64 { Fold(FnvStep, FNV_OFFSET, s) as int }

  method HashDomain(domain: Name) returns (h: bv64)
    ensures h as int == Fnv(domain)
  {
    h := FNV_OFFSET;
    for i := 0 to |domain|
      invariant Fold(FnvStep, h, domain[i..]) == Fold(FnvStep, FNV_OFFSET, domain)
    {
      var b := domain[i];
      var lower := if 65 <= b <= 90 then b + 32 else b;
      assert domain[i..][0] == b && domain[i..][1..] == domain[i + 1..];
      h := FnvStep(h, lower);
    }
  }

  lemma {:induction false} FoldIgnoresCase(step: (bv64, byte) -> bv64, h: bv64, a: Name, b: Name)
    requires EqFold(a, b)
    ensures Fold(step, h, a) == Fold(step, h, b)
    decreases |a|
  {
    if a != [] { FoldIgnoresCase(step, step(h, LowerByte(a[0])), a[1..], b[1..]); }
  }

  /** The program's hash is one of the hashes the theorems quantify over. */
  lemma FnvFoldsCase()
    ensures FoldsCase(Fnv)
  {
    forall a, b | EqFold(a, b) ensures Fnv(a) == Fnv(b) {
      FoldIgnoresCase(FnvStep, FNV_OFFSET, a, b);
    }
  }

  // ---------------------------------------------------------------- sorting (library calls in the source)

  lemma BeforeTotal(H: Hash, a: Name, b: Name)
    ensures Before(H, a, b) || a == b || Before(H, b, a)
    ensures !(Before(H, a, b) && Before(H, b, a)) && !Before(H, a, a)
  {
    LexTotal(a, b);
    LexTotal(a, a);
  }

  lemma BeforeTransitive(H: Hash, a: Name, b: Name, c: Name)
    requires Before(H, a, b) && Before(H, b, c)
    ensures Before(H, a, c)
  {
    if H(a) == H(b) == H(c) { LexTransitive(a, b, c); }
  }

  function Insert(H: Hash, d: Name, ds: seq<Name>): (r: seq<Name>)
    requires Ordered(H, ds)
    ensures Ordered(H, r)
    ensures forall x :: x in r <==> x == d || x in ds
  {
    if ds == [] then [d]
    else if d == ds[0] then ds
    else if Before(H, d, ds[0]) then
      assert forall j :: 0 < j < |ds| ==> Before(H, ds[0], ds[j]);
      assert forall j :: 0 < j < |ds| ==> Before(H, d, ds[j]) by {
        forall j | 0 < j < |ds| ensures Before(H, d, ds[j]) { BeforeTransitive(H, d, ds[0], ds[j]); }
      }
      [d] + ds
    else
      BeforeTotal(H, d, ds[0]);
      var rest := Insert(H, d, ds[1..]);
      assert forall x :: x in rest ==> Before(H, ds[0], x) by {
        forall x | x in rest ensures Before(H, ds[0], x) {
          if x != d { var j :| 0 <= j < |ds[1..]| && ds[1..][j] == x; assert ds[j + 1] == x; }
        }
      }
      assert ds == [ds[0]] + ds[1..];
      [ds[0]] + rest
  }

  /** The distinct names in (hash, text) order. */
  function SortDedup(H: Hash, ds: seq<Name>): (r: seq<Name>)
    ensures Ordered(H, r)
    ensures forall x :: x in r <==> x in ds
  {
    if ds == [] then [] else Insert(H, ds[0], SortDedup(H, ds[1..]))
  }

  // ---------------------------------------------------------------- build

  datatype BuildError =
    | TooManyDomains | BucketTooLarge(bucket: nat) | IndexTooLarge | StringsTooLarge | DomainTooLong(domain: Name)

  datatype BuildResult = Built(total: nat, file: seq<byte>) | Failed(error: BuildError)

  lemma ReadAfterAppend(a: seq<byte>, t: seq<byte>, p: nat, w: nat)
    requires p + w <= |a|
    ensures ReadLE(a + t, p, w) == ReadLE(a, p, w)
  {
    assert (a + t)[p..p + w] == a[p..p + w];
    ReadsAgree(a + t, p, a, p, w);
  }

  lemma ReadWritten(a: seq<byte>, n: nat, w: nat, t: seq<byte>)
    requires n < Pow256(w)
    ensures ReadLE(a + LittleEndian(n, w) + t, |a|, w) == n
  {
    LittleEndianRoundTrip(n, w);
    assert (a + LittleEndian(n, w) + t)[|a|..|a| + w] == LittleEndian(n, w)[0..w];
    ReadsAgree(a + LittleEndian(n, w) + t, |a|, LittleEndian(n, w), 0, w);
  }

  /** The (hash, index) pairs of names `lo..hi`, as pushed to one bucket. */
  function Items(H: Hash, ds: seq<Name>, lo: nat, hi: nat): (r: seq<(u64, nat)>)
    requires lo <= hi <= |ds|
    ensures |r| == hi - lo && forall i :: 0 <= i < hi - lo ==> r[i] == (H(ds[lo + i]), lo + i)
  {
    seq(hi - lo, i requires 0 <= i < hi - lo => (H(ds[lo + i]), lo + i))
  }

  predicate HoldsRun(H: Hash, ds: seq<Name>, items: seq<seq<(u64, nat)>>, b: nat, n: nat)
    requires b < |items| && n <= |ds|
  {
    var lo, hi := BelowBucket(H, ds, b, n), BelowBucket(H, ds, b + 1, n);
    lo <= hi && items[b] == Items(H, ds, lo, hi)
  }

  /** The first `n` names, each pushed to the bucket of its hash. */
  ghost predicate Partitioned(H: Hash, ds: seq<Name>, items: seq<seq<(u64, nat)>>, n: nat)
    requires n <= |ds|
  {
    |items| == BUCKET_COUNT && forall b :: 0 <= b < BUCKET_COUNT ==> HoldsRun(H, ds, items, b, n)
  }

  lemma PushKeepsPartition(H: Hash, ds: seq<Name>, items: seq<seq<(u64, nat)>>, n: nat)
    requires n < |ds| && Ordered(H, ds) && Partitioned(H, ds, items, n)
    ensures var c := BucketOf(H(ds[n]));
      Partitioned(H, ds, items[c := items[c] + [(H(ds[n]), n)]], n + 1)
  {
    var c := BucketOf(H(ds[n]));
    var after := items[c := items[c] + [(H(ds[n]), n)]];
    forall b: nat | c < b
      ensures BelowBucket(H, ds, b, n) == n
    {
      if n > 0 {
        BucketsAreRuns(H, ds, b, n, n - 1);
      }
    }
    var m := n + 1;
    forall b | 0 <= b < BUCKET_COUNT ensures HoldsRun(H, ds, after, b, m) {
      var lo, hi := BelowBucket(H, ds, b, n), BelowBucket(H, ds, b + 1, n);
      assert HoldsRun(H, ds, items, b, n);
      if b == c {
        assert Items(H, ds, lo, n + 1) == Items(H, ds, lo, n) + [(H(ds[n]), n)];
      } else if b > c {
        assert Items(H, ds, n + 1, n + 1) == [] == Items(H, ds, n, n);
      }
    }
  }

  /** Partition the ordered names by the top byte of their hash. */
  method Partition(H: Hash, ds: seq<Name>) returns (items: seq<seq<(u64, nat)>>)
    requires Ordered(H, ds)
    ensures Partitioned(H, ds, items, |ds|)
  {
    items := seq(BUCKET_COUNT, _ => []);
    for i := 0 to |ds|
      invariant Partitioned(H, ds, items, i)
    {
      var h := H(ds[i]);
      var b := BucketOf(h);
      PushKeepsPartition(H, ds, items, i);
      items := items[b := items[b] + [(h, i)]];
    }
  }

  /** Bucket offsets and counts, with the two checked 32-bit operations. */
  method LayOutBuckets(H: Hash, ds: seq<Name>, items: seq<seq<(u64, nat)>>)
    returns (error: Option<BuildError>, buckets: seq<Bucket>)
    requires Partitioned(H, ds, items, |ds|)
    ensures error.None? <==> HEADER_SIZE + RecordBytes(|ds|) <= U32_MAX
    ensures error.None? ==> |buckets| == BUCKET_COUNT && forall b :: 0 <= b < BUCKET_COUNT ==>
      && buckets[b].offset == HEADER_SIZE + RecordBytes(BelowBucket(H, ds, b, |ds|))
      && buckets[b].count == BelowBucket(H, ds, b + 1, |ds|) - BelowBucket(H, ds, b, |ds|)
  {
    BelowExtremes(H, ds, |ds|);
    var cur: nat := HEADER_SIZE;
    buckets := [];
    for b := 0 to BUCKET_COUNT
      invariant cur == HEADER_SIZE + RecordBytes(BelowBucket(H, ds, b, |ds|)) <= U32_MAX
      invariant |buckets| == b && forall c :: 0 <= c < b ==>
        && buckets[c].offset == HEADER_SIZE + RecordBytes(BelowBucket(H, ds, c, |ds|))
        && buckets[c].count == BelowBucket(H, ds, c + 1, |ds|) - BelowBucket(H, ds, c, |ds|)
    {
      assert HoldsRun(H, ds, items, b, |ds|);
      var count := |items[b]|;
      if count > U32_MAX || RecordBytes(count) > U32_MAX {
        return Some(BucketTooLarge(b)), buckets;
      }
      buckets := buckets + [Bucket(cur, count)];
      cur := cur + RecordBytes(count);
      if cur > U32_MAX {
        return Some(IndexTooLarge), buckets;
      }
    }
    error := None;
  }

  ghost predicate StringsHold(ds: seq<Name>, strings: seq<byte>, n: nat)
    requires n <= |ds|
  {
    |strings| == StrOffset(ds, n) && HoldsStrings(ds, strings, 0, n)
  }

  lemma StringKept(ds: seq<Name>, strings: seq<byte>, t: seq<byte>, i: nat)
    requires i < |ds| && HoldsString(ds, strings, 0, i)
    ensures HoldsString(ds, strings + t, 0, i)
  {
    var p := StrOffset(ds, i);
    assert (strings + t)[p..p + |ds[i]|] == strings[p..p + |ds[i]|];
  }

  lemma StringAppended(ds: seq<Name>, strings: seq<byte>, n: nat)
    requires n < |ds| && StringsHold(ds, strings, n)
    ensures StringsHold(ds, strings + ds[n], n + 1)
  {
    forall i | 0 <= i < n ensures HoldsString(ds, strings + ds[n], 0, i) {
      StringKept(ds, strings, ds[n], i);
    }
    assert (strings + ds[n])[|strings|..|strings| + |ds[n]|] == ds[n];
    assert HoldsString(ds, strings + ds[n], 0, n);
  }

  predicate Measures(ds: seq<Name>, offs: seq<u32>, lens: seq<u16>, i: nat)
    requires i < |ds| && i < |offs| && i < |lens|
  {
    offs[i] == StrOffset(ds, i) && lens[i] == |ds[i]|
  }

  /** The strings section and where each name starts in it. */
  method LayOutStrings(ds: seq<Name>)
    returns (error: Option<BuildError>, offs: seq<u32>, lens: seq<u16>, strings: seq<byte>)
    ensures error.None? <==> forall i :: 0 <= i < |ds| ==> StringFits(ds, i)
    ensures error.None? ==> |offs| == |lens| == |ds| && StringsHold(ds, strings, |ds|)
    ensures error.None? ==> forall i :: 0 <= i < |ds| ==> Measures(ds, offs, lens, i)
  {
    offs, lens, strings := [], [], [];
    for i := 0 to |ds|
      invariant StringsHold(ds, strings, i) && forall j :: 0 <= j < i ==> StringFits(ds, j)
      invariant |offs| == |lens| == i
      invariant forall j :: 0 <= j < i ==> Measures(ds, offs, lens, j)
    {
      assert StringFits(ds, i) <==> |strings| <= U32_MAX && |ds[i]| <= U16_MAX;
      if |strings| > U32_MAX {
        return Some(StringsTooLarge), offs, lens, strings;
      }
      if |ds[i]| > U16_MAX {
        return Some(DomainTooLong(ds[i])), offs, lens, strings;
      }
      ghost var offs0, lens0 := offs, lens;
      offs := offs + [|strings|];
      lens := lens + [|ds[i]|];
      forall j | 0 <= j <= i ensures Measures(ds, offs, lens, j) {
        assert j < i ==> Measures(ds, offs0, lens0, j);
      }
      StringAppended(ds, strings, i);
      strings := strings + ds[i];
    }
    error := None;
  }

  lemma RecordAfterAppend(a: seq<byte>, t: seq<byte>, i: nat)
    requires HEADER_SIZE + RecordBytes(i + 1) <= |a|
    ensures RecordAt(a + t, HEADER_SIZE, i) == RecordAt(a, HEADER_SIZE, i)
  {
    var p := HEADER_SIZE + RecordBytes(i);
    ReadAfterAppend(a, t, p, 8);
    ReadAfterAppend(a, t, p + 8, 4);
    ReadAfterAppend(a, t, p + 12, 2);
  }

  lemma NewRecord(a: seq<byte>, n: nat, h: u64, off: u32, len: u16)
    requires |a| == HEADER_SIZE + RecordBytes(n)
    ensures var f := a + LittleEndian(h, 8) + LittleEndian(off, 4) + LittleEndian(len, 2);
      |f| == HEADER_SIZE + RecordBytes(n + 1) && RecordAt(f, HEADER_SIZE, n) == Record(h, off, len)
  {
    hide LittleEndian, ReadLE;
    Widths();
    var x, y, z := LittleEndian(h, 8), LittleEndian(off, 4), LittleEndian(len, 2);
    assert a + x + y + z == a + x + (y + z) == a + x + y + z + [];
    ReadWritten(a, h, 8, y + z);
    ReadWritten(a + x, off, 4, z);
    ReadWritten(a + x + y, len, 2, []);
  }

  lemma RecordWritten(a: seq<byte>, n: nat, h: u64, off: u32, len: u16)
    requires |a| == HEADER_SIZE + RecordBytes(n)
    ensures var f := a + LittleEndian(h, 8) + LittleEndian(off, 4) + LittleEndian(len, 2);
      && |f| == HEADER_SIZE + RecordBytes(n + 1) && RecordAt(f, HEADER_SIZE, n) == Record(h, off, len)
      && forall i :: 0 <= i < n ==> RecordAt(f, HEADER_SIZE, i) == RecordAt(a, HEADER_SIZE, i)
  {
    hide LittleEndian, RecordAt;
    NewRecord(a, n, h, off, len);
    var x, y, z := LittleEndian(h, 8), LittleEndian(off, 4), LittleEndian(len, 2);
    var f := a + x + y + z;
    assert f == a + (x + y + z);
    forall i | 0 <= i < n ensures RecordAt(f, HEADER_SIZE, i) == RecordAt(a, HEADER_SIZE, i) {
      RecordAfterAppend(a, x + y + z, i);
    }
  }

  /** Append the records bucket by bucket; together they are the records of all names in order. */
  method WriteRecords(H: Hash, ds: seq<Name>, items: seq<seq<(u64, nat)>>, offs: seq<u32>, lens: seq<u16>,
          header: seq<byte>)
    returns (file: seq<byte>)
    requires Partitioned(H, ds, items, |ds|) && |header| == HEADER_SIZE
    requires |offs| == |lens| == |ds|
    ensures |file| == HEADER_SIZE + RecordBytes(|ds|)
    ensures forall i :: 0 <= i < |ds| ==> RecordAt(file, HEADER_SIZE, i) == Record(H(ds[i]), offs[i], lens[i])
  {
    hide RecordAt, LittleEndian;
    file := header;
    BelowExtremes(H, ds, |ds|);
    for b := 0 to BUCKET_COUNT
      invariant BelowBucket(H, ds, b, |ds|) <= |ds|
      invariant |file| == HEADER_SIZE + RecordBytes(BelowBucket(H, ds, b, |ds|))
      invariant forall i :: 0 <= i < BelowBucket(H, ds, b, |ds|) ==>
        RecordAt(file, HEADER_SIZE, i) == Record(H(ds[i]), offs[i], lens[i])
    {
      ghost var lo := BelowBucket(H, ds, b, |ds|);
      assert HoldsRun(H, ds, items, b, |ds|);
      for j := 0 to |items[b]|
        invariant lo + |items[b]| <= |ds|
        invariant |file| == HEADER_SIZE + RecordBytes(lo + j)
        invariant forall i :: 0 <= i < lo + j ==>
          RecordAt(file, HEADER_SIZE, i) == Record(H(ds[i]), offs[i], lens[i])
      {
        var (h, orig) := items[b][j];
        RecordWritten(file, lo + j, h, offs[orig], lens[orig]);
        file := file + LittleEndian(h, 8) + LittleEndian(offs[orig], 4) + LittleEndian(lens[orig], 2);
      }
    }
  }

  /** Overwrite bytes `p..p + |s|`. */
  function Patch(file: seq<byte>, p: nat, s: seq<byte>): (r: seq<byte>)
    requires p + |s| <= |file|
    ensures |r| == |file| && r[p..p + |s|] == s
    ensures forall i :: 0 <= i < p || p + |s| <= i < |file| ==> r[i] == file[i]
  {
    file[..p] + s + file[p + |s|..]
  }

  lemma ReadElsewhere(file: seq<byte>, p: nat, s: seq<byte>, r: nat, w: nat)
    requires p + |s| <= |file| && r + w <= |file| && (r + w <= p || p + |s| <= r)
    ensures ReadLE(Patch(file, p, s), r, w) == ReadLE(file, r, w)
  {
    assert Patch(file, p, s)[r..r + w] == file[r..r + w];
    ReadsAgree(Patch(file, p, s), r, file, r, w);
  }

  lemma ReadPatched(file: seq<byte>, p: nat, n: nat, w: nat)
    requires n < Pow256(w) && p + w <= |file|
    ensures ReadLE(Patch(file, p, LittleEndian(n, w)), p, w) == n
  {
    LittleEndianRoundTrip(n, w);
    ReadsAgree(Patch(file, p, LittleEndian(n, w)), p, LittleEndian(n, w), 0, w);
  }

  ghost predicate Preamble(header: seq<byte>, total: u32) {
    && |header| == HEADER_SIZE && header[0..4] == MAGIC && ReadU32(header, 4) == 1
    && ReadU32(header, 8) == total && ReadU32(header, 12) == BUCKET_COUNT
  }

  /** Magic, version, total and bucket count over a zeroed header. */
  method WritePreamble(total: u32) returns (header: seq<byte>)
    ensures Preamble(header, total)
  {
    Widths();
    var zeros: seq<byte> := seq(HEADER_SIZE, _ => 0);
    var h0 := Patch(zeros, 0, MAGIC);
    var h1 := Patch(h0, 4, LittleEndian(1, 4));
    var h2 := Patch(h1, 8, LittleEndian(total, 4));
    header := Patch(h2, 12, LittleEndian(BUCKET_COUNT, 4));
    ReadPatched(h0, 4, 1, 4);
    ReadPatched(h1, 8, total, 4);
    ReadPatched(h2, 12, BUCKET_COUNT, 4);
    ReadElsewhere(h1, 8, LittleEndian(total, 4), 4, 4);
    ReadElsewhere(h2, 12, LittleEndian(BUCKET_COUNT, 4), 4, 4);
    ReadElsewhere(h2, 12, LittleEndian(BUCKET_COUNT, 4), 8, 4);
    assert header[0..4] == h2[0..4] == h1[0..4] == h0[0..4];
  }

  /** The real header. */
  method WriteHeader(total: u32, buckets: seq<Bucket>) returns (header: seq<byte>)
    requires |buckets| == BUCKET_COUNT
    ensures Preamble(header, total)
    ensures forall b :: 0 <= b < BUCKET_COUNT ==> BucketAt(header, b) == buckets[b]
  {
    header := WritePreamble(total);
    for b := 0 to BUCKET_COUNT
      invariant Preamble(header, total)
      invariant forall c :: 0 <= c < b ==> BucketAt(header, c) == buckets[c]
    {
      header := WriteBucket(header, b, buckets[b]);
    }
  }

  /** One header entry: its offset, then its count; nothing else in the header moves. */
  method WriteBucket(before: seq<byte>, b: nat, k: Bucket) returns (header: seq<byte>)
    requires |before| == HEADER_SIZE && b < BUCKET_COUNT
    ensures |header| == HEADER_SIZE && BucketAt(header, b) == k
    ensures header[0..4] == before[0..4]
    ensures forall c: nat :: c < b ==> BucketAt(header, c) == BucketAt(before, c)
    ensures forall p: nat :: p + 4 <= 16 + 8 * b ==> ReadU32(header, p) == ReadU32(before, p)
  {
    Widths();
    var pos := 16 + 8 * b;
    var mid := Patch(before, pos, LittleEndian(k.offset, 4));
    header := Patch(mid, pos + 4, LittleEndian(k.count, 4));
    ReadPatched(before, pos, k.offset, 4);
    ReadPatched(mid, pos + 4, k.count, 4);
    ReadElsewhere(mid, pos + 4, LittleEndian(k.count, 4), pos, 4);
    assert header[..pos] == before[..pos];
    forall p: nat | p + 4 <= pos ensures ReadU32(header, p) == ReadU32(before, p) {
      assert header[p..p + 4] == header[..pos][p..p + 4] == before[..pos][p..p + 4] == before[p..p + 4];
      ReadsAgree(header, p, before, p, 4);
    }
  }

  /** The header laid over the placeholder leaves records and strings where they were written. */
  lemma AssembledFile(H: Hash, ds: seq<Name>, header: seq<byte>, index: seq<byte>, strings: seq<byte>)
    requires |ds| <= U32_MAX && Preamble(header, |ds|)
    requires forall b :: 0 <= b < BUCKET_COUNT ==> HoldsBucket(H, ds, header, b)
    requires |index| == HEADER_SIZE + RecordBytes(|ds|)
    requires forall i :: 0 <= i < |ds| ==> HoldsRecord(H, ds, index, i)
    requires StringsHold(ds, strings, |ds|)
    ensures Encodes(H, ds, header + (index + strings)[HEADER_SIZE..])
  {
    var file := header + (index + strings)[HEADER_SIZE..];
    ReadAfterAppend(header, (index + strings)[HEADER_SIZE..], 4, 4);
    ReadAfterAppend(header, (index + strings)[HEADER_SIZE..], 8, 4);
    ReadAfterAppend(header, (index + strings)[HEADER_SIZE..], 12, 4);
    forall b | 0 <= b < BUCKET_COUNT ensures HoldsBucket(H, ds, file, b) {
      assert HoldsBucket(H, ds, header, b);
      ReadAfterAppend(header, (index + strings)[HEADER_SIZE..], 16 + 8 * b, 4);
      ReadAfterAppend(header, (index + strings)[HEADER_SIZE..], 20 + 8 * b, 4);
    }
    forall i | 0 <= i < |ds| ensures HoldsRecord(H, ds, file, i) {
      assert HoldsRecord(H, ds, index, i);
      RecordKept(header, index, strings, i);
    }
    forall i | 0 <= i < |ds| ensures HoldsString(ds, file, |index|, i) {
      StringMoved(ds, header, index, strings, i);
    }
  }

  lemma RecordKept(header: seq<byte>, index: seq<byte>, strings: seq<byte>, i: nat)
    requires |header| == HEADER_SIZE && HEADER_SIZE + RecordBytes(i + 1) <= |index|
    ensures RecordAt(header + (index + strings)[HEADER_SIZE..], HEADER_SIZE, i) == RecordAt(index, HEADER_SIZE, i)
  {
    var file := header + (index + strings)[HEADER_SIZE..];
    var p := HEADER_SIZE + RecordBytes(i);
    assert file[p..p + 8] == index[p..p + 8];
    assert file[p + 8..p + 12] == index[p + 8..p + 12];
    assert file[p + 12..p + 14] == index[p + 12..p + 14];
    ReadsAgree(file, p, index, p, 8);
    ReadsAgree(file, p + 8, index, p + 8, 4);
    ReadsAgree(file, p + 12, index, p + 12, 2);
  }

  lemma StringMoved(ds: seq<Name>, header: seq<byte>, index: seq<byte>, strings: seq<byte>, i: nat)
    requires |header| == HEADER_SIZE <= |index| && i < |ds|
    requires StringsHold(ds, strings, |ds|)
    ensures HoldsString(ds, header + (index + strings)[HEADER_SIZE..], |index|, i)
  {
    var file := header + (index + strings)[HEADER_SIZE..];
    var p := StrOffset(ds, i);
    assert HoldsString(ds, strings, 0, i);
    assert file[|index| + p..|index| + p + |ds[i]|] == strings[p..p + |ds[i]|];
  }

  /** Build the file for a list of names. It succeeds exactly when the distinct names are
      encodable, and then returns their number and their encoding. */
  method Build(H: Hash, domains: seq<Name>) returns (r: BuildResult)
    ensures r.Built? <==> Encodable(SortDedup(H, domains))
    ensures r.Built? ==> r.total == |SortDedup(H, domains)| && Encodes(H, SortDedup(H, domains), r.file)
  {
    var ds := SortDedup(H, domains);
    var total := |ds|;
    if total > U32_MAX { return Failed(TooManyDomains); }
    var placeholder: seq<byte> := seq(HEADER_SIZE, _ => 0);
    var items := Partition(H, ds);
    var tooLarge, buckets := LayOutBuckets(H, ds, items);
    if tooLarge.Some? { return Failed(tooLarge.value); }
    var unfit, offs, lens, strings := LayOutStrings(ds);
    if unfit.Some? { return Failed(unfit.value); }
    var index := WriteRecords(H, ds, items, offs, lens, placeholder);
    forall i | 0 <= i < |ds| ensures HoldsRecord(H, ds, index, i) { assert Measures(ds, offs, lens, i); }
    var header := WriteHeader(total, buckets);
    var file := header + (index + strings)[HEADER_SIZE..];
    AssembledFile(H, ds, header, index, strings);
    r := Built(total, file);
  }

  // ---------------------------------------------------------------- open

  /** Read and validate the header. */
  method Open(file: seq<byte>) returns (r: OpenResult)
    ensures r == OpenSpec(file)
  {
    hide ReadLE;
    if |file| < HEADER_SIZE { return Rejected(TooSmall); }
    if file[0..4] != MAGIC { return Rejected(BadMagic); }
    if ReadU32(file, 4) != 1 { return Rejected(BadVersion); }
    var total := ReadU32(file, 8);
    var buckets := [];
    var pos := 16;
    while |buckets| < BUCKET_COUNT
      invariant |buckets| <= BUCKET_COUNT && pos == 16 + 8 * |buckets|
      invariant forall b :: 0 <= b < |buckets| ==> buckets[b] == BucketAt(file, b)
    {
      buckets := buckets + [Bucket(ReadU32(file, pos), ReadU32(file, pos + 4))];
      pos := pos + 8;
    }
    assert buckets == BucketsOf(file);
    var base := HEADER_SIZE + RecordBytes(total);
    if |file| < base { return Rejected(ShorterThanIndex); }
    var sum := 0;
    for i := 0 to BUCKET_COUNT
      invariant sum == CountBefore(buckets, i)
    {
      sum := sum + buckets[i].count;
    }
    if sum != total { return Rejected(CountMismatch); }
    var prevEnd: Option<nat> := None;
    for i := 0 to BUCKET_COUNT
      invariant CheckBuckets(buckets, base, 0, None) == CheckBuckets(buckets, base, i, prevEnd)
    {
      var end := BucketEnd(buckets[i]);
      if buckets[i].offset < HEADER_SIZE { return Rejected(BelowHeader(i)); }
      if end > base { return Rejected(PastStrings(i)); }
      if prevEnd.Some? && buckets[i].offset < prevEnd.value { return Rejected(NotMonotonic(i)); }
      prevEnd := Some(end);
    }
    r := Opened(Disk(total, buckets, base));
  }

  // ---------------------------------------------------------------- contains

  /** Binary search for the hash: an index holding it, or (in a sorted bucket) none exists. */
  method SearchHash(k: Bucket, file: seq<byte>, h: u64) returns (idx: Option<nat>)
    requires BucketEnd(k) <= |file|
    ensures idx.Some? ==> idx.value < k.count && RecordAt(file, k.offset, idx.value).hash == h
    ensures idx.None? && BucketSorted(k, file) ==>
      forall i: nat :: i < k.count ==> RecordAt(file, k.offset, i).hash != h
  {
    var low, high := 0, k.count;
    while low < high
      invariant 0 <= low <= high <= k.count
      invariant BucketSorted(k, file) ==> forall i: nat :: i < low ==> RecordAt(file, k.offset, i).hash < h
      invariant BucketSorted(k, file) ==> forall i: nat :: high <= i < k.count ==> RecordAt(file, k.offset, i).hash > h
    {
      var mid := low + (high - low) / 2;
      var midHash := RecordAt(file, k.offset, mid).hash;
      if midHash == h {
        return Some(mid);
      } else if midHash < h {
        low := mid + 1;
      } else {
        high := mid;
      }
    }
    idx := None;
  }

  /** Look at an index holding the hash, then backwards and forwards over its equal neighbours. */
  method ScanEqual(file: seq<byte>, base: nat, k: Bucket, h: u64, q: Name, idx: nat) returns (found: bool)
    requires BucketEnd(k) <= |file| && idx < k.count && RecordAt(file, k.offset, idx).hash == h
    ensures found ==> exists i: nat :: i < k.count && Hit(file, base, k, h, q, i)
    ensures !found && BucketSorted(k, file) ==> forall i: nat :: i < k.count ==> !Hit(file, base, k, h, q, i)
  {
    hide ReadLE, StoresName;
    if Hit(file, base, k, h, q, idx) { return true; }
    var i := idx;
    while i > 0
      invariant 0 <= i <= idx
      invariant forall c: nat :: i <= c <= idx ==> !Hit(file, base, k, h, q, c)
      decreases i
    {
      i := i - 1;
      if RecordAt(file, k.offset, i).hash != h { break; }
      if Hit(file, base, k, h, q, i) { return true; }
    }
    assert BucketSorted(k, file) ==> forall c: nat :: c <= idx ==> !Hit(file, base, k, h, q, c);
    var j := idx + 1;
    while j < k.count
      invariant idx < j <= k.count
      invariant forall c: nat :: idx <= c < j ==> !Hit(file, base, k, h, q, c)
    {
      if RecordAt(file, k.offset, j).hash != h { break; }
      if Hit(file, base, k, h, q, j) { return true; }
      j := j + 1;
    }
    return false;
  }

  /** Look a name up. A reported hit is always real; in a sorted bucket every real hit is
      reported, whichever of several equal hashes the search lands on. */
  method Contains(H: Hash, disk: Disk, file: seq<byte>, domain: Name) returns (found: bool)
    requires |disk.buckets| == BUCKET_COUNT
    ensures found ==> Finds(H, disk, file, domain)
    ensures var k := disk.buckets[BucketOf(H(domain))];
      BucketEnd(k) <= |file| && BucketSorted(k, file) ==> (found <==> Finds(H, disk, file, domain))
  {
    if disk.total == 0 || domain == [] { return false; }
    var h := H(domain);
    var k := disk.buckets[BucketOf(h)];
    if !Readable(disk, k, file) { return false; }
    var idx := SearchHash(k, file, h);
    if idx.None? { return false; }
    found := ScanEqual(file, disk.stringsBase, k, h, domain, idx.value);
  }
}
