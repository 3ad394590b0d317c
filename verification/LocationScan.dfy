/** The directory scan: a worklist over a possibly cyclic graph of canonical directories, with a
    file budget, cancellation polled between entries, and a progress ratio.
    Progress is exact (`real`); when cancellation is seen and when a progress tick is let through
    are oracles. */
module LocationScan {
  import opened Bytes

  type Dir = nat

  datatype FileOutcome = NoMetadata | BadSize | ScanFails | Clean | Threat
  datatype Entry = Subdir(dir: Dir) | File(allowed: bool, outcome: FileOutcome) | Other | NoFileType

  /** Readable directories and their entries; whatever is missing cannot be read. */
  type Graph = map<Dir, seq<Entry>>
  type Test = Dir -> bool
  type Oracle = nat -> bool

  const CAP: real := 0.95

  // ---------------------------------------------------------------- progress

  function EstimatedTotal(scanned: nat, pending: nat, maxFiles: nat): (e: nat)
    ensures e >= 1 && e >= scanned
  {
    var guess := scanned + pending * 12 + 8;
    var lo := Max(scanned, 1);
    Max(lo, Min(guess, Max(maxFiles, lo)))
  }

  function SoftProgress(scanned: nat, pending: nat, maxFiles: nat): (r: real)
    ensures 0.0 <= r <= CAP
  {
    if scanned == 0 && pending == 0 then 0.0
    else
      var ratio := scanned as real / EstimatedTotal(scanned, pending, maxFiles) as real * CAP;
      if ratio < 0.0 then 0.0 else if ratio > CAP then CAP else ratio
  }

  /** The ratio is 0.95 times the files scanned over the estimate: twelve files for each waiting directory and
      eight more, but no more than the budget unless more were scanned already. */
  lemma ProgressInNumbers(scanned: nat, pending: nat, maxFiles: nat)
    ensures scanned == 0 ==> SoftProgress(scanned, pending, maxFiles) == 0.0
    ensures scanned > 0 ==>
      SoftProgress(scanned, pending, maxFiles) * Min(scanned + 12 * pending + 8, Max(maxFiles, scanned)) as real
        == scanned as real * 0.95
  {
    if scanned > 0 {
      var e := EstimatedTotal(scanned, pending, maxFiles);
      assert e == Min(scanned + 12 * pending + 8, Max(maxFiles, scanned));
      RatioTimes(scanned, e);
      assert SoftProgress(scanned, pending, maxFiles) == scanned as real / e as real * 0.95;
    }
  }

  lemma RatioTimes(a: nat, e: nat)
    requires 0 < a <= e
    ensures 0.0 <= a as real / e as real <= 1.0
    ensures a as real / e as real * 0.95 * e as real == a as real * 0.95
  {
    var q := a as real / e as real;
    assert q * e as real == a as real;
    assert q * 0.95 * e as real == q * e as real * 0.95;
  }

  /** Progress does not fall as files are scanned and waiting directories are taken. */
  lemma ProgressDoesNotFall(scanned: nat, pending: nat, more: nat, fewer: nat, maxFiles: nat)
    requires scanned <= more && fewer <= pending
    ensures SoftProgress(scanned, pending, maxFiles) <= SoftProgress(more, fewer, maxFiles)
  {
    if scanned > 0 {
      var e, e' := EstimatedTotal(scanned, pending, maxFiles), EstimatedTotal(more, fewer, maxFiles);
      EstimatesGrowSlower(scanned, pending, more, fewer, maxFiles);
      RatiosCompare(scanned, e, more, e');
    }
  }

  lemma EstimatesGrowSlower(scanned: nat, pending: nat, more: nat, fewer: nat, maxFiles: nat)
    requires 0 < scanned <= more && fewer <= pending
    ensures scanned * EstimatedTotal(more, fewer, maxFiles) <= more * EstimatedTotal(scanned, pending, maxFiles)
  {
    var e, e' := EstimatedTotal(scanned, pending, maxFiles), EstimatedTotal(more, fewer, maxFiles);
    var rest, rest' := 12 * pending + 8, 12 * fewer + 8;
    if e == scanned + rest {
      assert e' <= more + rest';
      hide EstimatedTotal;
      ProductsGrow(scanned, e', scanned, more + rest');
      ProductsGrow(scanned, rest', more, rest);
      Distributes(scanned, more, rest');
      Distributes(more, scanned, rest);
    } else {
      var b := Max(maxFiles, more);
      assert e == Max(maxFiles, scanned) && e' <= b;
      hide EstimatedTotal;
      ProductsGrow(scanned, e', scanned, b);
      if b == maxFiles { ProductsGrow(scanned, b, more, e); } else { ProductsGrow(scanned, more, e, more); }
    }
  }

  lemma Distributes(a: nat, b: nat, c: nat)
    ensures a * (b + c) == a * b + a * c
  {
  }

  lemma ProductsGrow(a: nat, b: nat, c: nat, d: nat)
    requires a <= c && b <= d
    ensures a * b <= c * d
  {
    assert a * b <= a * d;
  }

  lemma RatiosCompare(a: nat, e: nat, b: nat, f: nat)
    requires e > 0 && f > 0 && a * f <= b * e
    ensures a as real / e as real <= b as real / f as real
  {
    var x, y := a as real / e as real, b as real / f as real;
    assert x * e as real == a as real && y * f as real == b as real;
    assert x * e as real * f as real <= y * f as real * e as real;
  }

  function MaxReal(a: real, b: real): real { if a <= b then b else a }
  function MinReal(a: real, b: real): real { if a <= b then a else b }

  // ---------------------------------------------------------------- what there is to find

  ghost predicate Edge(g: Graph, skip: Test, a: Dir, b: Dir) {
    a in g && Subdir(b) in g[a] && !skip(b)
  }

  /** A path of directories each of which can be entered from the one before. */
  ghost predicate IsPath(g: Graph, skip: Test, path: seq<Dir>) {
    path != [] && forall i :: 0 < i < |path| ==> Edge(g, skip, path[i - 1], path[i])
  }

  ghost predicate Reachable(g: Graph, skip: Test, root: Dir, d: Dir) {
    exists path :: IsPath(g, skip, path) && path[0] == root && path[|path| - 1] == d
  }

  predicate IsScanned(e: Entry) { e.File? && e.allowed && (e.outcome.Clean? || e.outcome.Threat?) }
  predicate IsSkipped(e: Entry) { e.File? && e.allowed && !(e.outcome.Clean? || e.outcome.Threat?) }
  predicate IsThreat(e: Entry) { e.File? && e.allowed && e.outcome.Threat? }

  datatype Tally = Tally(scanned: nat, skipped: nat, threats: nat)

  function Bit(b: bool): nat { if b then 1 else 0 }

  function TallyOf(es: seq<Entry>): Tally {
    if es == [] then Tally(0, 0, 0)
    else
      var t, e := TallyOf(es[..|es| - 1]), es[|es| - 1];
      Tally(t.scanned + Bit(IsScanned(e)), t.skipped + Bit(IsSkipped(e)), t.threats + Bit(IsThreat(e)))
  }

  function Add(a: Tally, b: Tally): Tally {
    Tally(a.scanned + b.scanned, a.skipped + b.skipped, a.threats + b.threats)
  }

  function DirTally(g: Graph, d: Dir): Tally { if d in g then TallyOf(g[d]) else Tally(0, 0, 0) }

  /** The files of the directories in `ds`, counted once per occurrence. */
  function TallyAll(g: Graph, ds: seq<Dir>): Tally {
    if ds == [] then Tally(0, 0, 0)
    else Add(TallyAll(g, ds[..|ds| - 1]), DirTally(g, ds[|ds| - 1]))
  }

  ghost predicate Distinct(s: seq<Dir>) { forall i, j :: 0 <= i < j < |s| ==> s[i] != s[j] }

  /** `ds` lists the readable directories a path leads to, each once. */
  ghost predicate Covers(g: Graph, skip: Test, root: Dir, ds: seq<Dir>) {
    Distinct(ds) && forall d :: d in ds <==> d in g && Reachable(g, skip, root, d)
  }

  // ---------------------------------------------------------------- totals as numbers of files

  ghost function Positions(es: seq<Entry>, ok: Entry -> bool): set<nat> { set i | 0 <= i < |es| && ok(es[i]) }

  ghost function FilesIn(g: Graph, ds: seq<Dir>, ok: Entry -> bool): set<(Dir, nat)> {
    set d, i | d in ds && d in g && 0 <= i < |g[d]| && ok(g[d][i]) :: (d, i)
  }

  lemma PositionsSnoc(es: seq<Entry>, ok: Entry -> bool)
    requires es != []
    ensures var n := |es| - 1; |Positions(es, ok)| == |Positions(es[..n], ok)| + Bit(ok(es[n]))
  {
    var n := |es| - 1;
    assert Positions(es, ok) == Positions(es[..n], ok) + if ok(es[n]) then {n} else {};
  }

  lemma {:induction false} TallyCounts(es: seq<Entry>)
    ensures TallyOf(es).scanned == |Positions(es, IsScanned)| && TallyOf(es).threats == |Positions(es, IsThreat)|
    ensures TallyOf(es).skipped == |Positions(es, IsSkipped)|
  {
    hide IsScanned, IsSkipped, IsThreat;
    if es != [] {
      TallyCounts(es[..|es| - 1]);
      PositionsSnoc(es, IsScanned);
      PositionsSnoc(es, IsThreat);
      PositionsSnoc(es, IsSkipped);
    }
  }

  ghost function Pairs(d: Dir, s: set<nat>): set<(Dir, nat)> { set i | i in s :: (d, i) }

  lemma {:induction false} PairsSize(d: Dir, s: set<nat>)
    ensures |Pairs(d, s)| == |s|
    decreases |s|
  {
    if s == {} {
      assert Pairs(d, s) == {};
    } else {
      var i :| i in s;
      PairsSize(d, s - {i});
      assert Pairs(d, s) == Pairs(d, s - {i}) + {(d, i)};
    }
  }

  lemma FilesSnoc(g: Graph, ds: seq<Dir>, ok: Entry -> bool)
    requires ds != [] && Distinct(ds)
    ensures var n := |ds| - 1;
      |FilesIn(g, ds, ok)| == |FilesIn(g, ds[..n], ok)| + if ds[n] in g then |Positions(g[ds[n]], ok)| else 0
  {
    var n := |ds| - 1;
    var d := ds[n];
    assert forall c :: c in ds <==> c in ds[..n] || c == d;
    assert d !in ds[..n];
    if d in g {
      var here := Pairs(d, Positions(g[d], ok));
      PairsSize(d, Positions(g[d], ok));
      assert FilesIn(g, ds, ok) == FilesIn(g, ds[..n], ok) + here;
      assert FilesIn(g, ds[..n], ok) !! here;
    } else {
      assert FilesIn(g, ds, ok) == FilesIn(g, ds[..n], ok);
    }
  }

  lemma {:induction false} TallyAllCounts(g: Graph, ds: seq<Dir>)
    requires Distinct(ds)
    ensures TallyAll(g, ds).scanned == |FilesIn(g, ds, IsScanned)|
    ensures TallyAll(g, ds).threats == |FilesIn(g, ds, IsThreat)|
    ensures TallyAll(g, ds).skipped == |FilesIn(g, ds, IsSkipped)|
  {
    if ds != [] {
      var n := |ds| - 1;
      TallyAllCounts(g, ds[..n]);
      FilesSnoc(g, ds, IsScanned);
      FilesSnoc(g, ds, IsThreat);
      FilesSnoc(g, ds, IsSkipped);
      if ds[n] in g { TallyCounts(g[ds[n]]); }
      hide FilesIn, Positions, TallyOf, IsScanned, IsSkipped, IsThreat, Distinct;
    }
  }

  lemma ScannedFiles(g: Graph, ds: seq<Dir>)
    ensures FilesIn(g, ds, IsScanned) == set d, i | d in ds && d in g && 0 <= i < |g[d]| &&
      (g[d][i] == File(true, Clean) || g[d][i] == File(true, Threat)) :: (d, i)
  {
  }

  lemma ThreatFiles(g: Graph, ds: seq<Dir>)
    ensures FilesIn(g, ds, IsThreat) ==
      set d, i | d in ds && d in g && 0 <= i < |g[d]| && g[d][i] == File(true, Threat) :: (d, i)
  {
  }

  lemma SkippedFiles(g: Graph, ds: seq<Dir>)
    ensures FilesIn(g, ds, IsSkipped) == set d, i | d in ds && d in g && 0 <= i < |g[d]| &&
      g[d][i] in {File(true, NoMetadata), File(true, BadSize), File(true, ScanFails)} :: (d, i)
  {
  }

  /** The totals are numbers of files: the allowed ones that scanned clean or as threats, those that were
      threats, and those without metadata, of a wrong size or that could not be scanned. */
  lemma TotalsAreFiles(g: Graph, ds: seq<Dir>)
    requires Distinct(ds)
    ensures TallyAll(g, ds).scanned == |set d, i | d in ds && d in g && 0 <= i < |g[d]| &&
      (g[d][i] == File(true, Clean) || g[d][i] == File(true, Threat)) :: (d, i)|
    ensures TallyAll(g, ds).threats ==
      |set d, i | d in ds && d in g && 0 <= i < |g[d]| && g[d][i] == File(true, Threat) :: (d, i)|
    ensures TallyAll(g, ds).skipped == |set d, i | d in ds && d in g && 0 <= i < |g[d]| &&
      g[d][i] in {File(true, NoMetadata), File(true, BadSize), File(true, ScanFails)} :: (d, i)|
  {
    hide *;
    TallyAllCounts(g, ds);
    ScannedFiles(g, ds);
    ThreatFiles(g, ds);
    SkippedFiles(g, ds);
  }

  // ---------------------------------------------------------------- sums over directories

  predicate AtMost(a: Tally, b: Tally) { a.scanned <= b.scanned && a.skipped <= b.skipped && a.threats <= b.threats }

  lemma {:induction false} TallyWithout(g: Graph, ds: seq<Dir>, i: nat)
    requires i < |ds|
    ensures TallyAll(g, ds) == Add(TallyAll(g, ds[..i] + ds[i + 1..]), DirTally(g, ds[i]))
    decreases |ds|
  {
    hide DirTally;
    var n := |ds| - 1;
    var rest := ds[..i] + ds[i + 1..];
    assert |rest| == n && TallyAll(g, ds) == Add(TallyAll(g, ds[..n]), DirTally(g, ds[n]));
    if i < n {
      TallyWithout(g, ds[..n], i);
      assert ds[..n][..i] + ds[..n][i + 1..] == rest[..n - 1] && rest[n - 1] == ds[n];
      assert TallyAll(g, rest) == Add(TallyAll(g, rest[..n - 1]), DirTally(g, ds[n]));
    } else {
      assert rest == ds[..n];
    }
  }

  lemma DropBoth(a: seq<Dir>, b: seq<Dir>, j: nat)
    requires Distinct(a) && Distinct(b) && (forall d :: d in a ==> d in b) && a != [] && j < |b| && b[j] == a[|a| - 1]
    ensures var rest := b[..j] + b[j + 1..];
      Distinct(a[..|a| - 1]) && Distinct(rest) && forall d :: d in a[..|a| - 1] ==> d in rest
  {
    var rest := b[..j] + b[j + 1..];
    forall i | 0 <= i < |a| - 1 ensures a[i] in rest {
      assert a[i] in b;
      var k :| 0 <= k < |b| && b[k] == a[i];
      assert rest[if k < j then k else k - 1] == b[k];
    }
    assert forall k :: 0 <= k < |rest| ==> rest[k] == b[if k < j then k else k + 1];
  }

  /** Fewer directories, fewer files. */
  lemma {:induction false} SubsetTally(g: Graph, a: seq<Dir>, b: seq<Dir>)
    requires Distinct(a) && Distinct(b) && forall d :: d in a ==> d in b
    ensures |a| <= |b| && AtMost(TallyAll(g, a), TallyAll(g, b))
    decreases |a|
  {
    hide DirTally;
    if a != [] {
      hide Distinct;
      var n := |a| - 1;
      assert a[n] in b;
      var j :| 0 <= j < |b| && b[j] == a[n];
      DropBoth(a, b, j);
      TallyWithout(g, b, j);
      SubsetTally(g, a[..n], b[..j] + b[j + 1..]);
    }
  }

  /** The totals of a location do not depend on the order its directories are listed in. */
  lemma CoversAgree(g: Graph, skip: Test, root: Dir, a: seq<Dir>, b: seq<Dir>)
    requires Covers(g, skip, root, a) && Covers(g, skip, root, b)
    ensures |a| == |b| && TallyAll(g, a) == TallyAll(g, b)
  {
    hide Reachable, Distinct, TallyAll;
    SubsetTally(g, a, b);
    SubsetTally(g, b, a);
  }

  lemma {:induction false} Listing(s: set<Dir>) returns (ds: seq<Dir>)
    ensures Distinct(ds) && forall d :: d in ds <==> d in s
    decreases s
  {
    ds := [];
    if s != {} {
      var d :| d in s;
      var rest := Listing(s - {d});
      ds := rest + [d];
    }
  }

  /** Every location has such a list. */
  lemma CoverExists(g: Graph, skip: Test, root: Dir) returns (ds: seq<Dir>)
    ensures Covers(g, skip, root, ds)
  {
    hide Reachable, Distinct;
    ds := Listing(set d | d in g && Reachable(g, skip, root, d));
  }

  // ---------------------------------------------------------------- the scan

  datatype Report = Report(tally: Tally, directoriesVisited: nat, cancelled: bool, budgetReached: bool, progress: real)

  /** The scan's local variables. */
  datatype Work = Work(stack: seq<Dir>, visited: set<Dir>, report: Report, log: seq<real>, polls: nat, ticks: nat)

  /** What the scan did: the directories taken off the stack, those that could be read, and how many
      entries of each of these were dealt with. */
  datatype Trace = Trace(taken: seq<Dir>, done: seq<Dir>, read: seq<nat>)

  ghost predicate Ascending(s: seq<real>) { forall i, j :: 0 <= i <= j < |s| ==> s[i] <= s[j] }

  ghost predicate ReadsOk(g: Graph, done: seq<Dir>, read: seq<nat>) {
    |read| == |done| && forall i :: 0 <= i < |done| ==> done[i] in g && read[i] <= |g[done[i]]|
  }

  ghost predicate TraceOk(g: Graph, t: Trace) {
    ReadsOk(g, t.done, t.read) && Distinct(t.done) && forall d :: d in t.done ==> d in t.taken
  }

  /** The files among the entries dealt with. */
  ghost function TallyRead(g: Graph, done: seq<Dir>, read: seq<nat>): Tally
    requires ReadsOk(g, done, read)
  {
    if done == [] then Tally(0, 0, 0)
    else
      var n := |done| - 1;
      Add(TallyRead(g, done[..n], read[..n]), TallyOf(g[done[n]][..read[n]]))
  }

  function Sum(s: seq<nat>): nat { if s == [] then 0 else Sum(s[..|s| - 1]) + s[|s| - 1] }

  /** Directories taken and entries dealt with, with one more for a directory left half-read: what
      bounds how often cancellation was polled. */
  function Effort(t: Trace): nat { |t.taken| + Sum(t.read) + |t.done| }

  ghost predicate WasCancelled(cancel: Oracle, n: nat) { exists p :: 0 <= p < n && cancel(p) }

  ghost predicate ReportOk(g: Graph, maxFiles: nat, cancel: Oracle, r: Report, polls: nat, t: Trace)
    requires TraceOk(g, t)
  {
    && r.tally == TallyRead(g, t.done, t.read) && r.directoriesVisited == |t.done|
    && r.tally.scanned <= maxFiles && (r.budgetReached ==> r.tally.scanned == maxFiles)
    && (r.cancelled <==> WasCancelled(cancel, polls))
  }

  ghost predicate ProgressOk(progress: real, log: seq<real>) {
    0.0 <= progress <= CAP && Ascending(log) && (log != [] ==> log[|log| - 1] <= progress)
  }

  ghost predicate WorkOk(g: Graph, skip: Test, root: Dir, maxFiles: nat, cancel: Oracle, w: Work, t: Trace) {
    && Distinct(w.stack + t.taken)
    && (forall d :: d in w.stack || d in t.taken ==> d in w.visited && Reachable(g, skip, root, d))
    && TraceOk(g, t) && ReportOk(g, maxFiles, cancel, w.report, w.polls, t) && ProgressOk(w.report.progress, w.log)
  }

  predicate Interrupted(r: Report) { r.cancelled || r.budgetReached }

  ghost predicate FullyRead(g: Graph, done: seq<Dir>, read: seq<nat>, n: nat)
    requires ReadsOk(g, done, read) && n <= |done|
  {
    forall i :: 0 <= i < n ==> read[i] == |g[done[i]]|
  }

  /** Until interrupted: an enterable directory that was seen is waiting, read, or unreadable; the
      subdirectories of every directory read were seen. */
  ghost predicate Complete(g: Graph, skip: Test, root: Dir, w: Work, t: Trace)
    requires TraceOk(g, t)
  {
    && root in w.visited && FullyRead(g, t.done, t.read, |t.done|)
    && (forall d :: d in w.visited && (d == root || !skip(d)) ==> d in w.stack || d in t.done || d !in g)
    && (forall d, c :: d in t.done && d in g && Subdir(c) in g[d] ==> c in w.visited)
  }

  lemma PathExtends(g: Graph, skip: Test, root: Dir, a: Dir, b: Dir)
    requires Reachable(g, skip, root, a) && Edge(g, skip, a, b)
    ensures Reachable(g, skip, root, b)
  {
    var path :| IsPath(g, skip, path) && path[0] == root && path[|path| - 1] == a;
    assert IsPath(g, skip, path + [b]);
    assert (path + [b])[|path + [b]| - 1] == b;
  }

  /** One entry other than a directory: count it, and let a progress tick through now and then. */
  method ScanFile(w: Work, e: Entry, maxFiles: nat, allow: Oracle) returns (w': Work)
    requires !e.Subdir? && w.report.tally.scanned < maxFiles && ProgressOk(w.report.progress, w.log)
    ensures w'.stack == w.stack && w'.visited == w.visited && w'.polls == w.polls
    ensures w'.report.tally == Add(w.report.tally, TallyOf([e])) && w'.report.tally.scanned <= maxFiles
    ensures w'.report == w.report.(tally := w'.report.tally, progress := w'.report.progress)
    ensures w.report.progress <= w'.report.progress && ProgressOk(w'.report.progress, w'.log)
  {
    hide TallyOf, SoftProgress;
    SingleTally(e);
    w' := w;
    var t := w.report.tally;
    if !e.File? || !e.allowed { return; }
    if e.outcome.NoMetadata? || e.outcome.BadSize? || e.outcome.ScanFails? {
      w' := w.(report := w.report.(tally := t.(skipped := t.skipped + 1)));
      return;
    }
    t := t.(scanned := t.scanned + 1);
    if e.outcome.Threat? { t := t.(threats := t.threats + 1); }
    w' := w.(report := w.report.(tally := t));
    if t.scanned % 16 == 0 {
      if allow(w.ticks) {
        var ratio := SoftProgress(t.scanned, |w.stack|, maxFiles);
        var progress := MaxReal(w.report.progress, ratio);
        w' := w'.(report := w'.report.(progress := progress), log := w.log + [progress]);
      }
      w' := w'.(ticks := w.ticks + 1);
    }
  }

  lemma InsertKeepsDistinct(s: seq<Dir>, c: Dir, t: seq<Dir>)
    requires Distinct(s + t) && c !in s && c !in t
    ensures Distinct(s + [c] + t)
  {
    var r := s + [c] + t;
    forall i, j | 0 <= i < j < |r| ensures r[i] != r[j] {
      var i', j' := if i <= |s| then i else i - 1, if j <= |s| then j else j - 1;
      assert i < |s| ==> r[i] == (s + t)[i];
      assert i > |s| ==> r[i] == (s + t)[i - 1];
      assert j < |s| ==> r[j] == (s + t)[j];
      assert j > |s| ==> r[j] == (s + t)[j - 1];
    }
  }

  /** A subdirectory: enter it in the worklist if it is new and may be entered. */
  method Discover(ghost g: Graph, skip: Test, ghost root: Dir, ghost maxFiles: nat, ghost cancel: Oracle,
                  w: Work, ghost t: Trace, ghost d: Dir, c: Dir)
    returns (w': Work)
    requires WorkOk(g, skip, root, maxFiles, cancel, w, t) && d in t.taken && d in g && Subdir(c) in g[d]
    ensures WorkOk(g, skip, root, maxFiles, cancel, w', t)
    ensures w' == w.(stack := w'.stack, visited := w.visited + {c})
    ensures w'.stack == if c !in w.visited && !skip(c) then w.stack + [c] else w.stack
  {
    hide TraceOk, ReportOk, ProgressOk, Reachable;
    var isNew := c !in w.visited;
    w' := w.(visited := w.visited + {c});
    if isNew && !skip(c) {
      PathExtends(g, skip, root, d, c);
      InsertKeepsDistinct(w.stack, c, t.taken);
      w' := w'.(stack := w.stack + [c]);
    }
  }

  // ---------------------------------------------------------------- polling

  /** One poll of the cancel flag. */
  function Polled(w: Work, stop: bool): Work {
    w.(polls := w.polls + 1, report := w.report.(cancelled := w.report.cancelled || stop))
  }

  lemma PollKeepsWorkOk(g: Graph, skip: Test, root: Dir, maxFiles: nat, cancel: Oracle, w: Work, t: Trace)
    requires WorkOk(g, skip, root, maxFiles, cancel, w, t)
    ensures WorkOk(g, skip, root, maxFiles, cancel, Polled(w, cancel(w.polls)), t)
  {
    hide Distinct, Reachable, TraceOk, ProgressOk, TallyRead;
    PollSeen(cancel, w.polls);
  }

  lemma PollSeen(cancel: Oracle, n: nat)
    ensures WasCancelled(cancel, n + 1) <==> WasCancelled(cancel, n) || cancel(n)
  {
    if WasCancelled(cancel, n + 1) && !cancel(n) {
      var p :| 0 <= p < n + 1 && cancel(p);
      assert 0 <= p < n;
    }
  }

  lemma BudgetKeepsWorkOk(g: Graph, skip: Test, root: Dir, maxFiles: nat, cancel: Oracle, w: Work, t: Trace)
    requires WorkOk(g, skip, root, maxFiles, cancel, w, t) && w.report.tally.scanned >= maxFiles
    ensures WorkOk(g, skip, root, maxFiles, cancel, w.(report := w.report.(budgetReached := true)), t)
  {
    hide Distinct, Reachable, TraceOk, ProgressOk, TallyRead;
  }

  // ---------------------------------------------------------------- reading one directory

  /** The trace after one more entry of its last directory. */
  function NextEntry(t: Trace): Trace
    requires t.read != []
  {
    var n := |t.read| - 1;
    t.(read := t.read[..n] + [t.read[n] + 1])
  }

  lemma NextEntryOk(g: Graph, t: Trace)
    requires TraceOk(g, t) && t.done != [] && t.read[|t.read| - 1] < |g[t.done[|t.done| - 1]]|
    ensures TraceOk(g, NextEntry(t)) && Effort(NextEntry(t)) == Effort(t) + 1
    ensures var n := |t.done| - 1; var e := g[t.done[n]][t.read[n]];
      TallyRead(g, t.done, NextEntry(t).read) == Add(TallyRead(g, t.done, t.read), TallyOf([e]))
  {
    hide TallyOf, Distinct;
    var n := |t.done| - 1;
    var d, k, r := t.done[n], t.read[n], NextEntry(t).read;
    assert r[..n] == t.read[..n] && g[d][..k + 1] == g[d][..k] + [g[d][k]];
    TallySnoc(g[d][..k], g[d][k]);
  }

  /** While the last directory `d` is read, uninterrupted. */
  ghost predicate ReadingOk(g: Graph, skip: Test, root: Dir, w: Work, t: Trace, d: Dir)
    requires TraceOk(g, t)
  {
    && t.done != [] && t.done[|t.done| - 1] == d && root in w.visited
    && FullyRead(g, t.done, t.read, |t.done| - 1)
    && (forall x :: x in w.visited && (x == root || !skip(x)) ==> x in w.stack || x in t.done || x !in g)
    && (forall x, c :: x in t.done && x != d && x in g && Subdir(c) in g[x] ==> c in w.visited)
    && (forall c :: Subdir(c) in g[d][..t.read[|t.read| - 1]] ==> c in w.visited)
  }

  /** A file entry keeps the worklist, a subdirectory is seen afterwards: either way one more entry
      of `d` has been dealt with. */
  lemma EntryDealtWith(g: Graph, skip: Test, root: Dir, w: Work, t: Trace, d: Dir, w': Work)
    requires TraceOk(g, t) && t.read != [] && TraceOk(g, NextEntry(t))
    requires ReadingOk(g, skip, root, w, t, d) && t.read[|t.read| - 1] < |g[d]|
    requires var e := g[d][t.read[|t.read| - 1]];
      if e.Subdir? then
        && w'.visited == w.visited + {e.dir}
        && w'.stack == if e.dir !in w.visited && !skip(e.dir) then w.stack + [e.dir] else w.stack
      else w'.stack == w.stack && w'.visited == w.visited
    ensures ReadingOk(g, skip, root, w', NextEntry(t), d)
  {
    hide Distinct;
    var i := t.read[|t.read| - 1];
    assert g[d][..i + 1] == g[d][..i] + [g[d][i]];
  }

  lemma PollKeepsReading(g: Graph, skip: Test, root: Dir, w: Work, t: Trace, d: Dir, stop: bool)
    requires TraceOk(g, t) && ReadingOk(g, skip, root, w, t, d)
    ensures ReadingOk(g, skip, root, Polled(w, stop), t, d)
  {
    hide Distinct;
  }

  lemma DirectoryRead(g: Graph, skip: Test, root: Dir, w: Work, t: Trace, d: Dir)
    requires TraceOk(g, t) && ReadingOk(g, skip, root, w, t, d) && t.read[|t.read| - 1] == |g[d]|
    ensures Complete(g, skip, root, w, t)
  {
    hide Distinct;
    assert g[d][..|g[d]|] == g[d];
  }

  /** One entry of the directory being read. */
  method ReadEntry(g: Graph, skip: Test, ghost root: Dir, maxFiles: nat, ghost cancel: Oracle, allow: Oracle,
                   w: Work, ghost t: Trace, ghost d: Dir, e: Entry)
    returns (w': Work)
    requires d in g && d in t.taken && WorkOk(g, skip, root, maxFiles, cancel, w, t)
    requires w.report.tally.scanned < maxFiles
    requires t.done != [] && t.done[|t.done| - 1] == d && t.read[|t.read| - 1] < |g[d]|
    requires e == g[d][t.read[|t.read| - 1]]
    requires !Interrupted(w.report) ==> ReadingOk(g, skip, root, w, t, d)
    ensures TraceOk(g, NextEntry(t)) && WorkOk(g, skip, root, maxFiles, cancel, w', NextEntry(t))
    ensures w'.polls == w.polls && Interrupted(w'.report) == Interrupted(w.report)
    ensures !Interrupted(w'.report) ==> ReadingOk(g, skip, root, w', NextEntry(t), d)
    ensures w.visited <= w'.visited <= w.visited + Targets(g) && (w'.visited == w.visited ==> w'.stack == w.stack)
  {
    hide Distinct, Reachable, ReadingOk, TallyRead, TallyOf, ProgressOk, WasCancelled;
    NextEntryOk(g, t);
    if e.Subdir? {
      SingleTally(e);
      w' := Discover(g, skip, root, maxFiles, cancel, w, t, d, e.dir);
      assert e.dir in Targets(g);
    } else {
      w' := ScanFile(w, e, maxFiles, allow);
    }
    if !Interrupted(w.report) { EntryDealtWith(g, skip, root, w, t, d, w'); }
  }

  lemma NextEntryKeeps(t: Trace)
    requires t.read != []
    ensures var n := |t.read| - 1; var r := NextEntry(t).read;
      && |r| == |t.read| && r[..n] == t.read[..n] && r[n] == t.read[n] + 1
      && NextEntry(t).taken == t.taken && NextEntry(t).done == t.done
  {
  }

  method ReadDirectory(g: Graph, skip: Test, ghost root: Dir, maxFiles: nat, cancel: Oracle, allow: Oracle,
                       w: Work, ghost t: Trace, d: Dir)
    returns (w': Work, ghost t': Trace)
    requires d in g && d in t.taken && TraceOk(g, t) && WorkOk(g, skip, root, maxFiles, cancel, w, t)
    requires t.done != [] && t.done[|t.done| - 1] == d && t.read[|t.read| - 1] == 0 && w.polls + 1 <= Effort(t)
    requires !Interrupted(w.report) ==> ReadingOk(g, skip, root, w, t, d)
    ensures WorkOk(g, skip, root, maxFiles, cancel, w', t') && w'.polls <= Effort(t') && t'.taken == t.taken
    ensures t'.done == t.done
    ensures TraceOk(g, t') && t'.read[..|t.read| - 1] == t.read[..|t.read| - 1]
    ensures !Interrupted(w'.report) ==> Complete(g, skip, root, w', t')
    ensures w.visited <= w'.visited <= w.visited + Targets(g)
    ensures w'.visited == w.visited ==> w'.stack == w.stack
  {
    hide Distinct, Reachable, ReadingOk, WorkOk, TallyRead, TallyOf, Complete, NextEntry, Effort;
    w', t' := w, t;
    var entries := g[d];
    for i := 0 to |entries|
      invariant WorkOk(g, skip, root, maxFiles, cancel, w', t') && w'.polls + 1 <= Effort(t')
      invariant TraceOk(g, t') && |t'.read| == |t.read| && t'.read[..|t.read| - 1] == t.read[..|t.read| - 1]
      invariant t'.taken == t.taken && t'.done == t.done && t'.read[|t'.read| - 1] == i
      invariant !Interrupted(w'.report) ==> ReadingOk(g, skip, root, w', t', d)
      invariant w.visited <= w'.visited <= w.visited + Targets(g)
      invariant w'.visited == w.visited ==> w'.stack == w.stack
    {
      var stop := cancel(w'.polls);
      PollKeepsWorkOk(g, skip, root, maxFiles, cancel, w', t');
      if !Interrupted(w'.report) { PollKeepsReading(g, skip, root, w', t', d, stop); }
      w' := Polled(w', stop);
      if stop { return; }
      if w'.report.tally.scanned >= maxFiles {
        BudgetKeepsWorkOk(g, skip, root, maxFiles, cancel, w', t');
        w' := w'.(report := w'.report.(budgetReached := true));
        return;
      }
      w' := ReadEntry(g, skip, root, maxFiles, cancel, allow, w', t', d, entries[i]);
      NextEntryOk(g, t');
      NextEntryKeeps(t');
      t' := NextEntry(t');
    }
    if !Interrupted(w'.report) { DirectoryRead(g, skip, root, w', t', d); }
  }

  lemma TallySnoc(es: seq<Entry>, e: Entry)
    ensures TallyOf(es + [e]) == Add(TallyOf(es), TallyOf([e]))
    ensures e.Subdir? ==> TallyOf([e]) == Tally(0, 0, 0)
  {
    hide IsScanned, IsSkipped, IsThreat, Bit;
    assert (es + [e])[..|es|] == es && (es + [e])[|es|] == e;
    SingleTally(e);
  }

  lemma SingleTally(e: Entry)
    ensures TallyOf([e]) == Tally(Bit(IsScanned(e)), Bit(IsSkipped(e)), Bit(IsThreat(e)))
    ensures e.Subdir? ==> TallyOf([e]) == Tally(0, 0, 0)
  {
    assert [e][..0] == [];
  }

  /** Every directory some readable directory lists. */
  ghost function Targets(g: Graph): set<Dir> {
    set d, i | d in g && 0 <= i < |g[d]| && g[d][i].Subdir? :: g[d][i].dir
  }

  // ---------------------------------------------------------------- the whole scan

  lemma {:induction false} PathStaysInside(g: Graph, skip: Test, root: Dir, w: Work, t: Trace, path: seq<Dir>, i: nat)
    requires TraceOk(g, t) && Complete(g, skip, root, w, t) && w.stack == []
    requires IsPath(g, skip, path) && path[0] == root && i < |path|
    ensures path[i] in w.visited && (path[i] == root || !skip(path[i]))
  {
    hide Distinct;
    if i > 0 {
      PathStaysInside(g, skip, root, w, t, path, i - 1);
      assert Edge(g, skip, path[i - 1], path[i]);
    }
  }

  /** When the worklist runs dry uninterrupted, every reachable readable directory was read. */
  lemma AllReached(g: Graph, skip: Test, root: Dir, w: Work, t: Trace)
    requires TraceOk(g, t) && Complete(g, skip, root, w, t) && w.stack == []
    ensures forall d :: d in g && Reachable(g, skip, root, d) ==> d in t.done
  {
    hide Distinct;
    forall d | d in g && Reachable(g, skip, root, d) ensures d in t.done {
      var path :| IsPath(g, skip, path) && path[0] == root && path[|path| - 1] == d;
      PathStaysInside(g, skip, root, w, t, path, |path| - 1);
    }
  }

  lemma MoveKeepsDistinct(s: seq<Dir>, c: Dir, t: seq<Dir>)
    requires Distinct(s + [c] + t)
    ensures Distinct(s + (t + [c])) && c !in t
  {
    var a, b := s + [c] + t, s + (t + [c]);
    assert forall i :: 0 <= i < |t| ==> t[i] == a[|s| + 1 + i] && a[|s|] == c;
    forall i, j | 0 <= i < j < |b| ensures b[i] != b[j] {
      var i' := if i < |s| then i else i + 1;
      assert b[i] == a[i'];
      if j < |s| + |t| {
        assert b[j] == a[if j < |s| then j else j + 1];
      } else {
        assert b[j] == a[|s|] && i' != |s|;
      }
    }
  }

  /** Taking the top directory off the stack. */
  function Popped(w: Work): Work
    requires w.stack != []
  {
    w.(stack := w.stack[..|w.stack| - 1])
  }

  function Took(t: Trace, d: Dir): Trace { t.(taken := t.taken + [d]) }

  lemma PopKeepsWorkOk(g: Graph, skip: Test, root: Dir, maxFiles: nat, cancel: Oracle, w: Work, t: Trace)
    requires WorkOk(g, skip, root, maxFiles, cancel, w, t) && w.stack != []
    ensures var d := w.stack[|w.stack| - 1]; var t' := Took(t, d);
      && d !in t.done && TraceOk(g, t') && WorkOk(g, skip, root, maxFiles, cancel, Popped(w), t')
      && Effort(t') == Effort(t) + 1
      && (d !in g && Complete(g, skip, root, w, t) ==> Complete(g, skip, root, Popped(w), t'))
  {
    hide Reachable, TallyRead, ProgressOk, WasCancelled;
    var n := |w.stack| - 1;
    var d := w.stack[n];
    assert w.stack == w.stack[..n] + [d];
    MoveKeepsDistinct(w.stack[..n], d, t.taken);
  }

  /** The trace after opening `d`, none of it read yet. */
  function Opened(t: Trace, d: Dir): Trace { t.(done := t.done + [d], read := t.read + [0]) }

  lemma OpenKeepsWorkOk(g: Graph, skip: Test, root: Dir, maxFiles: nat, cancel: Oracle, w: Work, t: Trace, d: Dir)
    requires WorkOk(g, skip, root, maxFiles, cancel, w, t) && d in g && d in t.taken && d !in t.done
    ensures var t' := Opened(t, d);
      && TraceOk(g, t') && Effort(t') == Effort(t) + 1
      && var report := w.report.(directoriesVisited := w.report.directoriesVisited + 1);
        WorkOk(g, skip, root, maxFiles, cancel, w.(report := report), t')
  {
    hide Reachable, ProgressOk, WasCancelled;
    var t' := Opened(t, d);
    OpenedTrace(g, t, d);
    assert t'.done[..|t.done|] == t.done && t'.read[..|t.read|] == t.read && g[d][..0] == [];
  }

  lemma OpenedTrace(g: Graph, t: Trace, d: Dir)
    requires TraceOk(g, t) && d in g && d in t.taken && d !in t.done
    ensures TraceOk(g, Opened(t, d))
  {
  }

  lemma StartReading(g: Graph, skip: Test, root: Dir, w: Work, t: Trace, d: Dir, w': Work)
    requires TraceOk(g, t) && w.stack != [] && d == w.stack[|w.stack| - 1] && d in g && Complete(g, skip, root, w, t)
    requires TraceOk(g, Opened(Took(t, d), d)) && w'.visited == w.visited && w'.stack == w.stack[..|w.stack| - 1]
    ensures ReadingOk(g, skip, root, w', Opened(Took(t, d), d), d)
  {
    hide Distinct;
    var n := |w.stack| - 1;
    var t' := Opened(Took(t, d), d);
    assert w.stack == w.stack[..n] + [d];
    assert g[d][..0] == [] && t'.read[..|t.read|] == t.read && t'.done[..|t.done|] == t.done;
  }

  lemma RootReachable(g: Graph, skip: Test, root: Dir)
    ensures Reachable(g, skip, root, root)
  {
    assert IsPath(g, skip, [root]) && [root][|[root]| - 1] == root;
  }

  const NOTHING_READ: Trace := Trace([], [], [])

  function Initially(root: Dir): Work { Work([root], {root}, Report(Tally(0, 0, 0), 0, false, false, 0.0), [], 0, 0) }

  lemma StartOk(g: Graph, skip: Test, root: Dir, maxFiles: nat, cancel: Oracle)
    ensures TraceOk(g, NOTHING_READ) && WorkOk(g, skip, root, maxFiles, cancel, Initially(root), NOTHING_READ)
    ensures Complete(g, skip, root, Initially(root), NOTHING_READ)
  {
    RootReachable(g, skip, root);
  }

  /** Cancellation once asked for stays asked for. */
  ghost predicate Stays(cancel: Oracle) { forall p: nat, q: nat :: p <= q && cancel(p) ==> cancel(q) }

  /** Then at most the last directory is left half-read. */
  ghost predicate CutAtEnd(g: Graph, cancel: Oracle, t: Trace)
    requires TraceOk(g, t)
  {
    Stays(cancel) && t.done != [] ==> FullyRead(g, t.done, t.read, |t.done| - 1)
  }

  lemma StaysCancelled(cancel: Oracle, n: nat)
    requires Stays(cancel) && WasCancelled(cancel, n)
    ensures cancel(n)
  {
    var p: nat :| p < n && cancel(p);
  }

  /** A directory is opened only when nothing was interrupted so far, if cancellation stays. */
  lemma OpenCutsAtEnd(g: Graph, cancel: Oracle, t: Trace, d: Dir)
    requires TraceOk(g, t) && TraceOk(g, Opened(Took(t, d), d)) && FullyRead(g, t.done, t.read, |t.done|)
    ensures CutAtEnd(g, cancel, Opened(Took(t, d), d))
  {
    hide Distinct;
  }

  lemma ReadingCutsAtEnd(g: Graph, cancel: Oracle, t: Trace, t': Trace)
    requires TraceOk(g, t) && TraceOk(g, t') && t.done == t'.done != [] && CutAtEnd(g, cancel, t)
    requires t'.read[..|t.read| - 1] == t.read[..|t.read| - 1]
    ensures CutAtEnd(g, cancel, t')
  {
    hide Distinct;
    var n := |t.read| - 1;
    assert forall i :: 0 <= i < n ==> t'.read[i] == t'.read[..n][i] == t.read[..n][i] == t.read[i];
  }

  /** The worklist loop. */
  method RunWorklist(g: Graph, skip: Test, root: Dir, maxFiles: nat, cancel: Oracle, allow: Oracle)
    returns (w: Work, ghost t: Trace)
    ensures TraceOk(g, t) && WorkOk(g, skip, root, maxFiles, cancel, w, t) && w.polls <= Effort(t)
    ensures CutAtEnd(g, cancel, t)
    ensures !Interrupted(w.report) ==> Complete(g, skip, root, w, t) && w.stack == []
    ensures w.report.cancelled <==> WasCancelled(cancel, w.polls)
    ensures (w.report.budgetReached ==> w.report.tally.scanned == maxFiles)
  {
    hide Distinct, Reachable, ReadingOk, TallyRead, TallyOf, ProgressOk, WasCancelled, TraceOk, CutAtEnd, Effort;
    hide WorkOk, ReportOk, Complete, FullyRead;
    w, t := Initially(root), NOTHING_READ;
    StartOk(g, skip, root, maxFiles, cancel);
    NothingCut(g, cancel);
    while w.stack != []
      invariant TraceOk(g, t) && WorkOk(g, skip, root, maxFiles, cancel, w, t) && w.polls <= Effort(t)
      invariant CutAtEnd(g, cancel, t)
      invariant !Interrupted(w.report) ==> Complete(g, skip, root, w, t)
      invariant w.visited <= {root} + Targets(g)
      decreases {root} + Targets(g) - w.visited, |w.stack|
    {
      var d := w.stack[|w.stack| - 1];
      ghost var w0, t0 := w, t;
      PopKeepsWorkOk(g, skip, root, maxFiles, cancel, w, t);
      t := Took(t, d);
      w := Popped(w);
      var stop := cancel(w.polls);
      PollKeepsWorkOk(g, skip, root, maxFiles, cancel, w, t);
      w := Polled(w, stop);
      TakingCutsNothing(g, cancel, t0, d);
      if stop { break; }
      if w.report.tally.scanned >= maxFiles {
        BudgetKeepsWorkOk(g, skip, root, maxFiles, cancel, w, t);
        w := w.(report := w.report.(budgetReached := true));
        break;
      }
      if d !in g {
        if !Interrupted(w.report) { PollKeepsComplete(g, skip, root, Popped(w0), t, stop); }
        continue;
      }
      OpenKeepsWorkOk(g, skip, root, maxFiles, cancel, w, t, d);
      w := w.(report := w.report.(directoriesVisited := w.report.directoriesVisited + 1));
      t := Opened(t, d);
      OpenedCutAtEnd(g, skip, root, maxFiles, cancel, w0, t0, d);
      if !Interrupted(w.report) { StartReading(g, skip, root, w0, t0, d, w); }
      ghost var t1 := t;
      w, t := ReadDirectory(g, skip, root, maxFiles, cancel, allow, w, t, d);
      ReadingCutsAtEnd(g, cancel, t1, t);
    }
    FlagsHaveCauses(g, skip, root, maxFiles, cancel, w, t);
  }

  lemma PollKeepsComplete(g: Graph, skip: Test, root: Dir, w: Work, t: Trace, stop: bool)
    requires TraceOk(g, t) && Complete(g, skip, root, w, t)
    ensures Complete(g, skip, root, Polled(w, stop), t)
  {
    hide Distinct;
  }

  lemma FlagsHaveCauses(g: Graph, skip: Test, root: Dir, maxFiles: nat, cancel: Oracle, w: Work, t: Trace)
    requires WorkOk(g, skip, root, maxFiles, cancel, w, t)
    ensures w.report.cancelled <==> WasCancelled(cancel, w.polls)
    ensures (w.report.budgetReached ==> w.report.tally.scanned == maxFiles)
  {
    hide Distinct, Reachable, TallyRead, WasCancelled;
  }

  lemma NothingCut(g: Graph, cancel: Oracle)
    requires TraceOk(g, NOTHING_READ)
    ensures CutAtEnd(g, cancel, NOTHING_READ)
  {
  }

  lemma TakingCutsNothing(g: Graph, cancel: Oracle, t: Trace, d: Dir)
    requires TraceOk(g, t) && TraceOk(g, Took(t, d)) && CutAtEnd(g, cancel, t)
    ensures CutAtEnd(g, cancel, Took(t, d))
  {
  }

  lemma OpenedCutAtEnd(g: Graph, skip: Test, root: Dir, maxFiles: nat, cancel: Oracle, w: Work, t: Trace, d: Dir)
    requires TraceOk(g, t) && WorkOk(g, skip, root, maxFiles, cancel, w, t) && TraceOk(g, Opened(Took(t, d), d))
    requires !cancel(w.polls) && w.report.tally.scanned < maxFiles
    requires !Interrupted(w.report) ==> Complete(g, skip, root, w, t)
    ensures CutAtEnd(g, cancel, Opened(Took(t, d), d))
  {
    hide Distinct, Reachable, ProgressOk, TallyRead, TraceOk;
    if Stays(cancel) {
      if w.report.cancelled { StaysCancelled(cancel, w.polls); }
      OpenCutsAtEnd(g, cancel, t, d);
    }
  }

  // ---------------------------------------------------------------- what the scan promises

  /** Of what was done, in any case; and unless cancelled or out of budget, that all of it was done. */
  ghost predicate Promises(g: Graph, skip: Test, root: Dir, maxFiles: nat, cancel: Oracle, r: Report, log: seq<real>,
          t: Trace) {
    && TraceOk(g, t) && Distinct(t.taken) && (forall d :: d in t.taken ==> Reachable(g, skip, root, d))
    && r.tally == TallyRead(g, t.done, t.read) && r.directoriesVisited == |t.done|
    && r.tally.scanned <= maxFiles && (r.budgetReached ==> r.tally.scanned == maxFiles)
    && (r.cancelled ==> WasCancelled(cancel, Effort(t))) && CutAtEnd(g, cancel, t)
    && Ascending(log) && log != [] && log[|log| - 1] == r.progress
    && (if r.cancelled then 0.0 <= r.progress <= CAP else r.progress == 1.0)
    && (!Interrupted(r) ==> Covers(g, skip, root, t.done) && FullyRead(g, t.done, t.read, |t.done|))
  }

  lemma {:induction false} FullTally(g: Graph, done: seq<Dir>, read: seq<nat>)
    requires ReadsOk(g, done, read) && FullyRead(g, done, read, |done|)
    ensures TallyRead(g, done, read) == TallyAll(g, done)
    decreases |done|
  {
    hide TallyOf;
    if done != [] {
      var n := |done| - 1;
      FullTally(g, done[..n], read[..n]);
      assert g[done[n]][..read[n]] == g[done[n]];
    }
  }

  lemma {:induction false} PrefixTally(es: seq<Entry>, k: nat)
    requires k <= |es|
    ensures AtMost(TallyOf(es[..k]), TallyOf(es))
    decreases |es|
  {
    if k < |es| {
      PrefixTally(es[..|es| - 1], k);
      assert es[..|es| - 1][..k] == es[..k];
    } else {
      assert es[..k] == es;
    }
  }

  lemma {:induction false} ReadAtMostAll(g: Graph, done: seq<Dir>, read: seq<nat>)
    requires ReadsOk(g, done, read)
    ensures AtMost(TallyRead(g, done, read), TallyAll(g, done))
    decreases |done|
  {
    hide TallyOf;
    if done != [] {
      var n := |done| - 1;
      ReadAtMostAll(g, done[..n], read[..n]);
      PrefixTally(g[done[n]], read[n]);
    }
  }

  /** The report of a scan nobody cancels, from the graph alone. With fewer files than the budget
      every reachable readable directory is read and every file in them counted; with more the
      budget is used up and reported. */
  ghost predicate Accounts(g: Graph, skip: Test, root: Dir, maxFiles: nat, r: Report) {
    !r.cancelled && forall ds :: Covers(g, skip, root, ds) ==>
      var all := TallyAll(g, ds);
      && (all.scanned < maxFiles ==> r == Report(all, |ds|, false, false, 1.0))
      && (all.scanned > maxFiles ==> r.budgetReached && r.tally.scanned == maxFiles)
  }

  lemma UncancelledAccounts(g: Graph, skip: Test, root: Dir, maxFiles: nat, cancel: Oracle, r: Report, log: seq<real>,
          t: Trace)
    requires Promises(g, skip, root, maxFiles, cancel, r, log, t) && forall p: nat :: !cancel(p)
    ensures Accounts(g, skip, root, maxFiles, r)
  {
    hide Reachable, TallyAll, TallyRead, CutAtEnd, Distinct, Ascending;
    forall ds | Covers(g, skip, root, ds)
      ensures var all := TallyAll(g, ds);
        && (all.scanned < maxFiles ==> r == Report(all, |ds|, false, false, 1.0))
        && (all.scanned > maxFiles ==> r.budgetReached && r.tally.scanned == maxFiles)
    {
      SubsetTally(g, t.done, ds);
      ReadAtMostAll(g, t.done, t.read);
      if !r.budgetReached {
        CoversAgree(g, skip, root, t.done, ds);
        FullTally(g, t.done, t.read);
      }
    }
  }

  /** Scan a location. With `rootIsDir` false or a skippable root nothing is read. */
  method ScanLocation(g: Graph, skip: Test, root: Dir, rootIsDir: bool, maxFiles: nat, cancel: Oracle, allow: Oracle)
    returns (r: Report, log: seq<real>, ghost t: Trace)
    ensures rootIsDir && !skip(root) ==> Promises(g, skip, root, maxFiles, cancel, r, log, t)
    ensures rootIsDir && !skip(root) && (forall p: nat :: !cancel(p)) ==> Accounts(g, skip, root, maxFiles, r)
    ensures !(rootIsDir && !skip(root)) ==> r == Report(Tally(0, 0, 0), 0, false, false, 1.0) && log == []
  {
    hide Reachable, TallyRead, TraceOk, CutAtEnd, Accounts;
    t := NOTHING_READ;
    if !rootIsDir || skip(root) {
      return Report(Tally(0, 0, 0), 0, false, false, 1.0), [], t;
    }
    var w;
    w, t := RunWorklist(g, skip, root, maxFiles, cancel, allow);
    if !Interrupted(w.report) { AllReached(g, skip, root, w, t); }
    FinishedOk(g, skip, root, maxFiles, cancel, w, t);
    var progress := w.report.progress;
    if w.report.cancelled {
      if w.report.tally.scanned > 0 {
        progress := MinReal(MaxReal(progress, SoftProgress(w.report.tally.scanned, 0, maxFiles)), CAP);
      }
    } else {
      progress := 1.0;
    }
    r := w.report.(progress := progress);
    log := w.log + [progress];
    if forall p: nat :: !cancel(p) { UncancelledAccounts(g, skip, root, maxFiles, cancel, r, log, t); }
  }

  lemma FinishedOk(g: Graph, skip: Test, root: Dir, maxFiles: nat, cancel: Oracle, w: Work, t: Trace)
    requires WorkOk(g, skip, root, maxFiles, cancel, w, t) && w.polls <= Effort(t)
    ensures Distinct(t.taken) && (w.report.cancelled ==> WasCancelled(cancel, Effort(t)))
    ensures forall d :: d in t.done ==> d in g && Reachable(g, skip, root, d)
    ensures Distinct(t.done)
  {
    hide Reachable, ProgressOk;
    assert forall i :: 0 <= i < |t.taken| ==> t.taken[i] == (w.stack + t.taken)[|w.stack| + i];
  }
}
