/**
 * Files, their sizes and the collections they belong to
 * (q37-file-collections, Solution.java: class FileCollectionsTracker).
 *
 * The tracker keeps, next to the files themselves, a running total of all
 * file sizes and per-collection aggregates (total size and file count).
 * The model proves that these aggregates always equal what the files
 * themselves say, so that re-adding a file replaces its old contribution.
 */
module FileCollections {
  import opened Strings
  import opened Ordering

  datatype FileRecord = FileRecord(size: int, collections: set<string>)

  datatype Stats = Stats(totalSize: int, fileCount: int)

  datatype Tracker = Tracker(files: map<string, FileRecord>, stats: map<string, Stats>, total: int)

  /** `new FileCollectionsTracker()`. */
  function Create(): (t: Tracker)
    ensures t.files == map[] && t.stats == map[] && t.total == 0
  {
    Tracker(map[], map[], 0)
  }

  // ---------------------------------------------------------------------------
  // What the files say
  // ---------------------------------------------------------------------------

  /** The files that belong to collection `c`. */
  function Members(files: map<string, FileRecord>, c: string): (m: set<string>)
    ensures m <= files.Keys
  {
    set f | f in files && c in files[f].collections
  }

  /** The total size of the files named in `names`. */
  ghost function SizeOf(files: map<string, FileRecord>, names: set<string>): int
    requires names <= files.Keys
    decreases names
  {
    if forall x :: x !in names then 0
    else
      var x :| x in names;
      files[x].size + SizeOf(files, names - {x})
  }

  /** Any file can be taken out of the sum first. */
  lemma {:induction false} SizeOfRemove(files: map<string, FileRecord>, names: set<string>, y: string)
    requires names <= files.Keys && y in names
    ensures SizeOf(files, names) == files[y].size + SizeOf(files, names - {y})
    decreases names
  {
    var x :| x in names && SizeOf(files, names) == files[x].size + SizeOf(files, names - {x});
    if x != y {
      SizeOfRemove(files, names - {x}, y);
      SizeOfRemove(files, names - {y}, x);
      assert names - {x} - {y} == names - {y} - {x};
    }
  }

  /** The sum only reads the sizes of the files it names. */
  lemma {:induction false} SizeOfFrame(files: map<string, FileRecord>, other: map<string, FileRecord>, names: set<string>)
    requires names <= files.Keys && names <= other.Keys
    requires forall x :: x in names ==> files[x].size == other[x].size
    ensures SizeOf(files, names) == SizeOf(other, names)
    decreases names
  {
    if exists x :: x in names {
      var x :| x in names && SizeOf(files, names) == files[x].size + SizeOf(files, names - {x});
      SizeOfRemove(other, names, x);
      SizeOfFrame(files, other, names - {x});
    }
  }

  /** The aggregates are those of the files: the running total is the sum of all sizes; a collection is listed exactly when some file is in it, with that many files and their total size. */
  ghost predicate Consistent(t: Tracker) {
    && (forall f :: f in t.files ==> f != "" && t.files[f].size > 0 && "" !in t.files[f].collections)
    && t.total == SizeOf(t.files, t.files.Keys)
    && (forall c :: Entry(t.files, t.stats, c))
  }

  lemma CreateConsistent()
    ensures Consistent(Create())
  {
  }

  // ---------------------------------------------------------------------------
  // addFile
  // ---------------------------------------------------------------------------

  /** The collection list reduced to a set, without empty names. */
  function Normalize(collections: seq<string>): (s: set<string>)
    ensures "" !in s
    ensures forall c :: c in s <==> c in collections && c != ""
  {
    set c | c in collections && c != ""
  }

  /** Take a file of `size` out of every collection in `cols`; a collection left with no file disappears. */
  function RemoveContribution(stats: map<string, Stats>, cols: set<string>, size: int): (r: map<string, Stats>)
    ensures forall c :: c in stats && c !in cols ==> c in r && r[c] == stats[c]
    ensures forall c :: c in cols && c in stats && stats[c].fileCount != 1 ==>
              c in r && r[c] == Stats(stats[c].totalSize - size, stats[c].fileCount - 1)
    ensures forall c :: c in r <==> c in stats && (c !in cols || stats[c].fileCount != 1)
  {
    map c | c in stats && (c !in cols || stats[c].fileCount != 1) ::
      if c in cols then Stats(stats[c].totalSize - size, stats[c].fileCount - 1) else stats[c]
  }

  /** Add a file of `size` to every collection in `cols`, creating the missing ones. */
  function AddContribution(stats: map<string, Stats>, cols: set<string>, size: int): (r: map<string, Stats>)
    ensures r.Keys == stats.Keys + cols
    ensures forall c :: c in stats && c !in cols ==> r[c] == stats[c]
    ensures forall c :: c in cols && c in stats ==> r[c] == Stats(stats[c].totalSize + size, stats[c].fileCount + 1)
    ensures forall c :: c in cols && c !in stats ==> r[c] == Stats(size, 1)
  {
    map c | c in stats.Keys + cols ::
      if c !in cols then stats[c]
      else if c in stats then Stats(stats[c].totalSize + size, stats[c].fileCount + 1)
      else Stats(size, 1)
  }

  /** `addFile`: an empty name or a non-positive size is ignored; otherwise the file is added or replaces its earlier record. */
  function AddFile(t: Tracker, name: string, size: int, collections: seq<string>): (r: Tracker)
    ensures name == "" || size <= 0 ==> r == t
    ensures name != "" && size > 0 ==> r.files == t.files[name := FileRecord(size, Normalize(collections))]
    ensures name != "" && size > 0 && name in t.files ==> r.total == t.total + size - t.files[name].size
    ensures name != "" && size > 0 && name !in t.files ==> r.total == t.total + size
  {
    if name == "" || size <= 0 then t
    else
      var cols := Normalize(collections);
      if name in t.files then
        var prev := t.files[name];
        var stats := AddContribution(RemoveContribution(t.stats, prev.collections, prev.size), cols, size);
        Tracker(t.files[name := FileRecord(size, cols)], stats, t.total + size - prev.size)
      else
        Tracker(t.files[name := FileRecord(size, cols)], AddContribution(t.stats, cols, size), t.total + size)
  }

  /** Membership after re-recording file `n` with collections `cols`. */
  lemma MembersAfter(files: map<string, FileRecord>, n: string, rec: FileRecord, c: string)
    ensures Members(files[n := rec], c) == (Members(files, c) - {n}) + (if c in rec.collections then {n} else {})
  {
  }

  /** The size sum of one collection after file `n` is re-recorded. */
  lemma SizeAfter(files: map<string, FileRecord>, n: string, rec: FileRecord, c: string)
    ensures var after := files[n := rec];
            SizeOf(after, Members(after, c)) ==
              SizeOf(files, Members(files, c))
              - (if n in files && c in files[n].collections then files[n].size else 0)
              + (if c in rec.collections then rec.size else 0)
  {
    var after := files[n := rec];
    var rest := Members(files, c) - {n};
    SizeOfFrame(files, after, rest);
    if n in files && c in files[n].collections {
      SizeOfRemove(files, Members(files, c), n);
    } else {
      assert Members(files, c) == rest;
    }
    MembersAfter(files, n, rec, c);
    if c in rec.collections {
      SizeOfRemove(after, Members(after, c), n);
      assert Members(after, c) - {n} == rest;
    } else {
      assert Members(after, c) == rest;
    }
  }

  /** The running total after file `n` is re-recorded. */
  lemma TotalAfter(files: map<string, FileRecord>, n: string, rec: FileRecord)
    ensures var after := files[n := rec];
            SizeOf(after, after.Keys) == SizeOf(files, files.Keys) - (if n in files then files[n].size else 0) + rec.size
  {
    var after := files[n := rec];
    var rest := files.Keys - {n};
    SizeOfFrame(files, after, rest);
    if n in files {
      SizeOfRemove(files, files.Keys, n);
    } else {
      assert files.Keys == rest;
    }
    SizeOfRemove(after, after.Keys, n);
    assert after.Keys - {n} == rest;
  }

  /** Collection `c`'s aggregate matches the files: listed exactly when it has a member, with their count and total size. */
  ghost predicate Entry(files: map<string, FileRecord>, stats: map<string, Stats>, c: string) {
    && (c in stats <==> Members(files, c) != {})
    && (c in stats ==> stats[c].fileCount == |Members(files, c)| && stats[c].totalSize == SizeOf(files, Members(files, c)))
  }

  /** The aggregate update of `addFile` for file `n`. */
  function Reaggregate(files: map<string, FileRecord>, stats: map<string, Stats>, n: string, rec: FileRecord): map<string, Stats> {
    if n in files then AddContribution(RemoveContribution(stats, files[n].collections, files[n].size), rec.collections, rec.size)
    else AddContribution(stats, rec.collections, rec.size)
  }

  /** Collection `c`'s aggregate counts exactly the members other than `n`. */
  ghost predicate EntryWithout(files: map<string, FileRecord>, stats: map<string, Stats>, c: string, n: string) {
    var rest := Members(files, c) - {n};
    && (c in stats <==> rest != {})
    && (c in stats ==> stats[c].fileCount == |rest| && stats[c].totalSize == SizeOf(files, rest))
  }

  /** Taking file `n`'s old contribution out leaves an aggregate for the other members. */
  lemma RemoveStep(files: map<string, FileRecord>, stats: map<string, Stats>, n: string, c: string)
    requires Entry(files, stats, c)
    ensures EntryWithout(files, if n in files then RemoveContribution(stats, files[n].collections, files[n].size) else stats, c, n)
  {
    var m := Members(files, c);
    if n in files && c in files[n].collections {
      assert n in m;
      assert |m - {n}| == |m| - 1;
      SizeOfRemove(files, m, n);
      if |m| == 1 {
        assert m - {n} == {};
      } else {
        assert m - {n} != {};
      }
    } else {
      assert m - {n} == m;
    }
  }

  /** Adding file `n`'s new contribution gives the aggregate of the new members. */
  lemma AddStep(files: map<string, FileRecord>, stats: map<string, Stats>, n: string, rec: FileRecord, c: string)
    requires EntryWithout(files, stats, c, n)
    ensures Entry(files[n := rec], AddContribution(stats, rec.collections, rec.size), c)
  {
    var after := files[n := rec];
    var rest := Members(files, c) - {n};
    MembersAfter(files, n, rec, c);
    SizeOfFrame(files, after, rest);
    if c in rec.collections {
      assert Members(after, c) == rest + {n};
      assert n !in rest;
      assert |rest + {n}| == |rest| + 1;
      SizeOfRemove(after, rest + {n}, n);
      assert rest + {n} - {n} == rest;
      if rest == {} {
        assert SizeOf(after, rest) == 0;
      }
    } else {
      assert Members(after, c) == rest;
    }
  }

  /** Re-recording one file keeps each collection's aggregate matched to the files. */
  lemma EntryAfter(files: map<string, FileRecord>, stats: map<string, Stats>, n: string, rec: FileRecord, c: string)
    requires Entry(files, stats, c)
    ensures Entry(files[n := rec], Reaggregate(files, stats, n, rec), c)
  {
    RemoveStep(files, stats, n, c);
    AddStep(files, if n in files then RemoveContribution(stats, files[n].collections, files[n].size) else stats, n, rec, c);
  }

  /** `addFile` keeps the aggregates equal to what the files say. */
  lemma AddFileConsistent(t: Tracker, name: string, size: int, collections: seq<string>)
    requires Consistent(t)
    ensures Consistent(AddFile(t, name, size, collections))
  {
    if name != "" && size > 0 {
      var r := AddFile(t, name, size, collections);
      var rec := FileRecord(size, Normalize(collections));
      assert r.stats == Reaggregate(t.files, t.stats, name, rec);
      TotalAfter(t.files, name, rec);
      forall c
        ensures Entry(r.files, r.stats, c)
      {
        assert Entry(t.files, t.stats, c);
        EntryAfter(t.files, t.stats, name, rec, c);
      }
    }
  }

  // ---------------------------------------------------------------------------
  // Queries
  // ---------------------------------------------------------------------------

  /** `getTotalFileSize`: the running total clamped to 0 .. `Integer.MAX_VALUE`. */
  function TotalFileSize(t: Tracker): (n: int)
    ensures 0 <= n <= IntMax
    ensures 0 <= t.total <= IntMax ==> n == t.total
    ensures t.total > IntMax ==> n == IntMax
  {
    if t.total <= 0 then 0
    else if t.total > IntMax then IntMax
    else t.total
  }

  /** Sizes are positive, so the total is never clamped at zero: it is the sum of the sizes, capped at `Integer.MAX_VALUE`. */
  lemma {:induction false} SizeOfNonNegative(files: map<string, FileRecord>, names: set<string>)
    requires names <= files.Keys
    requires forall f :: f in names ==> files[f].size > 0
    ensures SizeOf(files, names) >= 0
    decreases names
  {
    if exists x :: x in names {
      var x :| x in names;
      SizeOfRemove(files, names, x);
      SizeOfNonNegative(files, names - {x});
    }
  }

  lemma TotalIsSum(t: Tracker)
    requires Consistent(t)
    ensures TotalFileSize(t) == if SizeOf(t.files, t.files.Keys) > IntMax then IntMax else SizeOf(t.files, t.files.Keys)
  {
    SizeOfNonNegative(t.files, t.files.Keys);
  }

  /** The ranking quantity of a strategy: 0 ranks by total size, anything else by file count; a missing collection counts as 0. */
  function Metric(stats: map<string, Stats>, strategy: int, c: string): int {
    if c !in stats then 0
    else if strategy == 0 then stats[c].totalSize
    else stats[c].fileCount
  }

  /** `a` is listed before `b`: a larger metric, or the same metric and a smaller name. */
  predicate RanksBefore(stats: map<string, Stats>, strategy: int, a: string, b: string) {
    Metric(stats, strategy, a) > Metric(stats, strategy, b) ||
    (Metric(stats, strategy, a) == Metric(stats, strategy, b) && Less(a, b))
  }

  /** All collections in ranking order. */
  function Ranked(stats: map<string, Stats>, strategy: int): (r: seq<string>)
    ensures |r| == |stats|
    ensures forall x :: x in r <==> x in stats
    ensures forall i, j :: 0 <= i < j < |r| ==> RanksBefore(stats, strategy, r[i], r[j])
  {
    var key := c => -Metric(stats, strategy, c);
    var sorted := SortedBy(key, stats.Keys);
    assert |stats.Keys| == |stats|;
    forall i, j | 0 <= i < j < |sorted|
      ensures RanksBefore(stats, strategy, sorted[i], sorted[j])
    {
      assert KeyLe(key, sorted[i], sorted[j]) && sorted[i] != sorted[j];
    }
    sorted
  }

  /** `getTopCollections`: at most ten collections, the largest metric first, ties by name; every collection left out ranks after every one listed. */
  function TopCollections(t: Tracker, strategy: int): (r: seq<string>)
    ensures |r| == if |t.stats| < 10 then |t.stats| else 10
    ensures forall i :: 0 <= i < |r| ==> r[i] in t.stats
    ensures forall i, j :: 0 <= i < j < |r| ==> RanksBefore(t.stats, strategy, r[i], r[j])
    ensures forall c, i :: c in t.stats && c !in r && 0 <= i < |r| ==> RanksBefore(t.stats, strategy, r[i], c)
  {
    var sorted := Ranked(t.stats, strategy);
    var k := if |sorted| < 10 then |sorted| else 10;
    forall c, i | c in t.stats && c !in sorted[..k] && 0 <= i < k
      ensures RanksBefore(t.stats, strategy, sorted[i], c)
    {
      var j :| 0 <= j < |sorted| && sorted[j] == c;
      assert j >= k;
    }
    sorted[..k]
  }
}
