/** `cleanupExports` (src/index.js:74-104) as a pure function from the directory listing and
    the current day to the files it unlinks. */
module Pruner {
  import opened Outcome
  import opened Text
  import opened Sorting
  import opened Naming

  /** The pruning pattern `^notes-export-(\d{4}-\d{2}-\d{2})T` matches `f`. The date must
      follow the prefix immediately. */
  predicate HasDay(f: string)
  {
    |f| >= 24 && f[..13] == ExportPrefix && Fits(f[13..24], "DDDD-DD-DDT")
  }

  /** The day the pruning pattern captures, if it matches. */
  function DayOf(f: string): (r: Option<string>)
    ensures r.Some? ==> Fits(r.value, "DDDD-DD-DD")
  {
    if HasDay(f) then
      assert forall i | 0 <= i < 10 :: f[13..23][i] == f[13..24][i];
      Some(f[13..23])
    else
      None
  }

  /** The `exportsByDay` map: the days in the order they were first met (a JavaScript `Map`
      iterates in insertion order) and, for each, its files in listing order. */
  datatype ByDay = ByDay(days: seq<string>, files: map<string, seq<string>>)

  /** What the first loop has built from `listed`: exactly the listed files whose day is
      strictly before `today`, bucketed by that day. */
  ghost predicate Buckets(b: ByDay, listed: seq<string>, today: string)
  {
    && Distinct(b.days)
    && (forall d :: d in b.days <==> d in b.files)
    && (forall d :: d in b.files ==> Less(d, today))
    && (forall d, f :: d in b.files ==> (f in b.files[d] <==> f in listed && DayOf(f) == Some(d)))
    && (forall f :: f in listed && DayOf(f).Some? && Less(DayOf(f).value, today) ==> DayOf(f).value in b.files)
  }

  /** One step of the first loop: skip a file without a day, or of today, or of a later day;
      otherwise append it to its day's bucket, opening the bucket when the day is new. */
  function AddFile(b: ByDay, f: string, today: string): ByDay
  {
    match DayOf(f)
    case None => b
    case Some(day) =>
      if day == today then b
      else if Less(day, today) then
        if day in b.files then ByDay(b.days, b.files[day := b.files[day] + [f]])
        else ByDay(b.days + [day], b.files[day := [f]])
      else b
  }

  ghost predicate BucketsDistinct(b: ByDay)
  {
    forall d | d in b.files :: Distinct(b.files[d])
  }

  /** One step of the first loop keeps the buckets in step with the files seen so far. */
  lemma AddFileKeepsBuckets(b: ByDay, earlier: seq<string>, f: string, today: string)
    requires Buckets(b, earlier, today)
    ensures Buckets(AddFile(b, f, today), earlier + [f], today)
    ensures BucketsDistinct(b) && f !in earlier ==> BucketsDistinct(AddFile(b, f, today))
  {
    var listed := earlier + [f];
    var b' := AddFile(b, f, today);
    assert forall x :: x in listed <==> x in earlier || x == f;
    LessIrreflexive(today);
    match DayOf(f)
    case None =>
    case Some(day) =>
      if day != today && Less(day, today) {
        if day in b.files {
          assert BucketsDistinct(b) && f !in earlier ==> f !in b.files[day];
          if BucketsDistinct(b) && f !in earlier {
            assert forall i | 0 <= i < |b.files[day]| :: b.files[day][i] != f;
          }
        } else {
          assert forall i | 0 <= i < |b.days| :: b.days[i] != day;
          assert forall d :: d in b'.days <==> d in b.days || d == day;
        }
      }
  }

  /** The first loop of `cleanupExports`, over the whole directory listing. */
  function GroupByDay(listed: seq<string>, today: string): (b: ByDay)
    ensures Buckets(b, listed, today)
    ensures Distinct(listed) ==> BucketsDistinct(b)
  {
    if listed == [] then
      ByDay([], map[])
    else
      var earlier := listed[..|listed| - 1];
      var f := listed[|listed| - 1];
      var b := GroupByDay(earlier, today);
      assert listed == earlier + [f];
      assert Distinct(listed) ==> f !in earlier && Distinct(earlier);
      AddFileKeepsBuckets(b, earlier, f, today);
      AddFile(b, f, today)
  }

  /** Some string of `s` sorts after `f`. */
  ghost predicate Exceeded(s: seq<string>, f: string)
  {
    exists g :: g in s && Less(f, g)
  }

  /** In a strictly ascending sequence, the elements before the last are exactly those
      that some element exceeds. */
  lemma AllButLast(sorted: seq<string>)
    requires StrictlyAscending(sorted) && sorted != []
    ensures forall f :: f in sorted[..|sorted| - 1] <==> f in sorted && Exceeded(sorted, f)
  {
    var n := |sorted|;
    var r, top := sorted[..n - 1], sorted[n - 1];
    forall f | f in sorted && Exceeded(sorted, f) ensures f in r {
      var g :| g in sorted && Less(f, g);
      var i :| 0 <= i < n && sorted[i] == f;
      var j :| 0 <= j < n && sorted[j] == g;
      if i == n - 1 {
        if j < i {
          LessAsymmetric(g, f);
        } else {
          LessIrreflexive(f);
        }
      }
      assert r[i] == f;
    }
    forall f | f in r ensures f in sorted && Exceeded(sorted, f) {
      var i :| 0 <= i < n - 1 && r[i] == f;
      assert sorted[i] == f && Less(f, top) && top in sorted;
    }
  }

  lemma ExceededBySameMembers(a: seq<string>, b: seq<string>, f: string)
    requires multiset(a) == multiset(b)
    ensures Exceeded(a, f) <==> Exceeded(b, f)
  {
    if Exceeded(a, f) {
      var g :| g in a && Less(f, g);
      assert g in multiset(b);
    }
    if Exceeded(b, f) {
      var g :| g in b && Less(f, g);
      assert g in multiset(a);
    }
  }

  /** Sorting a bucket of distinct files and dropping the last drops exactly its greatest. */
  lemma SortedAllButLast(bucket: seq<string>, sorted: seq<string>)
    requires Sorted(sorted) && multiset(sorted) == multiset(bucket) && sorted != []
    requires Distinct(sorted)
    ensures forall f :: f in sorted[..|sorted| - 1] <==> f in bucket && Exceeded(bucket, f)
  {
    SortedDistinctIsAscending(sorted);
    AllButLast(sorted);
    forall f ensures f in sorted <==> f in bucket {
      assert f in sorted <==> f in multiset(sorted);
    }
    forall f ensures Exceeded(sorted, f) <==> Exceeded(bucket, f) {
      ExceededBySameMembers(sorted, bucket, f);
    }
  }

  /** `dayFiles.sort(); dayFiles.slice(0, -1)`: a bucket without its greatest file. */
  function AllButGreatest(bucket: seq<string>): (r: seq<string>)
    ensures forall f | f in r :: f in bucket
    ensures Distinct(bucket) ==> forall f :: f in r <==> f in bucket && Exceeded(bucket, f)
  {
    var sorted := Sort(bucket);
    if sorted == [] then
      []
    else
      var r := sorted[..|sorted| - 1];
      assert forall f | f in r :: f in multiset(sorted);
      if Distinct(bucket) then
        SortedAllButLast(bucket, sorted);
        r
      else
        r
  }

  /** The second loop: every bucket's files but its greatest, bucket after bucket. */
  function Unlinked(days: seq<string>, files: map<string, seq<string>>): (r: seq<string>)
    requires forall d | d in days :: d in files
    ensures forall f :: f in r <==> exists d :: d in days && f in AllButGreatest(files[d])
  {
    if days == [] then
      []
    else
      var rest := Unlinked(days[1..], files);
      assert forall d :: d in days <==> d == days[0] || d in days[1..];
      AllButGreatest(files[days[0]]) + rest
  }

  /** Whatever the second loop unlinks comes out of some past day's bucket. */
  lemma UnlinkedFromBuckets(b: ByDay, listed: seq<string>, today: string, f: string)
    requires Buckets(b, listed, today)
    ensures f in Unlinked(b.days, b.files) ==>
              f in listed && DayOf(f).Some? && Less(DayOf(f).value, today)
  {
    if f in Unlinked(b.days, b.files) {
      var d :| d in b.days && f in AllButGreatest(b.files[d]);
      assert d in b.files;
      var bucket := b.files[d];
      assert f in bucket;
      assert f in b.files[d] <==> f in listed && DayOf(f) == Some(d);
    }
  }

  /** The files `cleanupExports` unlinks, given the directory listing and
      `toISOString().slice(0, 10)` of the moment it runs. */
  function Prune(listed: seq<string>, today: string): (r: seq<string>)
    ensures forall f | f in r :: f in listed && DayOf(f).Some? && Less(DayOf(f).value, today)
  {
    var b := GroupByDay(listed, today);
    var r := Unlinked(b.days, b.files);
    assert forall f | f in r :: f in listed && DayOf(f).Some? && Less(DayOf(f).value, today) by {
      forall f | f in r ensures f in listed && DayOf(f).Some? && Less(DayOf(f).value, today) {
        UnlinkedFromBuckets(b, listed, today, f);
      }
    }
    r
  }

  /** A file is doomed when it carries a past day and some other listed file of the same
      day sorts after it. */
  ghost predicate Doomed(listed: seq<string>, today: string, f: string)
  {
    && f in listed
    && DayOf(f).Some?
    && Less(DayOf(f).value, today)
    && exists g :: g in listed && DayOf(g) == DayOf(f) && Less(f, g)
  }

  /** The pruner deletes exactly the doomed files: in every past day, all but the greatest. */
  lemma PruneDeletesDoomed(listed: seq<string>, today: string, f: string)
    requires Distinct(listed)
    ensures f in Prune(listed, today) <==> Doomed(listed, today, f)
  {
    var b := GroupByDay(listed, today);
    if f in Prune(listed, today) {
      var d :| d in b.days && f in AllButGreatest(b.files[d]);
      DoomedInBucket(b, listed, today, d, f);
    }
    if Doomed(listed, today, f) {
      var d := DayOf(f).value;
      DoomedInBucket(b, listed, today, d, f);
    }
  }

  /** Inside the bucket of a day, "all but the greatest" means "doomed". */
  lemma DoomedInBucket(b: ByDay, listed: seq<string>, today: string, d: string, f: string)
    requires Buckets(b, listed, today) && BucketsDistinct(b)
    requires d in b.files
    requires f in listed && DayOf(f) == Some(d)
    ensures f in AllButGreatest(b.files[d]) <==> Doomed(listed, today, f)
  {
    var bucket := b.files[d];
    assert f in bucket;
    if Doomed(listed, today, f) {
      var g :| g in listed && DayOf(g) == DayOf(f) && Less(f, g);
      assert g in bucket;
    }
    if f in AllButGreatest(bucket) {
      var g :| g in bucket && Less(f, g);
    }
  }

  /** The directory after the unlinks: the listed files that were not deleted. */
  function Remaining(listed: seq<string>, deleted: seq<string>): (r: seq<string>)
    ensures forall f :: f in r <==> f in listed && f !in deleted
    ensures Distinct(listed) ==> Distinct(r)
  {
    if listed == [] then
      []
    else
      var rest := Remaining(listed[1..], deleted);
      assert forall f :: f in listed <==> f == listed[0] || f in listed[1..];
      if listed[0] in deleted then rest
      else
        if Distinct(listed) then
          assert listed[0] !in listed[1..];
          ConsDistinct(listed[0], rest);
          [listed[0]] + rest
        else
          [listed[0]] + rest
  }

  /** Pruning twice on one day deletes nothing the second time. */
  lemma PruneIdempotent(listed: seq<string>, today: string)
    requires Distinct(listed)
    ensures Prune(Remaining(listed, Prune(listed, today)), today) == []
  {
    var deleted := Prune(listed, today);
    var kept := Remaining(listed, deleted);
    var again := Prune(kept, today);
    if again != [] {
      var f := again[0];
      PruneDeletesDoomed(listed, today, f);
      PruneDeletesDoomed(kept, today, f);
    }
  }

  /** A file above the greatest so far is above every file of that day so far. */
  lemma AboveGreatest(earlier: seq<string>, d: string, best: string, last: string)
    requires forall g | g in earlier && DayOf(g) == Some(d) :: !Less(best, g)
    requires Less(best, last)
    ensures forall g | g in earlier && DayOf(g) == Some(d) :: !Less(last, g)
  {
    forall g | g in earlier && DayOf(g) == Some(d) ensures !Less(last, g) {
      LessTotal(best, g);
      if best == g {
        LessAsymmetric(g, last);
      } else if Less(g, best) {
        LessTransitive(g, best, last);
        LessAsymmetric(g, last);
      }
    }
  }

  /** The greatest of the listed files with day `d`. */
  function GreatestOfDay(listed: seq<string>, d: string): (r: Option<string>)
    ensures r.None? <==> forall f | f in listed :: DayOf(f) != Some(d)
    ensures r.Some? ==> r.value in listed && DayOf(r.value) == Some(d) &&
                        forall g | g in listed && DayOf(g) == Some(d) :: !Less(r.value, g)
  {
    if listed == [] then
      None
    else
      var last := listed[|listed| - 1];
      var earlier := listed[..|listed| - 1];
      var best := GreatestOfDay(earlier, d);
      assert listed == earlier + [last];
      if DayOf(last) != Some(d) then
        best
      else if best.None? then
        LessIrreflexive(last);
        Some(last)
      else if Less(best.value, last) then
        AboveGreatest(earlier, d, best.value, last);
        LessIrreflexive(last);
        Some(last)
      else
        best
  }

  /** After pruning, each past day that had files keeps exactly one of them: its greatest. */
  lemma OneSurvivorPerPastDay(listed: seq<string>, today: string, d: string)
    requires Distinct(listed)
    requires Less(d, today)
    ensures forall f | f in Remaining(listed, Prune(listed, today)) && DayOf(f) == Some(d) ::
              GreatestOfDay(listed, d) == Some(f)
    ensures GreatestOfDay(listed, d).Some? ==>
              GreatestOfDay(listed, d).value in Remaining(listed, Prune(listed, today))
  {
    var kept := Remaining(listed, Prune(listed, today));
    var top := GreatestOfDay(listed, d);
    forall f | f in kept && DayOf(f) == Some(d) ensures top == Some(f) {
      PruneDeletesDoomed(listed, today, f);
      LessTotal(f, top.value);
    }
    if top.Some? {
      PruneDeletesDoomed(listed, today, top.value);
    }
  }

  /** Nothing whose name lacks the day right after the prefix is ever deleted, nor any file of
      today or a later day, nor anything not listed. */
  lemma PruneSpares(listed: seq<string>, today: string, f: string)
    requires f !in listed || !HasDay(f) || !Less(f[13..23], today)
    ensures f !in Prune(listed, today)
  {
  }

  /** What survives a prune of a duplicate-free listing: exactly the listed files that are
      not doomed. */
  lemma KeptExactly(listed: seq<string>, today: string)
    requires Distinct(listed)
    ensures forall f :: f in Remaining(listed, Prune(listed, today)) <==>
              f in listed && !Doomed(listed, today, f)
  {
    forall f ensures f in Remaining(listed, Prune(listed, today)) <==>
                     f in listed && !Doomed(listed, today, f) {
      PruneDeletesDoomed(listed, today, f);
    }
  }

  /** The node name itself begins with what the pruning pattern takes for a day. */
  predicate DateLed(nodeName: string)
  {
    |nodeName| >= 11 && Fits(nodeName[..11], "DDDD-DD-DDT")
  }

  /** A writer's file carries a pruning day only when its node name itself begins with a
      `DDDD-DD-DDT` date; otherwise the timestamp the writer appends is never seen. */
  lemma {:induction false} WriterFileDay(nodeName: string, t: Instant)
    requires t.Valid()
    ensures HasDay(FileName(nodeName, Stamp(t))) <==> DateLed(nodeName)
  {
    var f, stamp := FileName(nodeName, Stamp(t)), Stamp(t);
    var n := |nodeName|;
    if n >= 11 {
      assert f[13..24] == nodeName[..11];
    } else if |f| >= 24 {
      // The hyphen after the node name lands inside the day window, where the template
      // wants a digit or `T`, or else the timestamp's digits land where it wants `-` or `T`.
      var w, tmpl := f[13..24], "DDDD-DD-DDT";
      assert w[n] == f[13 + n] == '-';
      if n == 4 || n == 7 {
        assert w[n + 3] == f[13 + n + 1 + 2] == stamp[2];
        assert IsDigit(w[n + 3]) && w[n + 3] != tmpl[n + 3] && tmpl[n + 3] != 'D';
      } else {
        assert w[n] != tmpl[n] && (tmpl[n] == 'D' ==> !IsDigit(w[n]));
      }
    }
  }

  /** So an ordinary writer's file is never pruned, whatever else the directory holds. */
  lemma WriterFileNeverPruned(listed: seq<string>, today: string, nodeName: string, t: Instant)
    requires t.Valid()
    requires !DateLed(nodeName)
    ensures FileName(nodeName, Stamp(t)) !in Prune(listed, today)
  {
    WriterFileDay(nodeName, t);
  }
}
