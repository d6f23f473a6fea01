/** `POST /api/notes/export` (src/index.js:37-72): validate, name the file from the clock,
    write it, then prune. The exports directory is a list of distinct filenames, or `None`
    while it does not exist yet. */
module Exports {
  import opened Outcome
  import opened Text
  import opened Sorting
  import opened Payload
  import opened Naming
  import opened Listing
  import opened Pruner

  /** The handler's replies: 201 with the filename, or 400 "Invalid payload.". */
  datatype Response = Created(file: string) | BadRequest

  datatype Handled = Handled(response: Response, dir: Option<seq<string>>)

  /** The directory listing, with a missing directory created empty (`mkdirSync`). */
  function ListingOf(dir: Option<seq<string>>): seq<string>
  {
    if dir.Some? then dir.value else []
  }

  /** `writeFileSync` of a new name adds it; of an existing name overwrites it in place. */
  function Write(files: seq<string>, name: string): (r: seq<string>)
    ensures forall f :: f in r <==> f in files || f == name
    ensures Distinct(files) ==> Distinct(r)
  {
    if name in files then files
    else
      assert forall i | 0 <= i < |files| :: files[i] != name;
      files + [name]
  }

  /** The whole request: `now` is the clock reading the filename is made from and
      `pruneNow` the later one `cleanupExports` takes its day from. */
  function PostExport(dir: Option<seq<string>>, payload: Json, now: Instant, pruneNow: Instant): (h: Handled)
    requires now.Valid() && pruneNow.Valid()
    ensures h.response.BadRequest? <==> !WellFormed(payload)
    ensures h.response.BadRequest? ==> h.dir == dir
    ensures h.response.Created? ==>
              && h.response.file == FileName(NodeName(payload), Stamp(now))
              && h.dir.Some?
              && (forall f | f in h.dir.value :: f in ListingOf(dir) || f == h.response.file)
    ensures (dir.Some? ==> Distinct(dir.value)) && h.dir.Some? ==> Distinct(h.dir.value)
    ensures h.response.Created? && (dir.Some? ==> Distinct(dir.value)) ==>
              forall f :: f in h.dir.value <==>
                (f in ListingOf(dir) || f == h.response.file) &&
                !Doomed(Write(ListingOf(dir), h.response.file), Today(pruneNow), f)
  {
    match ParseBundle(payload)
    case Err(_) => Handled(BadRequest, dir)
    case Ok(bundle) =>
      var name := FileName(bundle.nodeName, Stamp(now));
      var written := Write(ListingOf(dir), name);
      assert Distinct(ListingOf(dir)) ==>
               forall f :: f in Remaining(written, Prune(written, Today(pruneNow))) <==>
                 f in written && !Doomed(written, Today(pruneNow), f) by {
        if Distinct(ListingOf(dir)) {
          KeptExactly(written, Today(pruneNow));
        }
      }
      Handled(Created(name), Some(Remaining(written, Prune(written, Today(pruneNow)))))
  }

  /** The node name a well-formed payload is filed under. */
  function NodeName(payload: Json): string
    requires WellFormed(payload)
  {
    payload.fields["nodeName"].s
  }

  /** A write whose node name does not itself begin with a date keeps its own file through
      the prune that follows it. */
  lemma WrittenFileKept(dir: Option<seq<string>>, payload: Json, now: Instant, pruneNow: Instant)
    requires now.Valid() && pruneNow.Valid()
    requires WellFormed(payload) && !DateLed(NodeName(payload))
    ensures PostExport(dir, payload, now, pruneNow).response == Created(FileName(NodeName(payload), Stamp(now)))
    ensures FileName(NodeName(payload), Stamp(now)) in PostExport(dir, payload, now, pruneNow).dir.value
  {
    var name := FileName(NodeName(payload), Stamp(now));
    var written := Write(ListingOf(dir), name);
    WriterFileNeverPruned(written, Today(pruneNow), NodeName(payload), now);
  }

  /** An existing file without a day right after the prefix survives any export. */
  lemma UndatedFilesSurvive(dir: Option<seq<string>>, payload: Json, now: Instant, pruneNow: Instant, f: string)
    requires now.Valid() && pruneNow.Valid()
    requires WellFormed(payload)
    requires f in ListingOf(dir) && !HasDay(f)
    ensures f in PostExport(dir, payload, now, pruneNow).dir.value
  {
    var written := Write(ListingOf(dir), FileName(NodeName(payload), Stamp(now)));
    PruneSpares(written, Today(pruneNow), f);
  }

  /** Such a write is then listed under its node name, when `.+` can match that name. */
  lemma WrittenBundleListed(dir: Option<seq<string>>, payload: Json, now: Instant, pruneNow: Instant)
    requires now.Valid() && pruneNow.Valid()
    requires WellFormed(payload) && !DateLed(NodeName(payload))
    requires NodeName(payload) != [] && NoLineTerminator(NodeName(payload))
    ensures NodeName(payload) in ListNames(PostExport(dir, payload, now, pruneNow).dir)
  {
    WrittenFileKept(dir, payload, now, pruneNow);
    ListingRoundTrip(NodeName(payload), now);
  }

  /** After a write, the directory is already pruned for the day the write pruned with. */
  lemma WriteLeavesNothingToPrune(dir: Option<seq<string>>, payload: Json, now: Instant, pruneNow: Instant)
    requires now.Valid() && pruneNow.Valid()
    requires dir.Some? ==> Distinct(dir.value)
    requires WellFormed(payload)
    ensures Prune(PostExport(dir, payload, now, pruneNow).dir.value, Today(pruneNow)) == []
  {
    var name := FileName(NodeName(payload), Stamp(now));
    var written := Write(ListingOf(dir), name);
    PruneIdempotent(written, Today(pruneNow));
  }

  /** A directory none of whose files carries a day right after the prefix is never pruned. */
  lemma NoDayNoPrune(listed: seq<string>, today: string)
    requires forall f | f in listed :: !HasDay(f)
    ensures Prune(listed, today) == []
  {
    var r := Prune(listed, today);
    assert forall f :: f !in r;
    HeadIsMember(r);
  }

  /** The head of a non-empty sequence is one of its members. */
  lemma HeadIsMember<T>(s: seq<T>)
    ensures |s| > 0 ==> s[0] in s
  {
  }

  /** Two writes for `alpha` and one for `beta` on one past day: as the pruning pattern is
      written, none of them is deleted, not even the older ones. */
  lemma PastDayWritesKept(a1: Instant, a2: Instant, b: Instant, today: string)
    requires a1.Valid() && a2.Valid() && b.Valid()
    ensures Prune([FileName("alpha", Stamp(a1)), FileName("alpha", Stamp(a2)),
                   FileName("beta", Stamp(b))], today) == []
  {
    WriterFileDay("alpha", a1);
    WriterFileDay("alpha", a2);
    WriterFileDay("beta", b);
    NoDayNoPrune([FileName("alpha", Stamp(a1)), FileName("alpha", Stamp(a2)), FileName("beta", Stamp(b))], today);
  }
}
