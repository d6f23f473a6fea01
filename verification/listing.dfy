/** `GET /api/notes/export/node-names` (src/index.js:12-30): the node names recovered
    from the export filenames, de-duplicated and sorted. */
module Listing {
  import opened Outcome
  import opened Text
  import opened Sorting
  import opened Naming

  /** The listing pattern `^notes-export-(.+)-(\d{4}-\d{2}-\d{2}T.*)\.json$` matches `f`
      with a first group of exactly `k` characters. */
  predicate SplitsAt(f: string, k: int)
  {
    var p := |ExportPrefix|;
    && 1 <= k
    && p + k + 12 + 5 <= |f|
    && f[..p] == ExportPrefix
    && NoLineTerminator(f[p..p + k])
    && f[p + k] == '-'
    && Fits(f[p + k + 1..p + k + 12], "DDDD-DD-DDT")
    && NoLineTerminator(f[p + k + 12..|f| - 5])
    && f[|f| - 5..] == ".json"
  }

  /** `name` is what the pattern captures in its first group: the greedy `.+` keeps the
      longest group for which the rest of the pattern still matches. */
  ghost predicate IsGreedyGroup(f: string, name: string)
  {
    exists k :: SplitsAt(f, k) && name == f[|ExportPrefix|..|ExportPrefix| + k] &&
      forall j :: k < j ==> !SplitsAt(f, j)
  }

  /** The backtracking of `.+`: group lengths are tried from `k` downwards. */
  function LongestSplit(f: string, k: nat): (r: Option<nat>)
    ensures r.Some? ==> 1 <= r.value <= k && SplitsAt(f, r.value) &&
                        forall j :: r.value < j <= k ==> !SplitsAt(f, j)
    ensures r.None? ==> forall j :: j <= k ==> !SplitsAt(f, j)
  {
    if k == 0 then None
    else if SplitsAt(f, k) then Some(k)
    else LongestSplit(f, k - 1)
  }

  /** `exportPattern.exec(f)?.[1]`. */
  function NameGroup(f: string): (r: Option<string>)
    ensures r.None? <==> forall k :: !SplitsAt(f, k)
    ensures r.Some? ==> IsGreedyGroup(f, r.value)
  {
    match LongestSplit(f, |f|)
    case None => None
    case Some(k) => Some(f[|ExportPrefix|..|ExportPrefix| + k])
  }

  /** The `Set` the handler fills: each captured name once, in first-seen order. */
  function CollectNames(files: seq<string>): (names: seq<string>)
    ensures Distinct(names)
    ensures forall n :: n in names <==> exists f :: f in files && NameGroup(f) == Some(n)
  {
    if files == [] then
      []
    else
      var earlier := files[..|files| - 1];
      var names := CollectNames(earlier);
      var last := files[|files| - 1];
      assert files == earlier + [last];
      match NameGroup(last)
      case None => names
      case Some(n) =>
        if n in names then names
        else
          assert forall i | 0 <= i < |names| :: names[i] != n;
          names + [n]
  }

  /** The node-names response; `None` is an exports directory that does not exist. */
  function ListNames(dir: Option<seq<string>>): (names: seq<string>)
    ensures StrictlyAscending(names)
    ensures dir.None? ==> names == []
    ensures dir.Some? ==> forall n :: n in names <==> exists f :: f in dir.value && NameGroup(f) == Some(n)
  {
    match dir
    case None => []
    case Some(files) =>
      var collected := CollectNames(files);
      var names := Sort(collected);
      SortedDistinctIsAscending(names);
      assert forall n :: n in names <==> n in multiset(collected);
      names
  }

  /** The answer depends only on which files exist, not on the order the directory lists
      them in, nor on a file listed twice. */
  lemma ListNamesIgnoresOrder(a: seq<string>, b: seq<string>)
    requires forall f :: f in a <==> f in b
    ensures ListNames(Some(a)) == ListNames(Some(b))
  {
    AscendingUnique(ListNames(Some(a)), ListNames(Some(b)));
  }

  /** A file the pattern does not match adds nothing to the listing. */
  lemma NonMatchingIgnored(files: seq<string>, other: string)
    requires NameGroup(other).None?
    ensures ListNames(Some(files + [other])) == ListNames(Some(files))
  {
    var a, b := ListNames(Some(files + [other])), ListNames(Some(files));
    forall n ensures n in a <==> n in b {
      if n in a {
        var f :| f in files + [other] && NameGroup(f) == Some(n);
        assert f in files;
      }
      if n in b {
        var f :| f in files && NameGroup(f) == Some(n);
        assert f in files + [other];
      }
    }
    AscendingUnique(a, b);
  }

  /** A filename the pattern matches holds no line terminator between the prefix and the
      `.json`: the group, the separators and the timestamp all exclude them. */
  lemma SplitBodyHasNoLineTerminator(f: string, k: int)
    requires SplitsAt(f, k)
    ensures NoLineTerminator(f[|ExportPrefix|..|f| - 5])
  {
    var p := |ExportPrefix|;
    forall i | p <= i < |f| - 5 ensures !IsLineTerminator(f[i]) {
      if i < p + k {
        assert f[i] == f[p..p + k][i - p];
      } else if i < p + k + 1 {
      } else if i < p + k + 12 {
        assert f[i] == f[p + k + 1..p + k + 12][i - (p + k + 1)];
      } else {
        assert f[i] == f[p + k + 12..|f| - 5][i - (p + k + 12)];
      }
    }
  }

  /** The `T` the pattern needs sits eleven characters after the group. */
  lemma SplitHasT(f: string, k: int)
    requires SplitsAt(f, k)
    ensures |ExportPrefix| + k + 11 < |f| - 5 && f[|ExportPrefix| + k + 11] == 'T'
  {
    var p := |ExportPrefix|;
    assert f[p + k + 1..p + k + 12][10] == f[p + k + 11];
  }

  /** Past the date, a writer's timestamp holds no further `T`. */
  lemma StampHasOneT(t: Instant)
    requires t.Valid()
    ensures forall i | 11 <= i < |Stamp(t)| :: Stamp(t)[i] != 'T'
  {
    var stamp, tmpl := Stamp(t), "DDDD-DD-DDTDD-DD-DD-DDDZ";
    forall i | 11 <= i < |stamp| ensures stamp[i] != 'T' {
      assert tmpl[i] != 'T';
    }
  }

  /** The group cannot reach past the node name of a writer's filename: no `T` follows
      the timestamp's own. */
  lemma NoSplitPastName(nodeName: string, t: Instant, k: int)
    requires t.Valid()
    requires SplitsAt(FileName(nodeName, Stamp(t)), k)
    ensures k <= |nodeName|
  {
    var f := FileName(nodeName, Stamp(t));
    SplitHasT(f, k);
    StampHasOneT(t);
  }

  /** A writer's filename splits right after a non-empty node name free of line terminators. */
  lemma WriterNameSplits(nodeName: string, t: Instant)
    requires t.Valid()
    requires nodeName != [] && NoLineTerminator(nodeName)
    ensures SplitsAt(FileName(nodeName, Stamp(t)), |nodeName|)
  {
    var f, stamp, p := FileName(nodeName, Stamp(t)), Stamp(t), |ExportPrefix|;
    var start := p + |nodeName| + 1;
    assert f[start..|f| - 5] == stamp;
    assert f[start..start + 11] == stamp[..11];
    assert f[start + 11..|f| - 5] == stamp[11..];
    assert Fits(stamp[..11], "DDDD-DD-DDT");
    assert NoLineTerminator(stamp[11..]) by {
      forall i | 0 <= i < |stamp[11..]| ensures !IsLineTerminator(stamp[11..][i]) {
        assert stamp[11..][i] == stamp[i + 11];
      }
    }
  }

  /** Any split of a writer's filename needs a non-empty node name free of line terminators. */
  lemma SplitNeedsName(nodeName: string, t: Instant, k: int)
    requires t.Valid()
    requires SplitsAt(FileName(nodeName, Stamp(t)), k)
    ensures nodeName != [] && NoLineTerminator(nodeName)
  {
    var f, p := FileName(nodeName, Stamp(t)), |ExportPrefix|;
    NoSplitPastName(nodeName, t, k);
    SplitBodyHasNoLineTerminator(f, k);
    forall i | 0 <= i < |nodeName| ensures !IsLineTerminator(nodeName[i]) {
      assert nodeName[i] == f[p..|f| - 5][i];
    }
  }

  /** A writer's filename with a usable node name is listed under that name. */
  lemma GroupIsNodeName(nodeName: string, t: Instant)
    requires t.Valid()
    requires nodeName != [] && NoLineTerminator(nodeName)
    ensures NameGroup(FileName(nodeName, Stamp(t))) == Some(nodeName)
  {
    var f, p := FileName(nodeName, Stamp(t)), |ExportPrefix|;
    WriterNameSplits(nodeName, t);
    var r := NameGroup(f);
    var k :| SplitsAt(f, k) && r.value == f[p..p + k] && forall j :: k < j ==> !SplitsAt(f, j);
    NoSplitPastName(nodeName, t, k);
  }

  /** Round trip from writer to listing: a writer's filename is listed under exactly its node
      name, unless that name is empty or holds a line terminator, which `.+` cannot match. */
  lemma ListingRoundTrip(nodeName: string, t: Instant)
    requires t.Valid()
    ensures NameGroup(FileName(nodeName, Stamp(t))) ==
            if nodeName != [] && NoLineTerminator(nodeName) then Some(nodeName) else None
  {
    var f := FileName(nodeName, Stamp(t));
    if nodeName != [] && NoLineTerminator(nodeName) {
      GroupIsNodeName(nodeName, t);
    } else {
      forall j ensures !SplitsAt(f, j) {
        if SplitsAt(f, j) {
          SplitNeedsName(nodeName, t, j);
        }
      }
    }
  }
}
