/** The source directory and its depth-first walk (components/generic_main/filesystem_generator/fs_gen.c). */
module DirTree {
  import opened Bytes

  type Path = seq<byte>

  const SLASH: byte := 47
  const DOT: byte := 46

  // Longest pathname that fits the walk's buffer with its terminator.
  const PATH_LIMIT: nat := 1023

  /** One directory entry, in the order the directory is read. `Other` is neither a directory nor a regular file. */
  datatype Node =
    | File(name: Path, data: seq<byte>)
    | Dir(name: Path, entries: seq<Node>)
    | Other(name: Path)

  /** A regular file under the pathname it is stored with. */
  datatype Stored = Stored(path: Path, data: seq<byte>)

  predicate Skipped(name: Path)
  {
    name == [DOT] || name == [DOT, DOT]
  }

  /** The pathname of an entry of the directory `dir`; None is the top directory. */
  function Join(dir: Option<Path>, name: Path): (r: Path)
  {
    match dir
    case None => name
    case Some(d) => d + [SLASH] + name
  }

  /** What a buffer of limited size keeps of a pathname; None is a buffer that keeps all of it. */
  function Truncate(path: Path, limit: Option<nat>): (r: Path)
  {
    if limit.None? || |path| <= limit.value then path else path[..limit.value]
  }

  /** The files below `entries`, in walk order. */
  function Walk(entries: seq<Node>, dir: Option<Path>, limit: Option<nat>): (r: seq<Stored>)
    decreases entries, 0
  {
    if entries == [] then []
    else
      var last := |entries| - 1;
      Walk(entries[..last], dir, limit) + WalkNode(entries[last], dir, limit)
  }

  function WalkNode(e: Node, dir: Option<Path>, limit: Option<nat>): (r: seq<Stored>)
    decreases e, 1
  {
    var path := Truncate(Join(dir, e.name), limit);
    if Skipped(e.name) then []
    else match e
      case File(_, data) => [Stored(path, data)]
      case Dir(_, below) => Walk(below, Some(path), limit)
      case Other(_) => []
  }

  lemma WalkNext(entries: seq<Node>, dir: Option<Path>, limit: Option<nat>, i: nat)
    requires i < |entries|
    ensures Walk(entries[..i + 1], dir, limit) == Walk(entries[..i], dir, limit) + WalkNode(entries[i], dir, limit)
  {
    assert entries[..i + 1][..i] == entries[..i];
  }

  lemma {:induction false} WalkPrefix(entries: seq<Node>, dir: Option<Path>, limit: Option<nat>, i: nat)
    requires i <= |entries|
    ensures Walk(entries[..i], dir, limit) <= Walk(entries, dir, limit)
    decreases |entries|
  {
    var last := |entries| - 1;
    if i == |entries| {
      assert entries[..i] == entries;
    } else {
      WalkPrefix(entries[..last], dir, limit, i);
      assert entries[..last][..i] == entries[..i];
    }
  }

  // The walk and the tree.

  /**
   * A regular file with contents `data` is reached through the names `names`, none of which is "." or "..", the
   * directory itself and its parent.
   */
  ghost predicate Holds(entries: seq<Node>, names: seq<Path>, data: seq<byte>)
    decreases |names|
  {
    && names != [] && names[0] != [46] && names[0] != [46, 46]
    && exists i :: 0 <= i < |entries| && entries[i].name == names[0] && HoldsNode(entries[i], names, data)
  }

  ghost predicate HoldsNode(e: Node, names: seq<Path>, data: seq<byte>)
    requires names != []
    decreases |names|, 0
  {
    match e
    case File(_, d) => |names| == 1 && d == data
    case Dir(_, below) => |names| > 1 && Holds(below, names[1..], data)
    case Other(_) => false
  }

  /** The pathname that spells `names`, with a '/' between each two. */
  function PathOf(dir: Option<Path>, names: seq<Path>): (r: Path)
    requires names != []
    decreases |names|
  {
    var path := if dir.None? then names[0] else dir.value + [47] + names[0];
    if |names| == 1 then path else PathOf(Some(path), names[1..])
  }

  lemma HoldsInPrefix(entries: seq<Node>, n: nat, names: seq<Path>, data: seq<byte>)
    requires n <= |entries| && Holds(entries[..n], names, data)
    ensures Holds(entries, names, data)
  {
    var i :| 0 <= i < n && entries[..n][i].name == names[0] && HoldsNode(entries[..n][i], names, data);
    assert entries[i] == entries[..n][i];
  }

  /** Every file the walk reports is in the tree, under the names its pathname spells. */
  lemma {:induction false} WalkSound(entries: seq<Node>, dir: Option<Path>, k: nat) returns (names: seq<Path>)
    requires k < |Walk(entries, dir, None)|
    ensures Holds(entries, names, Walk(entries, dir, None)[k].data)
    ensures Walk(entries, dir, None)[k].path == PathOf(dir, names)
    decreases entries, 0
  {
    var last := |entries| - 1;
    var before, node := Walk(entries[..last], dir, None), WalkNode(entries[last], dir, None);
    assert Walk(entries, dir, None) == before + node;
    if k < |before| {
      names := WalkSound(entries[..last], dir, k);
      HoldsInPrefix(entries, last, names, before[k].data);
    } else {
      names := WalkNodeSound(entries[last], dir, k - |before|);
    }
  }

  lemma {:induction false} WalkNodeSound(e: Node, dir: Option<Path>, k: nat) returns (names: seq<Path>)
    requires k < |WalkNode(e, dir, None)|
    ensures names != [] && names[0] == e.name && e.name != [46] && e.name != [46, 46]
    ensures HoldsNode(e, names, WalkNode(e, dir, None)[k].data)
    ensures WalkNode(e, dir, None)[k].path == PathOf(dir, names)
    decreases e, 1
  {
    names := [e.name];
    if e.Dir? {
      var rest := WalkSound(e.entries, Some(Join(dir, e.name)), k);
      names := [e.name] + rest;
      assert names[1..] == rest;
    }
  }

  /** Every file in the tree is reported. */
  lemma {:induction false} WalkComplete(entries: seq<Node>, dir: Option<Path>, names: seq<Path>, data: seq<byte>)
    requires Holds(entries, names, data)
    ensures Stored(PathOf(dir, names), data) in Walk(entries, dir, None)
    decreases |names|
  {
    var i :| 0 <= i < |entries| && entries[i].name == names[0] && HoldsNode(entries[i], names, data);
    if entries[i].Dir? {
      WalkComplete(entries[i].entries, Some(Join(dir, names[0])), names[1..], data);
    }
    WalkContains(entries, dir, i, Stored(PathOf(dir, names), data));
  }

  lemma {:induction false} WalkContains(entries: seq<Node>, dir: Option<Path>, i: nat, f: Stored)
    requires i < |entries| && f in WalkNode(entries[i], dir, None)
    ensures f in Walk(entries, dir, None)
    decreases |entries|
  {
    var last := |entries| - 1;
    if i < last {
      WalkContains(entries[..last], dir, i, f);
    }
  }

  // Distinct files have distinct pathnames.

  /** What a file system guarantees: names within a directory differ, are not empty and hold neither '/' nor NUL. */
  ghost predicate WellFormed(entries: seq<Node>)
    decreases entries, 0
  {
    && (forall i :: 0 <= i < |entries| ==> WellFormedNode(entries[i]))
    && (forall i, j :: 0 <= i < j < |entries| ==> entries[i].name != entries[j].name)
  }

  ghost predicate WellFormedNode(e: Node)
    decreases e, 1
  {
    ProperName(e.name) && (e.Dir? ==> WellFormed(e.entries))
  }

  predicate ProperName(name: Path)
  {
    name != [] && SLASH !in name && IsCString(name)
  }

  /** `path` is `base` or lies below it. */
  predicate Below(path: Path, base: Path)
  {
    path == base || base + [SLASH] <= path
  }

  lemma BelowExclusive(path: Path, dir: Option<Path>, a: Path, b: Path)
    requires Below(path, Join(dir, a)) && Below(path, Join(dir, b))
    ensures a == b || SLASH in a || SLASH in b
  {
    var p, q := Join(dir, a), Join(dir, b);
    var n := |p| - |a|;
    assert p <= path && q <= path && |q| - |b| == n;
    assert a == p[n..] && b == q[n..];
    if |a| < |b| {
      assert path[|p|] == SLASH && path[|p|] == q[|p|];
      assert b[|a|] == q[|p|];
    } else if |b| < |a| {
      assert path[|q|] == SLASH && path[|q|] == p[|q|];
      assert a[|b|] == p[|q|];
    }
  }

  lemma BelowTransitive(path: Path, mid: Path, base: Path)
    requires Below(path, mid) && base + [SLASH] <= mid
    ensures base + [SLASH] <= path
  {
  }

  lemma {:induction false} WalkBelow(entries: seq<Node>, dir: Path, k: nat)
    requires k < |Walk(entries, Some(dir), None)|
    ensures dir + [SLASH] <= Walk(entries, Some(dir), None)[k].path
    decreases entries, 0
  {
    var last := |entries| - 1;
    var before := Walk(entries[..last], Some(dir), None);
    if k < |before| {
      WalkBelow(entries[..last], dir, k);
    } else {
      WalkNodeBelow(entries[last], Some(dir), k - |before|);
      BelowTransitive(Walk(entries, Some(dir), None)[k].path, Join(Some(dir), entries[last].name), dir);
    }
  }

  lemma {:induction false} WalkNodeBelow(e: Node, dir: Option<Path>, k: nat)
    requires k < |WalkNode(e, dir, None)|
    ensures Below(WalkNode(e, dir, None)[k].path, Join(dir, e.name))
    decreases e, 1
  {
    if e.Dir? {
      WalkBelow(e.entries, Join(dir, e.name), k);
    }
  }

  /** The entry a reported file comes from. */
  lemma {:induction false} WalkOrigin(entries: seq<Node>, dir: Option<Path>, k: nat) returns (i: nat)
    requires k < |Walk(entries, dir, None)|
    ensures i < |entries| && Below(Walk(entries, dir, None)[k].path, Join(dir, entries[i].name))
    decreases |entries|
  {
    var last := |entries| - 1;
    var before := Walk(entries[..last], dir, None);
    if k < |before| {
      i := WalkOrigin(entries[..last], dir, k);
    } else {
      WalkNodeBelow(entries[last], dir, k - |before|);
      i := last;
    }
  }

  ghost predicate Distinct(files: seq<Stored>)
  {
    forall j, k :: 0 <= j < k < |files| ==> files[j].path != files[k].path
  }

  /** Files of one entry and files of the entries before it differ in their pathnames. */
  lemma WalkApart(entries: seq<Node>, e: Node, dir: Option<Path>, j: nat, k: nat)
    requires WellFormed(entries + [e])
    requires j < |Walk(entries, dir, None)| && k < |WalkNode(e, dir, None)|
    ensures Walk(entries, dir, None)[j].path != WalkNode(e, dir, None)[k].path
  {
    var all := entries + [e];
    var i := WalkOrigin(entries, dir, j);
    WalkNodeBelow(e, dir, k);
    assert all[i] == entries[i] && all[|entries|] == e;
    assert WellFormedNode(all[i]) && WellFormedNode(all[|entries|]);
    if Walk(entries, dir, None)[j].path == WalkNode(e, dir, None)[k].path {
      BelowExclusive(Walk(entries, dir, None)[j].path, dir, entries[i].name, e.name);
    }
  }

  lemma WellFormedParts(entries: seq<Node>, e: Node)
    requires WellFormed(entries + [e])
    ensures WellFormed(entries) && WellFormedNode(e)
  {
    var all := entries + [e];
    assert all[|entries|] == e;
    forall i | 0 <= i < |entries| ensures WellFormedNode(entries[i]) {
      assert all[i] == entries[i];
    }
    forall i, j | 0 <= i < j < |entries| ensures entries[i].name != entries[j].name {
      assert all[i] == entries[i] && all[j] == entries[j];
    }
  }

  /** No two reported files share a pathname. */
  lemma {:induction false} WalkDistinct(entries: seq<Node>, dir: Option<Path>)
    requires WellFormed(entries)
    ensures Distinct(Walk(entries, dir, None))
    decreases entries, 0
  {
    if entries != [] {
      var last := |entries| - 1;
      var e := entries[last];
      assert entries == entries[..last] + [e];
      WellFormedParts(entries[..last], e);
      WalkDistinct(entries[..last], dir);
      if e.Dir? {
        WalkDistinct(e.entries, Some(Join(dir, e.name)));
      }
      var before, node := Walk(entries[..last], dir, None), WalkNode(e, dir, None);
      var all := before + node;
      forall j, k | 0 <= j < k < |all| ensures all[j].path != all[k].path {
        if j < |before| <= k {
          WalkApart(entries[..last], e, dir, j, k - |before|);
        }
      }
    }
  }

  // The pathname buffer.

  lemma {:induction false} WalkLength(entries: seq<Node>, dir: Option<Path>, limit: Option<nat>,
                                      dir': Option<Path>, limit': Option<nat>)
    ensures |Walk(entries, dir, limit)| == |Walk(entries, dir', limit')|
    decreases entries, 0
  {
    if entries != [] {
      var e := entries[|entries| - 1];
      WalkLength(entries[..|entries| - 1], dir, limit, dir', limit');
      if e.Dir? {
        WalkLength(e.entries, Some(Truncate(Join(dir, e.name), limit)), limit,
                   Some(Truncate(Join(dir', e.name), limit')), limit');
      }
    }
  }

  /** The limit changes no contents. */
  lemma {:induction false} WalkData(entries: seq<Node>, dir: Option<Path>, limit: Option<nat>,
                                    dir': Option<Path>, limit': Option<nat>, k: nat)
    requires k < |Walk(entries, dir, limit)| && k < |Walk(entries, dir', limit')|
    ensures Walk(entries, dir, limit)[k].data == Walk(entries, dir', limit')[k].data
    decreases entries, 0
  {
    hide WalkNode;
    var last := |entries| - 1;
    var before := Walk(entries[..last], dir, limit);
    WalkLength(entries[..last], dir, limit, dir', limit');
    if k < |before| {
      WalkData(entries[..last], dir, limit, dir', limit', k);
    } else {
      WalkNodeData(entries[last], dir, limit, dir', limit', k - |before|);
    }
  }

  lemma {:induction false} WalkNodeData(e: Node, dir: Option<Path>, limit: Option<nat>,
                                        dir': Option<Path>, limit': Option<nat>, k: nat)
    requires k < |WalkNode(e, dir, limit)| && k < |WalkNode(e, dir', limit')|
    ensures WalkNode(e, dir, limit)[k].data == WalkNode(e, dir', limit')[k].data
    decreases e, 1
  {
    hide Join, Truncate;
    if e.Dir? {
      WalkData(e.entries, Some(Truncate(Join(dir, e.name), limit)), limit,
               Some(Truncate(Join(dir', e.name), limit')), limit', k);
    }
  }

  /** What the buffer keeps of a pathname, as a plain slice. */
  predicate Cut(path: Path, full: Path, limit: nat)
  {
    path == if |full| <= limit then full else full[..limit]
  }

  lemma JoinCut(dir: Path, full: Path, name: Path, limit: nat)
    requires Cut(dir, full, limit)
    ensures Cut(Truncate(Join(Some(dir), name), Some(limit)), Join(Some(full), name), limit)
  {
    var p, q := Join(Some(dir), name), Join(Some(full), name);
    if |full| > limit {
      assert p[..limit] == dir == q[..limit];
    }
  }

  /** With the buffer, each file is stored under the first bytes of its full pathname. */
  lemma {:induction false} WalkCut(entries: seq<Node>, dir: Option<Path>, full: Option<Path>, limit: nat, k: nat)
    requires dir.Some? == full.Some? && (dir.Some? ==> Cut(dir.value, full.value, limit))
    requires k < |Walk(entries, dir, Some(limit))| && k < |Walk(entries, full, None)|
    ensures Cut(Walk(entries, dir, Some(limit))[k].path, Walk(entries, full, None)[k].path, limit)
    decreases entries, 0
  {
    hide WalkNode;
    var last := |entries| - 1;
    var before := Walk(entries[..last], dir, Some(limit));
    WalkLength(entries[..last], dir, Some(limit), full, None);
    if k < |before| {
      WalkCut(entries[..last], dir, full, limit, k);
    } else {
      WalkNodeCut(entries[last], dir, full, limit, k - |before|);
    }
  }

  lemma {:induction false} WalkNodeCut(e: Node, dir: Option<Path>, full: Option<Path>, limit: nat, k: nat)
    requires dir.Some? == full.Some? && (dir.Some? ==> Cut(dir.value, full.value, limit))
    requires k < |WalkNode(e, dir, Some(limit))| && k < |WalkNode(e, full, None)|
    ensures Cut(WalkNode(e, dir, Some(limit))[k].path, WalkNode(e, full, None)[k].path, limit)
    decreases e, 1
  {
    var path, whole := Truncate(Join(dir, e.name), Some(limit)), Join(full, e.name);
    if dir.Some? {
      JoinCut(dir.value, full.value, e.name, limit);
    }
    assert Cut(path, whole, limit);
    hide Join, Truncate, Cut;
    if e.Dir? {
      WalkCut(e.entries, Some(path), Some(whole), limit, k);
    }
  }

  lemma {:induction false} WalkTruncated(entries: seq<Node>, dir: Option<Path>, limit: nat, k: nat)
    requires k < |Walk(entries, dir, Some(limit))|
    ensures |Walk(entries, dir, Some(limit))[k].path| <= limit
    decreases entries, 0
  {
    var last := |entries| - 1;
    var before := Walk(entries[..last], dir, Some(limit));
    if k < |before| {
      WalkTruncated(entries[..last], dir, limit, k);
    } else if entries[last].Dir? {
      WalkTruncated(entries[last].entries, Some(Truncate(Join(dir, entries[last].name), Some(limit))), limit,
                    k - |before|);
    }
  }

  /** Every file's full pathname has at most `limit` bytes. */
  ghost predicate PathsFit(entries: seq<Node>, dir: Option<Path>, limit: nat)
  {
    forall k :: 0 <= k < |Walk(entries, dir, None)| ==> |Walk(entries, dir, None)[k].path| <= limit
  }

  /** The buffer alters no pathname exactly when every file's full pathname fits it. */
  lemma {:induction false} BufferIsHarmless(entries: seq<Node>, dir: Option<Path>, limit: nat)
    ensures Walk(entries, dir, Some(limit)) == Walk(entries, dir, None) <==> PathsFit(entries, dir, limit)
  {
    if PathsFit(entries, dir, limit) {
      WalkFits(entries, dir, limit);
    }
    if Walk(entries, dir, Some(limit)) == Walk(entries, dir, None) {
      forall k | 0 <= k < |Walk(entries, dir, None)| ensures |Walk(entries, dir, None)[k].path| <= limit {
        WalkTruncated(entries, dir, limit, k);
      }
    }
  }

  lemma {:induction false} WalkFits(entries: seq<Node>, dir: Option<Path>, limit: nat)
    requires PathsFit(entries, dir, limit)
    ensures Walk(entries, dir, Some(limit)) == Walk(entries, dir, None)
    decreases entries, 0
  {
    if entries != [] {
      var last := |entries| - 1;
      var e := entries[last];
      var before, node := Walk(entries[..last], dir, None), WalkNode(e, dir, None);
      assert Walk(entries, dir, None) == before + node;
      assert Walk(entries, dir, Some(limit)) == Walk(entries[..last], dir, Some(limit)) + WalkNode(e, dir, Some(limit));
      hide Walk, WalkNode;
      assert forall k :: 0 <= k < |before| ==> (before + node)[k] == before[k];
      assert forall k :: 0 <= k < |node| ==> (before + node)[|before| + k] == node[k];
      WalkFits(entries[..last], dir, limit);
      WalkNodeFits(e, dir, limit);
    }
  }

  lemma {:induction false} WalkNodeFits(e: Node, dir: Option<Path>, limit: nat)
    requires forall k :: 0 <= k < |WalkNode(e, dir, None)| ==> |WalkNode(e, dir, None)[k].path| <= limit
    ensures WalkNode(e, dir, Some(limit)) == WalkNode(e, dir, None)
    decreases e, 1
  {
    if Skipped(e.name) {
    } else if e.Dir? {
      var path := Join(dir, e.name);
      WalkLength(e.entries, Some(path), None, Some(Truncate(path, Some(limit))), Some(limit));
      if Walk(e.entries, Some(path), None) != [] {
        WalkBelow(e.entries, path, 0);
        assert WalkNode(e, dir, None) == Walk(e.entries, Some(path), None);
        WalkFits(e.entries, Some(path), limit);
      }
    } else if e.File? {
      assert |WalkNode(e, dir, None)[0].path| <= limit;
    }
  }

  /** The walk of a well-formed tree keeps pathnames C strings. */
  lemma {:induction false} WalkCStrings(entries: seq<Node>, dir: Option<Path>, limit: Option<nat>)
    requires WellFormed(entries) && (dir.Some? ==> IsCString(dir.value))
    ensures forall f :: f in Walk(entries, dir, limit) ==> IsCString(f.path)
    decreases entries, 0
  {
    if entries != [] {
      var last := |entries| - 1;
      var e := entries[last];
      assert entries == entries[..last] + [e];
      WellFormedParts(entries[..last], e);
      WalkCStrings(entries[..last], dir, limit);
      assert IsCString(Truncate(Join(dir, e.name), limit));
      if e.Dir? {
        WalkCStrings(e.entries, Some(Truncate(Join(dir, e.name), limit)), limit);
      }
    }
  }
}
