/** Recording the collected paths in byte order: what each one is, as records of the key's manifest. */
module CacheKey {
  import opened Base
  import opened Ordered
  import opened CacheManifest
  import CacheWalk

  // ----- Byte order -----

  function ByteOrder(): (Byte, Byte) -> bool {
    (a: Byte, b: Byte) => a < b
  }

  /** The order of byte strings, in which the collected paths are recorded. */
  function PathOrder(): (Bytes, Bytes) -> bool {
    LexicalOrder(ByteOrder())
  }

  lemma PathOrderIsStrict()
    ensures StrictOrder(PathOrder())
  {
    LexicalIsOrder(ByteOrder());
  }

  // ----- What is at a path -----

  datatype End = RegularFile(digest: Bytes) | Directory | Other | Nothing | Unreadable

  /** The link at the path, if it is one, and what it leads to. */
  datatype Found = Found(link: Option<Bytes>, end: End)

  const ABSENT: Bytes := [97, 98, 115, 101, 110, 116]
  const LINK: Bytes := [108, 105, 110, 107]
  const FILE: Bytes := [102, 105, 108, 101]
  const DIRECTORY: Bytes := [100, 105, 114, 101, 99, 116, 111, 114, 121]
  const OTHER: Bytes := [111, 116, 104, 101, 114]
  const DANGLING: Bytes := [100, 97, 110, 103, 108, 105, 110, 103]
  const CARGO_LOCK: Bytes := [67, 97, 114, 103, 111, 46, 108, 111, 99, 107]

  function EndRecord(name: Bytes, f: Found): Record
    requires !f.end.Unreadable?
  {
    match f.end
    case RegularFile(digest) => [FILE, name, digest]
    case Directory => [DIRECTORY, name]
    case Other => [OTHER, name]
    case Nothing => [if f.link.Some? then DANGLING else ABSENT, name]
  }

  function LinkRecords(name: Bytes, f: Found): seq<Record> {
    if f.link.Some? then [[LINK, name, f.link.value]] else []
  }

  predicate ReadableList(s: seq<Bytes>, found: Bytes -> Found) {
    forall i :: 0 <= i < |s| ==> !found(s[i]).end.Unreadable?
  }

  /** The records of a list of paths, one or two for each. */
  function RecordsOf(s: seq<Bytes>, found: Bytes -> Found): seq<Record>
    requires ReadableList(s, found)
  {
    if s == [] then []
    else
      var p := s[|s| - 1];
      RecordsOf(s[..|s| - 1], found) + LinkRecords(p, found(p)) + [EndRecord(p, found(p))]
  }

  /** `record_path`: false when the path cannot be read. */
  method RecordPath(manifest: Manifest, path: Bytes, f: Found, ghost records: seq<Record>) returns (ok: bool)
    requires manifest.bytes == Encode(records)
    modifies manifest
    ensures ok <==> !f.end.Unreadable?
    ensures ok ==> manifest.bytes == Encode(records + LinkRecords(path, f) + [EndRecord(path, f)])
  {
    if f.link.Some? {
      manifest.Append([LINK, path, f.link.value]);
      EncodeNext(records, [LINK, path, f.link.value]);
    } else {
      assert records + LinkRecords(path, f) == records;
    }
    if f.end.Unreadable? {
      return false;
    }
    manifest.Append(EndRecord(path, f));
    EncodeNext(records + LinkRecords(path, f), EndRecord(path, f));
    return true;
  }

  ghost predicate AllReadable(paths: set<Bytes>, found: Bytes -> Found) {
    forall p :: p in paths ==> !found(p).end.Unreadable?
  }

  /** The bytes after the records already written and those of `paths` in byte order. */
  ghost function KeyBytes(before: seq<Record>, paths: set<Bytes>, found: Bytes -> Found): Bytes
    requires AllReadable(paths, found)
  {
    PathOrderIsStrict();
    Encode(before + RecordsOf(InOrder(paths, PathOrder()), found))
  }

  /**
   * The recording loop of `run`: refused exactly when a path cannot be read or `Cargo.lock` is not
   * among the recorded files; otherwise the bytes depend on nothing but the set of paths and what
   * is there.
   */
  method RecordPaths(manifest: Manifest, paths: set<Bytes>, found: Bytes -> Found, ghost before: seq<Record>)
    returns (ok: bool)
    requires manifest.bytes == Encode(before)
    modifies manifest
    ensures ok <==> AllReadable(paths, found) && CARGO_LOCK in paths && found(CARGO_LOCK).end.RegularFile?
    ensures ok ==> manifest.bytes == KeyBytes(before, paths, found)
  {
    PathOrderIsStrict();
    var order := List(paths, PathOrder());
    ListIsInOrder(order, paths, PathOrder());
    var lockHashed := false;
    assert before + RecordsOf(order[..0], found) == before;
    for i := 0 to |order|
      invariant ReadableList(order[..i], found)
      invariant manifest.bytes == Encode(before + RecordsOf(order[..i], found))
      invariant lockHashed <==> CARGO_LOCK in order[..i] && found(CARGO_LOCK).end.RegularFile?
    {
      var path := order[i];
      var read := RecordPath(manifest, path, found(path), before + RecordsOf(order[..i], found));
      if !read {
        return false;
      }
      assert order[..i + 1] == order[..i] + [path];
      NextRecords(before, order[..i], path, found);
      lockHashed := lockHashed || (path == CARGO_LOCK && found(path).end.RegularFile?);
    }
    assert order[..|order|] == order;
    return lockHashed;
  }

  lemma NextRecords(before: seq<Record>, done: seq<Bytes>, p: Bytes, found: Bytes -> Found)
    requires ReadableList(done, found) && !found(p).end.Unreadable?
    ensures before + RecordsOf(done, found) + LinkRecords(p, found(p)) + [EndRecord(p, found(p))]
         == before + RecordsOf(done + [p], found)
  {
    assert (done + [p])[..|done|] == done;
  }

  // ----- The records tell the paths -----

  /** The last record names its path and says whether a link record precedes it, with everything else. */
  lemma LastDecodes(xs: seq<Record>, p: Bytes, f: Found, ys: seq<Record>, q: Bytes, g: Found)
    requires !f.end.Unreadable? && !g.end.Unreadable?
    requires xs + [EndRecord(p, f)] == ys + [EndRecord(q, g)]
    ensures xs == ys && p == q && f.end == g.end && (f.end.Nothing? ==> f.link.Some? == g.link.Some?)
  {
    var a, b := xs + [EndRecord(p, f)], ys + [EndRecord(q, g)];
    assert a[|a| - 1] == EndRecord(p, f) && b[|b| - 1] == EndRecord(q, g);
    assert xs == a[..|a| - 1] && ys == b[..|b| - 1];
    assert EndRecord(p, f)[0] == EndRecord(q, g)[0] && EndRecord(p, f)[1] == EndRecord(q, g)[1];
  }

  /** A link record is this path's own: no path's records end with one. */
  lemma {:induction false} LinkDecodes(s: seq<Bytes>, c: Bytes -> Found, t: seq<Bytes>, d: Bytes -> Found, p: Bytes,
                                       f: Found, g: Found)
    requires ReadableList(s, c) && ReadableList(t, d)
    requires RecordsOf(s, c) + LinkRecords(p, f) == RecordsOf(t, d) + LinkRecords(p, g)
    ensures RecordsOf(s, c) == RecordsOf(t, d) && f.link == g.link
  {
    var xs, ys := RecordsOf(s, c), RecordsOf(t, d);
    var a, b := xs + LinkRecords(p, f), ys + LinkRecords(p, g);
    EndsWithEnd(s, c);
    EndsWithEnd(t, d);
    if f.link.Some? {
      assert a[|a| - 1] == [LINK, p, f.link.value];
      assert xs == a[..|a| - 1];
    } else {
      assert a == xs;
    }
    if g.link.Some? {
      assert b[|b| - 1] == [LINK, p, g.link.value];
      assert ys == b[..|b| - 1];
    } else {
      assert b == ys;
    }
  }

  lemma EndsWithEnd(s: seq<Bytes>, found: Bytes -> Found)
    requires ReadableList(s, found)
    ensures s != [] <==> RecordsOf(s, found) != []
    ensures var records := RecordsOf(s, found);
            s != [] ==> records[|records| - 1] != [] && records[|records| - 1][0] != LINK
  {
  }

  lemma {:induction false} LastPathDecodes(s: seq<Bytes>, p: Bytes, c: Bytes -> Found, t: seq<Bytes>, q: Bytes,
                                           d: Bytes -> Found)
    requires ReadableList(s, c) && !c(p).end.Unreadable?
    requires ReadableList(t, d) && !d(q).end.Unreadable?
    requires RecordsOf(s, c) + LinkRecords(p, c(p)) + [EndRecord(p, c(p))]
             == RecordsOf(t, d) + LinkRecords(q, d(q)) + [EndRecord(q, d(q))]
    ensures p == q && c(p) == d(q) && RecordsOf(s, c) == RecordsOf(t, d)
  {
    LastDecodes(RecordsOf(s, c) + LinkRecords(p, c(p)), p, c(p), RecordsOf(t, d) + LinkRecords(q, d(q)), q, d(q));
    LinkDecodes(s, c, t, d, p, c(p), d(p));
  }

  /** The same was found at every listed path. */
  ghost predicate Agree(s: seq<Bytes>, c: Bytes -> Found, d: Bytes -> Found) {
    forall i :: 0 <= i < |s| ==> c(s[i]) == d(s[i])
  }

  lemma {:induction false} PathsDecode(s: seq<Bytes>, c: Bytes -> Found, t: seq<Bytes>, d: Bytes -> Found)
    requires ReadableList(s, c) && ReadableList(t, d) && RecordsOf(s, c) == RecordsOf(t, d)
    ensures s == t && Agree(s, c, d)
    decreases |s|
  {
    assert s == [] <==> t == [] by {
      EndsWithEnd(s, c);
      EndsWithEnd(t, d);
    }
    if s != [] {
      var front, rest := s[..|s| - 1], t[..|t| - 1];
      LastOfBoth(s, c, t, d);
      assert front == rest && Agree(front, c, d) by { PathsDecode(front, c, rest, d); }
      Rejoin(s, t, c, d);
    }
  }

  lemma Rejoin(s: seq<Bytes>, t: seq<Bytes>, c: Bytes -> Found, d: Bytes -> Found)
    requires s != [] && t != [] && s[|s| - 1] == t[|t| - 1] && s[..|s| - 1] == t[..|t| - 1]
    requires Agree(s[..|s| - 1], c, d) && c(s[|s| - 1]) == d(s[|s| - 1])
    ensures s == t && Agree(s, c, d)
  {
    assert s == s[..|s| - 1] + [s[|s| - 1]] && t == t[..|t| - 1] + [t[|t| - 1]];
    forall i | 0 <= i < |s| ensures c(s[i]) == d(s[i]) {
      if i < |s| - 1 {
        assert s[..|s| - 1][i] == s[i];
      }
    }
  }

  lemma {:induction false} LastOfBoth(s: seq<Bytes>, c: Bytes -> Found, t: seq<Bytes>, d: Bytes -> Found)
    requires s != [] && t != []
    requires ReadableList(s, c) && ReadableList(t, d) && RecordsOf(s, c) == RecordsOf(t, d)
    ensures var m, n := |s| - 1, |t| - 1;
            && s[m] == t[n] && c(s[m]) == d(s[m])
            && ReadableList(s[..m], c) && ReadableList(t[..n], d) && RecordsOf(s[..m], c) == RecordsOf(t[..n], d)
  {
    var m, n := |s| - 1, |t| - 1;
    assert ReadableList(s[..m], c) && ReadableList(t[..n], d);
    assert !c(s[m]).end.Unreadable? && !d(t[n]).end.Unreadable?;
    LastPathDecodes(s[..m], s[m], c, t[..n], t[n], d);
  }

  lemma {:induction false} SameContents(s: seq<Bytes>, c: Bytes -> Found, d: Bytes -> Found)
    requires Agree(s, c, d) && ReadableList(s, c)
    ensures ReadableList(s, d) && RecordsOf(s, c) == RecordsOf(s, d)
    decreases |s|
  {
    if s != [] {
      SameContents(s[..|s| - 1], c, d);
    }
  }

  /**
   * After the same records, two recordings write the same bytes exactly when they recorded the same
   * paths and found the same at each: link target, digest and kind included.
   */
  lemma BytesTellInputs(before: seq<Record>, paths: set<Bytes>, c: Bytes -> Found, others: set<Bytes>,
                        d: Bytes -> Found)
    requires AllReadable(paths, c) && AllReadable(others, d)
    ensures KeyBytes(before, paths, c) == KeyBytes(before, others, d)
            <==> paths == others && forall p :: p in paths ==> c(p) == d(p)
  {
    PathOrderIsStrict();
    var s, t := InOrder(paths, PathOrder()), InOrder(others, PathOrder());
    if KeyBytes(before, paths, c) == KeyBytes(before, others, d) {
      UniquelyDecodable(before + RecordsOf(s, c), before + RecordsOf(t, d));
      assert RecordsOf(s, c) == (before + RecordsOf(s, c))[|before|..];
      assert RecordsOf(t, d) == (before + RecordsOf(t, d))[|before|..];
      PathsDecode(s, c, t, d);
      assert forall p :: p in paths <==> p in s;
      assert forall p :: p in others <==> p in s;
    }
    if paths == others && forall p :: p in paths ==> c(p) == d(p) {
      SameContents(s, c, d);
    }
  }

  // ----- Walking and recording -----

  /** A directory the inputs are collected from: its path, and what is there. */
  datatype Root = Root(path: CacheWalk.Path, entry: CacheWalk.Entry)

  ghost predicate Walkable(fs: CacheWalk.FileSystem, generated: set<CacheWalk.Path>, roots: seq<Root>) {
    forall i :: 0 <= i < |roots| ==> !CacheWalk.Obstacle(fs, generated, roots[i].path, roots[i].entry, {})
  }

  /** Some root reaches the path. */
  ghost predicate Reaches(fs: CacheWalk.FileSystem, generated: set<CacheWalk.Path>, roots: seq<Root>,
                          p: CacheWalk.Path)
  {
    exists i :: 0 <= i < |roots| && CacheWalk.Collectable(fs, generated, roots[i].path, roots[i].entry, p)
  }

  ghost predicate Collects(fs: CacheWalk.FileSystem, generated: set<CacheWalk.Path>, roots: seq<Root>,
                           paths: set<CacheWalk.Path>)
  {
    forall p :: p in paths <==> Reaches(fs, generated, roots, p)
  }

  /** The walks of `run`, one root after another into one path set. */
  method WalkRoots(fs: CacheWalk.FileSystem, generated: set<CacheWalk.Path>, roots: seq<Root>)
    returns (r: Outcome<set<CacheWalk.Path>>)
    ensures r.Accepted? <==> Walkable(fs, generated, roots)
    ensures r.Accepted? ==> Collects(fs, generated, roots, r.value)
  {
    var walker := new CacheWalk.Walker(fs, generated);
    for i := 0 to |roots|
      invariant walker.fs == fs && walker.generated == generated && walker.ancestors == []
      invariant Walkable(fs, generated, roots[..i]) && Collects(fs, generated, roots[..i], walker.paths)
    {
      var root := roots[i];
      CacheWalk.WalkedExactly(fs, generated, root.path, root.entry, {});
      ghost var before := walker.paths;
      assert walker.Above() == {};
      var ok := walker.Walk(root.path, root.entry);
      if !ok {
        return Refused;
      }
      NextRoot(fs, generated, roots, i, before, CacheWalk.Walked(fs, generated, root.path, root.entry, {}).value);
    }
    assert roots[..|roots|] == roots;
    return Accepted(walker.paths);
  }

  lemma NextRoot(fs: CacheWalk.FileSystem, generated: set<CacheWalk.Path>, roots: seq<Root>, i: nat,
                 before: set<CacheWalk.Path>, more: set<CacheWalk.Path>)
    requires i < |roots| && Collects(fs, generated, roots[..i], before)
    requires forall p :: p in more <==> CacheWalk.Collectable(fs, generated, roots[i].path, roots[i].entry, p)
    ensures Collects(fs, generated, roots[..i + 1], before + more)
  {
    var prev, next, root := roots[..i], roots[..i + 1], roots[i];
    forall p
      ensures Reaches(fs, generated, next, p)
              <==> Reaches(fs, generated, prev, p) || CacheWalk.Collectable(fs, generated, root.path, root.entry, p)
    {
      if Reaches(fs, generated, prev, p) {
        var k :| 0 <= k < i && CacheWalk.Collectable(fs, generated, prev[k].path, prev[k].entry, p);
        assert next[k] == prev[k];
      }
      assert next[i] == root && forall k :: 0 <= k < i ==> next[k] == prev[k];
    }
  }

  /** The recorded inputs: the fixed ones and the joined paths some root reaches. */
  ghost predicate Inputs(fs: CacheWalk.FileSystem, generated: set<CacheWalk.Path>, roots: seq<Root>, fixed: set<Bytes>,
                         join: CacheWalk.Path -> Bytes, inputs: set<Bytes>) {
    forall b :: b in inputs <==> b in fixed || exists p :: Reaches(fs, generated, roots, p) && b == join(p)
  }

  /** The file system decides the inputs. */
  lemma OneInputs(fs: CacheWalk.FileSystem, generated: set<CacheWalk.Path>, roots: seq<Root>, fixed: set<Bytes>,
                  join: CacheWalk.Path -> Bytes, a: set<Bytes>, b: set<Bytes>)
    requires Inputs(fs, generated, roots, fixed, join, a) && Inputs(fs, generated, roots, fixed, join, b)
    ensures a == b
  {
  }

  /**
   * The end of `run`: walk the roots, then record. Names are visited in any order, and the bytes are
   * those of the one set of inputs the file system decides.
   */
  method WalkAndRecord(manifest: Manifest, fs: CacheWalk.FileSystem, generated: set<CacheWalk.Path>, roots: seq<Root>,
                       fixed: set<Bytes>, join: CacheWalk.Path -> Bytes, found: Bytes -> Found,
                       ghost before: seq<Record>)
    returns (ok: bool, ghost inputs: set<Bytes>)
    requires manifest.bytes == Encode(before)
    modifies manifest
    ensures Walkable(fs, generated, roots) ==> Inputs(fs, generated, roots, fixed, join, inputs)
    ensures ok <==> Walkable(fs, generated, roots) && AllReadable(inputs, found)
                    && CARGO_LOCK in inputs && found(CARGO_LOCK).end.RegularFile?
    ensures ok ==> manifest.bytes == KeyBytes(before, inputs, found)
  {
    var walked := WalkRoots(fs, generated, roots);
    if walked.Refused? {
      return false, {};
    }
    var paths := fixed + set p | p in walked.value :: join(p);
    inputs := paths;
    ok := RecordPaths(manifest, paths, found, before);
  }
}
