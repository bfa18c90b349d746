/** Collecting the paths under a directory through symbolic links, over any finite file system, cycles included. */
module CacheWalk {
  import opened Base

  type Id = nat

  type Path = seq<string>

  /** Where a name leads once links are followed. */
  datatype Target = NotFound | Unreadable | Plain | Folder(id: Id)

  datatype Entry = Entry(link: bool, target: Target)

  /** A directory's entries, or that it cannot be listed. */
  datatype Listing = Unlistable | Entries(names: map<string, Entry>)

  /** Directories by identity; what a name leads to depends only on the directory that holds it. */
  type FileSystem = map<Id, Listing>

  predicate Readable(fs: FileSystem, entry: Entry) {
    match entry.target
    case NotFound => entry.link
    case Unreadable => false
    case Plain => true
    case Folder(id) => id in fs && fs[id].Entries?
  }

  // ----- What the walk should collect -----

  /** The entry `names` lead to from `entry`, if they all exist. */
  function Follow(fs: FileSystem, entry: Entry, names: Path): Option<Entry>
    decreases |names|
  {
    if names == [] then Some(entry)
    else if entry.target.Folder? && Readable(fs, entry) && names[0] in fs[entry.target.id].names
    then Follow(fs, fs[entry.target.id].names[names[0]], names[1..])
    else None
  }

  /** No path from `path` along `names` is generated. */
  ghost predicate Clear(generated: set<Path>, path: Path, names: Path) {
    forall k :: 0 <= k <= |names| ==> path + names[..k] !in generated
  }

  /** `path + names` is a reachable link or non-directory outside the generated paths. */
  ghost predicate Wanted(fs: FileSystem, generated: set<Path>, path: Path, entry: Entry, names: Path) {
    && Clear(generated, path, names)
    && Follow(fs, entry, names).Some?
    && (Follow(fs, entry, names).value.link || !Follow(fs, entry, names).value.target.Folder?)
  }

  /** Following `names` meets something unreadable, or a directory already above it. */
  ghost predicate Obstructed(fs: FileSystem, above: set<Id>, entry: Entry, names: Path)
    decreases |names|
  {
    if names == [] then
      !Readable(fs, entry) || (entry.target.Folder? && entry.target.id in above)
    else
      && entry.target.Folder? && Readable(fs, entry)
      && names[0] in fs[entry.target.id].names
      && Obstructed(fs, above + {entry.target.id}, fs[entry.target.id].names[names[0]], names[1..])
  }

  // ----- The walk on values -----

  ghost function Own(path: Path, entry: Entry): set<Path> {
    if entry.link || !entry.target.Folder? then {path} else {}
  }

  /** What the walk does, with the children visited in no particular order. */
  ghost function Walked(fs: FileSystem, generated: set<Path>, path: Path, entry: Entry, above: set<Id>)
    : Outcome<set<Path>>
    decreases |fs.Keys - above|
  {
    if path in generated then
      Accepted({})
    else if !Readable(fs, entry) then
      Refused
    else if !entry.target.Folder? then
      Accepted(Own(path, entry))
    else if entry.target.id in above then
      Refused
    else
      var id := entry.target.id;
      Shrinks(fs.Keys, above, id);
      var names, below := fs[id].names, above + {id};
      if exists name :: name in names && Walked(fs, generated, path + [name], names[name], below).Refused? then
        Refused
      else
        Accepted(Own(path, entry) +
          set name, p | name in names && p in Walked(fs, generated, path + [name], names[name], below).value :: p)
  }

  lemma Shrinks(all: set<Id>, above: set<Id>, id: Id)
    requires id in all && id !in above
    ensures |all - (above + {id})| < |all - above|
  {
    assert all - (above + {id}) == all - above - {id};
  }

  // ----- The walk collects exactly what is reachable -----

  ghost predicate Obstacle(fs: FileSystem, generated: set<Path>, path: Path, entry: Entry, above: set<Id>) {
    exists names :: Clear(generated, path, names) && Obstructed(fs, above, entry, names)
  }

  ghost predicate Collectable(fs: FileSystem, generated: set<Path>, path: Path, entry: Entry, p: Path) {
    exists names :: p == path + names && Wanted(fs, generated, path, entry, names)
  }

  lemma ClearStep(generated: set<Path>, path: Path, names: Path)
    requires names != []
    ensures Clear(generated, path, names) <==> path !in generated && Clear(generated, path + [names[0]], names[1..])
  {
    var child, rest := path + [names[0]], names[1..];
    assert forall k :: 0 <= k <= |rest| ==> child + rest[..k] == path + names[..k + 1];
    assert path + names[..0] == path;
    if path !in generated && Clear(generated, child, rest) {
      forall k | 0 <= k <= |names| ensures path + names[..k] !in generated {
        if k > 0 {
          assert child + rest[..k - 1] == path + names[..k];
        }
      }
    }
    if Clear(generated, path, names) {
      assert path + names[..0] !in generated;
      forall k | 0 <= k <= |rest| ensures child + rest[..k] !in generated {
        assert path + names[..k + 1] !in generated;
      }
    }
  }

  lemma ClearHere(generated: set<Path>, path: Path)
    ensures Clear(generated, path, []) <==> path !in generated
  {
    var none: Path := [];
    assert path + none[..0] == path;
  }

  ghost predicate Enters(fs: FileSystem, generated: set<Path>, path: Path, entry: Entry, above: set<Id>) {
    path !in generated && entry.target.Folder? && Readable(fs, entry) && entry.target.id !in above
  }

  /** What obstructs a directory that is entered is what obstructs one of its names. */
  lemma ObstacleStep(fs: FileSystem, generated: set<Path>, path: Path, entry: Entry, above: set<Id>)
    requires Enters(fs, generated, path, entry, above)
    ensures var id := entry.target.id;
            Obstacle(fs, generated, path, entry, above) <==>
            exists name ::
              name in fs[id].names && Obstacle(fs, generated, path + [name], fs[id].names[name], above + {id})
  {
    var id := entry.target.id;
    if names :| Clear(generated, path, names) && Obstructed(fs, above, entry, names) {
      ClearStep(generated, path, names);
      assert Obstacle(fs, generated, path + [names[0]], fs[id].names[names[0]], above + {id});
    }
    if name :| name in fs[id].names && Obstacle(fs, generated, path + [name], fs[id].names[name], above + {id}) {
      var rest :| Clear(generated, path + [name], rest) && Obstructed(fs, above + {id}, fs[id].names[name], rest);
      var names := [name] + rest;
      assert names[0] == name && names[1..] == rest;
      ClearStep(generated, path, names);
      assert Obstructed(fs, above, entry, names);
    }
  }

  lemma CollectableStep(fs: FileSystem, generated: set<Path>, path: Path, entry: Entry, above: set<Id>, p: Path)
    requires Enters(fs, generated, path, entry, above)
    ensures var id := entry.target.id;
            Collectable(fs, generated, path, entry, p) <==>
            || p in Own(path, entry)
            || exists name :: name in fs[id].names && Collectable(fs, generated, path + [name], fs[id].names[name], p)
  {
    var id := entry.target.id;
    ClearHere(generated, path);
    assert path + [] == path;
    if names :| p == path + names && Wanted(fs, generated, path, entry, names) {
      if names != [] {
        ClearStep(generated, path, names);
        assert p == path + [names[0]] + names[1..];
        assert Wanted(fs, generated, path + [names[0]], fs[id].names[names[0]], names[1..]);
      }
    }
    if p in Own(path, entry) {
      assert Wanted(fs, generated, path, entry, []);
    }
    if name :| name in fs[id].names && Collectable(fs, generated, path + [name], fs[id].names[name], p) {
      var rest :| p == path + [name] + rest && Wanted(fs, generated, path + [name], fs[id].names[name], rest);
      var names := [name] + rest;
      assert names[0] == name && names[1..] == rest && p == path + names;
      ClearStep(generated, path, names);
      assert Wanted(fs, generated, path, entry, names);
    }
  }

  /** A path that is not entered offers at most itself. */
  lemma StopsHere(fs: FileSystem, generated: set<Path>, path: Path, entry: Entry, above: set<Id>)
    requires !Enters(fs, generated, path, entry, above)
    ensures Obstacle(fs, generated, path, entry, above) <==> Walked(fs, generated, path, entry, above).Refused?
    ensures Walked(fs, generated, path, entry, above).Accepted? ==>
              forall p ::
                p in Walked(fs, generated, path, entry, above).value <==> Collectable(fs, generated, path, entry, p)
  {
    ClearHere(generated, path);
    assert path + [] == path;
    forall names: Path | names != [] ensures Clear(generated, path, names) ==> path !in generated {
      ClearStep(generated, path, names);
    }
    if path !in generated && Obstructed(fs, above, entry, []) {
      assert Clear(generated, path, []);
    }
    if Walked(fs, generated, path, entry, above).Accepted? && path !in generated {
      assert Wanted(fs, generated, path, entry, []);
    }
  }

  /** One level of the walk, with the outcome of every name below. */
  ghost function Below(fs: FileSystem, generated: set<Path>, path: Path, entry: Entry, above: set<Id>,
                       name: string)
    : Outcome<set<Path>>
    requires Enters(fs, generated, path, entry, above) && name in fs[entry.target.id].names
  {
    Walked(fs, generated, path + [name], fs[entry.target.id].names[name], above + {entry.target.id})
  }

  ghost predicate AllAccepted(fs: FileSystem, generated: set<Path>, path: Path, entry: Entry, above: set<Id>,
                              done: set<string>)
    requires Enters(fs, generated, path, entry, above) && done <= fs[entry.target.id].names.Keys
  {
    forall name :: name in done ==> Below(fs, generated, path, entry, above, name).Accepted?
  }

  /** Everything collected under the names in `done`. */
  ghost function Gathered(fs: FileSystem, generated: set<Path>, path: Path, entry: Entry, above: set<Id>,
                          done: set<string>)
    : set<Path>
    requires Enters(fs, generated, path, entry, above) && done <= fs[entry.target.id].names.Keys
    requires AllAccepted(fs, generated, path, entry, above, done)
  {
    set name, p | name in done && p in Below(fs, generated, path, entry, above, name).value :: p
  }

  lemma GatheredNext(fs: FileSystem, generated: set<Path>, path: Path, entry: Entry, above: set<Id>,
                     done: set<string>, name: string)
    requires Enters(fs, generated, path, entry, above) && done <= fs[entry.target.id].names.Keys
             && name in fs[entry.target.id].names
    requires AllAccepted(fs, generated, path, entry, above, done)
             && Below(fs, generated, path, entry, above, name).Accepted?
    ensures AllAccepted(fs, generated, path, entry, above, done + {name})
    ensures Gathered(fs, generated, path, entry, above, done + {name})
         == Gathered(fs, generated, path, entry, above, done) + Below(fs, generated, path, entry, above, name).value
  {
  }

  lemma WalkedLevel(fs: FileSystem, generated: set<Path>, path: Path, entry: Entry, above: set<Id>)
    requires Enters(fs, generated, path, entry, above)
    ensures var names := fs[entry.target.id].names.Keys;
            var walked := Walked(fs, generated, path, entry, above);
            && (walked.Accepted? <==> AllAccepted(fs, generated, path, entry, above, names))
            && (walked.Accepted? ==>
                  walked.value == Own(path, entry) + Gathered(fs, generated, path, entry, above, names))
  {
    var names := fs[entry.target.id].names.Keys;
    if AllAccepted(fs, generated, path, entry, above, names) {
      assert forall name :: name in names ==> Below(fs, generated, path, entry, above, name).Accepted?;
      assert Walked(fs, generated, path, entry, above).value
             == Own(path, entry) + Gathered(fs, generated, path, entry, above, names);
    } else {
      var name :| name in names && Below(fs, generated, path, entry, above, name).Refused?;
    }
  }

  /**
   * The walk refuses exactly when it can reach something unreadable or a directory that leads back
   * above itself; otherwise it collects exactly the reachable links and non-directories outside the
   * generated paths.
   */
  lemma {:induction false} WalkedExactly(fs: FileSystem, generated: set<Path>, path: Path, entry: Entry, above: set<Id>)
    ensures Walked(fs, generated, path, entry, above).Refused? <==> Obstacle(fs, generated, path, entry, above)
    ensures Walked(fs, generated, path, entry, above).Accepted? ==>
              forall p ::
                p in Walked(fs, generated, path, entry, above).value <==> Collectable(fs, generated, path, entry, p)
    decreases |fs.Keys - above|
  {
    if !Enters(fs, generated, path, entry, above) {
      StopsHere(fs, generated, path, entry, above);
    } else {
      var id := entry.target.id;
      Shrinks(fs.Keys, above, id);
      forall name | name in fs[id].names
        ensures var w := Below(fs, generated, path, entry, above, name);
                && (w.Refused? <==> Obstacle(fs, generated, path + [name], fs[id].names[name], above + {id}))
                && (w.Accepted? ==>
                      forall p :: p in w.value <==> Collectable(fs, generated, path + [name], fs[id].names[name], p))
      {
        WalkedExactly(fs, generated, path + [name], fs[id].names[name], above + {id});
      }
      ObstacleStep(fs, generated, path, entry, above);
      WalkedLevel(fs, generated, path, entry, above);
      if Walked(fs, generated, path, entry, above).Accepted? {
        forall p
          ensures p in Walked(fs, generated, path, entry, above).value <==> Collectable(fs, generated, path, entry, p)
        {
          CollectableStep(fs, generated, path, entry, above, p);
        }
      }
    }
  }

  // ----- The walk as it runs -----

  /** The ancestor stack and the path set that the recursion shares. */
  class Walker {
    const fs: FileSystem
    const generated: set<Path>
    var ancestors: seq<Id>
    var paths: set<Path>

    constructor (fs: FileSystem, generated: set<Path>)
      ensures this.fs == fs && this.generated == generated && ancestors == [] && paths == {}
    {
      this.fs, this.generated, ancestors, paths := fs, generated, [], {};
    }

    ghost function Above(): set<Id>
      reads this
    {
      set id | id in ancestors
    }

    /** `walk`: on success the stack is as it was and the paths have gained exactly what the walk collects. */
    method Walk(path: Path, entry: Entry) returns (ok: bool)
      modifies this
      ensures ok <==> Walked(fs, generated, path, entry, old(Above())).Accepted?
      ensures ok ==> ancestors == old(ancestors)
      ensures ok ==> paths == old(paths) + Walked(fs, generated, path, entry, old(Above())).value
      decreases |fs.Keys - Above()|, 1
    {
      if path in generated {
        return true;
      }
      if !Readable(fs, entry) {
        return false;
      }
      if entry.link || !entry.target.Folder? {
        paths := paths + {path};
      }
      if !entry.target.Folder? {
        return true;
      }
      if entry.target.id in ancestors {
        return false;
      }
      ghost var found := paths;
      WalkedLevel(fs, generated, path, entry, Above());
      ok := WalkFolder(path, entry);
      assert ok ==> paths == found + Gathered(fs, generated, path, entry, old(Above()), fs[entry.target.id].names.Keys);
    }

    /** A directory that is not above itself: its names, with it on the stack. */
    method WalkFolder(path: Path, entry: Entry) returns (ok: bool)
      requires Enters(fs, generated, path, entry, Above())
      modifies this
      ensures ok <==> AllAccepted(fs, generated, path, entry, old(Above()), fs[entry.target.id].names.Keys)
      ensures ok ==> ancestors == old(ancestors)
      ensures ok ==>
                paths == old(paths) + Gathered(fs, generated, path, entry, old(Above()), fs[entry.target.id].names.Keys)
      decreases |fs.Keys - Above()|, 0
    {
      ghost var above := Above();
      Shrinks(fs.Keys, above, entry.target.id);
      ancestors := ancestors + [entry.target.id];
      assert Above() == above + {entry.target.id};
      ok := WalkNames(path, entry, above);
      if ok {
        ancestors := ancestors[..|ancestors| - 1];
      }
    }

    /** Visits one more name after `done`, whose paths were added to `base`. */
    method WalkName(path: Path, entry: Entry, name: string, ghost above: set<Id>, ghost done: set<string>,
                    ghost base: set<Path>)
      returns (ok: bool)
      requires Enters(fs, generated, path, entry, above) && Above() == above + {entry.target.id}
      requires name in fs[entry.target.id].names && done <= fs[entry.target.id].names.Keys
      requires AllAccepted(fs, generated, path, entry, above, done)
               && paths == base + Gathered(fs, generated, path, entry, above, done)
      modifies this
      ensures !ok ==> Below(fs, generated, path, entry, above, name).Refused?
      ensures ok ==> ancestors == old(ancestors) && AllAccepted(fs, generated, path, entry, above, done + {name})
      ensures ok ==> paths == base + Gathered(fs, generated, path, entry, above, done + {name})
      decreases |fs.Keys - Above()|, 2
    {
      ok := Walk(path + [name], fs[entry.target.id].names[name]);
      if ok {
        GatheredNext(fs, generated, path, entry, above, done, name);
      }
    }

    /** Visits every listed name, in some order. */
    method WalkNames(path: Path, entry: Entry, ghost above: set<Id>) returns (ok: bool)
      requires Enters(fs, generated, path, entry, above) && Above() == above + {entry.target.id}
      modifies this
      ensures ok <==> AllAccepted(fs, generated, path, entry, above, fs[entry.target.id].names.Keys)
      ensures ok ==> ancestors == old(ancestors)
      ensures ok ==> paths == old(paths) + Gathered(fs, generated, path, entry, above, fs[entry.target.id].names.Keys)
      decreases |fs.Keys - Above()|, 3
    {
      var rest := fs[entry.target.id].names.Keys;
      ghost var done: set<string> := {};
      while rest != {}
        invariant rest + done == fs[entry.target.id].names.Keys && rest !! done
        invariant ancestors == old(ancestors)
        invariant AllAccepted(fs, generated, path, entry, above, done)
        invariant paths == old(paths) + Gathered(fs, generated, path, entry, above, done)
        decreases rest
      {
        var name :| name in rest;
        ok := WalkName(path, entry, name, above, done, old(paths));
        if !ok {
          return;
        }
        rest, done := rest - {name}, done + {name};
      }
      assert done == fs[entry.target.id].names.Keys;
      ok := true;
    }
  }
}
