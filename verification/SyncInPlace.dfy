/** The synchroniser as it runs, against a disk it changes step by step (xtask/src/main.rs:714-822,
    2691-2750): write what differs, remove the orphans, prune what is left empty. */
module SyncInPlace {
  import opened Wrappers
  import opened Trees
  import opened Sync

  // ------------------------------------------------------------------ the disk

  class Disk {
    var entries: Tree

    method ReadToString(p: Path) returns (contents: Option<string>)
      ensures contents == if p in entries && entries[p].File? then Some(entries[p].contents) else None
    {
      if p in entries && entries[p].File? { return Some(entries[p].contents); }
      return None;
    }

    /** Makes every missing directory on the way to `p`, and `p` itself, unless a file is in the way. */
    method CreateDirAll(p: Path) returns (ok: bool)
      requires WellFormed(entries)
      modifies this
      ensures ok <==> forall d :: Within(d, p) && d in old(entries) ==> old(entries)[d].Dir?
      ensures ok ==> entries == WithDirs(old(entries), p)
      ensures !ok ==> entries == old(entries)
    {
      hide WellFormed, Within;
      var n := FirstFile(p);
      if n.Some? {
        assert Within(p[..n.value], p) by { TakeIsWithin(p, n.value); }
        return false;
      }
      entries := WithDirs(entries, p);
      forall d | Within(d, p) && d in old(entries) ensures old(entries)[d].Dir? { WithinIsTake(d, p); }
      ok := true;
    }

    method FirstFile(p: Path) returns (found: Option<nat>)
      ensures found.Some? ==> found.value <= |p| && p[..found.value] in entries && entries[p[..found.value]].File?
      ensures found.None? ==> forall n :: 0 <= n <= |p| && p[..n] in entries ==> entries[p[..n]].Dir?
    {
      for n := 0 to |p| + 1
        invariant forall m :: 0 <= m < n && p[..m] in entries ==> entries[p[..m]].Dir?
      {
        if p[..n] in entries && entries[p[..n]].File? { return Some(n); }
      }
      return None;
    }

    method Write(p: Path, contents: string) returns (ok: bool)
      modifies this
      ensures ok <==> !(p in old(entries) && old(entries)[p].Dir?)
      ensures entries == if ok then old(entries)[p := File(contents)] else old(entries)
    {
      ok := !(p in entries && entries[p].Dir?);
      if ok { entries := entries[p := File(contents)]; }
    }

    method Remove(p: Path)
      modifies this
      ensures entries == old(entries) - {p}
    {
      entries := entries - {p};
    }

    /** What a directory directly holds. */
    function Children(d: Path): set<Path>
      reads this
    {
      set p | p in entries && p != [] && Parent(p) == d
    }
  }

  function WithDirs(tree: Tree, p: Path): Tree {
    map q | q in tree.Keys + (set n | 0 <= n <= |p| :: p[..n]) :: if q in tree then tree[q] else Dir
  }

  /** Whatever leads to a file is there already, and nothing is below it: a way that a file blocks has no
      directory left to make, so a call it fails leaves the tree as it was. */
  lemma NothingToMakeByAFile(tree: Tree, d: Path, q: Path)
    requires WellFormed(tree) && d in tree && tree[d].File?
    ensures Below(q, d) ==> q in tree && tree[q].Dir?
    ensures Below(d, q) ==> q !in tree
  {
  }

  lemma TakeIsWithin(p: Path, n: nat)
    requires n <= |p|
    ensures Within(p[..n], p)
  {
  }

  lemma WithinIsTake(d: Path, p: Path)
    requires Within(d, p)
    ensures |d| <= |p| && d == p[..|d|]
  {
  }

  lemma WithDirsAt(tree: Tree, p: Path, q: Path)
    ensures q in WithDirs(tree, p) <==> q in tree || Within(q, p)
    ensures q in WithDirs(tree, p) ==> WithDirs(tree, p)[q] == if q in tree then tree[q] else Dir
  {
    if Within(q, p) { assert q == p[..|q|]; }
  }

  // ------------------------------------------------------------------ writing

  /** The tree once these files are laid out in it, with the directories they need. */
  function LaidOut(tree: Tree, files: map<Path, string>): Tree {
    map p | p in tree.Keys + files.Keys + Above(files.Keys) ::
      if p in files then File(files[p]) else if p in tree then tree[p] else Dir
  }

  lemma LaidOutAt(tree: Tree, files: map<Path, string>, p: Path)
    ensures p in LaidOut(tree, files) <==> p in tree || p in files || exists q :: q in files && Below(p, q)
    ensures p in LaidOut(tree, files) ==>
              LaidOut(tree, files)[p] == if p in files then File(files[p]) else if p in tree then tree[p] else Dir
  {
    hide Below;
  }

  /** These files, of the ones expected, are laid out so far. */
  ghost predicate Part(done: map<Path, string>, expected: map<Path, string>) {
    forall p :: p in done ==> p in expected && done[p] == expected[p]
  }

  /** A file already as it should be needs nothing. */
  lemma NothingToWrite(tree: Tree, done: map<Path, string>, p: Path, contents: string)
    requires WellFormed(tree) && Clear(tree, done) && p !in done
    requires p in LaidOut(tree, done) && LaidOut(tree, done)[p] == File(contents)
    ensures Clear(tree, done[p := contents]) && LaidOut(tree, done[p := contents]) == LaidOut(tree, done)
  {
    hide Below, LaidOut;
    var more := done[p := contents];
    LaidOutAt(tree, done, p);
    forall d, q | q in more && Below(d, q) ensures d !in more && (d in tree ==> tree[d].Dir?) {
      if q == p { DirAbove(tree, d, p); }
    }
    ClearBy(tree, more);
    forall q ensures q in LaidOut(tree, more) <==> q in LaidOut(tree, done) {
      LaidOutAt(tree, done, q);
      LaidOutAt(tree, more, q);
      if Below(q, p) { DirAbove(tree, q, p); }
    }
    forall q | q in LaidOut(tree, done) ensures LaidOut(tree, more)[q] == LaidOut(tree, done)[q] {
      LaidOutAt(tree, done, q);
      LaidOutAt(tree, more, q);
    }
  }

  /** A file in the way of a directory, or a directory in the way of a file, is what `Clear` rules out. */
  lemma InTheWay(tree: Tree, done: map<Path, string>, expected: map<Path, string>, d: Path, p: Path)
    requires Part(done, expected) && p in expected && p !in done && d in LaidOut(tree, done)
    requires (Below(d, p) && LaidOut(tree, done)[d].File?) || (d == p && LaidOut(tree, done)[d].Dir?)
    ensures !Clear(tree, expected)
  {
    hide Below, LaidOut;
    LaidOutAt(tree, done, d);
  }

  /** Making the directories and writing the file lays it out. */
  lemma LayOne(tree: Tree, done: map<Path, string>, p: Path, contents: string)
    requires WellFormed(tree) && Clear(tree, done) && p !in done && p != []
    requires forall d :: Within(d, Parent(p)) && d in LaidOut(tree, done) ==> LaidOut(tree, done)[d].Dir?
    requires p in LaidOut(tree, done) ==> LaidOut(tree, done)[p].File?
    ensures Clear(tree, done[p := contents])
    ensures WithDirs(LaidOut(tree, done), Parent(p))[p := File(contents)] == LaidOut(tree, done[p := contents])
  {
    hide Below, Within, LaidOut, WithDirs;
    var more := done[p := contents];
    var before, after := LaidOut(tree, done), LaidOut(tree, more);
    LaidOutAt(tree, done, p);
    forall d, q | q in more && Below(d, q) ensures d !in more && (d in tree ==> tree[d].Dir?) {
      LaidOutAt(tree, done, d);
      if q == p { BelowParent(d, p); NotBelowItself(d, p); }
    }
    ClearBy(tree, more);
    var made := WithDirs(before, Parent(p))[p := File(contents)];
    forall q ensures q in made <==> q in after { LaidKey(tree, done, p, contents, q); }
    forall q | q in made ensures made[q] == after[q] { LaidEntry(tree, done, p, contents, q); }
  }

  lemma NotBelowItself(d: Path, p: Path)
    requires Below(d, p)
    ensures d != p
  {
  }

  lemma WithinParent(q: Path, p: Path)
    requires p != []
    ensures Within(q, Parent(p)) <==> Below(q, p)
  {
    if Below(q, p) { BelowParent(q, p); }
    if Within(q, Parent(p)) { assert p[..|p| - 1][..|q|] == p[..|q|]; }
  }

  lemma LaidKey(tree: Tree, done: map<Path, string>, p: Path, contents: string, q: Path)
    requires p != []
    ensures q in WithDirs(LaidOut(tree, done), Parent(p))[p := File(contents)] <==> q in LaidOut(tree, done[p := contents])
  {
    hide Below, Within, LaidOut, WithDirs;
    LaidOutAt(tree, done, q);
    LaidOutAt(tree, done[p := contents], q);
    WithDirsAt(LaidOut(tree, done), Parent(p), q);
    WithinParent(q, p);
  }

  lemma LaidEntry(tree: Tree, done: map<Path, string>, p: Path, contents: string, q: Path)
    requires p != [] && q in LaidOut(tree, done[p := contents])
    requires q in WithDirs(LaidOut(tree, done), Parent(p))[p := File(contents)]
    ensures WithDirs(LaidOut(tree, done), Parent(p))[p := File(contents)][q] == LaidOut(tree, done[p := contents])[q]
  {
    hide Below, Within, LaidOut, WithDirs;
    LaidOutAt(tree, done, q);
    LaidOutAt(tree, done[p := contents], q);
    WithDirsAt(LaidOut(tree, done), Parent(p), q);
  }

  lemma LaidOutIsWellFormed(tree: Tree, files: map<Path, string>)
    requires WellFormed(tree) && Clear(tree, files) && [] !in files
    ensures WellFormed(LaidOut(tree, files))
  {
    hide Below, LaidOut;
    var laid := LaidOut(tree, files);
    LaidOutAt(tree, files, []);
    forall d, p | p in laid && Below(d, p) ensures d in laid && laid[d].Dir? {
      LaidOutAt(tree, files, p);
      LaidOutAt(tree, files, d);
      if p in tree {
        DirAbove(tree, d, p);
        ForeignHasNoFileAboveAll(tree, files, d, p);
      } else if p !in files {
        var q :| q in files && Below(p, q);
        BelowIsWithin(p, q);
        BelowWithin(d, p, q);
      }
    }
    WellFormedBy(laid);
  }

  lemma ForeignHasNoFileAboveAll(tree: Tree, files: map<Path, string>, d: Path, p: Path)
    requires WellFormed(tree) && Clear(tree, files) && p in tree && Below(d, p)
    ensures d !in files
  {
    assert d in tree && tree[d].Dir?;
  }

  /** Writes one expected file, unless it is there already. */
  method WriteOne(disk: Disk, p: Path, contents: string, ghost tree: Tree, ghost done: map<Path, string>, ghost expected: map<Path, string>)
    returns (ok: bool)
    requires WellFormed(tree) && WellFormed(disk.entries) && Clear(tree, done) && Part(done, expected)
    requires p != [] && p in expected && expected[p] == contents && p !in done && disk.entries == LaidOut(tree, done)
    modifies disk
    ensures ok ==> disk.entries == LaidOut(tree, done[p := contents]) && Clear(tree, done[p := contents])
    ensures !ok ==> !Clear(tree, expected)
  {
    hide WellFormed, Clear, LaidOut, Part, WithDirs, Within, Below;
    var committed := disk.ReadToString(p);
    if committed == Some(contents) {
      NothingToWrite(tree, done, p, contents);
      return true;
    }
    ok := disk.CreateDirAll(Parent(p));
    if !ok {
      var d :| Within(d, Parent(p)) && d in disk.entries && disk.entries[d].File?;
      WithinParent(d, p);
      InTheWay(tree, done, expected, d, p);
      return;
    }
    WithDirsAt(LaidOut(tree, done), Parent(p), p);
    WithinParent(p, p);
    assert !Below(p, p) by { if Below(p, p) { NotBelowItself(p, p); } }
    ok := disk.Write(p, contents);
    if ok { LayOne(tree, done, p, contents); } else { InTheWay(tree, done, expected, p, p); }
  }

  /** Writes the expected files whose content differs, in whatever order. */
  method WriteAll(disk: Disk, expected: map<Path, string>) returns (ok: bool)
    requires WellFormed(disk.entries) && [] !in expected
    modifies disk
    ensures ok <==> Clear(old(disk.entries), expected)
    ensures ok ==> disk.entries == LaidOut(old(disk.entries), expected)
  {
    hide WellFormed, Clear, LaidOut;
    ghost var tree := disk.entries;
    ghost var done: map<Path, string> := map[];
    NothingLaidOut(tree);
    var todo := expected.Keys;
    while todo != {}
      invariant todo == expected.Keys - done.Keys && Part(done, expected)
      invariant Clear(tree, done) && disk.entries == LaidOut(tree, done)
    {
      var p :| p in todo;
      LaidOutIsWellFormed(tree, done);
      ok := WriteOne(disk, p, expected[p], tree, done, expected);
      if !ok { return; }
      done := done[p := expected[p]];
      todo := todo - {p};
    }
    forall p | p in expected ensures p in done { assert p !in todo; }
    assert done == expected;
    ok := true;
  }

  lemma NothingLaidOut(tree: Tree)
    ensures Clear(tree, map[]) && LaidOut(tree, map[]) == tree
  {
  }

  // ------------------------------------------------------------------ the files of its own that are there

  function OwnFiles(tree: Tree, owner: Owner): set<Path> { set p | p in tree && tree[p].File? && owner.Owns(p) }

  /** The directories the scan enters. */
  ghost predicate Scanned(tree: Tree, owner: Owner, d: Path) {
    d in tree && tree[d].Dir? && (d == owner.root || owner.Owns(d))
  }

  /** Reads one directory: its own files, and its own directories in some order. */
  method ReadOwn(disk: Disk, owner: Owner, d: Path) returns (files: set<Path>, dirs: seq<Path>)
    requires Scanned(disk.entries, owner, d)
    ensures files == set p | p in disk.entries && p != [] && Parent(p) == d && disk.entries[p].File? && !owner.Excludes(p)
    ensures forall i :: 0 <= i < |dirs| ==> IsOwnDir(disk.entries, owner, d, dirs[i])
    ensures forall i, j :: 0 <= i < j < |dirs| ==> dirs[i] != dirs[j]
    ensures forall p :: IsOwnDir(disk.entries, owner, d, p) ==> exists i :: 0 <= i < |dirs| && dirs[i] == p
  {
    hide Owner.Excludes, Owner.Owns, Below;
    var todo := disk.Children(d);
    ghost var all := todo;
    files, dirs := {}, [];
    while todo != {}
      invariant todo <= all
      invariant files == set p | p in all - todo && disk.entries[p].File? && !owner.Excludes(p)
      invariant forall i :: 0 <= i < |dirs| ==> dirs[i] in all - todo && IsOwnDir(disk.entries, owner, d, dirs[i])
      invariant forall i, j :: 0 <= i < j < |dirs| ==> dirs[i] != dirs[j]
      invariant forall p :: p in all - todo && IsOwnDir(disk.entries, owner, d, p) ==> exists i :: 0 <= i < |dirs| && dirs[i] == p
    {
      var p :| p in todo;
      ghost var older := dirs;
      if !owner.Excludes(p) {
        if disk.entries[p].Dir? { dirs := dirs + [p]; } else { files := files + {p}; }
      }
      forall q | q in all - (todo - {p}) && IsOwnDir(disk.entries, owner, d, q) ensures exists i :: 0 <= i < |dirs| && dirs[i] == q {
        if q == p {
          assert dirs[|older|] == q;
        } else {
          var i :| 0 <= i < |older| && older[i] == q;
          assert dirs[i] == q;
        }
      }
      todo := todo - {p};
    }
  }

  predicate IsOwnDir(tree: Tree, owner: Owner, d: Path, p: Path) {
    p in tree && p != [] && Parent(p) == d && tree[p].Dir? && !owner.Excludes(p)
  }

  ghost predicate Waits(pending: seq<Path>, p: Path) { exists i :: 0 <= i < |pending| && pending[i] == p }

  /** Everything of its own in a directory that was read is found, or waits to be read, or was read too. */
  ghost predicate ScanClosed(tree: Tree, owner: Owner, found: set<Path>, pending: seq<Path>, read: set<Path>) {
    && (owner.root in read || Waits(pending, owner.root))
    && forall p :: p in tree && owner.Owns(p) && Parent(p) in read ==>
         if tree[p].File? then p in found else p in read || Waits(pending, p)
  }

  /** What waits is a directory of its own, each once, found in one that was read. */
  ghost predicate ScanSound(tree: Tree, owner: Owner, pending: seq<Path>, read: set<Path>) {
    && (forall i :: 0 <= i < |pending| ==>
          Scanned(tree, owner, pending[i]) && pending[i] !in read && (pending[i] == owner.root || Parent(pending[i]) in read))
    && (forall i, j :: 0 <= i < j < |pending| ==> pending[i] != pending[j])
    && (forall d :: d in read ==> Scanned(tree, owner, d) && (d == owner.root || Parent(d) in read))
  }

  lemma ScannedParent(tree: Tree, owner: Owner, d: Path, p: Path)
    requires Scanned(tree, owner, d) && p != [] && Parent(p) == d && p in tree && !owner.Excludes(p)
    ensures owner.Owns(p) && p != owner.root && p != d
  {
    hide Owner.Excludes;
    ParentAbove(p);
    if d != owner.root { BelowIsWithin(owner.root, d); } else { WithinItself(d); }
    BelowWithin(owner.root, d, p);
  }

  lemma WithinItself(d: Path)
    ensures Within(d, d)
  {
  }

  lemma ScanOne(tree: Tree, owner: Owner, pending: seq<Path>, read: set<Path>, d: Path, dirs: seq<Path>)
    requires ScanSound(tree, owner, pending + [d], read)
    requires forall i :: 0 <= i < |dirs| ==> IsOwnDir(tree, owner, d, dirs[i])
    requires forall i, j :: 0 <= i < j < |dirs| ==> dirs[i] != dirs[j]
    ensures ScanSound(tree, owner, pending + dirs, read + {d})
  {
    hide Owner.Excludes;
    var before, after := pending + [d], pending + dirs;
    assert before[|pending|] == d;
    forall i | 0 <= i < |after|
      ensures Scanned(tree, owner, after[i]) && after[i] !in read + {d} && (after[i] == owner.root || Parent(after[i]) in read + {d})
    {
      if i < |pending| { assert after[i] == before[i]; } else { ScannedParent(tree, owner, d, dirs[i - |pending|]); }
    }
    forall i, j | 0 <= i < j < |after| ensures after[i] != after[j] {
      if i < |pending| { assert after[i] == before[i]; }
      if j < |pending| { assert after[j] == before[j]; } else { ScannedParent(tree, owner, d, dirs[j - |pending|]); }
    }
  }

  lemma ScanOneCloses(tree: Tree, owner: Owner, found: set<Path>, pending: seq<Path>, read: set<Path>, d: Path,
                      files: set<Path>, dirs: seq<Path>)
    requires ScanClosed(tree, owner, found, pending + [d], read)
    requires files == set p | p in tree && p != [] && Parent(p) == d && tree[p].File? && !owner.Excludes(p)
    requires forall p :: IsOwnDir(tree, owner, d, p) ==> exists i :: 0 <= i < |dirs| && dirs[i] == p
    ensures ScanClosed(tree, owner, found + files, pending + dirs, read + {d})
  {
    hide Owner.Excludes, Waits;
    StillWaits(pending, d, dirs, owner.root);
    forall p | p in tree && owner.Owns(p) && Parent(p) in read + {d}
      ensures if tree[p].File? then p in found + files else p in read + {d} || Waits(pending + dirs, p)
    {
      StillWaits(pending, d, dirs, p);
      if Parent(p) == d && tree[p].Dir? {
        assert IsOwnDir(tree, owner, d, p);
        var i :| 0 <= i < |dirs| && dirs[i] == p;
        WaitsAt(pending + dirs, |pending| + i);
      }
    }
  }

  lemma WaitsAt(pending: seq<Path>, i: nat)
    requires i < |pending|
    ensures Waits(pending, pending[i])
  {
  }

  lemma StillWaits(pending: seq<Path>, d: Path, dirs: seq<Path>, p: Path)
    ensures Waits(pending + [d], p) ==> p == d || Waits(pending + dirs, p)
  {
    if Waits(pending + [d], p) && p != d {
      var i :| 0 <= i < |pending + [d]| && (pending + [d])[i] == p;
      assert (pending + dirs)[i] == p;
    }
  }

  lemma ScanFindsOwn(tree: Tree, owner: Owner, d: Path, files: set<Path>)
    requires Scanned(tree, owner, d)
    requires files == set p | p in tree && p != [] && Parent(p) == d && tree[p].File? && !owner.Excludes(p)
    ensures files <= OwnFiles(tree, owner)
  {
    hide Owner.Excludes, Below;
    forall p | p in files ensures p in OwnFiles(tree, owner) { ScannedParent(tree, owner, d, p); }
  }

  /** When nothing waits, every directory of its own was read, and so every file of its own is found. */
  lemma {:induction false} ParentWasRead(tree: Tree, owner: Owner, found: set<Path>, read: set<Path>, p: Path)
    requires WellFormed(tree) && ScanClosed(tree, owner, found, [], read) && p in tree && owner.Owns(p)
    ensures p != [] && Parent(p) in read
    decreases |p|
  {
    hide Owner.Excludes, WellFormed;
    var d := Parent(p);
    ParentAbove(p);
    DirAbove(tree, d, p);
    if d != owner.root {
      BelowIsWithin(d, p);
      BelowParent(owner.root, p);
      OwnsUpward(owner, d, p);
      ParentWasRead(tree, owner, found, read, d);
    }
  }

  lemma EverythingIsFound(tree: Tree, owner: Owner, found: set<Path>, read: set<Path>)
    requires WellFormed(tree) && ScanClosed(tree, owner, found, [], read)
    ensures OwnFiles(tree, owner) <= found
  {
    hide Owner.Excludes, WellFormed;
    forall p | p in OwnFiles(tree, owner) ensures p in found { ParentWasRead(tree, owner, found, read, p); }
  }

  function ScanDirs(tree: Tree, owner: Owner): set<Path> { set d | d in tree && tree[d].Dir? && (d == owner.root || owner.Owns(d)) }

  lemma ReadsAreDirs(tree: Tree, owner: Owner, pending: seq<Path>, read: set<Path>, d: Path)
    requires ScanSound(tree, owner, pending + [d], read)
    ensures Scanned(tree, owner, d) && d !in read && d in ScanDirs(tree, owner)
  {
    hide Owner.Excludes, Owner.Owns;
    assert (pending + [d])[|pending|] == d;
  }

  /** The owner's own files that are there, by a worklist of directories. */
  method CommittedFiles(disk: Disk, owner: Owner) returns (found: set<Path>)
    requires WellFormed(disk.entries)
    ensures found == OwnFiles(disk.entries, owner)
  {
    hide WellFormed, ScanClosed, ScanSound, Owner.Owns, Owner.Excludes, IsOwnDir, Scanned, OwnFiles;
    ghost var tree := disk.entries;
    found := {};
    if owner.root !in disk.entries || !disk.entries[owner.root].Dir? {
      NothingBelow(tree, owner);
      return;
    }
    var pending := [owner.root];
    ghost var read: set<Path> := {};
    ScanStarts(tree, owner);
    while pending != []
      invariant ScanClosed(tree, owner, found, pending, read) && ScanSound(tree, owner, pending, read)
      invariant found <= OwnFiles(tree, owner)
      decreases ScanDirs(tree, owner) - read
    {
      var d := pending[|pending| - 1];
      var rest := pending[..|pending| - 1];
      assert pending == rest + [d];
      ReadsAreDirs(tree, owner, rest, read, d);
      var files, dirs := ReadOwn(disk, owner, d);
      ScanOne(tree, owner, rest, read, d, dirs);
      ScanOneCloses(tree, owner, found, rest, read, d, files, dirs);
      ScanFindsOwn(tree, owner, d, files);
      found, pending, read := found + files, rest + dirs, read + {d};
    }
    EverythingIsFound(tree, owner, found, read);
  }

  lemma ScanStarts(tree: Tree, owner: Owner)
    requires owner.root in tree && tree[owner.root].Dir?
    ensures ScanClosed(tree, owner, {}, [owner.root], {}) && ScanSound(tree, owner, [owner.root], {})
  {
    hide Owner.Excludes, Owner.Owns;
    WaitsAt([owner.root], 0);
  }

  lemma NothingBelow(tree: Tree, owner: Owner)
    requires WellFormed(tree) && (owner.root !in tree || !tree[owner.root].Dir?)
    ensures OwnFiles(tree, owner) == {}
    ensures forall p :: p in tree ==> !owner.Owns(p)
  {
    hide Owner.Excludes;
  }

  // ------------------------------------------------------------------ removing the orphans

  function Orphans(tree: Tree, owner: Owner): set<Path> { OwnFiles(tree, owner) - owner.expected.Keys }

  method RemoveAll(disk: Disk, paths: set<Path>)
    modifies disk
    ensures disk.entries == old(disk.entries) - paths
  {
    var todo := paths;
    while todo != {}
      invariant todo <= paths
      invariant disk.entries == old(disk.entries) - (paths - todo)
    {
      var p :| p in todo;
      disk.Remove(p);
      todo := todo - {p};
    }
  }

  // ------------------------------------------------------------------ pruning

  /** What keeps the directories above it: a file, or anything someone else owns. */
  predicate Keeps(tree: Tree, owner: Owner, q: Path) { q in tree && (tree[q].File? || owner.Excludes(q)) }

  /** The directories below `d` that hold nothing which keeps them. */
  ghost function Dead(tree: Tree, owner: Owner, d: Path): set<Path> {
    set p | p in tree && Below(d, p) && tree[p].Dir? && !owner.Excludes(p) && !HoldsSome(tree, owner, p)
  }

  ghost predicate HoldsSome(tree: Tree, owner: Owner, p: Path) { exists q :: Keeps(tree, owner, q) && Below(p, q) }

  lemma DeadAt(tree: Tree, owner: Owner, d: Path, p: Path)
    ensures p in Dead(tree, owner, d) <==>
            p in tree && Below(d, p) && tree[p].Dir? && !owner.Excludes(p) && !HoldsSome(tree, owner, p)
  {
    hide Owner.Excludes, Below, HoldsSome;
  }

  /** Under which child of `d` a path below it is. */
  function ChildOf(d: Path, p: Path): Path
    requires Below(d, p)
  {
    p[..|d| + 1]
  }

  lemma ChildIsBetween(d: Path, p: Path)
    requires Below(d, p)
    ensures Below(d, ChildOf(d, p)) && Within(ChildOf(d, p), p) && ChildOf(d, p) != [] && Parent(ChildOf(d, p)) == d
  {
    assert p[..|d| + 1][..|d|] == p[..|d|];
  }

  lemma ChildOfBelow(d: Path, c: Path, p: Path)
    requires c != [] && Parent(c) == d && Within(c, p)
    ensures Below(d, p) && ChildOf(d, p) == c
  {
    ParentAbove(c);
    BelowWithin(d, c, p);
  }

  /** The tree without the dead directories under the children already seen. */
  ghost function PrunedSoFar(tree: Tree, owner: Owner, d: Path, seen: set<Path>): Tree {
    map p | p in tree && !(p in Dead(tree, owner, d) && Below(d, p) && ChildOf(d, p) in seen) :: tree[p]
  }

  lemma PrunedAt(tree: Tree, owner: Owner, d: Path, seen: set<Path>, p: Path)
    ensures p in PrunedSoFar(tree, owner, d, seen) <==>
            p in tree && !(p in Dead(tree, owner, d) && Below(d, p) && ChildOf(d, p) in seen)
    ensures p in PrunedSoFar(tree, owner, d, seen) ==> PrunedSoFar(tree, owner, d, seen)[p] == tree[p]
  {
    hide Owner.Excludes, Below, Dead, ChildOf;
  }

  /** A dead directory has only dead directories below it. */
  lemma DeadBelow(tree: Tree, owner: Owner, d: Path, p: Path, q: Path)
    requires p in Dead(tree, owner, d) && q in tree && Below(p, q)
    ensures q in Dead(tree, owner, d)
  {
    hide Owner.Excludes, Below, HoldsSome;
    DeadAt(tree, owner, d, p);
    DeadAt(tree, owner, d, q);
    BelowIsWithin(p, q);
    BelowWithin(d, p, q);
    NothingHeld(tree, owner, p, q);
  }

  lemma NothingHeld(tree: Tree, owner: Owner, p: Path, q: Path)
    requires !HoldsSome(tree, owner, p) && q in tree && Below(p, q)
    ensures tree[q].Dir? && !owner.Excludes(q) && !HoldsSome(tree, owner, q)
  {
    hide Owner.Excludes, Below;
    assert !Keeps(tree, owner, q);
    if r :| Keeps(tree, owner, r) && Below(q, r) {
      BelowIsWithin(p, q);
      BelowWithin(p, q, r);
      assert false;
    }
  }

  lemma PrunedIsWellFormed(tree: Tree, owner: Owner, d: Path, seen: set<Path>)
    requires WellFormed(tree)
    ensures WellFormed(PrunedSoFar(tree, owner, d, seen))
  {
    hide Owner.Excludes, Below, Dead, PrunedSoFar, ChildOf, WellFormed;
    var after := PrunedSoFar(tree, owner, d, seen);
    RootIsThere(tree);
    PrunedAt(tree, owner, d, seen, []);
    assert !Below(d, []) by { NothingAboveRoot(d); }
    forall e, p | p in after && Below(e, p) ensures e in after && after[e].Dir? {
      PrunedAt(tree, owner, d, seen, p);
      PrunedAt(tree, owner, d, seen, e);
      DirAbove(tree, e, p);
      if e in Dead(tree, owner, d) && Below(d, e) {
        DeadBelow(tree, owner, d, e, p);
        SameChild(d, e, p);
      }
    }
    WellFormedBy(after);
  }

  lemma RootIsThere(tree: Tree)
    requires WellFormed(tree)
    ensures [] in tree && tree[[]].Dir?
  {
  }

  lemma NothingAboveRoot(d: Path)
    ensures !Below(d, [])
  {
  }

  lemma SameChild(d: Path, e: Path, p: Path)
    requires Below(d, e) && Below(e, p)
    ensures Below(d, p) && ChildOf(d, p) == ChildOf(d, e)
  {
    BelowIsWithin(d, e);
    BelowWithin(d, e, p);
    assert p[..|e|][..|d| + 1] == p[..|d| + 1];
  }

  /** Pruning under other children does not change what is dead under this one. */
  lemma DeadUnderChild(tree: Tree, owner: Owner, d: Path, seen: set<Path>, c: Path, p: Path)
    requires c != [] && Parent(c) == d && c !in seen
    ensures p in Dead(PrunedSoFar(tree, owner, d, seen), owner, c) <==> p in Dead(tree, owner, d) && Below(c, p)
    ensures HoldsSome(PrunedSoFar(tree, owner, d, seen), owner, c) <==> HoldsSome(tree, owner, c)
  {
    hide Owner.Excludes, Below, PrunedSoFar, ChildOf, HoldsSome, Dead;
    var now := PrunedSoFar(tree, owner, d, seen);
    DeadAt(now, owner, c, p);
    DeadAt(tree, owner, d, p);
    WithinItself(c);
    HeldUnderChild(tree, owner, d, seen, c, c);
    if Below(c, p) {
      BelowIsWithin(c, p);
      ChildOfBelow(d, c, p);
      PrunedAt(tree, owner, d, seen, p);
      HeldUnderChild(tree, owner, d, seen, c, p);
    }
  }

  lemma HeldUnderChild(tree: Tree, owner: Owner, d: Path, seen: set<Path>, c: Path, p: Path)
    requires c != [] && Parent(c) == d && c !in seen && Within(c, p)
    ensures HoldsSome(PrunedSoFar(tree, owner, d, seen), owner, p) <==> HoldsSome(tree, owner, p)
  {
    hide Owner.Excludes, Below, PrunedSoFar, ChildOf, Dead;
    var now := PrunedSoFar(tree, owner, d, seen);
    if q :| Keeps(now, owner, q) && Below(p, q) { PrunedAt(tree, owner, d, seen, q); }
    if q :| Keeps(tree, owner, q) && Below(p, q) {
      BelowWithin(c, p, q);
      BelowIsWithin(c, q);
      ChildOfBelow(d, c, q);
      PrunedAt(tree, owner, d, seen, q);
      assert Keeps(now, owner, q);
    }
  }

  /** A child that is pruned under, and removed when that leaves it empty. */
  lemma OneMoreSeen(tree: Tree, owner: Owner, d: Path, seen: set<Path>, c: Path, after: Tree)
    requires c != [] && Parent(c) == d && c !in seen && c in tree && tree[c].Dir? && !owner.Excludes(c)
    requires var now := PrunedSoFar(tree, owner, d, seen);
             after == now - Dead(now, owner, c) - (if HoldsSome(now, owner, c) then {} else {c})
    ensures after == PrunedSoFar(tree, owner, d, seen + {c})
    ensures c in Dead(tree, owner, d) <==> !HoldsSome(PrunedSoFar(tree, owner, d, seen), owner, c)
  {
    hide Owner.Excludes, Below, PrunedSoFar, ChildOf, HoldsSome, Dead, Within;
    var now, later := PrunedSoFar(tree, owner, d, seen), PrunedSoFar(tree, owner, d, seen + {c});
    ParentAbove(c);
    WithinItself(c);
    ChildOfBelow(d, c, c);
    DeadAt(tree, owner, d, c);
    DeadUnderChild(tree, owner, d, seen, c, c);
    forall p ensures p in after <==> p in later {
      PrunedAt(tree, owner, d, seen, p);
      PrunedAt(tree, owner, d, seen + {c}, p);
      DeadUnderChild(tree, owner, d, seen, c, p);
      UnderChild(d, c, p);
    }
    forall p | p in after ensures after[p] == later[p] {
      PrunedAt(tree, owner, d, seen, p);
      PrunedAt(tree, owner, d, seen + {c}, p);
    }
  }

  lemma UnderChild(d: Path, c: Path, p: Path)
    requires c != [] && Parent(c) == d
    ensures Below(d, p) && ChildOf(d, p) == c <==> p == c || Below(c, p)
  {
    if Below(d, p) && ChildOf(d, p) == c { ChildIsBetween(d, p); }
    if p == c || Below(c, p) { ChildOfBelow(d, c, p); }
  }

  /** A child that is a file, or someone else's, is passed over. */
  lemma OnePassedOver(tree: Tree, owner: Owner, d: Path, seen: set<Path>, c: Path)
    requires WellFormed(tree) && c != [] && Parent(c) == d && Keeps(tree, owner, c)
    ensures PrunedSoFar(tree, owner, d, seen) == PrunedSoFar(tree, owner, d, seen + {c})
    ensures c !in Dead(tree, owner, d)
  {
    hide Owner.Excludes, Below, PrunedSoFar, ChildOf, HoldsSome, Dead, WellFormed;
    DeadAt(tree, owner, d, c);
    forall p ensures p in PrunedSoFar(tree, owner, d, seen) <==> p in PrunedSoFar(tree, owner, d, seen + {c}) {
      PrunedAt(tree, owner, d, seen, p);
      PrunedAt(tree, owner, d, seen + {c}, p);
      DeadAt(tree, owner, d, p);
      UnderChild(d, c, p);
      if p in tree && Below(c, p) {
        DirAbove(tree, c, p);
        BelowIsWithin(c, p);
        if owner.Excludes(c) { ExcludesBelow(owner, c, p); }
      }
    }
    forall p | p in PrunedSoFar(tree, owner, d, seen)
      ensures PrunedSoFar(tree, owner, d, seen)[p] == PrunedSoFar(tree, owner, d, seen + {c})[p]
    {
      PrunedAt(tree, owner, d, seen, p);
      PrunedAt(tree, owner, d, seen + {c}, p);
    }
  }

  /** Every path below a directory, which is what pruning it may visit. */
  ghost function Inside(tree: Tree, d: Path): set<Path> { set p | p in tree && Below(d, p) }

  lemma InsideShrinks(tree: Tree, owner: Owner, d: Path, seen: set<Path>, c: Path)
    requires c in tree && c != [] && Parent(c) == d
    ensures Inside(PrunedSoFar(tree, owner, d, seen), c) < Inside(tree, d)
  {
    hide Owner.Excludes, Below, PrunedSoFar, Dead, ChildOf;
    var now := PrunedSoFar(tree, owner, d, seen);
    ParentAbove(c);
    assert c in Inside(tree, d);
    if c in Inside(now, c) { NotBelowItself(c, c); }
    forall p | p in Inside(now, c) ensures p in Inside(tree, d) {
      PrunedAt(tree, owner, d, seen, p);
      BelowIsWithin(d, c);
      BelowWithin(d, c, p);
    }
  }

  lemma ChildIsStillThere(tree: Tree, owner: Owner, d: Path, seen: set<Path>, c: Path)
    requires c in tree && c != [] && Parent(c) == d && c !in seen
    ensures c in PrunedSoFar(tree, owner, d, seen) && PrunedSoFar(tree, owner, d, seen)[c] == tree[c]
  {
    hide Owner.Excludes, Below, PrunedSoFar, Dead, ChildOf;
    WithinItself(c);
    ChildOfBelow(d, c, c);
    PrunedAt(tree, owner, d, seen, c);
  }

  lemma AllSeen(tree: Tree, owner: Owner, d: Path, children: set<Path>)
    requires WellFormed(tree) && children == set p | p in tree && p != [] && Parent(p) == d
    ensures PrunedSoFar(tree, owner, d, children) == tree - Dead(tree, owner, d)
    ensures children <= Dead(tree, owner, d) <==> !HoldsSome(tree, owner, d)
  {
    hide Owner.Excludes, Below, PrunedSoFar, Dead, ChildOf, WellFormed, Keeps;
    forall p ensures p in PrunedSoFar(tree, owner, d, children) <==> p in tree - Dead(tree, owner, d) {
      PrunedAt(tree, owner, d, children, p);
      if p in Dead(tree, owner, d) { ChildIsThere(tree, owner, d, p); }
    }
    forall p | p in tree - Dead(tree, owner, d) ensures PrunedSoFar(tree, owner, d, children)[p] == tree[p] {
      PrunedAt(tree, owner, d, children, p);
    }
    if q :| Keeps(tree, owner, q) && Below(d, q) {
      HeldMeansLiveChild(tree, owner, d, q);
    }
    if c :| c in children && c !in Dead(tree, owner, d) {
      ParentAbove(c);
      LiveChildIsHeld(tree, owner, d, c);
    }
  }

  lemma ChildIsThere(tree: Tree, owner: Owner, d: Path, p: Path)
    requires WellFormed(tree) && p in Dead(tree, owner, d)
    ensures Below(d, p) && ChildOf(d, p) in tree && ChildOf(d, p) != [] && Parent(ChildOf(d, p)) == d
  {
    hide Owner.Excludes, Below, HoldsSome, ChildOf, WellFormed;
    DeadAt(tree, owner, d, p);
    ChildIsBetween(d, p);
    InTreeUpward(tree, ChildOf(d, p), p);
  }

  lemma InTreeUpward(tree: Tree, c: Path, p: Path)
    requires WellFormed(tree) && p in tree && Within(c, p)
    ensures c in tree && (c != p ==> tree[c].Dir?)
  {
    if c != p { WithinButNotSame(c, p); }
  }

  lemma WithinButNotSame(c: Path, p: Path)
    requires Within(c, p) && c != p
    ensures Below(c, p)
  {
    assert p[..|p|] == p;
  }

  lemma HeldMeansLiveChild(tree: Tree, owner: Owner, d: Path, q: Path)
    requires WellFormed(tree) && Keeps(tree, owner, q) && Below(d, q)
    ensures ChildOf(d, q) in tree && ChildOf(d, q) != [] && Parent(ChildOf(d, q)) == d
    ensures ChildOf(d, q) !in Dead(tree, owner, d)
  {
    hide Owner.Excludes, WellFormed, Dead, ChildOf;
    var c := ChildOf(d, q);
    ChildIsBetween(d, q);
    InTreeUpward(tree, c, q);
    DeadAt(tree, owner, d, c);
    if c != q { WithinButNotSame(c, q); }
  }

  lemma LiveChildIsHeld(tree: Tree, owner: Owner, d: Path, c: Path)
    requires c in tree && Below(d, c) && c !in Dead(tree, owner, d)
    ensures HoldsSome(tree, owner, d)
  {
    hide Owner.Excludes, Below, Dead;
    DeadAt(tree, owner, d, c);
    if Keeps(tree, owner, c) {
    } else {
      var q :| Keeps(tree, owner, q) && Below(c, q);
      BelowIsWithin(d, c);
      BelowWithin(d, c, q);
    }
  }

  /** Removes directories left holding nothing, and says whether `d` itself now holds nothing. */
  method PruneEmptyDirectories(disk: Disk, owner: Owner, d: Path) returns (empty: bool)
    requires WellFormed(disk.entries) && d in disk.entries && disk.entries[d].Dir?
    modifies disk
    ensures disk.entries == old(disk.entries) - Dead(old(disk.entries), owner, d)
    ensures empty <==> !HoldsSome(old(disk.entries), owner, d)
    decreases Inside(disk.entries, d)
  {
    hide WellFormed, Owner.Excludes, Below, PrunedSoFar, Dead, ChildOf, HoldsSome, Inside;
    ghost var tree := disk.entries;
    var todo := disk.Children(d);
    ghost var all := todo;
    empty := true;
    assert all - todo == {};
    NoneSeen(tree, owner, d);
    while todo != {}
      invariant todo <= all
      invariant disk.entries == PrunedSoFar(tree, owner, d, all - todo)
      invariant empty <==> all - todo <= Dead(tree, owner, d)
    {
      var c :| c in todo;
      ghost var seen := all - todo;
      assert all - (todo - {c}) == seen + {c};
      ChildIsStillThere(tree, owner, d, seen, c);
      if disk.entries[c].File? || owner.Excludes(c) {
        OnePassedOver(tree, owner, d, seen, c);
        empty := false;
      } else {
        InsideShrinks(tree, owner, d, seen, c);
        PrunedIsWellFormed(tree, owner, d, seen);
        ghost var now := disk.entries;
        var gone := PruneEmptyDirectories(disk, owner, c);
        if gone { disk.Remove(c); } else { empty := false; }
        OneMoreSeen(tree, owner, d, seen, c, disk.entries);
      }
      todo := todo - {c};
    }
    assert all - {} == all;
    AllSeen(tree, owner, d, all);
  }

  lemma NoneSeen(tree: Tree, owner: Owner, d: Path)
    ensures PrunedSoFar(tree, owner, d, {}) == tree
  {
  }

  // ------------------------------------------------------------------ the whole run

  /** What a run reports, whichever way it was asked. */
  datatype Report = Report(differing: set<Path>, orphaned: set<Path>)

  /** Compares without writing: what differs from the expected files, and what nothing generates any more. */
  method Check(disk: Disk, owner: Owner) returns (report: Report)
    requires WellFormed(disk.entries)
    ensures report.differing == set p | p in owner.expected && !(p in disk.entries && disk.entries[p] == File(owner.expected[p]))
    ensures report.orphaned == Orphans(disk.entries, owner)
    ensures report == Report({}, {}) <==> UpToDate(disk.entries, owner)
  {
    hide WellFormed, Owner.Excludes, Owner.Owns;
    var differing: set<Path> := {};
    var todo := owner.expected.Keys;
    while todo != {}
      invariant todo <= owner.expected.Keys
      invariant differing == set p | p in owner.expected.Keys - todo && !(p in disk.entries && disk.entries[p] == File(owner.expected[p]))
    {
      var p :| p in todo;
      var committed := disk.ReadToString(p);
      if committed != Some(owner.expected[p]) { differing := differing + {p}; }
      todo := todo - {p};
    }
    var found := CommittedFiles(disk, owner);
    report := Report(differing, found - owner.expected.Keys);
  }

  function Swept(tree: Tree, owner: Owner): Tree {
    LaidOut(tree, owner.expected) - Orphans(LaidOut(tree, owner.expected), owner)
  }

  lemma SweptAt(tree: Tree, owner: Owner, p: Path)
    ensures p in Swept(tree, owner) <==>
            || p in owner.expected
            || (p in tree && !(tree[p].File? && owner.Owns(p)))
            || (p !in tree && exists q :: q in owner.expected && Below(p, q))
    ensures p in Swept(tree, owner) ==>
              Swept(tree, owner)[p] == if p in owner.expected then File(owner.expected[p]) else if p in tree then tree[p] else Dir
  {
    hide Owner.Excludes, Owner.Owns, Below, LaidOut;
    LaidOutAt(tree, owner.expected, p);
  }

  /** After the sweep, what keeps a directory of the owner's is what lasts. */
  lemma HeldMeansLasting(tree: Tree, owner: Owner, p: Path)
    requires WellFormed(tree) && owner.Sound() && Below(owner.root, p)
    ensures HoldsSome(Swept(tree, owner), owner, p) <==> exists q :: q in Lasting(tree, owner) && Below(p, q)
  {
    hide Owner.Excludes, Below, Swept, Lasting, WellFormed;
    var swept := Swept(tree, owner);
    if q :| Keeps(swept, owner, q) && Below(p, q) {
      SweptAt(tree, owner, q);
      LastingAt(tree, owner, q);
      if q !in Lasting(tree, owner) {
        var r :| r in owner.expected && Below(q, r);
        BelowIsWithin(q, r);
        ExcludesBelow(owner, q, r);
        assert false;
      }
    }
    if q :| q in Lasting(tree, owner) && Below(p, q) {
      SweptAt(tree, owner, q);
      LastingAt(tree, owner, q);
      BelowIsWithin(p, q);
      BelowWithin(owner.root, p, q);
      assert Keeps(swept, owner, q);
    }
  }

  lemma PrunedKey(tree: Tree, owner: Owner, p: Path)
    requires WellFormed(tree) && owner.Sound() && Clear(tree, owner.expected)
    ensures p in Swept(tree, owner) - Dead(Swept(tree, owner), owner, owner.root) <==> p in Synced(tree, owner)
  {
    hide Owner.Excludes, Below, Swept, Lasting, WellFormed, Synced, Dead, HoldsSome, Clear;
    SweptAt(tree, owner, p);
    LastingAt(tree, owner, p);
    SyncedAt(tree, owner, p);
    DeadAt(Swept(tree, owner), owner, owner.root, p);
    if Below(owner.root, p) { HeldMeansLasting(tree, owner, p); }
    if q :| q in Lasting(tree, owner) && Below(p, q) {
      AboveIsDir(tree, owner, p, q);
      LastingAt(tree, owner, q);
      if q in tree { DirAbove(tree, p, q); }
    }
    if q :| q in owner.expected && Below(p, q) { LastingAt(tree, owner, q); }
  }

  lemma PrunedEntry(tree: Tree, owner: Owner, p: Path)
    requires p in Swept(tree, owner) && p in Synced(tree, owner)
    ensures Swept(tree, owner)[p] == Synced(tree, owner)[p]
  {
    hide Owner.Excludes, Below, Swept, Lasting, Synced;
    SweptAt(tree, owner, p);
    SyncedAt(tree, owner, p);
  }

  lemma PrunedIsSynced(tree: Tree, owner: Owner)
    requires WellFormed(tree) && owner.Sound() && Clear(tree, owner.expected)
    ensures Swept(tree, owner) - Dead(Swept(tree, owner), owner, owner.root) == Synced(tree, owner)
  {
    hide Owner.Excludes, Below, Swept, Lasting, WellFormed, Synced, Dead, Clear, Owner.Sound;
    var pruned := Swept(tree, owner) - Dead(Swept(tree, owner), owner, owner.root);
    forall p ensures p in pruned <==> p in Synced(tree, owner) { PrunedKey(tree, owner, p); }
    forall p | p in pruned ensures pruned[p] == Synced(tree, owner)[p] { PrunedEntry(tree, owner, p); }
  }

  /** Without a root directory there is nothing to prune. */
  lemma NothingIsDead(tree: Tree, owner: Owner)
    requires forall p :: p in tree ==> !owner.Owns(p)
    ensures tree - Dead(tree, owner, owner.root) == tree
  {
    hide Owner.Excludes, Dead;
    forall p | p in tree ensures p !in Dead(tree, owner, owner.root) { DeadAt(tree, owner, owner.root, p); }
  }

  lemma RootIsNotOwned(owner: Owner)
    requires owner.Sound()
    ensures [] !in owner.expected
  {
    hide Owner.Excludes;
  }

  lemma SweptIsWellFormed(tree: Tree, owner: Owner)
    requires WellFormed(tree)
    ensures WellFormed(tree - Orphans(tree, owner))
  {
    hide Owner.Excludes, Owner.Owns, Below;
  }

  /** Writes what differs, removes what nothing generates any more, prunes what that leaves empty. It goes
      through exactly when nothing stands in the way, and then leaves the synced tree. */
  method WriteTree(disk: Disk, owner: Owner) returns (ok: bool)
    requires WellFormed(disk.entries) && owner.Sound()
    modifies disk
    ensures ok <==> Clear(old(disk.entries), owner.expected)
    ensures ok ==> disk.entries == Synced(old(disk.entries), owner)
  {
    hide WellFormed, Owner.Excludes, Owner.Owns, Clear, LaidOut, Synced, Dead, HoldsSome, Below, OwnFiles, Owner.Sound;
    ghost var tree := disk.entries;
    RootIsNotOwned(owner);
    ok := WriteAll(disk, owner.expected);
    if !ok { return; }
    LaidOutIsWellFormed(tree, owner.expected);
    SweptIsWellFormed(disk.entries, owner);
    var found := CommittedFiles(disk, owner);
    RemoveAll(disk, found - owner.expected.Keys);
    assert disk.entries == Swept(tree, owner);
    PrunedIsSynced(tree, owner);
    if owner.root in disk.entries && disk.entries[owner.root].Dir? {
      var empty := PruneEmptyDirectories(disk, owner, owner.root);
    } else {
      NothingBelow(disk.entries, owner);
      NothingIsDead(disk.entries, owner);
    }
  }
}
