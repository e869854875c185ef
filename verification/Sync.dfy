/** Keeping a generated tree as it should be (xtask/src/main.rs:714-822, 2691-2750): what a write makes
    of a tree, and what that guarantees. */
module Sync {
  import opened Trees

  /** Who writes what where: a root, the files that should be below it, and the subtrees and files below
      it that someone else owns. */
  datatype Owner = Owner(root: Path, expected: map<Path, string>, excluded: set<Path>) {
    predicate Excludes(p: Path) { exists e :: e in excluded && Within(e, p) }

    predicate Owns(p: Path) { Below(root, p) && !Excludes(p) }

    /** Every expected file is this owner's own. */
    ghost predicate Sound() { forall p :: p in expected ==> Owns(p) }
  }

  lemma ExcludesBelow(owner: Owner, p: Path, q: Path)
    requires owner.Excludes(p) && Within(p, q)
    ensures owner.Excludes(q)
  {
    var e :| e in owner.excluded && Within(e, p);
    WithinIsTransitive(e, p, q);
  }

  lemma OwnsUpward(owner: Owner, p: Path, q: Path)
    requires owner.Owns(q) && Below(owner.root, p) && Within(p, q)
    ensures owner.Owns(p)
  {
    if owner.Excludes(p) { ExcludesBelow(owner, p, q); }
  }

  // ------------------------------------------------------------------ when a write can go through

  /** No expected file stands where a directory is or must be, and none needs a directory where a file is. */
  ghost predicate Clear(tree: Tree, expected: map<Path, string>) {
    && (forall p :: p in expected && p in tree ==> tree[p].File?)
    && (forall d, p :: p in expected && Below(d, p) ==> d !in expected && (d in tree ==> tree[d].Dir?))
  }

  // ------------------------------------------------------------------ what a write makes of a tree

  /** What the owner leaves alone. */
  function Foreign(tree: Tree, owner: Owner): set<Path> { set p | p in tree && !owner.Owns(p) }

  /** The paths that stay or must be there. */
  function Lasting(tree: Tree, owner: Owner): set<Path> { Foreign(tree, owner) + owner.expected.Keys }

  /** The tree a successful write leaves: everything foreign as it was, the expected files, and the
      directories those need. */
  function Synced(tree: Tree, owner: Owner): Tree {
    map p | p in Lasting(tree, owner) + Above(Lasting(tree, owner)) ::
      if p in owner.expected then File(owner.expected[p])
      else if p in tree && !owner.Owns(p) then tree[p]
      else Dir
  }

  lemma LastingAt(tree: Tree, owner: Owner, p: Path)
    ensures p in Lasting(tree, owner) <==> (p in tree && !owner.Owns(p)) || p in owner.expected
  {
  }

  /** A directory on the way to something that lasts is a directory, before and after. */
  lemma AboveIsDir(tree: Tree, owner: Owner, d: Path, p: Path)
    requires WellFormed(tree) && owner.Sound() && Clear(tree, owner.expected) && p in Lasting(tree, owner) && Below(d, p)
    ensures d !in owner.expected && (d in tree ==> tree[d].Dir?)
  {
    hide Owner.Excludes;
    LastingAt(tree, owner, p);
    if p !in owner.expected && d in owner.expected {
      assert owner.Owns(d);
      ForeignHasNoFileAbove(tree, owner, d, p);
    }
  }

  lemma ForeignHasNoFileAbove(tree: Tree, owner: Owner, d: Path, p: Path)
    requires WellFormed(tree) && Clear(tree, owner.expected) && p in tree && Below(d, p)
    ensures d !in owner.expected
  {
    assert d in tree && tree[d].Dir?;
  }

  lemma SyncedIsWellFormed(tree: Tree, owner: Owner)
    requires WellFormed(tree) && owner.Sound() && Clear(tree, owner.expected)
    ensures WellFormed(Synced(tree, owner))
  {
    hide Owner.Excludes, WellFormed, Clear, Below;
    var after := Synced(tree, owner);
    RootStays(tree, owner);
    forall d, p | p in after && Below(d, p) ensures d in after && after[d].Dir? {
      AboveInSynced(tree, owner, d, p);
    }
    WellFormedBy(after);
  }

  lemma WellFormedBy(tree: Tree)
    requires [] in tree && tree[[]].Dir?
    requires forall d, p :: p in tree && Below(d, p) ==> d in tree && tree[d].Dir?
    ensures WellFormed(tree)
  {
  }

  lemma RootStays(tree: Tree, owner: Owner)
    requires WellFormed(tree) && owner.Sound()
    ensures [] in Synced(tree, owner) && Synced(tree, owner)[[]].Dir?
  {
    hide Owner.Excludes, Above;
    assert !owner.Owns([]);
    LastingAt(tree, owner, []);
  }

  lemma AboveInSynced(tree: Tree, owner: Owner, d: Path, p: Path)
    requires WellFormed(tree) && owner.Sound() && Clear(tree, owner.expected)
    requires p in Synced(tree, owner) && Below(d, p)
    ensures d in Synced(tree, owner) && Synced(tree, owner)[d].Dir?
  {
    hide Owner.Excludes, WellFormed, Clear, Below, Lasting, Owner.Owns, Owner.Sound;
    var lasting := Lasting(tree, owner);
    var q: Path := p;
    if p !in lasting {
      q :| q in lasting && Below(p, q);
      BelowIsWithin(p, q);
      BelowWithin(d, p, q);
    }
    assert d in Above(lasting);
    AboveIsDir(tree, owner, d, q);
  }

  lemma BelowIsWithin(d: Path, p: Path)
    requires Below(d, p)
    ensures Within(d, p)
  {
  }

  // ------------------------------------------------------------------ what it guarantees

  /** Of its own paths, the owner's files are exactly the expected ones. */
  lemma FilesAreExactlyExpected(tree: Tree, owner: Owner, p: Path)
    requires owner.Sound() && owner.Owns(p)
    ensures p in Synced(tree, owner) && Synced(tree, owner)[p].File? <==> p in owner.expected
    ensures p in owner.expected ==> Synced(tree, owner)[p] == File(owner.expected[p])
  {
    hide Owner.Excludes, Above, Owner.Sound;
    LastingAt(tree, owner, p);
  }

  /** No directory of its own is left empty. */
  lemma NoDirectoryIsEmpty(tree: Tree, owner: Owner, d: Path) returns (p: Path)
    requires owner.Owns(d) && d in Synced(tree, owner) && Synced(tree, owner)[d].Dir?
    ensures p in Synced(tree, owner) && Below(d, p)
  {
    hide Owner.Excludes, Below;
    LastingAt(tree, owner, d);
    p :| p in Lasting(tree, owner) && Below(d, p);
  }

  /** What someone else owns is as it was: everything that was there, and nothing new but directories on
      the way to the root. */
  lemma ForeignIsUntouched(tree: Tree, owner: Owner, p: Path)
    requires owner.Sound() && !owner.Owns(p)
    ensures p in tree ==> p in Synced(tree, owner) && Synced(tree, owner)[p] == tree[p]
    ensures p in Synced(tree, owner) && p !in tree ==>
              Synced(tree, owner)[p] == Dir && exists q :: q in Lasting(tree, owner) && Below(p, q)
    ensures p !in owner.expected
  {
    hide Owner.Excludes, Below;
    LastingAt(tree, owner, p);
  }

  lemma ExcludedIsUntouched(tree: Tree, owner: Owner, p: Path)
    requires WellFormed(tree) && owner.Sound() && owner.Excludes(p)
    ensures p in Synced(tree, owner) <==> p in tree
    ensures p in tree ==> Synced(tree, owner)[p] == tree[p]
  {
    hide Owner.Excludes, Below, Above;
    ForeignIsUntouched(tree, owner, p);
    if p in Synced(tree, owner) && p !in tree {
      var q :| q in Lasting(tree, owner) && Below(p, q);
      LastingAt(tree, owner, q);
      BelowIsWithin(p, q);
      ExcludesBelow(owner, p, q);
      assert false;
    }
  }

  /** The tree needs no write: what `--check` looks for. */
  ghost predicate UpToDate(tree: Tree, owner: Owner) {
    && (forall p :: p in owner.expected ==> p in tree && tree[p] == File(owner.expected[p]))
    && (forall p :: p in tree && tree[p].File? && owner.Owns(p) ==> p in owner.expected)
  }

  /** A check right after a write passes. */
  lemma CheckPasses(tree: Tree, owner: Owner)
    requires owner.Sound()
    ensures UpToDate(Synced(tree, owner), owner)
  {
    hide Owner.Excludes, Synced;
    var after := Synced(tree, owner);
    forall p | p in owner.expected ensures p in after && after[p] == File(owner.expected[p]) {
      FilesAreExactlyExpected(tree, owner, p);
    }
    forall p | p in after && after[p].File? && owner.Owns(p) ensures p in owner.expected {
      FilesAreExactlyExpected(tree, owner, p);
    }
  }

  /** A write can always follow a write. */
  lemma SyncedIsClear(tree: Tree, owner: Owner)
    requires WellFormed(tree) && owner.Sound() && Clear(tree, owner.expected)
    ensures Clear(Synced(tree, owner), owner.expected)
  {
    hide Owner.Excludes, Synced, WellFormed, Clear, Below;
    var after := Synced(tree, owner);
    CheckPasses(tree, owner);
    SyncedIsWellFormed(tree, owner);
    forall d, p | p in owner.expected && Below(d, p) ensures d !in owner.expected && (d in after ==> after[d].Dir?) {
      DirAbove(after, d, p);
    }
    ClearBy(after, owner.expected);
  }

  lemma DirAbove(tree: Tree, d: Path, p: Path)
    requires WellFormed(tree) && p in tree && Below(d, p)
    ensures d in tree && tree[d].Dir?
  {
  }

  lemma ClearBy(tree: Tree, expected: map<Path, string>)
    requires forall p :: p in expected && p in tree ==> tree[p].File?
    requires forall d, p :: p in expected && Below(d, p) ==> d !in expected && (d in tree ==> tree[d].Dir?)
    ensures Clear(tree, expected)
  {
  }

  /** A second write changes nothing. */
  lemma SecondWriteChangesNothing(tree: Tree, owner: Owner)
    requires WellFormed(tree) && owner.Sound() && Clear(tree, owner.expected)
    ensures Synced(Synced(tree, owner), owner) == Synced(tree, owner)
  {
    hide Owner.Excludes, Synced, WellFormed, Clear, Below, Lasting, Owner.Owns, Owner.Sound;
    var once := Synced(tree, owner);
    var twice := Synced(once, owner);
    SyncedIsWellFormed(tree, owner);
    forall p ensures p in once <==> p in twice { KeptTwice(tree, owner, p); }
    forall p | p in once ensures once[p] == twice[p] { SameTwice(tree, owner, p); }
  }

  /** What a path of the synced tree holds. */
  function EntryIn(tree: Tree, owner: Owner, p: Path): Entry {
    if p in owner.expected then File(owner.expected[p])
    else if p in tree && !owner.Owns(p) then tree[p]
    else Dir
  }

  lemma SyncedAt(tree: Tree, owner: Owner, p: Path)
    ensures p in Synced(tree, owner) <==> p in Lasting(tree, owner) || exists q :: q in Lasting(tree, owner) && Below(p, q)
    ensures p in Synced(tree, owner) ==> Synced(tree, owner)[p] == EntryIn(tree, owner, p)
  {
    hide Owner.Excludes, Below, Lasting;
  }

  lemma LastingOfSynced(tree: Tree, owner: Owner, p: Path)
    ensures p in Lasting(tree, owner) ==> p in Lasting(Synced(tree, owner), owner)
    ensures p in Lasting(Synced(tree, owner), owner) ==> p in Synced(tree, owner)
  {
    hide Owner.Excludes, Below, Synced, Lasting, Owner.Owns;
    LastingAt(tree, owner, p);
    LastingAt(Synced(tree, owner), owner, p);
    SyncedAt(tree, owner, p);
  }

  lemma KeptTwice(tree: Tree, owner: Owner, p: Path)
    requires WellFormed(Synced(tree, owner))
    ensures p in Synced(tree, owner) <==> p in Synced(Synced(tree, owner), owner)
  {
    hide Owner.Excludes, Below, Synced, Lasting, Owner.Owns, WellFormed;
    var once := Synced(tree, owner);
    SyncedAt(tree, owner, p);
    SyncedAt(once, owner, p);
    LastingOfSynced(tree, owner, p);
    if p in once && p !in Lasting(tree, owner) {
      var q :| q in Lasting(tree, owner) && Below(p, q);
      LastingOfSynced(tree, owner, q);
    }
    if p in Synced(once, owner) && p !in Lasting(once, owner) {
      var q :| q in Lasting(once, owner) && Below(p, q);
      LastingOfSynced(tree, owner, q);
      DirAbove(once, p, q);
    }
  }

  lemma SameTwice(tree: Tree, owner: Owner, p: Path)
    requires p in Synced(tree, owner) && p in Synced(Synced(tree, owner), owner)
    ensures Synced(tree, owner)[p] == Synced(Synced(tree, owner), owner)[p]
  {
    hide Owner.Excludes, Below, Synced, Lasting, Owner.Owns;
    SyncedAt(tree, owner, p);
    SyncedAt(Synced(tree, owner), owner, p);
  }

  // ------------------------------------------------------------------ two owners

  /** Neither owner's root lies in the other's tree, or it does under something that other one excludes. */
  ghost predicate Apart(a: Owner, b: Owner) {
    || a.Excludes(b.root) || b.Excludes(a.root)
    || (!Within(a.root, b.root) && !Within(b.root, a.root))
  }

  lemma NothingIsOwnedTwice(a: Owner, b: Owner, p: Path)
    requires Apart(a, b)
    ensures !(a.Owns(p) && b.Owns(p))
  {
    hide Owner.Excludes;
    if a.Owns(p) && b.Owns(p) {
      BelowIsWithin(a.root, p);
      BelowIsWithin(b.root, p);
      if a.Excludes(b.root) { ExcludesBelow(a, b.root, p); }
      if b.Excludes(a.root) { ExcludesBelow(b, a.root, p); }
      PathsMeet(a.root, b.root, p);
    }
  }

  /** What outlasts both owners' writes. */
  function LastingBoth(tree: Tree, a: Owner, b: Owner): set<Path> {
    (set p | p in tree && !a.Owns(p) && !b.Owns(p)) + a.expected.Keys + b.expected.Keys
  }

  lemma LastingBothAt(tree: Tree, a: Owner, b: Owner, p: Path)
    ensures p in LastingBoth(tree, a, b) <==> (p in tree && !a.Owns(p) && !b.Owns(p)) || p in a.expected || p in b.expected
  {
  }

  /** A directory of one owner's on the way to something of the other's leads to that other's root. */
  lemma WayToTheOther(tree: Tree, a: Owner, b: Owner, p: Path, q: Path)
    requires WellFormed(tree) && Apart(a, b) && a.Owns(p) && q in tree && !a.Owns(q) && b.Owns(q) && Below(p, q)
    ensures Below(p, b.root) && b.root in LastingBoth(tree, a, b)
  {
    hide Owner.Excludes;
    BelowIsWithin(p, q);
    BelowIsWithin(b.root, q);
    BelowIsWithin(a.root, p);
    PathsMeet(b.root, p, q);
    BelowWithin(a.root, p, q);
    BelowIsWithin(a.root, q);
    PathsMeet(a.root, b.root, q);
    if b.Excludes(a.root) { ExcludesBelow(b, a.root, q); }
    if a.Excludes(b.root) && Within(b.root, p) { ExcludesBelow(a, b.root, p); }
    if !a.Excludes(b.root) { RootsAreRelated(a, b); }
    DirAbove(tree, b.root, q);
    LastingBothAt(tree, a, b, b.root);
  }

  lemma RootsAreRelated(a: Owner, b: Owner)
    requires Apart(a, b)
    ensures Within(a.root, b.root) || Below(b.root, a.root) ==> a.Excludes(b.root) || b.Excludes(a.root)
  {
    hide Owner.Excludes;
    if Below(b.root, a.root) { BelowIsWithin(b.root, a.root); }
  }

  lemma LastsInTurn(tree: Tree, a: Owner, b: Owner, p: Path)
    requires WellFormed(tree) && a.Sound() && b.Sound() && Apart(a, b)
    ensures p in LastingBoth(tree, a, b) ==> p in Lasting(Synced(tree, a), b)
    ensures p in Lasting(Synced(tree, a), b) ==>
              p in LastingBoth(tree, a, b) || exists q :: q in LastingBoth(tree, a, b) && Below(p, q)
  {
    hide Owner.Excludes, Below, Synced, Lasting, Owner.Owns, WellFormed, LastingBoth, Apart;
    var once := Synced(tree, a);
    LastingAt(once, b, p);
    LastingAt(tree, a, p);
    LastingBothAt(tree, a, b, p);
    SyncedAt(tree, a, p);
    NothingIsOwnedTwice(a, b, p);
    if p in Lasting(once, b) && p !in LastingBoth(tree, a, b) {
      var q :| q in Lasting(tree, a) && Below(p, q);
      LastingAt(tree, a, q);
      LastingBothAt(tree, a, b, q);
      if q !in LastingBoth(tree, a, b) {
        DirAbove(tree, p, q);
        WayToTheOther(tree, a, b, p, q);
      }
    }
  }

  /** The tree both owners' writes leave, in either order. */
  ghost predicate IsSyncedBoth(after: Tree, tree: Tree, a: Owner, b: Owner) {
    && (forall p :: p in after <==> p in LastingBoth(tree, a, b) || exists q :: q in LastingBoth(tree, a, b) && Below(p, q))
    && (forall p :: p in after ==> after[p] == EntryInBoth(tree, a, b, p))
  }

  function EntryInBoth(tree: Tree, a: Owner, b: Owner, p: Path): Entry {
    if p in a.expected then File(a.expected[p])
    else if p in b.expected then File(b.expected[p])
    else if p in tree && !a.Owns(p) && !b.Owns(p) then tree[p]
    else Dir
  }

  lemma InTurnIsBoth(tree: Tree, a: Owner, b: Owner)
    requires WellFormed(tree) && a.Sound() && b.Sound() && Apart(a, b)
    ensures IsSyncedBoth(Synced(Synced(tree, a), b), tree, a, b)
  {
    hide Owner.Excludes, Below, Synced, Lasting, Owner.Owns, WellFormed, LastingBoth, Apart, EntryInBoth, Owner.Sound;
    var once := Synced(tree, a);
    var twice := Synced(once, b);
    forall p
      ensures p in twice <==> p in LastingBoth(tree, a, b) || exists q :: q in LastingBoth(tree, a, b) && Below(p, q)
    {
      KeptInTurn(tree, a, b, p);
    }
    forall p | p in twice ensures twice[p] == EntryInBoth(tree, a, b, p) { EntryInTurn(tree, a, b, p); }
  }

  lemma KeptInTurn(tree: Tree, a: Owner, b: Owner, p: Path)
    requires WellFormed(tree) && a.Sound() && b.Sound() && Apart(a, b)
    ensures p in Synced(Synced(tree, a), b) <==>
            p in LastingBoth(tree, a, b) || exists q :: q in LastingBoth(tree, a, b) && Below(p, q)
  {
    hide Owner.Excludes, Below, Synced, Lasting, Owner.Owns, WellFormed, LastingBoth, Apart, Owner.Sound;
    var once := Synced(tree, a);
    SyncedAt(once, b, p);
    LastsInTurn(tree, a, b, p);
    if q :| q in Lasting(once, b) && Below(p, q) {
      LastsInTurn(tree, a, b, q);
      if q !in LastingBoth(tree, a, b) {
        var r :| r in LastingBoth(tree, a, b) && Below(q, r);
        BelowIsWithin(q, r);
        BelowWithin(p, q, r);
      }
    }
    if q :| q in LastingBoth(tree, a, b) && Below(p, q) { LastsInTurn(tree, a, b, q); }
  }

  lemma EntryInTurn(tree: Tree, a: Owner, b: Owner, p: Path)
    requires a.Sound() && b.Sound() && Apart(a, b) && p in Synced(Synced(tree, a), b)
    ensures Synced(Synced(tree, a), b)[p] == EntryInBoth(tree, a, b, p)
  {
    hide Owner.Excludes, Below, Synced, Lasting, Owner.Owns, Apart;
    SyncedAt(tree, a, p);
    SyncedAt(Synced(tree, a), b, p);
    LastingAt(tree, a, p);
    NothingIsOwnedTwice(a, b, p);
  }

  /** Two owners whose roots nest only through an exclusion write the same tree in either order. */
  lemma OwnersCommute(tree: Tree, a: Owner, b: Owner)
    requires WellFormed(tree) && a.Sound() && b.Sound() && Apart(a, b)
    ensures Synced(Synced(tree, a), b) == Synced(Synced(tree, b), a)
  {
    hide Owner.Excludes, Below, Synced, Owner.Owns, WellFormed, IsSyncedBoth, Owner.Sound;
    InTurnIsBoth(tree, a, b);
    InTurnIsBoth(tree, b, a);
    BothIsSymmetric(Synced(Synced(tree, a), b), Synced(Synced(tree, b), a), tree, a, b);
  }

  lemma BothIsSymmetric(one: Tree, other: Tree, tree: Tree, a: Owner, b: Owner)
    requires a.Sound() && b.Sound() && Apart(a, b) && IsSyncedBoth(one, tree, a, b) && IsSyncedBoth(other, tree, b, a)
    ensures one == other
  {
    hide Owner.Excludes, Below, Owner.Owns, LastingBoth, Apart;
    assert LastingBoth(tree, a, b) == LastingBoth(tree, b, a) by { LastingIsSymmetric(tree, a, b); }
    forall p | p in one ensures one[p] == other[p] { NothingIsOwnedTwice(a, b, p); }
  }

  lemma LastingIsSymmetric(tree: Tree, a: Owner, b: Owner)
    ensures LastingBoth(tree, a, b) == LastingBoth(tree, b, a)
  {
    hide Owner.Excludes, Below, Owner.Owns;
  }

  /** Both writes go through, one after the other. */
  ghost predicate GoThrough(tree: Tree, first: Owner, second: Owner) {
    Clear(tree, first.expected) && Clear(Synced(tree, first), second.expected)
  }

  /** No file of one owner's stands where the other needs a directory. */
  ghost predicate OutOfTheWay(a: Owner, b: Owner) {
    forall p, q :: p in a.expected && q in b.expected ==> !Below(p, q) && !Below(q, p)
  }

  /** Whether the writes go through does not depend on their order exactly when each goes through alone and
      their files are out of each other's way. */
  lemma EitherOrderGoesThrough(tree: Tree, a: Owner, b: Owner)
    requires WellFormed(tree) && a.Sound() && b.Sound() && Apart(a, b)
    ensures GoThrough(tree, a, b) && GoThrough(tree, b, a)
            <==> Clear(tree, a.expected) && Clear(tree, b.expected) && OutOfTheWay(a, b)
  {
    hide Owner.Excludes, Below, Synced, WellFormed, Apart, Clear;
    if GoThrough(tree, a, b) && GoThrough(tree, b, a) {
      forall p, q | p in a.expected && q in b.expected ensures !Below(p, q) && !Below(q, p) {
        NotAbove(tree, a, b, p, q);
        NotAbove(tree, b, a, q, p);
      }
    }
    if Clear(tree, a.expected) && Clear(tree, b.expected) && OutOfTheWay(a, b) {
      StillClear(tree, a, b);
      ApartIsSymmetric(a, b);
      StillClear(tree, b, a);
    }
  }

  lemma NotAbove(tree: Tree, a: Owner, b: Owner, p: Path, q: Path)
    requires Clear(Synced(tree, a), b.expected) && p in a.expected && q in b.expected
    ensures !Below(p, q)
  {
    hide Below, Owner.Owns, Synced;
    SyncedAt(tree, a, p);
  }

  lemma ApartIsSymmetric(a: Owner, b: Owner)
    requires Apart(a, b)
    ensures Apart(b, a)
  {
  }

  lemma StillClear(tree: Tree, a: Owner, b: Owner)
    requires WellFormed(tree) && a.Sound() && b.Sound() && Apart(a, b)
    requires Clear(tree, b.expected) && OutOfTheWay(a, b)
    ensures Clear(Synced(tree, a), b.expected)
  {
    hide Owner.Excludes, Owner.Owns, Below, Synced, Apart, Lasting;
    var after := Synced(tree, a);
    forall p | p in b.expected && p in after ensures after[p].File? {
      NothingIsOwnedTwice(a, b, p);
      ForeignIsUntouched(tree, a, p);
      if p !in tree {
        var q :| q in Lasting(tree, a) && Below(p, q);
        LastingAt(tree, a, q);
      }
    }
    forall d, p | p in b.expected && Below(d, p) ensures d !in b.expected && (d in after ==> after[d].Dir?) {
      SyncedAt(tree, a, d);
    }
    ClearBy(after, b.expected);
  }

  /** A stale file of one owner's can block the other until the first has been written. */
  lemma OrderCanMatter(x: Name, b: Name, f: Name, stale: string, wanted: string)
    ensures var tree: Tree := map[[] := Dir, [x] := File(stale)];
            var outer, nested := Owner([], map[], {[x, b]}), Owner([x, b], map[[x, b, f] := wanted], {});
            && WellFormed(tree) && outer.Sound() && nested.Sound() && Apart(outer, nested)
            && GoThrough(tree, outer, nested) && !GoThrough(tree, nested, outer)
  {
    hide Synced;
    var tree: Tree := map[[] := Dir, [x] := File(stale)];
    var outer, nested := Owner([], map[], {[x, b]}), Owner([x, b], map[[x, b, f] := wanted], {});
    assert Within([x, b], nested.root);
    assert outer.Excludes(nested.root);
    assert nested.Owns([x, b, f]);
    assert Below([x], [x, b, f]);
    assert !Clear(tree, nested.expected);
    assert outer.Owns([x]);
    forall p | p in Synced(tree, outer) ensures p == [] && Synced(tree, outer)[p] == Dir {
      SyncedAt(tree, outer, p);
    }
  }
}
