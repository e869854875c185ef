/** A file tree as a value: what every path holds (xtask/src/main.rs works on one through `std::fs`). */
module Trees {
  datatype Name = Name(text: string)

  type Path = seq<Name>

  datatype Entry = File(contents: string) | Dir

  type Tree = map<Path, Entry>

  /** `p` is `d` or somewhere below it. */
  predicate Within(d: Path, p: Path) { |d| <= |p| && p[..|d|] == d }

  /** `p` is somewhere below `d`. */
  predicate Below(d: Path, p: Path) { |d| < |p| && p[..|d|] == d }

  function Parent(p: Path): Path
    requires p != []
  {
    p[..|p| - 1]
  }

  lemma WithinIsTransitive(a: Path, b: Path, c: Path)
    requires Within(a, b) && Within(b, c)
    ensures Within(a, c)
  {
    assert c[..|b|][..|a|] == c[..|a|];
  }

  lemma BelowWithin(a: Path, b: Path, c: Path)
    requires (Below(a, b) && Within(b, c)) || (Within(a, b) && Below(b, c))
    ensures Below(a, c)
  {
    assert c[..|b|][..|a|] == c[..|a|];
  }

  /** Two paths to the same place lie on one line. */
  lemma PathsMeet(a: Path, b: Path, c: Path)
    requires Within(a, c) && Within(b, c)
    ensures Within(a, b) || Below(b, a)
  {
    if |a| <= |b| { assert c[..|b|][..|a|] == c[..|a|]; } else { assert c[..|a|][..|b|] == c[..|b|]; }
  }

  lemma BelowParent(d: Path, p: Path)
    requires Below(d, p)
    ensures Within(d, Parent(p))
  {
    assert p[..|p| - 1][..|d|] == p[..|d|];
  }

  lemma ParentAbove(p: Path)
    requires p != []
    ensures Below(Parent(p), p)
  {
  }

  /** There is a root directory, and whatever is there is in directories all the way up. */
  ghost predicate WellFormed(tree: Tree) {
    && [] in tree && tree[[]].Dir?
    && forall d, p :: p in tree && Below(d, p) ==> d in tree && tree[d].Dir?
  }

  /** Every directory on the way to some path of a set. */
  function Above(paths: set<Path>): (dirs: set<Path>)
    ensures forall d :: d in dirs <==> exists p :: p in paths && Below(d, p)
  {
    var dirs := set p, n | p in paths && 0 <= n < |p| :: p[..n];
    assert forall d, p :: p in paths && Below(d, p) ==> d == p[..|d|] && d in dirs;
    dirs
  }
}
