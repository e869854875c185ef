/** Excluded paths as they are written: relative, with `/` between names (xtask/src/main.rs:850-854). */
module Exclusions {
  import opened Trees
  import opened Sync

  predicate PlainName(name: Name) { name.text != [] && forall i :: 0 <= i < |name.text| ==> name.text[i] != '/' }

  ghost predicate PlainPath(p: Path) { p != [] && forall i :: 0 <= i < |p| ==> PlainName(p[i]) }

  /** A path as it is written. */
  function Text(p: Path): string
    requires p != []
  {
    if |p| == 1 then p[0].text else p[0].text + "/" + Text(p[1..])
  }

  /** Whether `path` is `entry` or is written inside it. */
  predicate Matches(path: string, entry: string) { path == entry || entry + "/" <= path }

  method IsExcluded(path: string, excluded: seq<string>) returns (found: bool)
    ensures found <==> exists i :: 0 <= i < |excluded| && Matches(path, excluded[i])
  {
    for i := 0 to |excluded|
      invariant forall j :: 0 <= j < i ==> !Matches(path, excluded[j])
    {
      if Matches(path, excluded[i]) { return true; }
    }
    return false;
  }

  function Slashed(p: Path): string {
    if p == [] then [] else p[0].text + "/" + Slashed(p[1..])
  }

  lemma {:induction false} TextIsSlashed(p: Path)
    requires p != []
    ensures Text(p) + "/" == Slashed(p)
  {
    if |p| == 1 {
      assert p[1..] == [];
    } else {
      TextIsSlashed(p[1..]);
      assert p[0].text + "/" + Text(p[1..]) + "/" == p[0].text + "/" + (Text(p[1..]) + "/");
    }
  }

  lemma FirstNames(a: string, x: string, b: string, y: string)
    requires (forall i :: 0 <= i < |a| ==> a[i] != '/') && (forall i :: 0 <= i < |b| ==> b[i] != '/')
    requires a + "/" + x <= b + "/" + y
    ensures a == b && x <= y
  {
    var short, long := a + "/" + x, b + "/" + y;
    assert short[|a|] == '/' && long[|b|] == '/' && long[|a|] == short[|a|];
    assert forall i :: 0 <= i < |b| ==> long[i] == b[i];
    assert forall i :: 0 <= i < |a| ==> long[i] == short[i] == a[i];
    assert |a| == |b|;
    assert long[..|a|] == a && long[..|b|] == b;
    assert short[|a| + 1..] == x && long[|b| + 1..] == y;
  }

  lemma {:induction false} SlashedPrefix(e: Path, p: Path)
    requires (forall i :: 0 <= i < |e| ==> PlainName(e[i])) && (forall i :: 0 <= i < |p| ==> PlainName(p[i]))
    ensures Slashed(e) <= Slashed(p) <==> Within(e, p)
    decreases |e|
  {
    if e != [] && p != [] {
      SlashedPrefix(e[1..], p[1..]);
      if Slashed(e) <= Slashed(p) {
        FirstNames(e[0].text, Slashed(e[1..]), p[0].text, Slashed(p[1..]));
        assert p[..|e|] == [p[0]] + p[1..][..|e| - 1];
      }
      if Within(e, p) {
        assert p[1..][..|e| - 1] == p[..|e|][1..] == e[1..] && p[..|e|][0] == p[0];
        assert Slashed(p) == e[0].text + "/" + Slashed(p[1..]);
      }
    } else if e != [] {
      assert Slashed(p) == [] && |Slashed(e)| > 0;
    }
  }

  /** Written paths match exactly when one lies within the other: `ab` is not inside `a`. */
  lemma MatchesIsWithin(path: Path, entry: Path)
    requires PlainPath(path) && PlainPath(entry)
    ensures Matches(Text(path), Text(entry)) <==> Within(entry, path)
  {
    hide Text, Slashed, Within;
    TextIsSlashed(path);
    TextIsSlashed(entry);
    SlashedPrefix(entry, path);
    PrefixBeforeSlash(Text(entry), Text(path));
  }

  lemma PrefixBeforeSlash(e: string, p: string)
    ensures e + "/" <= p + "/" <==> p == e || e + "/" <= p
  {
    var slashed, path := e + "/", p + "/";
    assert path[..|p|] == p && slashed[..|e|] == e;
    if slashed <= path {
      if |e| == |p| {
        assert path[..|e|] == slashed[..|e|];
      } else {
        assert path[..|slashed|] == p[..|slashed|];
      }
    }
    if slashed <= p { assert path[..|slashed|] == p[..|slashed|]; }
  }

  /** Entries as they are written. */
  ghost function Written(entries: seq<Path>): (texts: seq<string>)
    requires forall i :: 0 <= i < |entries| ==> PlainPath(entries[i])
    ensures |texts| == |entries| && forall i :: 0 <= i < |texts| ==> PlainPath(entries[i]) && texts[i] == Text(entries[i])
  {
    seq(|entries|, i requires 0 <= i < |entries| => assert PlainPath(entries[i]); Text(entries[i]))
  }

  /** The textual test on paths relative to a root is what an owner with that root excludes. */
  lemma ExcludesByText(owner: Owner, entries: seq<Path>, path: Path)
    requires PlainPath(path) && forall i :: 0 <= i < |entries| ==> PlainPath(entries[i])
    requires owner.excluded == set i | 0 <= i < |entries| :: owner.root + entries[i]
    ensures owner.Excludes(owner.root + path) <==>
            exists i :: 0 <= i < |entries| && Matches(Text(path), Written(entries)[i])
  {
    hide Text, Within, Matches, PlainName;
    forall i | 0 <= i < |entries|
      ensures Within(owner.root + entries[i], owner.root + path) <==> Matches(Text(path), Written(entries)[i])
    {
      MatchesIsWithin(path, entries[i]);
      WithinUnderRoot(owner.root, entries[i], path);
    }
    if owner.Excludes(owner.root + path) {
      var e :| e in owner.excluded && Within(e, owner.root + path);
      var i :| 0 <= i < |entries| && e == owner.root + entries[i];
    }
    if i :| 0 <= i < |entries| && Matches(Text(path), Written(entries)[i]) {
      assert owner.root + entries[i] in owner.excluded;
    }
  }

  lemma WithinUnderRoot(root: Path, entry: Path, path: Path)
    ensures Within(root + entry, root + path) <==> Within(entry, path)
  {
    if |entry| <= |path| { assert (root + path)[..|root| + |entry|] == root + path[..|entry|]; }
    if Within(root + entry, root + path) { assert (root + entry)[|root|..] == entry && (root + path[..|entry|])[|root|..] == path[..|entry|]; }
  }
}
