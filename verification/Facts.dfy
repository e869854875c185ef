/** Projecting a graph into facts (`facts`, crates/aep-domain/src/artifact.rs). */
module Facts {
  import opened Wrappers
  import opened ArtifactKinds
  import opened ArtifactGraphs

  /** The last segments of a path below `artifact.<kind>`; `CountOf(s)` is `<s>.count`. */
  datatype Leaf = Exists | Total | Approved | CountOf(segment: string)

  /** `artifact.total`, or `artifact.<kind>.<leaf>`. */
  datatype FactPath = ArtifactTotal | KindFact(kind: string, leaf: Leaf)

  datatype FactValue = Flag(flag: bool) | Count(count: nat)

  // ------------------------------------------------------------------ what is to be counted

  /** The artifact is some kind written `name`. */
  ghost predicate HasName(a: Artifact, name: string) {
    exists i :: 0 <= i < |Lineage(a.kind)| && Lineage(a.kind)[i].AsStr() == name
  }

  ghost function Named(g: Graph, ids: set<ArtifactId>, name: string): set<ArtifactId> {
    set id | id in ids && id in g && HasName(g[id], name)
  }

  /** The statuses that count as approval. */
  ghost predicate Ratified(status: ArtifactStatus) {
    status in {ArtifactStatus.Approved, Accepted, Active, Implemented}
  }

  ghost function NamedApproved(g: Graph, ids: set<ArtifactId>, name: string): set<ArtifactId> {
    set id | id in ids && id in g && HasName(g[id], name) && Ratified(g[id].status)
  }

  ghost function NamedWithStatus(g: Graph, ids: set<ArtifactId>, name: string, status: ArtifactStatus): set<ArtifactId> {
    set id | id in ids && id in g && HasName(g[id], name) && g[id].status == status
  }

  /** The artifacts that satisfy a requirement for `kind`. */
  ghost function OfKind(g: Graph, kind: ArtifactKind): set<ArtifactId> {
    set id | id in g && kind in Lineage(g[id].kind)
  }

  /** What the projection says at a path, in terms of the artifacts themselves: a status count wins
      over the approval count wherever both claim the path. */
  ghost function FactAt(g: Graph, path: FactPath): Option<FactValue> {
    match path
    case ArtifactTotal => Some(Count(|g|))
    case KindFact(name, leaf) =>
      if Named(g, g.Keys, name) == {} then None
      else
        match leaf
        case Exists => Some(Flag(true))
        case Total => Some(Count(|Named(g, g.Keys, name)|))
        case Approved => Some(Flag(exists id :: id in Named(g, g.Keys, name) && Ratified(g[id].status)))
        case CountOf(segment) =>
          if exists s: ArtifactStatus :: s.AsStr() == segment && NamedWithStatus(g, g.Keys, name, s) != {} then
            var s: ArtifactStatus :| s.AsStr() == segment && NamedWithStatus(g, g.Keys, name, s) != {};
            Some(Count(|NamedWithStatus(g, g.Keys, name, s)|))
          else if segment == "approved" then Some(Count(|NamedApproved(g, g.Keys, name)|))
          else None
  }

  // ------------------------------------------------------------------ counting maps

  function At<K>(m: map<K, nat>, key: K): nat {
    if key in m then m[key] else 0
  }

  /** `*m.entry(key).or_default() += 1` for each key in turn. */
  function Bump<K>(m: map<K, nat>, keys: seq<K>): map<K, nat> {
    if keys == [] then m
    else
      var before := Bump(m, keys[..|keys| - 1]);
      before[keys[|keys| - 1] := At(before, keys[|keys| - 1]) + 1]
  }

  /** Counts of zero are never stored. */
  ghost predicate NoZeroes<K>(m: map<K, nat>) {
    forall k :: k in m ==> m[k] > 0
  }

  lemma {:induction false} BumpDistinct<K>(m: map<K, nat>, keys: seq<K>, key: K)
    requires Distinct(keys)
    ensures At(Bump(m, keys), key) == At(m, key) + if key in keys then 1 else 0
    ensures NoZeroes(m) ==> NoZeroes(Bump(m, keys))
  {
    if keys != [] {
      var most := keys[..|keys| - 1];
      assert keys == most + [keys[|keys| - 1]];
      BumpDistinct(m, most, key);
      BumpDistinct(m, most, keys[|keys| - 1]);
    }
  }

  lemma BumpNone<K>(m: map<K, nat>, keys: seq<K>)
    ensures Bump(m, keys[..0]) == m
  {
  }

  lemma BumpNext<K>(m: map<K, nat>, keys: seq<K>, i: nat)
    requires i < |keys|
    ensures Bump(m, keys[..i + 1]) == Bump(m, keys[..i])[keys[i] := At(Bump(m, keys[..i]), keys[i]) + 1]
  {
    assert keys[..i + 1][..i] == keys[..i];
  }

  function Keys(lineage: seq<ArtifactKind>): (keys: seq<string>)
    ensures |keys| == |lineage| && forall i :: 0 <= i < |keys| ==> keys[i] == lineage[i].AsStr()
  {
    seq(|lineage|, i requires 0 <= i < |lineage| => lineage[i].AsStr())
  }

  function Paired(keys: seq<string>, status: ArtifactStatus): (pairs: seq<(string, ArtifactStatus)>)
    ensures |pairs| == |keys| && forall i :: 0 <= i < |keys| ==> pairs[i] == (keys[i], status)
  {
    seq(|keys|, i requires 0 <= i < |keys| => (keys[i], status))
  }

  /** The three maps hold the counts of the artifacts in `ids`. */
  ghost predicate Tallied(g: Graph, ids: set<ArtifactId>, counts: map<string, nat>, approved: map<string, nat>,
                          byStatus: map<(string, ArtifactStatus), nat>) {
    && NoZeroes(counts) && NoZeroes(approved) && NoZeroes(byStatus)
    && (forall name :: At(counts, name) == |Named(g, ids, name)|)
    && (forall name :: At(approved, name) == |NamedApproved(g, ids, name)|)
    && (forall name, status :: At(byStatus, (name, status)) == |NamedWithStatus(g, ids, name, status)|)
  }

  lemma KeysAreNames(a: Artifact, name: string)
    ensures name in Keys(Lineage(a.kind)) <==> HasName(a, name)
    ensures Distinct(Keys(Lineage(a.kind)))
  {
    LineageNamesAreDistinct(a.kind);
  }

  lemma OneMore(g: Graph, ids: set<ArtifactId>, id: ArtifactId, name: string, status: ArtifactStatus)
    requires id in g && id !in ids
    ensures Named(g, ids + {id}, name) == Named(g, ids, name) + if HasName(g[id], name) then {id} else {}
    ensures NamedApproved(g, ids + {id}, name) ==
            NamedApproved(g, ids, name) + if HasName(g[id], name) && g[id].status.IsApproved() then {id} else {}
    ensures NamedWithStatus(g, ids + {id}, name, status) ==
            NamedWithStatus(g, ids, name, status) + if HasName(g[id], name) && g[id].status == status then {id} else {}
  {
  }

  lemma TallyOne(g: Graph, ids: set<ArtifactId>, id: ArtifactId, counts: map<string, nat>, approved: map<string, nat>,
                 byStatus: map<(string, ArtifactStatus), nat>)
    requires id in g && id !in ids && Tallied(g, ids, counts, approved, byStatus)
    ensures var keys := Keys(Lineage(g[id].kind)); var status := g[id].status;
            Tallied(g, ids + {id}, Bump(counts, keys), if status.IsApproved() then Bump(approved, keys) else approved,
                    Bump(byStatus, Paired(keys, status)))
  {
    var keys := Keys(Lineage(g[id].kind));
    var status := g[id].status;
    KeysAreNames(g[id], "");
    forall name ensures At(Bump(counts, keys), name) == |Named(g, ids + {id}, name)| {
      KeysAreNames(g[id], name);
      BumpDistinct(counts, keys, name);
      OneMore(g, ids, id, name, status);
    }
    BumpDistinct(counts, keys, "");
    TallyApproved(g, ids, id, approved);
    TallyStatus(g, ids, id, byStatus);
  }

  lemma TallyApproved(g: Graph, ids: set<ArtifactId>, id: ArtifactId, approved: map<string, nat>)
    requires id in g && id !in ids && NoZeroes(approved)
    requires forall name :: At(approved, name) == |NamedApproved(g, ids, name)|
    ensures var after := if g[id].status.IsApproved() then Bump(approved, Keys(Lineage(g[id].kind))) else approved;
            NoZeroes(after) && forall name :: At(after, name) == |NamedApproved(g, ids + {id}, name)|
  {
    var keys := Keys(Lineage(g[id].kind));
    var after := if g[id].status.IsApproved() then Bump(approved, keys) else approved;
    KeysAreNames(g[id], "");
    BumpDistinct(approved, keys, "");
    forall name ensures At(after, name) == |NamedApproved(g, ids + {id}, name)| {
      KeysAreNames(g[id], name);
      BumpDistinct(approved, keys, name);
      OneMore(g, ids, id, name, g[id].status);
    }
  }

  lemma PairedKeys(keys: seq<string>, held: ArtifactStatus, name: string, status: ArtifactStatus)
    ensures (name, status) in Paired(keys, held) <==> name in keys && status == held
  {
    var pairs := Paired(keys, held);
    if name in keys && status == held {
      var i :| 0 <= i < |keys| && keys[i] == name;
      assert pairs[i] == (name, status);
    }
  }

  lemma PairsAreDistinct(keys: seq<string>, held: ArtifactStatus)
    requires Distinct(keys)
    ensures Distinct(Paired(keys, held))
  {
  }

  lemma TallyStatusOne(g: Graph, ids: set<ArtifactId>, id: ArtifactId, byStatus: map<(string, ArtifactStatus), nat>,
                       name: string, status: ArtifactStatus)
    requires id in g && id !in ids
    requires At(byStatus, (name, status)) == |NamedWithStatus(g, ids, name, status)|
    ensures At(Bump(byStatus, Paired(Keys(Lineage(g[id].kind)), g[id].status)), (name, status))
            == |NamedWithStatus(g, ids + {id}, name, status)|
  {
    hide Bump, Paired, Keys, Lineage, HasName, Distinct;
    var keys, held := Keys(Lineage(g[id].kind)), g[id].status;
    KeysAreNames(g[id], name);
    PairsAreDistinct(keys, held);
    PairedKeys(keys, held, name, status);
    BumpDistinct(byStatus, Paired(keys, held), (name, status));
    OneMore(g, ids, id, name, status);
  }

  lemma TallyStatus(g: Graph, ids: set<ArtifactId>, id: ArtifactId, byStatus: map<(string, ArtifactStatus), nat>)
    requires id in g && id !in ids && NoZeroes(byStatus)
    requires forall name, status :: At(byStatus, (name, status)) == |NamedWithStatus(g, ids, name, status)|
    ensures var after := Bump(byStatus, Paired(Keys(Lineage(g[id].kind)), g[id].status));
            NoZeroes(after) && forall name, status :: At(after, (name, status)) == |NamedWithStatus(g, ids + {id}, name, status)|
  {
    hide Bump, Paired, Keys, Lineage, HasName, Distinct, NamedWithStatus, NoZeroes, At;
    var keys, held := Keys(Lineage(g[id].kind)), g[id].status;
    KeysAreNames(g[id], "");
    PairsAreDistinct(keys, held);
    BumpDistinct(byStatus, Paired(keys, held), ("", held));
    forall name, status
      ensures At(Bump(byStatus, Paired(keys, held)), (name, status)) == |NamedWithStatus(g, ids + {id}, name, status)|
    {
      TallyStatusOne(g, ids, id, byStatus, name, status);
    }
  }

  lemma NothingTallied(g: Graph)
    ensures Tallied(g, {}, map[], map[], map[])
  {
  }

  /** The counting loops of `facts`: every artifact bumps one entry per kind it is. */
  method Tally(g: Graph)
    returns (counts: map<string, nat>, approved: map<string, nat>, byStatus: map<(string, ArtifactStatus), nat>)
    ensures Tallied(g, g.Keys, counts, approved, byStatus)
  {
    hide Tallied, Bump, Keys, Paired, Lineage;
    counts, approved, byStatus := map[], map[], map[];
    var pending := g.Keys;
    NothingTallied(g);
    assert g.Keys - pending == {};
    while pending != {}
      invariant pending <= g.Keys
      invariant Tallied(g, g.Keys - pending, counts, approved, byStatus)
      decreases pending
    {
      var id :| id in pending;
      TallyOne(g, g.Keys - pending, id, counts, approved, byStatus);
      counts, approved, byStatus := TallyLineage(g[id], counts, approved, byStatus);
      assert g.Keys - (pending - {id}) == g.Keys - pending + {id};
      pending := pending - {id};
    }
    assert g.Keys - pending == g.Keys;
  }

  method TallyLineage(a: Artifact, counts0: map<string, nat>, approved0: map<string, nat>,
                      byStatus0: map<(string, ArtifactStatus), nat>)
    returns (counts: map<string, nat>, approved: map<string, nat>, byStatus: map<(string, ArtifactStatus), nat>)
    ensures counts == Bump(counts0, Keys(Lineage(a.kind)))
    ensures approved == if a.status.IsApproved() then Bump(approved0, Keys(Lineage(a.kind))) else approved0
    ensures byStatus == Bump(byStatus0, Paired(Keys(Lineage(a.kind)), a.status))
  {
    hide Bump, At, Lineage, Keys, Paired;
    counts, approved, byStatus := counts0, approved0, byStatus0;
    var lineage := LineageOf(a.kind);
    ghost var keys := Keys(lineage);
    ghost var pairs := Paired(keys, a.status);
    BumpNone(counts0, keys); BumpNone(approved0, keys); BumpNone(byStatus0, pairs);
    var i := 0;
    while i < |lineage|
      invariant 0 <= i <= |lineage|
      invariant counts == Bump(counts0, keys[..i])
      invariant approved == if a.status.IsApproved() then Bump(approved0, keys[..i]) else approved0
      invariant byStatus == Bump(byStatus0, pairs[..i])
    {
      var key := lineage[i].AsStr();
      BumpNext(counts0, keys, i); BumpNext(approved0, keys, i); BumpNext(byStatus0, pairs, i);
      counts := counts[key := At(counts, key) + 1];
      byStatus := byStatus[(key, a.status) := At(byStatus, (key, a.status)) + 1];
      if a.status.IsApproved() {
        approved := approved[key := At(approved, key) + 1];
      }
      i := i + 1;
    }
    assert keys[..i] == keys && pairs[..i] == pairs;
  }

  // ------------------------------------------------------------------ emitting the facts

  function Get<K, V>(m: map<K, V>, key: K): Option<V> {
    if key in m then Some(m[key]) else None
  }

  /** What the first emitting loop binds below a kind, when it has been through `names`. */
  function CountedAt(total: nat, counts: map<string, nat>, approved: map<string, nat>, names: set<string>,
                     path: FactPath): Option<FactValue> {
    match path
    case ArtifactTotal => Some(Count(total))
    case KindFact(name, leaf) =>
      if name !in names then None
      else
        match leaf
        case Exists => Some(Flag(true))
        case Total => Some(Count(At(counts, name)))
        case Approved => Some(Flag(At(approved, name) > 0))
        case CountOf(segment) => if segment == "approved" then Some(Count(At(approved, name))) else None
  }

  method EmitCounts(total: nat, counts: map<string, nat>, approved: map<string, nat>)
    returns (store: map<FactPath, FactValue>)
    ensures forall path :: Get(store, path) == CountedAt(total, counts, approved, counts.Keys, path)
  {
    store := map[ArtifactTotal := Count(total)];
    var pending := counts.Keys;
    while pending != {}
      invariant pending <= counts.Keys
      invariant forall path :: Get(store, path) == CountedAt(total, counts, approved, counts.Keys - pending, path)
      decreases pending
    {
      var name :| name in pending;
      ghost var done, was := counts.Keys - pending, store;
      pending := pending - {name};
      assert counts.Keys - pending == done + {name};
      store := store[KindFact(name, Exists) := Flag(true)];
      store := store[KindFact(name, Total) := Count(counts[name])];
      store := store[KindFact(name, Leaf.Approved) := Flag(At(approved, name) > 0)];
      store := store[KindFact(name, CountOf("approved")) := Count(At(approved, name))];
      forall path ensures Get(store, path) == CountedAt(total, counts, approved, done + {name}, path) {
        assert Get(was, path) == CountedAt(total, counts, approved, done, path);
        if path.KindFact? && path.kind == name {
          assert CountedAt(total, counts, approved, done, path) == None;
        }
      }
    }
    assert counts.Keys - pending == counts.Keys;
  }

  lemma StatusNamesAreDistinct(s: ArtifactStatus, t: ArtifactStatus)
    ensures s.AsStr() == t.AsStr() ==> s == t
  {
  }

  ghost predicate StatusClaims(byStatus: map<(string, ArtifactStatus), nat>, done: set<(string, ArtifactStatus)>,
                               path: FactPath, key: (string, ArtifactStatus)) {
    key in done && key in byStatus && path == KindFact(key.0, CountOf(key.1.AsStr()))
  }

  /** The second emitting loop: every status count is written over whatever was there. */
  method EmitStatuses(before: map<FactPath, FactValue>, byStatus: map<(string, ArtifactStatus), nat>)
    returns (store: map<FactPath, FactValue>)
    ensures forall path, key :: StatusClaims(byStatus, byStatus.Keys, path, key) ==> Get(store, path) == Some(Count(byStatus[key]))
    ensures forall path :: (forall key :: !StatusClaims(byStatus, byStatus.Keys, path, key)) ==> Get(store, path) == Get(before, path)
  {
    store := before;
    var pending := byStatus.Keys;
    while pending != {}
      invariant pending <= byStatus.Keys
      invariant forall path, key :: StatusClaims(byStatus, byStatus.Keys - pending, path, key) ==>
                  Get(store, path) == Some(Count(byStatus[key]))
      invariant forall path :: (forall key :: !StatusClaims(byStatus, byStatus.Keys - pending, path, key)) ==>
                  Get(store, path) == Get(before, path)
      decreases pending
    {
      var key :| key in pending;
      ghost var done := byStatus.Keys - pending;
      pending := pending - {key};
      ghost var was := store;
      ghost var here := KindFact(key.0, CountOf(key.1.AsStr()));
      store := store[KindFact(key.0, CountOf(key.1.AsStr())) := Count(byStatus[key])];
      forall path, k | StatusClaims(byStatus, byStatus.Keys - pending, path, k)
        ensures Get(store, path) == Some(Count(byStatus[k]))
      {
        if k != key {
          assert StatusClaims(byStatus, done, path, k);
          StatusNamesAreDistinct(k.1, key.1);
        }
      }
      forall path | forall k :: !StatusClaims(byStatus, byStatus.Keys - pending, path, k)
        ensures Get(store, path) == Get(before, path)
      {
        assert !StatusClaims(byStatus, byStatus.Keys - pending, path, key);
        forall k ensures !StatusClaims(byStatus, done, path, k) {
          assert !StatusClaims(byStatus, byStatus.Keys - pending, path, k);
        }
      }
    }
    assert byStatus.Keys - pending == byStatus.Keys;
  }

  /** The store `facts` returns binds exactly the paths `FactAt` names, to exactly those values. */
  method FactsOf(g: Graph) returns (store: map<FactPath, FactValue>)
    ensures forall path :: Get(store, path) == FactAt(g, path)
  {
    var counts, approved, byStatus := Tally(g);
    var counted := EmitCounts(|g|, counts, approved);
    store := EmitStatuses(counted, byStatus);
    forall path ensures Get(store, path) == FactAt(g, path) {
      StoreIsFactAt(g, counts, approved, byStatus, counted, store, path);
    }
  }

  lemma StoreIsFactAt(g: Graph, counts: map<string, nat>, approved: map<string, nat>,
                      byStatus: map<(string, ArtifactStatus), nat>,
                      counted: map<FactPath, FactValue>, store: map<FactPath, FactValue>, path: FactPath)
    requires Tallied(g, g.Keys, counts, approved, byStatus)
    requires Get(counted, path) == CountedAt(|g|, counts, approved, counts.Keys, path)
    requires forall key :: StatusClaims(byStatus, byStatus.Keys, path, key) ==> Get(store, path) == Some(Count(byStatus[key]))
    requires (forall key :: !StatusClaims(byStatus, byStatus.Keys, path, key)) ==> Get(store, path) == Get(counted, path)
    ensures Get(store, path) == FactAt(g, path)
  {
    if path.KindFact? {
      var name := path.kind;
      assert At(counts, name) == |Named(g, g.Keys, name)|;
      assert At(approved, name) == |NamedApproved(g, g.Keys, name)|;
      if path.leaf.CountOf? {
        CountOfIsFactAt(g, counts, approved, byStatus, counted, store, name, path.leaf.segment);
      } else if path.leaf.Approved? && NamedApproved(g, g.Keys, name) != {} {
        var id :| id in NamedApproved(g, g.Keys, name);
        assert id in Named(g, g.Keys, name);
      } else if path.leaf.Approved? {
        assert forall id :: id in Named(g, g.Keys, name) && Ratified(g[id].status) ==> id in NamedApproved(g, g.Keys, name);
      }
    }
  }

  /** A status that some artifact of the kind is in owns the path it is spelled like. */
  lemma StatusOwnsPath(g: Graph, name: string, s: ArtifactStatus)
    requires NamedWithStatus(g, g.Keys, name, s) != {}
    ensures FactAt(g, KindFact(name, CountOf(s.AsStr()))) == Some(Count(|NamedWithStatus(g, g.Keys, name, s)|))
  {
    hide ArtifactStatus.AsStr, HasName;
    var id :| id in NamedWithStatus(g, g.Keys, name, s);
    assert id in Named(g, g.Keys, name);
    forall t: ArtifactStatus | t.AsStr() == s.AsStr() ensures t == s { StatusNamesAreDistinct(s, t); }
  }

  lemma NoStatusOwnsPath(g: Graph, name: string, segment: string)
    requires forall s: ArtifactStatus :: s.AsStr() == segment ==> NamedWithStatus(g, g.Keys, name, s) == {}
    ensures FactAt(g, KindFact(name, CountOf(segment))) ==
            if Named(g, g.Keys, name) == {} || segment != "approved" then None
            else Some(Count(|NamedApproved(g, g.Keys, name)|))
  {
    hide ArtifactStatus.AsStr, HasName, Named, NamedApproved, NamedWithStatus;
  }

  lemma CountOfIsFactAt(g: Graph, counts: map<string, nat>, approved: map<string, nat>,
                        byStatus: map<(string, ArtifactStatus), nat>,
                        counted: map<FactPath, FactValue>, store: map<FactPath, FactValue>, name: string, segment: string)
    requires Tallied(g, g.Keys, counts, approved, byStatus)
    requires var path := KindFact(name, CountOf(segment));
             && Get(counted, path) == CountedAt(|g|, counts, approved, counts.Keys, path)
             && (forall key :: StatusClaims(byStatus, byStatus.Keys, path, key) ==> Get(store, path) == Some(Count(byStatus[key])))
             && ((forall key :: !StatusClaims(byStatus, byStatus.Keys, path, key)) ==> Get(store, path) == Get(counted, path))
    ensures Get(store, KindFact(name, CountOf(segment))) == FactAt(g, KindFact(name, CountOf(segment)))
  {
    hide ArtifactStatus.AsStr, Named, NamedApproved, NamedWithStatus, FactAt, NoZeroes, Get;
    var path := KindFact(name, CountOf(segment));
    if s: ArtifactStatus :| s.AsStr() == segment && NamedWithStatus(g, g.Keys, name, s) != {} {
      assert At(byStatus, (name, s)) == |NamedWithStatus(g, g.Keys, name, s)|;
      assert StatusClaims(byStatus, byStatus.Keys, path, (name, s));
      StatusOwnsPath(g, name, s);
    } else {
      forall key ensures !StatusClaims(byStatus, byStatus.Keys, path, key) {
        assert At(byStatus, (key.0, key.1)) == |NamedWithStatus(g, g.Keys, key.0, key.1)|;
        NothingIsZero(byStatus, key);
      }
      NoStatusOwnsPath(g, name, segment);
      assert At(counts, name) == |Named(g, g.Keys, name)|;
      assert At(approved, name) == |NamedApproved(g, g.Keys, name)|;
      NothingIsZero(counts, name);
    }
  }

  lemma NothingIsZero<K>(m: map<K, nat>, key: K)
    requires NoZeroes(m)
    ensures key in m <==> At(m, key) > 0
  {
  }

  // ------------------------------------------------------------------ what the counts mean

  const STATUSES: seq<ArtifactStatus> :=
    [Draft, Proposed, InReview, ArtifactStatus.Approved, Accepted, Rejected, Active, Implemented, Superseded, Archived]

  ghost function SumByStatus(g: Graph, name: string, statuses: seq<ArtifactStatus>): nat {
    if statuses == [] then 0
    else |NamedWithStatus(g, g.Keys, name, statuses[0])| + SumByStatus(g, name, statuses[1..])
  }

  ghost function NamedAmong(g: Graph, name: string, statuses: seq<ArtifactStatus>): set<ArtifactId> {
    set id | id in g && HasName(g[id], name) && g[id].status in statuses
  }

  lemma {:induction false} AmongIsSum(g: Graph, name: string, statuses: seq<ArtifactStatus>)
    requires Distinct(statuses)
    ensures |NamedAmong(g, name, statuses)| == SumByStatus(g, name, statuses)
  {
    if statuses == [] {
      assert NamedAmong(g, name, statuses) == {};
    } else {
      var first, rest := NamedWithStatus(g, g.Keys, name, statuses[0]), NamedAmong(g, name, statuses[1..]);
      AmongIsSum(g, name, statuses[1..]);
      assert NamedAmong(g, name, statuses) == first + rest;
      assert first !! rest;
    }
  }

  lemma EveryStatusIsListed(s: ArtifactStatus)
    ensures s in STATUSES
  {
    match s
    case Draft => assert STATUSES[0] == s;
    case Proposed => assert STATUSES[1] == s;
    case InReview => assert STATUSES[2] == s;
    case Approved => assert STATUSES[3] == s;
    case Accepted => assert STATUSES[4] == s;
    case Rejected => assert STATUSES[5] == s;
    case Active => assert STATUSES[6] == s;
    case Implemented => assert STATUSES[7] == s;
    case Superseded => assert STATUSES[8] == s;
    case Archived => assert STATUSES[9] == s;
  }

  /** The exact-status counts of a kind add up to its count: no artifact is missed or counted twice. */
  lemma StatusCountsSumToCount(g: Graph, name: string)
    ensures |Named(g, g.Keys, name)| == SumByStatus(g, name, STATUSES)
  {
    AmongIsSum(g, name, STATUSES);
    forall id | id in Named(g, g.Keys, name) ensures id in NamedAmong(g, name, STATUSES) {
      EveryStatusIsListed(g[id].status);
    }
    assert Named(g, g.Keys, name) == NamedAmong(g, name, STATUSES);
  }

  lemma ApprovedIsWritten()
    ensures ArtifactStatus.Approved.AsStr() == "approved"
  {
  }

  lemma ApprovedCountIs(g: Graph, name: string)
    requires Named(g, g.Keys, name) != {}
    ensures var exact := NamedWithStatus(g, g.Keys, name, ArtifactStatus.Approved);
            FactAt(g, KindFact(name, CountOf("approved"))) ==
            Some(Count(if exact != {} then |exact| else |NamedApproved(g, g.Keys, name)|))
  {
    hide FactAt, Named, NamedApproved, NamedWithStatus, ArtifactStatus.AsStr;
    ApprovedIsWritten();
    if NamedWithStatus(g, g.Keys, name, ArtifactStatus.Approved) != {} {
      StatusOwnsPath(g, name, ArtifactStatus.Approved);
    } else {
      forall s: ArtifactStatus | s.AsStr() == "approved" ensures s == ArtifactStatus.Approved {
        StatusNamesAreDistinct(s, ArtifactStatus.Approved);
      }
      NoStatusOwnsPath(g, name, "approved");
    }
  }

  /** The path `artifact.<kind>.approved.count` is claimed twice: it holds the number of approved
      artifacts exactly when none is in status `approved` or all the approved ones are. */
  lemma ApprovedCountHolds(g: Graph, name: string)
    requires Named(g, g.Keys, name) != {}
    ensures FactAt(g, KindFact(name, CountOf("approved"))) == Some(Count(|NamedApproved(g, g.Keys, name)|)) <==>
            (NamedWithStatus(g, g.Keys, name, ArtifactStatus.Approved) == {}
             || forall id :: id in NamedApproved(g, g.Keys, name) ==> g[id].status == ArtifactStatus.Approved)
  {
    hide FactAt;
    ApprovedCountIs(g, name);
    var exact := NamedWithStatus(g, g.Keys, name, ArtifactStatus.Approved);
    var all := NamedApproved(g, g.Keys, name);
    assert exact <= all;
    SubsetSize(exact, all);
    assert exact == all <==> forall id :: id in all ==> g[id].status == ArtifactStatus.Approved;
  }

  /** It can fail: of two approved artifacts of one kind, one approved and one accepted, it counts one. */
  lemma ApprovedCountFalls(a: Artifact, b: Artifact)
    requires a.id != b.id && a.kind == b.kind && a.status == ArtifactStatus.Approved && b.status == Accepted
    ensures var g, name := map[a.id := a, b.id := b], a.kind.AsStr();
            && |NamedApproved(g, g.Keys, name)| == 2
            && FactAt(g, KindFact(name, CountOf("approved"))) == Some(Count(1))
  {
    hide FactAt, ArtifactKind.AsStr;
    var g, name := map[a.id := a, b.id := b], a.kind.AsStr();
    assert Lineage(a.kind)[0] == a.kind by { LineageShape(a.kind); }
    assert HasName(a, name) && HasName(b, name);
    assert NamedApproved(g, g.Keys, name) == {a.id, b.id};
    assert NamedWithStatus(g, g.Keys, name, ArtifactStatus.Approved) == {a.id};
    assert a.id in Named(g, g.Keys, name);
    ApprovedCountIs(g, name);
  }

  lemma {:induction false} SubsetSize<T>(small: set<T>, large: set<T>)
    requires small <= large
    ensures |small| <= |large|
    ensures |small| == |large| ==> small == large
  {
    if small != {} {
      var x :| x in small;
      SubsetSize(small - {x}, large - {x});
    }
  }

  /** Counting by name is counting by `is_a`, for every kind there is, exactly when no artifact
      carries a custom kind spelled like a named one. */
  lemma CountIsIsA(g: Graph)
    ensures (forall kind :: Canonical(kind) ==> Named(g, g.Keys, kind.AsStr()) == OfKind(g, kind)) <==>
            (forall id :: id in g ==> Canonical(g[id].kind))
  {
    if forall id :: id in g ==> Canonical(g[id].kind) {
      forall kind | Canonical(kind) ensures Named(g, g.Keys, kind.AsStr()) == OfKind(g, kind) {
        forall id | id in g ensures HasName(g[id], kind.AsStr()) <==> kind in Lineage(g[id].kind) {
          CanonicalCounting(g[id], kind);
        }
      }
    }
    if id :| id in g && !Canonical(g[id].kind) {
      HomonymIsMiscounted(g, id);
    }
  }

  lemma CanonicalCounting(a: Artifact, kind: ArtifactKind)
    requires Canonical(a.kind) && Canonical(kind)
    ensures HasName(a, kind.AsStr()) <==> kind in Lineage(a.kind)
  {
    if HasName(a, kind.AsStr()) {
      var i :| 0 <= i < |Lineage(a.kind)| && Lineage(a.kind)[i].AsStr() == kind.AsStr();
      LineageIsCanonical(a.kind, Lineage(a.kind)[i]);
      CanonicalNamesDiffer(Lineage(a.kind)[i], kind);
    }
  }

  lemma HomonymIsMiscounted(g: Graph, id: ArtifactId)
    requires id in g && !Canonical(g[id].kind)
    ensures exists kind :: Canonical(kind) && Named(g, g.Keys, kind.AsStr()) != OfKind(g, kind)
  {
    hide ArtifactKind.Parent, ArtifactKind.AsStr, FindNamed, Lineage;
    var custom := g[id].kind;
    var kind := FindNamed(NAMED, custom.name).value;
    OtherIsItsName(custom);
    LineageShape(custom);
    ParentIsTop(custom);
    NamedIsNotOther();
    assert Lineage(custom)[0].AsStr() == kind.AsStr();
    assert HasName(g[id], kind.AsStr());
    assert kind !in Lineage(custom);
    assert id in Named(g, g.Keys, kind.AsStr()) && id !in OfKind(g, kind);
  }
}
