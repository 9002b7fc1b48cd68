/** Meshes of the bodies: leaving out unused vertices, and adding one mesh to another. */
module Meshes {
  import opened FiniteSets
  import opened Vectors

  const U32_MAX: nat := 0xFFFF_FFFF

  datatype Mesh = Mesh(positions: seq<Vec3>, normals: seq<Vec3>, indices: seq<nat>)

  predicate Valid(m: Mesh) {
    && |m.positions| == |m.normals| && |m.positions| <= U32_MAX
    && forall i :: 0 <= i < |m.indices| ==> m.indices[i] < |m.positions|
  }

  /** What a mesh denotes: its triangles' corners in order, each with its place and normal. */
  function Soup(m: Mesh): (s: seq<(Vec3, Vec3)>)
    requires Valid(m)
    ensures |s| == |m.indices|
  {
    seq(|m.indices|, i requires 0 <= i < |m.indices| => (m.positions[m.indices[i]], m.normals[m.indices[i]]))
  }

  // ---- Numbering by first use ----

  /** One past the largest vertex named. */
  function Named(ix: seq<nat>): nat {
    if ix == [] then 0
    else
      var n := Named(ix[..|ix| - 1]);
      if ix[|ix| - 1] < n then n else ix[|ix| - 1] + 1
  }

  /** Each index names a vertex already named or the very next one. */
  predicate FirstUse(ix: seq<nat>) {
    forall i :: 0 <= i < |ix| ==> ix[i] <= Named(ix[..i])
  }

  lemma NamedAppend(ix: seq<nat>, v: nat)
    ensures Named(ix + [v]) == if v < Named(ix) then Named(ix) else v + 1
  {
    assert (ix + [v])[..|ix|] == ix;
  }

  lemma {:induction false} NamedBounds(ix: seq<nat>, i: nat)
    requires i < |ix|
    ensures ix[i] < Named(ix)
  {
    if i < |ix| - 1 {
      NamedBounds(ix[..|ix| - 1], i);
    }
  }

  /** Under first-use numbering every vertex below the count is used. */
  lemma {:induction false} EveryOneUsed(ix: seq<nat>, v: nat) returns (i: nat)
    requires FirstUse(ix) && v < Named(ix)
    ensures i < |ix| && ix[i] == v
  {
    var n := |ix| - 1;
    assert ix[n] <= Named(ix[..n]);
    if v == ix[n] {
      i := n;
    } else {
      var front := ix[..n];
      forall j | 0 <= j < n
        ensures front[j] <= Named(front[..j])
      {
        assert front[..j] == ix[..j];
      }
      i := EveryOneUsed(front, v);
    }
  }

  // ---- Compaction ----

  /** The same index twice before exactly when twice after. */
  ghost predicate SamePartition(a: seq<nat>, b: seq<nat>) {
    |a| == |b| && forall i, j :: 0 <= i < |a| && 0 <= j < |a| ==> (a[i] == a[j] <==> b[i] == b[j])
  }

  /** `c` is `m` without its unused vertices, the rest numbered by first use. */
  ghost predicate Compacted(m: Mesh, c: Mesh) {
    && Valid(m) && Valid(c)
    && Soup(c) == Soup(m)
    && SamePartition(m.indices, c.indices)
    && FirstUse(c.indices)
    && |c.positions| == Named(c.indices)
  }

  /** A partition has one numbering by first use. */
  lemma {:induction false} NumberingUnique(m: seq<nat>, a: seq<nat>, b: seq<nat>, k: nat)
    requires SamePartition(m, a) && SamePartition(m, b) && FirstUse(a) && FirstUse(b)
    requires k <= |m|
    ensures a[..k] == b[..k]
  {
    if k > 0 {
      NumberingUnique(m, a, b, k - 1);
      OldNameKept(m, a, b, k - 1);
      OldNameKept(m, b, a, k - 1);
      assert a[..k] == a[..k - 1] + [a[k - 1]] && b[..k] == b[..k - 1] + [b[k - 1]];
    }
  }

  lemma OldNameKept(m: seq<nat>, a: seq<nat>, b: seq<nat>, k: nat)
    requires SamePartition(m, a) && SamePartition(m, b) && FirstUse(a) && k < |m| && a[..k] == b[..k]
    ensures a[k] < Named(a[..k]) ==> b[k] == a[k]
    ensures a[k] <= Named(a[..k])
  {
    if a[k] < Named(a[..k]) {
      PrefixFirstUse(a, k);
      var i := EveryOneUsed(a[..k], a[k]);
      assert a[i] == a[..k][i] == b[..k][i] == b[i];
      assert m[i] == m[k];
    }
  }

  lemma PrefixFirstUse(ix: seq<nat>, k: nat)
    requires FirstUse(ix) && k <= |ix|
    ensures FirstUse(ix[..k])
  {
    forall j | 0 <= j < k
      ensures ix[..k][j] <= Named(ix[..k][..j])
    {
      assert ix[..k][..j] == ix[..j];
    }
  }

  /** Compaction determines the mesh. */
  lemma CompactedUnique(m: Mesh, a: Mesh, b: Mesh)
    requires Compacted(m, a) && Compacted(m, b)
    ensures a == b
  {
    var n := |m.indices|;
    NumberingUnique(m.indices, a.indices, b.indices, n);
    assert a.indices[..n] == a.indices && b.indices[..n] == b.indices;
    forall v | 0 <= v < |a.positions|
      ensures a.positions[v] == b.positions[v] && a.normals[v] == b.normals[v]
    {
      var i := EveryOneUsed(a.indices, v);
      assert Soup(a)[i] == Soup(b)[i];
    }
  }

  /** Every vertex kept is used, and vertices used apart stay apart. */
  lemma KeptAreUsed(m: Mesh, c: Mesh, v: nat) returns (i: nat)
    requires Compacted(m, c) && v < |c.positions|
    ensures i < |m.indices| && c.indices[i] == v
    ensures c.positions[v] == m.positions[m.indices[i]] && c.normals[v] == m.normals[m.indices[i]]
  {
    i := EveryOneUsed(c.indices, v);
    assert Soup(c)[i] == Soup(m)[i];
  }

  /** Compacting again changes nothing: whatever compacts a compacted mesh is that mesh. */
  lemma CompactIdempotent(m: Mesh, c: Mesh, d: Mesh)
    requires Compacted(m, c) && Compacted(c, d)
    ensures d == c
  {
    assert Compacted(c, c);
    CompactedUnique(c, c, d);
  }

  // ---- Appending ----

  function Shifted(ix: seq<nat>, base: nat): seq<nat> {
    seq(|ix|, i requires 0 <= i < |ix| => ix[i] + base)
  }

  function Appended(a: Mesh, b: Mesh): Mesh {
    Mesh(a.positions + b.positions, a.normals + b.normals, a.indices + Shifted(b.indices, |a.positions|))
  }

  /** The result denotes both meshes' triangles, in order. */
  lemma AppendDenotesBoth(a: Mesh, b: Mesh)
    requires Valid(a) && Valid(b) && |a.positions| + |b.positions| <= U32_MAX
    ensures Valid(Appended(a, b)) && Soup(Appended(a, b)) == Soup(a) + Soup(b)
  {
    var m := Appended(a, b);
    var n := |a.indices|;
    forall i | 0 <= i < |m.indices|
      ensures m.indices[i] < |m.positions|
      ensures m.indices[i] == if i < n then a.indices[i] else b.indices[i - n] + |a.positions|
    {
    }
    assert Valid(m);
    forall i | 0 <= i < |m.indices|
      ensures Soup(m)[i] == (Soup(a) + Soup(b))[i]
    {
      if i >= n {
        assert m.positions[m.indices[i]] == b.positions[b.indices[i - n]];
        assert m.normals[m.indices[i]] == b.normals[b.indices[i - n]];
      }
    }
  }

  /** Compacting two meshes joined keeps both, in order. */
  lemma CompactedAppend(a: Mesh, b: Mesh, c: Mesh)
    requires Valid(a) && Valid(b) && |a.positions| + |b.positions| <= U32_MAX
    requires Compacted(Appended(a, b), c)
    ensures Soup(c) == Soup(a) + Soup(b)
  {
    AppendDenotesBoth(a, b);
  }

  // ---- The mesh in place ----

  class MeshData {
    var positions: seq<Vec3>
    var normals: seq<Vec3>
    var indices: seq<nat>

    function Value(): Mesh
      reads this
    {
      Mesh(positions, normals, indices)
    }

    constructor (m: Mesh)
      ensures Value() == m
    {
      positions, normals, indices := m.positions, m.normals, m.indices;
    }

    /** Renumbers the vertices by first use, leaving out the unused. */
    method Compact()
      requires Valid(Value())
      modifies this
      ensures Compacted(old(Value()), Value())
    {
      hide Renamed, Compacted;
      ghost var m := Value();
      var to := new nat[|positions|](_ => U32_MAX);
      var keptPositions: seq<Vec3> := [];
      var keptNormals: seq<Vec3> := [];
      RenamedStart(m, to[..]);
      var k := 0;
      while k < |indices|
        invariant k <= |indices| == |m.indices| && positions == m.positions && normals == m.normals
        invariant indices[k..] == m.indices[k..]
        invariant Renamed(m, to[..], indices[..k], keptPositions, keptNormals)
      {
        var i := indices[k];
        assert i == indices[k..][0] == m.indices[k];
        ghost var before, done := to[..], indices[..k];
        RenamedRoom(m, before, done, keptPositions, keptNormals);
        if to[i] == U32_MAX {
          RenamedNew(m, before, done, keptPositions, keptNormals);
          to[i] := |keptPositions|;
          keptPositions := keptPositions + [positions[i]];
          keptNormals := keptNormals + [normals[i]];
          assert to[..] == before[i := to[i]];
        } else {
          RenamedOld(m, before, done, keptPositions, keptNormals);
        }
        indices := indices[k := to[i]];
        assert indices[..k + 1] == done + [to[i]];
        k := k + 1;
      }
      positions, normals := keptPositions, keptNormals;
      assert indices[..k] == indices;
      RenamedAll(m, to[..], indices, positions, normals);
    }

    /** Adds `other`'s triangles to these. */
    method Append(other: MeshData)
      requires other != this
      modifies this
      ensures Value() == Appended(old(Value()), other.Value())
    {
      var base := |positions|;
      positions := positions + other.positions;
      normals := normals + other.normals;
      indices := indices + Shifted(other.indices, base);
    }
  }

  /** The loop's state: the first indices of `m` renamed by `to`, first use first. */
  ghost predicate Renamed(m: Mesh, to: seq<nat>, done: seq<nat>, ps: seq<Vec3>, ns: seq<Vec3>) {
    && Valid(m) && |to| == |m.positions| && |done| <= |m.indices| && |ps| == |ns| == Named(done)
    && FirstUse(done)
    && (forall i :: 0 <= i < |done| ==> to[m.indices[i]] == done[i])
    && (forall v :: 0 <= v < |to| && to[v] != U32_MAX ==>
        to[v] < |ps| && ps[to[v]] == m.positions[v] && ns[to[v]] == m.normals[v])
    && (forall v, w :: 0 <= v < |to| && 0 <= w < |to| && to[v] == to[w] != U32_MAX ==> v == w)
    && (forall i :: 0 <= i < |done| ==> done[i] != U32_MAX)
  }

  lemma RenamedStart(m: Mesh, to: seq<nat>)
    requires Valid(m) && |to| == |m.positions| && forall v :: 0 <= v < |to| ==> to[v] == U32_MAX
    ensures Renamed(m, to, [], [], [])
  {
  }

  /** No more vertices are kept than there were, and a new one always has a name left. */
  lemma RenamedRoom(m: Mesh, to: seq<nat>, done: seq<nat>, ps: seq<Vec3>, ns: seq<Vec3>)
    requires Renamed(m, to, done, ps, ns)
    ensures |ps| <= |m.positions|
    ensures |done| < |m.indices| && to[m.indices[|done|]] == U32_MAX ==> |ps| < U32_MAX
  {
    forall n: nat | n < |ps|
      ensures n in to
    {
      var i := EveryOneUsed(done, n);
      assert to[m.indices[i]] == n;
    }
    NamesFit(to, |ps|);
    if |done| < |m.indices| && to[m.indices[|done|]] == U32_MAX {
      var gap := m.indices[|done|];
      var others := to[..gap] + to[gap + 1..];
      forall n: nat | n < |ps|
        ensures n in others
      {
        assert n in to;
        var v :| 0 <= v < |to| && to[v] == n;
        assert others[if v < gap then v else v - 1] == n;
      }
      NamesFit(others, |ps|);
    }
  }

  /** If every name below `n` is given, at least `n` were. */
  lemma NamesFit(names: seq<nat>, n: nat)
    requires forall x: nat :: x < n ==> x in names
    ensures n <= |names|
  {
    GivenAre(names);
    BelowIs(n);
    SubsetSize(Below(n), Given(names));
  }

  function Given(names: seq<nat>): set<nat> {
    if names == [] then {} else Given(names[..|names| - 1]) + {names[|names| - 1]}
  }

  lemma {:induction false} GivenAre(names: seq<nat>)
    ensures |Given(names)| <= |names| && forall x :: x in names ==> x in Given(names)
  {
    if names != [] {
      GivenAre(names[..|names| - 1]);
      assert names == names[..|names| - 1] + [names[|names| - 1]];
    }
  }

  lemma RenamedNew(m: Mesh, to: seq<nat>, done: seq<nat>, ps: seq<Vec3>, ns: seq<Vec3>)
    requires Renamed(m, to, done, ps, ns) && |done| < |m.indices| && |ps| < U32_MAX
    requires to[m.indices[|done|]] == U32_MAX
    ensures var i := m.indices[|done|];
            Renamed(m, to[i := |ps|], done + [|ps|], ps + [m.positions[i]], ns + [m.normals[i]])
  {
    NamedAppend(done, |ps|);
    FirstUseAppend(done, |ps|);
  }

  lemma RenamedOld(m: Mesh, to: seq<nat>, done: seq<nat>, ps: seq<Vec3>, ns: seq<Vec3>)
    requires Renamed(m, to, done, ps, ns) && |done| < |m.indices|
    requires to[m.indices[|done|]] != U32_MAX
    ensures Renamed(m, to, done + [to[m.indices[|done|]]], ps, ns)
  {
    NamedAppend(done, to[m.indices[|done|]]);
    FirstUseAppend(done, to[m.indices[|done|]]);
  }

  lemma FirstUseAppend(ix: seq<nat>, v: nat)
    requires FirstUse(ix) && v <= Named(ix)
    ensures FirstUse(ix + [v])
  {
    forall i | 0 <= i < |ix + [v]|
      ensures (ix + [v])[i] <= Named((ix + [v])[..i])
    {
      assert (ix + [v])[..i] == ix[..i];
      if i == |ix| {
        assert ix[..i] == ix;
      }
    }
  }

  lemma RenamedAll(m: Mesh, to: seq<nat>, done: seq<nat>, ps: seq<Vec3>, ns: seq<Vec3>)
    requires Renamed(m, to, done, ps, ns) && |done| == |m.indices|
    ensures Compacted(m, Mesh(ps, ns, done))
  {
    RenamedRoom(m, to, done, ps, ns);
    var c := Mesh(ps, ns, done);
    forall i | 0 <= i < |done|
      ensures done[i] < |ps|
    {
      NamedBounds(done, i);
    }
    assert Soup(c) == Soup(m);
  }
}
