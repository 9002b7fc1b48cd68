/** Making an avatar small enough to send: the buffer rebuilt from what is still used, and every
    reference into it pointed at the new indices. */
module Avatars {
  import opened Wrappers
  import Glb

  const MAX_PX: nat := 512
  const FACE_PX: nat := 1024

  // ---- The parts of a glTF document the preparation moves about ----

  /** What a buffer view carries besides its bytes. */
  datatype Extra = Extra(stride: Option<nat>, target: Option<nat>)

  datatype View = View(offset: nat, length: nat, extra: Extra)

  /** A sparse accessor's own references: the views with the places it changes and with what it puts there. */
  datatype Sparse = Sparse(indices: nat, values: nat)

  /** An accessor: its view, its sparse part, and the rest of it. */
  datatype Accessor = Accessor(view: nat, sparse: Option<Sparse>, rest: string)

  /** A mesh's primitive: accessors by attribute, its indices, and its morph targets. */
  datatype Prim = Prim(attributes: map<string, nat>, indices: Option<nat>, targets: seq<map<string, nat>>)

  datatype Sampler = Sampler(input: nat, output: nat)

  /** A material: its base colour texture, and the textures of its other maps. */
  datatype Material = Material(name: string, blends: bool, baseColour: Option<nat>, others: seq<nat>)

  datatype Texture = Texture(source: nat, rest: string)

  datatype Image = Image(view: nat, name: string)

  /** A document: the primitives of all its meshes, the binding of each skin, the samplers of all its
      animations, and the tables they point into. */
  datatype Gltf = Gltf(
    prims: seq<Prim>, skins: seq<Option<nat>>, samplers: seq<Sampler>, materials: seq<Material>,
    textures: seq<Texture>, images: seq<Image>, accessors: seq<Accessor>, views: seq<View>, binary: seq<Byte>)

  /** A place that refers to an accessor. */
  datatype Site =
    | Attribute(prim: nat, name: string) | Indices(prim: nat) | Binding(skin: nat)
    | Input(sampler: nat) | Output(sampler: nat)

  /** The accessor a place refers to, if there is such a place and it does. */
  function RefAt(g: Gltf, site: Site): Option<nat> {
    match site
    case Attribute(p, name) =>
      if p < |g.prims| && name in g.prims[p].attributes then Some(g.prims[p].attributes[name]) else None
    case Indices(p) => if p < |g.prims| then g.prims[p].indices else None
    case Binding(s) => if s < |g.skins| then g.skins[s] else None
    case Input(s) => if s < |g.samplers| then Some(g.samplers[s].input) else None
    case Output(s) => if s < |g.samplers| then Some(g.samplers[s].output) else None
  }

  ghost predicate Refers(g: Gltf, a: nat) {
    exists site :: RefAt(g, site) == Some(a)
  }

  /** The bytes of a view. */
  function ViewBytes(g: Gltf, v: nat): seq<Byte>
    requires v < |g.views|
  {
    Glb.Slice(g.binary, g.views[v].offset, g.views[v].length)
  }

  /** Every reference the preparation follows leads somewhere. */
  ghost predicate Sound(g: Gltf) {
    && (forall site :: RefAt(g, site).Some? ==> RefAt(g, site).value < |g.accessors|)
    && (forall a :: 0 <= a < |g.accessors| && Refers(g, a) ==> g.accessors[a].view < |g.views|)
    && (forall m :: 0 <= m < |g.materials| && g.materials[m].baseColour.Some? ==>
        SoundTexture(g, g.materials[m].baseColour.value))
  }

  predicate SoundTexture(g: Gltf, t: nat) {
    t < |g.textures| && g.textures[t].source < |g.images| && g.images[g.textures[t].source].view < |g.views|
  }

  /** How an image is kept: with alpha if any material that shows it blends, at the largest size any asks. */
  datatype Keep = Keep(alpha: bool, px: nat)

  function Larger(a: nat, b: nat): nat {
    if a < b then b else a
  }

  predicate FaceAt(name: string, i: nat) {
    i + 12 <= |name| && name[i..i + 12] == "Face_00_SKIN"
  }

  predicate IsFace(name: string) {
    exists i: nat :: i <= |name| && FaceAt(name, i)
  }

  function PxOf(m: Material): nat {
    if IsFace(m.name) then FACE_PX else MAX_PX
  }

  /** A face's skin is a name with `Face_00_SKIN` somewhere in it, and it is kept twice as large. */
  lemma FaceIff(m: Material)
    ensures IsFace(m.name) <==> exists front, back :: m.name == front + "Face_00_SKIN" + back
    ensures PxOf(m) == if exists front, back :: m.name == front + "Face_00_SKIN" + back then 1024 else 512
  {
    var name, face := m.name, "Face_00_SKIN";
    if IsFace(name) {
      var i: nat :| i <= |name| && FaceAt(name, i);
      assert name == name[..i] + face + name[i + 12..];
    }
    if exists front, back :: name == front + face + back {
      var front, back :| name == front + face + back;
      assert name[|front|..|front| + 12] == face;
      assert FaceAt(name, |front|);
    }
  }

  /** The image a material shows. */
  function ImageOf(g: Gltf, m: nat): Option<nat>
    requires m < |g.materials|
  {
    match g.materials[m].baseColour
    case None => None
    case Some(t) => if t < |g.textures| then Some(g.textures[t].source) else None
  }

  // ---- What the preparation promises ----

  /** The specification of one image's keeping, from the materials that show it. */
  ghost predicate KeptAs(g: Gltf, n: nat, image: nat, k: Keep)
    requires n <= |g.materials|
  {
    && (k.alpha <==> exists m :: 0 <= m < n && ImageOf(g, m) == Some(image) && g.materials[m].blends)
    && (forall m :: 0 <= m < n && ImageOf(g, m) == Some(image) ==> PxOf(g.materials[m]) <= k.px)
    && (exists m :: 0 <= m < n && ImageOf(g, m) == Some(image) && PxOf(g.materials[m]) == k.px)
  }

  /** Places refer as they did, and what they name has the same bytes and the same description. */
  ghost predicate SameData(g: Gltf, h: Gltf) {
    && Sound(g) && Sound(h)
    && (forall site :: RefAt(h, site).Some? <==> RefAt(g, site).Some?)
    && forall site :: RefAt(g, site).Some? ==> SameAccessor(g, RefAt(g, site).value, h, RefAt(h, site).value)
  }

  ghost predicate SameAccessor(g: Gltf, a: nat, h: Gltf, b: nat) {
    && a < |g.accessors| && b < |h.accessors|
    && g.accessors[a].view < |g.views| && h.accessors[b].view < |h.views|
    && h.accessors[b].rest == g.accessors[a].rest && (h.accessors[b].sparse.Some? <==> g.accessors[a].sparse.Some?)
    && ViewBytes(h, h.accessors[b].view) == ViewBytes(g, g.accessors[a].view)
    && h.views[h.accessors[b].view].extra == g.views[g.accessors[a].view].extra
  }

  /** A view of `h` stands for a view of `g`, if that is one. */
  ghost predicate SameView(g: Gltf, v: nat, h: Gltf, w: nat) {
    v < |g.views| ==> w < |h.views| && ViewBytes(h, w) == ViewBytes(g, v) && h.views[w].extra == g.views[v].extra
  }

  /** The sparse accessors referred to have the same sparse data as before. */
  ghost predicate SameSparse(g: Gltf, h: Gltf)
    requires SameData(g, h)
  {
    forall site :: RefAt(g, site).Some? ==>
        SameSparseData(g, g.accessors[RefAt(g, site).value], h, h.accessors[RefAt(h, site).value])
  }

  ghost predicate SameSparseData(g: Gltf, a: Accessor, h: Gltf, b: Accessor) {
    a.sparse.Some? ==>
      && b.sparse.Some?
      && SameView(g, a.sparse.value.indices, h, b.sparse.value.indices)
      && SameView(g, a.sparse.value.values, h, b.sparse.value.values)
  }

  /** Two places refer to one accessor after exactly when they did before, and likewise for the views
      behind them. */
  ghost predicate SameSharing(g: Gltf, h: Gltf)
    requires SameData(g, h)
  {
    forall s, t :: RefAt(g, s).Some? && RefAt(g, t).Some? ==>
      && (RefAt(h, s) == RefAt(h, t) <==> RefAt(g, s) == RefAt(g, t))
      && (h.accessors[RefAt(h, s).value].view == h.accessors[RefAt(h, t).value].view
          <==> g.accessors[RefAt(g, s).value].view == g.accessors[RefAt(g, t).value].view)
  }

  /** Views start on multiples of four, lie inside the buffer, and follow one another without overlap. */
  predicate Tidy(views: seq<View>, binary: seq<Byte>) {
    && (forall v :: 0 <= v < |views| ==> views[v].offset % 4 == 0 && views[v].offset + views[v].length <= |binary|)
    && (forall v, w :: 0 <= v < w < |views| ==> views[v].offset + views[v].length <= views[w].offset)
  }

  /** An accessor or an image of `h` has its data in view `v`. */
  ghost predicate HoldsData(h: Gltf, v: nat) {
    || (exists a :: 0 <= a < |h.accessors| && h.accessors[a].view == v)
    || (exists i :: 0 <= i < |h.images| && h.images[i].view == v)
  }

  ghost predicate Sourced(h: Gltf, i: nat) {
    exists t :: 0 <= t < |h.textures| && h.textures[t].source == i
  }

  ghost predicate Painted(materials: seq<Material>, t: nat) {
    exists m :: 0 <= m < |materials| && materials[m].baseColour == Some(t)
  }

  /** Nothing is left that nothing refers to. */
  ghost predicate NothingIdle(h: Gltf) {
    && (forall a: nat :: a < |h.accessors| ==> Refers(h, a))
    && (forall v: nat :: v < |h.views| ==> HoldsData(h, v))
    && (forall i: nat :: i < |h.images| ==> Sourced(h, i))
    && (forall t: nat :: t < |h.textures| ==> Painted(h.materials, t))
    && (forall p :: 0 <= p < |h.prims| ==> h.prims[p].targets == [])
    && (forall m :: 0 <= m < |h.materials| ==> h.materials[m].others == [])
  }

  type Shrink = (seq<Byte>, nat, bool) -> seq<Byte>

  /** Each material shows its own image still, shrunk as its uses ask, through a texture otherwise as
      it was. */
  ghost predicate SameLooks(g: Gltf, h: Gltf, shrink: Shrink)
    requires Sound(g) && Sound(h)
  {
    && |h.materials| == |g.materials|
    && forall m :: 0 <= m < |g.materials| ==>
         && h.materials[m].name == g.materials[m].name && h.materials[m].blends == g.materials[m].blends
         && (h.materials[m].baseColour.Some? <==> g.materials[m].baseColour.Some?)
         && (g.materials[m].baseColour.Some? ==>
             SameTexture(g, g.materials[m].baseColour.value, h, h.materials[m].baseColour.value, shrink))
  }

  ghost predicate SameTexture(g: Gltf, t: nat, h: Gltf, u: nat, shrink: Shrink) {
    && SoundTexture(g, t) && SoundTexture(h, u)
    && h.textures[u].rest == g.textures[t].rest
    && h.images[h.textures[u].source].name == g.images[g.textures[t].source].name
    && exists k :: KeptAs(g, |g.materials|, g.textures[t].source, k)
                   && ViewBytes(h, h.images[h.textures[u].source].view)
                      == shrink(ViewBytes(g, g.images[g.textures[t].source].view), k.px, k.alpha)
  }

  /** Everything at once. */
  ghost predicate Relocated(g: Gltf, h: Gltf, shrink: Shrink) {
    SameData(g, h) && SameSharing(g, h) && Tidy(h.views, h.binary) && NothingIdle(h) && SameLooks(g, h, shrink)
  }

  // ---- Indices kept, in order ----

  predicate Increasing(s: seq<nat>) {
    forall i, j :: 0 <= i < j < |s| ==> s[i] < s[j]
  }

  /** Puts `x` in its place. */
  method Insert(s: seq<nat>, x: nat) returns (r: seq<nat>)
    requires Increasing(s) && x !in s
    ensures Increasing(r) && forall y :: y in r <==> y in s || y == x
  {
    var k := 0;
    while k < |s| && s[k] < x
      invariant 0 <= k <= |s| && forall i :: 0 <= i < k ==> s[i] < x
    {
      k := k + 1;
    }
    assert k < |s| ==> s[k] in s;
    r := s[..k] + [x] + s[k..];
    Inserted(s, k, x);
  }

  lemma Inserted(s: seq<nat>, k: nat, x: nat)
    requires Increasing(s) && k <= |s| && (forall i :: 0 <= i < k ==> s[i] < x) && (k < |s| ==> x < s[k])
    ensures var r := s[..k] + [x] + s[k..]; Increasing(r) && forall y :: y in r <==> y in s || y == x
  {
    var r := s[..k] + [x] + s[k..];
    forall i, j | 0 <= i < j < |r|
      ensures r[i] < r[j]
    {
      assert k < |s| && k < j - 1 ==> s[k] < s[j - 1];
    }
    forall y
      ensures y in r <==> y in s || y == x
    {
      assert s == s[..k] + s[k..];
    }
  }

  /** A set's numbers in order. */
  method Sorted(numbers: set<nat>) returns (r: seq<nat>)
    ensures Increasing(r) && forall y :: y in r <==> y in numbers
  {
    r := [];
    var rest := numbers;
    while rest != {}
      invariant Increasing(r) && rest <= numbers && forall y :: y in r <==> y in numbers - rest
      decreases rest
    {
      var x :| x in rest;
      r := Insert(r, x);
      rest := rest - {x};
    }
  }

  /** `m` numbers the entries of `ids` as they come. */
  predicate Numbers(m: map<nat, nat>, ids: seq<nat>) {
    && (forall i :: 0 <= i < |ids| ==> ids[i] in m && m[ids[i]] == i)
    && (forall x :: x in m ==> m[x] < |ids| && ids[m[x]] == x)
  }

  lemma NumberedNext(m: map<nat, nat>, ids: seq<nat>, x: nat)
    requires Numbers(m, ids) && x !in ids
    ensures Numbers(m[x := |ids|], ids + [x])
  {
  }

  /** The members of `s` below `n`, in order. */
  ghost function InOrder(s: set<nat>, n: nat): seq<nat> {
    if n == 0 then [] else InOrder(s, n - 1) + (if n - 1 in s then [n - 1] else [])
  }

  /** `ids` are the members of `s` below `n`. */
  ghost predicate Lists(ids: seq<nat>, s: set<nat>, n: nat) {
    forall a: nat :: a in ids <==> a in s && a < n
  }

  lemma {:induction false} OneOrder(s: set<nat>, n: nat, ids: seq<nat>)
    requires Increasing(ids) && Lists(ids, s, n)
    ensures ids == InOrder(s, n)
  {
    hide Lists, Increasing;
    if n == 0 {
      ListsNothing(ids, s);
    } else if n - 1 in s {
      ListsLast(ids, s, n);
      OneOrder(s, n - 1, ids[..|ids| - 1]);
    } else {
      ListsLess(ids, s, n);
      OneOrder(s, n - 1, ids);
    }
  }

  lemma ListsNothing(ids: seq<nat>, s: set<nat>)
    requires Lists(ids, s, 0) && (ids != [] ==> ids[0] in ids)
    ensures ids == []
  {
  }

  lemma ListsLess(ids: seq<nat>, s: set<nat>, n: nat)
    requires Lists(ids, s, n) && n > 0 && n - 1 !in s
    ensures Lists(ids, s, n - 1)
  {
  }

  lemma ListsLast(ids: seq<nat>, s: set<nat>, n: nat)
    requires Increasing(ids) && Lists(ids, s, n) && n > 0 && n - 1 in s
    ensures ids != [] && ids == ids[..|ids| - 1] + [n - 1]
    ensures Increasing(ids[..|ids| - 1]) && Lists(ids[..|ids| - 1], s, n - 1)
  {
    assert n - 1 in ids;
    LastOf(ids, n - 1);
  }

  /** The largest of an increasing sequence is its last. */
  lemma LastOf(ids: seq<nat>, x: nat)
    requires Increasing(ids) && x in ids && forall a :: a in ids ==> a <= x
    ensures ids != [] && ids == ids[..|ids| - 1] + [x]
    ensures forall a :: a in ids[..|ids| - 1] <==> a in ids && a < x
  {
    var front := ids[..|ids| - 1];
    var i :| 0 <= i < |ids| && ids[i] == x;
    assert ids[|ids| - 1] in ids;
    assert i == |ids| - 1;
    assert ids == front + [x];
    forall a | a in front
      ensures a < x
    {
      var j :| 0 <= j < |front| && front[j] == a;
      assert ids[j] < ids[i];
    }
  }

  // ---- The growing buffer ----

  /** What a view holds, and what it carries besides. */
  datatype Part = Part(data: seq<Byte>, extra: Extra)

  /** Parts laid in a buffer one after another, zeros between them out to the next multiple of four. */
  function Laid(parts: seq<Part>): (seq<View>, seq<Byte>) {
    if parts == [] then ([], [])
    else
      var last := parts[|parts| - 1];
      var (views, bytes) := Laid(parts[..|parts| - 1]);
      var at := bytes + Glb.Repeat(0, Glb.PadTo4(|bytes|));
      (views + [View(|at|, |last.data|, last.extra)], at + last.data)
  }

  function PartsOf(views: seq<View>, bytes: seq<Byte>): seq<Part> {
    seq(|views|, v requires 0 <= v < |views| =>
      Part(Glb.Slice(bytes, views[v].offset, views[v].length), views[v].extra))
  }

  /** Views and buffer are what laying out their parts gives. */
  predicate Packed(views: seq<View>, bytes: seq<Byte>) {
    (views, bytes) == Laid(PartsOf(views, bytes))
  }

  /** Byte `i` belongs to some view. */
  ghost predicate Viewed(views: seq<View>, i: nat) {
    exists v :: 0 <= v < |views| && views[v].offset <= i < views[v].offset + views[v].length
  }

  /** Whatever lies between the views is zero. */
  lemma {:induction false} GapsAreZero(parts: seq<Part>, i: nat)
    requires i < |Laid(parts).1| && !Viewed(Laid(parts).0, i)
    ensures Laid(parts).1[i] == 0
  {
    if parts != [] {
      var (views, bytes) := Laid(parts[..|parts| - 1]);
      var (all, whole) := Laid(parts);
      var at := bytes + Glb.Repeat(0, Glb.PadTo4(|bytes|));
      assert all[|views|].offset == |at| && all[..|views|] == views;
      if i < |bytes| {
        forall v | 0 <= v < |views|
          ensures all[v] == views[v]
        {
          assert all[..|views|][v] == views[v];
        }
        GapsAreZero(parts[..|parts| - 1], i);
      }
    }
  }

  lemma PackedOn(views: seq<View>, bytes: seq<Byte>, data: seq<Byte>, extra: Extra)
    requires Tidy(views, bytes) && Packed(views, bytes)
    ensures var at := bytes + Glb.Repeat(0, Glb.PadTo4(|bytes|));
            Packed(views + [View(|at|, |data|, extra)], at + data)
  {
    hide Laid;
    var at := bytes + Glb.Repeat(0, Glb.PadTo4(|bytes|));
    var more, parts := views + [View(|at|, |data|, extra)], PartsOf(views, bytes);
    forall v | 0 <= v < |views|
      ensures PartsOf(more, at + data)[v] == parts[v]
    {
      GrowingKeeps(bytes, at + data, views[v]);
    }
    assert (at + data)[|at|..] == data;
    assert PartsOf(more, at + data) == parts + [Part(data, extra)];
    LaidOn(parts, Part(data, extra));
  }

  lemma LaidOn(parts: seq<Part>, last: Part)
    ensures var (views, bytes) := Laid(parts);
            var at := bytes + Glb.Repeat(0, Glb.PadTo4(|bytes|));
            Laid(parts + [last]) == (views + [View(|at|, |last.data|, last.extra)], at + last.data)
  {
    assert (parts + [last])[..|parts|] == parts;
  }

  class Buffer {
    var bytes: seq<Byte>
    var views: seq<View>

    ghost predicate Valid()
      reads this
    {
      Tidy(views, bytes) && Packed(views, bytes)
    }

    constructor ()
      ensures Valid() && bytes == [] && views == []
    {
      bytes, views := [], [];
    }

    /** A new view of `data` at the next multiple of four. */
    method AddView(data: seq<Byte>, extra: Extra) returns (id: nat)
      requires Valid()
      modifies this
      ensures Valid() && id == |old(views)| && |views| == id + 1 && views[..id] == old(views)
      ensures old(bytes) <= bytes && views[id].extra == extra && views[id].length == |data|
      ensures Glb.Slice(bytes, views[id].offset, views[id].length) == data
    {
      hide Packed;
      ghost var was := bytes;
      PackedOn(views, bytes, data, extra);
      bytes := bytes + Glb.Repeat(0, Glb.PadTo4(|bytes|));
      var v := View(|bytes|, |data|, extra);
      ghost var at := |bytes|;
      bytes := bytes + data;
      assert bytes[at..at + |data|] == data;
      assert bytes[..|was|] == was;
      views := views + [v];
      id := |views| - 1;
    }
  }

  /** Growing the buffer leaves the bytes of the views already in it. */
  lemma GrowingKeeps(a: seq<Byte>, b: seq<Byte>, v: View)
    requires a <= b && v.offset + v.length <= |a|
    ensures Glb.Slice(b, v.offset, v.length) == Glb.Slice(a, v.offset, v.length)
  {
    assert b[..|a|] == a;
    assert b[v.offset..v.offset + v.length] == a[v.offset..v.offset + v.length];
  }

  // ---- Which images are kept, and how ----

  ghost predicate KeptImages(g: Gltf, n: nat, keep: map<nat, Keep>)
    requires n <= |g.materials|
  {
    && (forall i :: i in keep ==> KeptAs(g, n, i, keep[i]))
    && (forall m :: 0 <= m < n && ImageOf(g, m).Some? ==> ImageOf(g, m).value in keep)
  }

  method KeepImages(g: Gltf) returns (keep: map<nat, Keep>)
    requires Sound(g)
    ensures KeptImages(g, |g.materials|, keep)
  {
    hide KeptAs, PxOf;
    keep := map[];
    for n := 0 to |g.materials|
      invariant KeptImages(g, n, keep)
    {
      var m := g.materials[n];
      if m.baseColour.Some? {
        var img := g.textures[m.baseColour.value].source;
        var prev := if img in keep then keep[img] else Keep(false, 0);
        KeepMore(g, n, keep, img);
        keep := keep[img := Keep(prev.alpha || m.blends, Larger(prev.px, PxOf(m)))];
      } else {
        KeepSame(g, n, keep);
      }
    }
  }

  lemma KeepSame(g: Gltf, n: nat, keep: map<nat, Keep>)
    requires n < |g.materials| && KeptImages(g, n, keep) && ImageOf(g, n).None?
    ensures KeptImages(g, n + 1, keep)
  {
    hide PxOf;
    forall i | i in keep
      ensures KeptAs(g, n + 1, i, keep[i])
    {
      KeptOneMore(g, n, i, keep[i]);
    }
  }

  /** A material that shows another image, or none, changes nothing for `i`. */
  lemma KeptOneMore(g: Gltf, n: nat, i: nat, k: Keep)
    requires n < |g.materials| && KeptAs(g, n, i, k) && ImageOf(g, n) != Some(i)
    ensures KeptAs(g, n + 1, i, k)
  {
    hide PxOf;
  }

  lemma KeepMore(g: Gltf, n: nat, keep: map<nat, Keep>, img: nat)
    requires n < |g.materials| && KeptImages(g, n, keep) && ImageOf(g, n) == Some(img)
    ensures var prev := if img in keep then keep[img] else Keep(false, 0);
            var k := Keep(prev.alpha || g.materials[n].blends, Larger(prev.px, PxOf(g.materials[n])));
            KeptImages(g, n + 1, keep[img := k])
  {
    hide PxOf;
    var prev := if img in keep then keep[img] else Keep(false, 0);
    var k := Keep(prev.alpha || g.materials[n].blends, Larger(prev.px, PxOf(g.materials[n])));
    KeptAnew(g, n, img, prev, k, img in keep);
    forall i | i in keep && i != img
      ensures KeptAs(g, n + 1, i, keep[i])
    {
      KeptOneMore(g, n, i, keep[i]);
    }
  }

  lemma KeptAnew(g: Gltf, n: nat, img: nat, prev: Keep, k: Keep, had: bool)
    requires n < |g.materials| && ImageOf(g, n) == Some(img)
    requires k == Keep(prev.alpha || g.materials[n].blends, Larger(prev.px, PxOf(g.materials[n])))
    requires if had then KeptAs(g, n, img, prev)
             else prev == Keep(false, 0) && forall m :: 0 <= m < n ==> ImageOf(g, m) != Some(img)
    ensures KeptAs(g, n + 1, img, k)
  {
    hide PxOf;
    if had && prev.px == k.px {
      var m :| 0 <= m < n && ImageOf(g, m) == Some(img) && PxOf(g.materials[m]) == prev.px;
      assert 0 <= m < n + 1 && PxOf(g.materials[m]) == k.px;
    } else {
      assert PxOf(g.materials[n]) == k.px;
    }
    if prev.alpha {
      var m :| 0 <= m < n && ImageOf(g, m) == Some(img) && g.materials[m].blends;
      assert 0 <= m < n + 1;
    }
  }

  // ---- Which accessors are used ----

  predicate Before(site: Site, p: nat, s: nat, m: nat) {
    match site
    case Attribute(i, _) => i < p
    case Indices(i) => i < p
    case Binding(i) => i < s
    case Input(i) => i < m
    case Output(i) => i < m
  }

  ghost predicate RefersBefore(g: Gltf, p: nat, s: nat, m: nat, a: nat) {
    exists site :: RefAt(g, site) == Some(a) && Before(site, p, s, m)
  }

  method UsedAccessors(g: Gltf) returns (used: set<nat>)
    ensures forall a: nat :: a in used <==> Refers(g, a)
  {
    hide RefersBefore, Refers;
    used := {};
    NoneBefore(g);
    for p := 0 to |g.prims|
      invariant forall a: nat :: a in used <==> RefersBefore(g, p, 0, 0, a)
    {
      PrimRefers(g, p);
      used := used + g.prims[p].attributes.Values;
      if g.prims[p].indices.Some? {
        used := used + {g.prims[p].indices.value};
      }
    }
    for s := 0 to |g.skins|
      invariant forall a: nat :: a in used <==> RefersBefore(g, |g.prims|, s, 0, a)
    {
      SkinRefers(g, |g.prims|, s);
      if g.skins[s].Some? {
        used := used + {g.skins[s].value};
      }
    }
    for m := 0 to |g.samplers|
      invariant forall a: nat :: a in used <==> RefersBefore(g, |g.prims|, |g.skins|, m, a)
    {
      SamplerRefers(g, |g.prims|, |g.skins|, m);
      ghost var before := used;
      used := used + {g.samplers[m].input, g.samplers[m].output};
      assert forall a: nat :: a in used <==> a in before || g.samplers[m].input == a || g.samplers[m].output == a;
    }
    AllBefore(g);
  }

  lemma NoneBefore(g: Gltf)
    ensures forall a: nat :: !RefersBefore(g, 0, 0, 0, a)
  {
  }

  lemma AllBefore(g: Gltf)
    ensures forall a: nat :: RefersBefore(g, |g.prims|, |g.skins|, |g.samplers|, a) <==> Refers(g, a)
  {
    forall a: nat | Refers(g, a)
      ensures RefersBefore(g, |g.prims|, |g.skins|, |g.samplers|, a)
    {
      var site :| RefAt(g, site) == Some(a);
      assert Before(site, |g.prims|, |g.skins|, |g.samplers|);
    }
  }

  lemma PrimRefers(g: Gltf, p: nat)
    requires p < |g.prims|
    ensures forall a: nat :: RefersBefore(g, p + 1, 0, 0, a) <==>
              RefersBefore(g, p, 0, 0, a) || a in g.prims[p].attributes.Values || g.prims[p].indices == Some(a)
  {
    var prim := g.prims[p];
    forall a: nat
      ensures RefersBefore(g, p + 1, 0, 0, a)
              <==> RefersBefore(g, p, 0, 0, a) || a in prim.attributes.Values || prim.indices == Some(a)
    {
      if RefersBefore(g, p + 1, 0, 0, a) {
        var site :| RefAt(g, site) == Some(a) && Before(site, p + 1, 0, 0);
        if !Before(site, p, 0, 0) {
          assert site == Indices(p) || (site.Attribute? && site.prim == p);
        }
      }
      if RefersBefore(g, p, 0, 0, a) {
        var site :| RefAt(g, site) == Some(a) && Before(site, p, 0, 0);
        assert Before(site, p + 1, 0, 0);
      }
      if a in prim.attributes.Values {
        var name :| name in prim.attributes && prim.attributes[name] == a;
        assert RefAt(g, Attribute(p, name)) == Some(a) && Before(Attribute(p, name), p + 1, 0, 0);
      }
      if prim.indices == Some(a) {
        assert RefAt(g, Indices(p)) == Some(a) && Before(Indices(p), p + 1, 0, 0);
      }
    }
  }

  lemma SkinRefers(g: Gltf, p: nat, s: nat)
    requires s < |g.skins|
    ensures forall a: nat :: RefersBefore(g, p, s + 1, 0, a) <==> RefersBefore(g, p, s, 0, a) || g.skins[s] == Some(a)
  {
    forall a: nat
      ensures RefersBefore(g, p, s + 1, 0, a) <==> RefersBefore(g, p, s, 0, a) || g.skins[s] == Some(a)
    {
      if RefersBefore(g, p, s + 1, 0, a) {
        var site :| RefAt(g, site) == Some(a) && Before(site, p, s + 1, 0);
        assert Before(site, p, s, 0) || site == Binding(s);
      }
      if RefersBefore(g, p, s, 0, a) {
        var site :| RefAt(g, site) == Some(a) && Before(site, p, s, 0);
        assert Before(site, p, s + 1, 0);
      }
      if g.skins[s] == Some(a) {
        assert RefAt(g, Binding(s)) == Some(a) && Before(Binding(s), p, s + 1, 0);
      }
    }
  }

  lemma SamplerRefers(g: Gltf, p: nat, s: nat, m: nat)
    requires m < |g.samplers|
    ensures forall a: nat :: RefersBefore(g, p, s, m + 1, a) <==>
              RefersBefore(g, p, s, m, a) || g.samplers[m].input == a || g.samplers[m].output == a
  {
    forall a: nat
      ensures RefersBefore(g, p, s, m + 1, a)
              <==> RefersBefore(g, p, s, m, a) || g.samplers[m].input == a || g.samplers[m].output == a
    {
      if RefersBefore(g, p, s, m + 1, a) {
        var site :| RefAt(g, site) == Some(a) && Before(site, p, s, m + 1);
        assert Before(site, p, s, m) || site == Input(m) || site == Output(m);
      }
      if RefersBefore(g, p, s, m, a) {
        var site :| RefAt(g, site) == Some(a) && Before(site, p, s, m);
        assert Before(site, p, s, m + 1);
      }
      if g.samplers[m].input == a {
        assert RefAt(g, Input(m)) == Some(a) && Before(Input(m), p, s, m + 1);
      }
      if g.samplers[m].output == a {
        assert RefAt(g, Output(m)) == Some(a) && Before(Output(m), p, s, m + 1);
      }
    }
  }

  // ---- Copying the accessors and their views ----

  /** A view of the new buffer holds what view `v` of `g` held. */
  ghost predicate Copies(g: Gltf, v: nat, bytes: seq<Byte>, view: View) {
    v < |g.views| && Glb.Slice(bytes, view.offset, view.length) == ViewBytes(g, v) && view.extra == g.views[v].extra
  }

  ghost predicate ViewsCopied(g: Gltf, viewMap: map<nat, nat>, bytes: seq<Byte>, views: seq<View>) {
    && (forall v :: v in viewMap ==> viewMap[v] < |views| && Copies(g, v, bytes, views[viewMap[v]]))
    && (forall v, w :: v in viewMap && w in viewMap && viewMap[v] == viewMap[w] ==> v == w)
  }

  ghost predicate Holding(accs: seq<Accessor>, v: nat) {
    exists i :: 0 <= i < |accs| && accs[i].view == v
  }

  ghost predicate AccessorsCopied(g: Gltf, ids: seq<nat>, accs: seq<Accessor>, viewMap: map<nat, nat>, n: nat) {
    && |accs| == |ids|
    && (forall i :: 0 <= i < |ids| ==>
          && ids[i] < |g.accessors| && g.accessors[ids[i]].view in viewMap
          && accs[i] == g.accessors[ids[i]].(view := viewMap[g.accessors[ids[i]].view]))
    && (forall v: nat :: v < n ==> Holding(accs, v))
  }

  /** The views of these accessors, in order of first use. */
  function ViewsInOrder(g: Gltf, ids: seq<nat>): seq<nat>
    requires forall i :: 0 <= i < |ids| ==> ids[i] < |g.accessors|
  {
    if ids == [] then []
    else
      var n := |ids| - 1;
      var before, v := ViewsInOrder(g, ids[..n]), g.accessors[ids[n]].view;
      if v in before then before else before + [v]
  }

  lemma ViewsInOrderNext(g: Gltf, ids: seq<nat>, id: nat)
    requires id < |g.accessors| && forall i :: 0 <= i < |ids| ==> ids[i] < |g.accessors|
    ensures var before, v := ViewsInOrder(g, ids), g.accessors[id].view;
            ViewsInOrder(g, ids + [id]) == if v in before then before else before + [v]
  {
    assert (ids + [id])[..|ids|] == ids;
  }

  method CopyAccessors(g: Gltf, ids: seq<nat>, buf: Buffer)
    returns (accMap: map<nat, nat>, accs: seq<Accessor>, viewMap: map<nat, nat>)
    requires buf.Valid() && buf.views == [] && Increasing(ids)
    requires forall i :: 0 <= i < |ids| ==> ids[i] < |g.accessors| && g.accessors[ids[i]].view < |g.views|
    modifies buf
    ensures buf.Valid() && Numbers(accMap, ids)
    ensures ViewsCopied(g, viewMap, buf.bytes, buf.views) && AccessorsCopied(g, ids, accs, viewMap, |buf.views|)
    ensures Numbers(viewMap, ViewsInOrder(g, ids)) && |buf.views| == |ViewsInOrder(g, ids)|
  {
    hide ViewsCopied, AccessorsCopied, Tidy, Packed, ViewsInOrder, Numbers, Glb.Slice;
    assert Numbers(map[], []) by {
      NothingNumbered();
    }
    NoViews(g);
    accMap, accs := map[], [];
    var placed: map<nat, nat> := map[];
    NothingCopied(g, buf.bytes);
    for k := 0 to |ids|
      invariant buf.Valid() && |accs| == k && Numbers(accMap, ids[..k])
      invariant ViewsCopied(g, placed, buf.bytes, buf.views) && AccessorsCopied(g, ids[..k], accs, placed, |buf.views|)
      invariant Numbers(placed, ViewsInOrder(g, ids[..k])) && |buf.views| == |ViewsInOrder(g, ids[..k])|
    {
      var a := g.accessors[ids[k]];
      var v := g.views[a.view];
      ghost var before := ids[..k];
      assert ids[..k + 1] == before + [ids[k]];
      ViewsInOrderNext(g, before, ids[k]);
      InNumbered(placed, ViewsInOrder(g, before), a.view);
      if a.view !in placed {
        NumberedNext(placed, ViewsInOrder(g, before), a.view);
        ghost var bytes, views, was := buf.bytes, buf.views, placed;
        var id := buf.AddView(Glb.Slice(g.binary, v.offset, v.length), v.extra);
        placed := placed[a.view := id];
        ViewAdded(g, was, bytes, views, buf.bytes, buf.views, a.view);
        AccessorWithView(g, before, accs, was, ids[k], |views|);
      } else {
        AccessorAdded(g, before, accs, placed, ids[k], |buf.views|);
      }
      NumberAdded(accMap, ids, k);
      accMap := accMap[ids[k] := k];
      accs := accs + [a.(view := placed[a.view])];
    }
    assert ids[..|ids|] == ids;
    viewMap := placed;
  }

  lemma NoViews(g: Gltf)
    ensures ViewsInOrder(g, []) == []
  {
  }

  lemma InNumbered(m: map<nat, nat>, ids: seq<nat>, x: nat)
    requires Numbers(m, ids)
    ensures x in m <==> x in ids
  {
  }

  lemma NothingCopied(g: Gltf, bytes: seq<Byte>)
    ensures ViewsCopied(g, map[], bytes, []) && AccessorsCopied(g, [], [], map[], 0)
  {
  }

  lemma NumberAdded(m: map<nat, nat>, ids: seq<nat>, k: nat)
    requires k < |ids| && Increasing(ids) && Numbers(m, ids[..k])
    ensures Numbers(m[ids[k] := k], ids[..k + 1])
  {
    assert ids[..k + 1] == ids[..k] + [ids[k]];
    forall i | 0 <= i < k
      ensures ids[..k][i] != ids[k]
    {
      assert ids[i] < ids[k];
    }
  }

  lemma ViewAdded(g: Gltf, placed: map<nat, nat>, bytes: seq<Byte>, views: seq<View>,
                  bytes': seq<Byte>, views': seq<View>, v: nat)
    requires ViewsCopied(g, placed, bytes, views) && Tidy(views, bytes) && v !in placed
    requires bytes <= bytes' && |views'| == |views| + 1 && views'[..|views|] == views
    requires Copies(g, v, bytes', views'[|views|])
    ensures ViewsCopied(g, placed[v := |views|], bytes', views')
  {
    var n := |views|;
    forall u | u in placed
      ensures placed[u] < |views'| && Copies(g, u, bytes', views'[placed[u]])
    {
      assert views'[placed[u]] == views'[..n][placed[u]] == views[placed[u]];
      GrowingKeeps(bytes, bytes', views[placed[u]]);
    }
  }

  lemma AccessorAdded(g: Gltf, ids: seq<nat>, accs: seq<Accessor>, placed: map<nat, nat>, id: nat, n: nat)
    requires AccessorsCopied(g, ids, accs, placed, n) && id < |g.accessors| && g.accessors[id].view in placed
    ensures AccessorsCopied(g, ids + [id], accs + [g.accessors[id].(view := placed[g.accessors[id].view])], placed, n)
  {
    var more := accs + [g.accessors[id].(view := placed[g.accessors[id].view])];
    forall v: nat | v < n
      ensures Holding(more, v)
    {
      assert Holding(accs, v);
      var i :| 0 <= i < |accs| && accs[i].view == v;
      assert more[i].view == v;
    }
  }

  lemma AccessorWithView(g: Gltf, ids: seq<nat>, accs: seq<Accessor>, placed: map<nat, nat>, id: nat, n: nat)
    requires AccessorsCopied(g, ids, accs, placed, n) && id < |g.accessors| && g.accessors[id].view !in placed
    ensures AccessorsCopied(g, ids + [id], accs + [g.accessors[id].(view := n)],
                            placed[g.accessors[id].view := n], n + 1)
  {
    var more := accs + [g.accessors[id].(view := n)];
    forall v: nat | v < n + 1
      ensures Holding(more, v)
    {
      if v < n {
        assert Holding(accs, v);
        var i :| 0 <= i < |accs| && accs[i].view == v;
        assert more[i].view == v;
      } else {
        assert more[|accs|].view == v;
      }
    }
  }

  // ---- Copying the images ----

  /** The images kept, in views of their own from `base` on. */
  ghost predicate ImagesCopied(g: Gltf, ids: seq<nat>, keep: map<nat, Keep>, shrink: Shrink, imgs: seq<Image>,
                               base: nat, bytes: seq<Byte>, views: seq<View>)
  {
    && |imgs| == |ids| && |views| == base + |ids|
    && forall i :: 0 <= i < |ids| ==> ImageCopied(g, ids[i], keep, shrink, imgs[i], base + i, bytes, views[base + i])
  }

  ghost predicate ImageCopied(g: Gltf, id: nat, keep: map<nat, Keep>, shrink: Shrink, img: Image, at: nat,
                              bytes: seq<Byte>, view: View)
  {
    && id < |g.images| && g.images[id].view < |g.views| && id in keep
    && img == Image(at, g.images[id].name)
    && Glb.Slice(bytes, view.offset, view.length)
       == shrink(ViewBytes(g, g.images[id].view), keep[id].px, keep[id].alpha)
    && view.extra == Extra(None, None)
  }

  method CopyImages(g: Gltf, ids: seq<nat>, keep: map<nat, Keep>, shrink: Shrink, buf: Buffer)
    returns (imgMap: map<nat, nat>, imgs: seq<Image>)
    requires buf.Valid() && Increasing(ids)
    requires forall i :: 0 <= i < |ids| ==> ids[i] < |g.images| && g.images[ids[i]].view < |g.views| && ids[i] in keep
    modifies buf
    ensures buf.Valid() && Numbers(imgMap, ids)
    ensures old(buf.bytes) <= buf.bytes && old(buf.views) <= buf.views
    ensures ImagesCopied(g, ids, keep, shrink, imgs, |old(buf.views)|, buf.bytes, buf.views)
  {
    hide ImagesCopied, Tidy, Packed, Numbers, Glb.Slice;
    assert Numbers(map[], []) by {
      NothingNumbered();
    }
    imgMap, imgs := map[], [];
    ghost var base := |buf.views|;
    NoImages(g, keep, shrink, buf.bytes, buf.views);
    for k := 0 to |ids|
      invariant buf.Valid() && |imgs| == k && Numbers(imgMap, ids[..k])
      invariant old(buf.bytes) <= buf.bytes && old(buf.views) <= buf.views
      invariant ImagesCopied(g, ids[..k], keep, shrink, imgs, base, buf.bytes, buf.views)
    {
      var im := g.images[ids[k]];
      var v := g.views[im.view];
      var how := keep[ids[k]];
      ghost var bytes, views := buf.bytes, buf.views;
      var id := buf.AddView(shrink(Glb.Slice(g.binary, v.offset, v.length), how.px, how.alpha), Extra(None, None));
      assert ids[..k + 1] == ids[..k] + [ids[k]];
      ImageAdded(g, ids[..k], keep, shrink, imgs, base, bytes, views, buf.bytes, buf.views, ids[k]);
      NumberAdded(imgMap, ids, k);
      imgMap := imgMap[ids[k] := k];
      imgs := imgs + [Image(id, im.name)];
    }
    assert ids[..|ids|] == ids;
  }

  lemma NoImages(g: Gltf, keep: map<nat, Keep>, shrink: Shrink, bytes: seq<Byte>, views: seq<View>)
    ensures ImagesCopied(g, [], keep, shrink, [], |views|, bytes, views)
  {
  }

  lemma ImageAdded(g: Gltf, ids: seq<nat>, keep: map<nat, Keep>, shrink: Shrink, imgs: seq<Image>, base: nat,
                   bytes: seq<Byte>, views: seq<View>, bytes': seq<Byte>, views': seq<View>, id: nat)
    requires ImagesCopied(g, ids, keep, shrink, imgs, base, bytes, views) && Tidy(views, bytes)
    requires bytes <= bytes' && |views'| == |views| + 1 && views'[..|views|] == views
    requires id < |g.images|
    requires ImageCopied(g, id, keep, shrink, Image(|views|, g.images[id].name), |views|, bytes', views'[|views|])
    ensures ImagesCopied(g, ids + [id], keep, shrink, imgs + [Image(|views|, g.images[id].name)], base, bytes', views')
  {
    var n := |views|;
    var ids', imgs' := ids + [id], imgs + [Image(n, g.images[id].name)];
    forall i | 0 <= i < |ids'|
      ensures ImageCopied(g, ids'[i], keep, shrink, imgs'[i], base + i, bytes', views'[base + i])
    {
      if i < |ids| {
        assert views'[base + i] == views'[..n][base + i] == views[base + i];
        assert ImageCopied(g, ids[i], keep, shrink, imgs[i], base + i, bytes, views[base + i]);
        GrowingKeeps(bytes, bytes', views[base + i]);
      }
    }
  }

  // ---- Pointing the references at the new indices ----

  function Moved(accMap: map<nat, nat>, a: nat): nat {
    if a in accMap then accMap[a] else 0
  }

  function MovedPrim(accMap: map<nat, nat>, p: Prim): Prim {
    Prim(map name | name in p.attributes :: Moved(accMap, p.attributes[name]),
         if p.indices.Some? then Some(Moved(accMap, p.indices.value)) else None, [])
  }

  function MovedPrims(accMap: map<nat, nat>, prims: seq<Prim>): seq<Prim> {
    seq(|prims|, i requires 0 <= i < |prims| => MovedPrim(accMap, prims[i]))
  }

  function MovedSkins(accMap: map<nat, nat>, skins: seq<Option<nat>>): seq<Option<nat>> {
    seq(|skins|, i requires 0 <= i < |skins| => if skins[i].Some? then Some(Moved(accMap, skins[i].value)) else None)
  }

  function MovedSamplers(accMap: map<nat, nat>, samplers: seq<Sampler>): seq<Sampler> {
    seq(|samplers|, i requires 0 <= i < |samplers| =>
        Sampler(Moved(accMap, samplers[i].input), Moved(accMap, samplers[i].output)))
  }

  /** Every place refers where its accessor went. */
  lemma RefsMoved(g: Gltf, h: Gltf, accMap: map<nat, nat>, site: Site)
    requires h.prims == MovedPrims(accMap, g.prims) && h.skins == MovedSkins(accMap, g.skins)
    requires h.samplers == MovedSamplers(accMap, g.samplers)
    ensures RefAt(h, site) == if RefAt(g, site).Some? then Some(Moved(accMap, RefAt(g, site).value)) else None
  {
  }

  // ---- The textures ----

  ghost predicate TexturesCopied(g: Gltf, n: nat, texMap: map<nat, nat>, imgMap: map<nat, nat>, texs: seq<Texture>,
                                 mats: seq<Material>) {
    && |mats| == n <= |g.materials|
    && (forall m :: 0 <= m < n ==>
          && mats[m] == g.materials[m].(others := [], baseColour := mats[m].baseColour)
          && (mats[m].baseColour.Some? <==> g.materials[m].baseColour.Some?)
          && (mats[m].baseColour.Some? ==>
                var t := g.materials[m].baseColour.value; t in texMap && mats[m].baseColour.value == texMap[t]))
    && (forall t :: t in texMap ==> TextureCopied(g, t, texMap[t], imgMap, texs))
    && (forall u: nat :: u < |texs| ==> Painted(mats, u))
  }

  ghost predicate TextureCopied(g: Gltf, t: nat, u: nat, imgMap: map<nat, nat>, texs: seq<Texture>) {
    && t < |g.textures| && u < |texs| && g.textures[t].source in imgMap
    && texs[u] == g.textures[t].(source := imgMap[g.textures[t].source])
  }

  /** The textures of the first `n` materials, in order of first use. */
  function TexturesInOrder(g: Gltf, n: nat): seq<nat>
    requires n <= |g.materials|
  {
    if n == 0 then []
    else
      var before, t := TexturesInOrder(g, n - 1), g.materials[n - 1].baseColour;
      if t.None? || t.value in before then before else before + [t.value]
  }

  method CopyTextures(g: Gltf, imgMap: map<nat, nat>)
    returns (texs: seq<Texture>, mats: seq<Material>, texMap: map<nat, nat>)
    requires Sound(g)
    requires forall m :: 0 <= m < |g.materials| && ImageOf(g, m).Some? ==> ImageOf(g, m).value in imgMap
    ensures TexturesCopied(g, |g.materials|, texMap, imgMap, texs, mats)
    ensures Numbers(texMap, TexturesInOrder(g, |g.materials|)) && |texs| == |TexturesInOrder(g, |g.materials|)|
  {
    hide TexturesCopied, Numbers;
    assert Numbers(map[], []) by {
      NothingNumbered();
    }
    texs, mats := [], [];
    var placed: map<nat, nat> := map[];
    NoTextures(g, imgMap);
    for n := 0 to |g.materials|
      invariant TexturesCopied(g, n, placed, imgMap, texs, mats)
      invariant Numbers(placed, TexturesInOrder(g, n)) && |texs| == |TexturesInOrder(g, n)|
    {
      var m := g.materials[n];
      if m.baseColour.None? {
        PlainMaterial(g, n, placed, imgMap, texs, mats);
        mats := mats + [m.(others := [])];
      } else {
        var old_ := m.baseColour.value;
        assert ImageOf(g, n) == Some(g.textures[old_].source);
        InNumbered(placed, TexturesInOrder(g, n), old_);
        if old_ !in placed {
          NumberedNext(placed, TexturesInOrder(g, n), old_);
          TextureAdded(g, n, placed, imgMap, texs, mats, old_);
          placed := placed[old_ := |texs|];
          texs := texs + [g.textures[old_].(source := imgMap[g.textures[old_].source])];
        } else {
          TextureShared(g, n, placed, imgMap, texs, mats, old_);
        }
        mats := mats + [m.(others := [], baseColour := Some(placed[old_]))];
      }
    }
    texMap := placed;
  }

  lemma NothingNumbered()
    ensures Numbers(map[], [])
  {
  }

  lemma NoTextures(g: Gltf, imgMap: map<nat, nat>)
    ensures TexturesCopied(g, 0, map[], imgMap, [], [])
  {
  }

  /** A texture painted stays painted as materials are added. */
  lemma StillPainted(mats: seq<Material>, m: Material, u: nat)
    requires Painted(mats, u)
    ensures Painted(mats + [m], u)
  {
    var i :| 0 <= i < |mats| && mats[i].baseColour == Some(u);
    assert (mats + [m])[i].baseColour == Some(u);
  }

  lemma PlainMaterial(g: Gltf, n: nat, texMap: map<nat, nat>, imgMap: map<nat, nat>, texs: seq<Texture>,
                      mats: seq<Material>)
    requires TexturesCopied(g, n, texMap, imgMap, texs, mats) && n < |g.materials| && g.materials[n].baseColour.None?
    ensures TexturesCopied(g, n + 1, texMap, imgMap, texs, mats + [g.materials[n].(others := [])])
  {
    forall u: nat | u < |texs|
      ensures Painted(mats + [g.materials[n].(others := [])], u)
    {
      StillPainted(mats, g.materials[n].(others := []), u);
    }
  }

  lemma TextureShared(g: Gltf, n: nat, texMap: map<nat, nat>, imgMap: map<nat, nat>, texs: seq<Texture>,
                      mats: seq<Material>, t: nat)
    requires TexturesCopied(g, n, texMap, imgMap, texs, mats) && n < |g.materials|
    requires g.materials[n].baseColour == Some(t) && t in texMap
    ensures TexturesCopied(g, n + 1, texMap, imgMap, texs,
                           mats + [g.materials[n].(others := [], baseColour := Some(texMap[t]))])
  {
    var m := g.materials[n].(others := [], baseColour := Some(texMap[t]));
    forall u: nat | u < |texs|
      ensures Painted(mats + [m], u)
    {
      StillPainted(mats, m, u);
    }
  }

  lemma TextureAdded(g: Gltf, n: nat, texMap: map<nat, nat>, imgMap: map<nat, nat>, texs: seq<Texture>,
                     mats: seq<Material>, t: nat)
    requires TexturesCopied(g, n, texMap, imgMap, texs, mats) && n < |g.materials|
    requires g.materials[n].baseColour == Some(t) && t !in texMap && t < |g.textures| && g.textures[t].source in imgMap
    ensures TexturesCopied(g, n + 1, texMap[t := |texs|], imgMap,
                           texs + [g.textures[t].(source := imgMap[g.textures[t].source])],
                           mats + [g.materials[n].(others := [], baseColour := Some(|texs|))])
  {
    var m := g.materials[n].(others := [], baseColour := Some(|texs|));
    var texs' := texs + [g.textures[t].(source := imgMap[g.textures[t].source])];
    forall u: nat | u < |texs'|
      ensures Painted(mats + [m], u)
    {
      if u < |texs| {
        StillPainted(mats, m, u);
      } else {
        assert (mats + [m])[n].baseColour == Some(u);
      }
    }
    forall s | s in texMap
      ensures TextureCopied(g, s, texMap[s], imgMap, texs')
    {
      assert TextureCopied(g, s, texMap[s], imgMap, texs);
    }
  }

  // ---- The whole preparation ----

  /** Which images, accessors, views and textures were taken, and where each went: accessors and images in the order
      taken, the views of accessors before `base` and those of images from there on. */
  datatype Moves = Moves(
    keep: map<nat, Keep>, ids: seq<nat>, accMap: map<nat, nat>, viewMap: map<nat, nat>,
    imgIds: seq<nat>, imgMap: map<nat, nat>, texMap: map<nat, nat>, base: nat)

  /** What the copying phases leave behind. */
  ghost predicate Built(g: Gltf, h: Gltf, shrink: Shrink, via: Moves) {
    && Sound(g) && KeptImages(g, |g.materials|, via.keep) && Tidy(h.views, h.binary)
    && (forall a :: a in via.ids <==> Refers(g, a)) && Numbers(via.accMap, via.ids)
    && via.base <= |h.views| && ViewsCopied(g, via.viewMap, h.binary, h.views[..via.base])
    && AccessorsCopied(g, via.ids, h.accessors, via.viewMap, via.base)
    && (forall i :: i in via.imgIds <==> i in via.keep) && Numbers(via.imgMap, via.imgIds)
    && ImagesCopied(g, via.imgIds, via.keep, shrink, h.images, via.base, h.binary, h.views)
    && TexturesCopied(g, |g.materials|, via.texMap, via.imgMap, h.textures, h.materials)
    && h.prims == MovedPrims(via.accMap, g.prims) && h.skins == MovedSkins(via.accMap, g.skins)
    && h.samplers == MovedSamplers(via.accMap, g.samplers)
  }

  /** The views copied and the images kept are numbered in order. */
  ghost predicate InTheirOrder(g: Gltf, via: Moves)
    requires forall i :: 0 <= i < |via.ids| ==> via.ids[i] < |g.accessors|
  {
    && Increasing(via.ids) && Increasing(via.imgIds)
    && Numbers(via.viewMap, ViewsInOrder(g, via.ids)) && via.base == |ViewsInOrder(g, via.ids)|
  }

  /** So are the textures, and the views fill the buffer without more than their padding. */
  ghost predicate Settled(g: Gltf, h: Gltf, texMap: map<nat, nat>) {
    && Numbers(texMap, TexturesInOrder(g, |g.materials|)) && |h.textures| == |TexturesInOrder(g, |g.materials|)|
    && Packed(h.views, h.binary)
  }

  /** `h` is put together from `g` so. */
  ghost predicate Assembled(g: Gltf, h: Gltf, shrink: Shrink, via: Moves) {
    && Built(g, h, shrink, via)
    && (forall i :: 0 <= i < |via.ids| ==> via.ids[i] < |g.accessors|)
    && InTheirOrder(g, via) && Settled(g, h, via.texMap)
  }

  ghost predicate Prepared(g: Gltf, h: Gltf, shrink: Shrink) {
    exists via :: Assembled(g, h, shrink, via)
  }

  /** Main result: the preparation relocates every thing still used and changes the meaning of none. */
  method PrepVrm(g: Gltf, shrink: Shrink) returns (h: Gltf)
    requires Sound(g)
    ensures Relocated(g, h, shrink)
    ensures SameSparse(g, h) <==> SparseSurvives(g, shrink)
    ensures Prepared(g, h, shrink)
  {
    hide Packed, TexturesInOrder, Sound, KeptImages, ViewsCopied, AccessorsCopied, ImagesCopied, TexturesCopied,
         Refers, Tidy, Numbers, Relocated, ViewsInOrder, SameSparse, SparseSurvives;
    var keep := KeepImages(g);
    var used := UsedAccessors(g);
    var ids := Sorted(used);
    SoundRefs(g, ids);
    var buf := new Buffer();
    var accMap, accs, viewMap := CopyAccessors(g, ids, buf);
    ghost var base, bytes, views := |buf.views|, buf.bytes, buf.views;
    var imgIds := Sorted(keep.Keys);
    SoundImages(g, keep, imgIds);
    var imgMap, imgs := CopyImages(g, imgIds, keep, shrink, buf);
    assert buf.views[..base] == views;
    ViewsStay(g, viewMap, bytes, views, buf.bytes);
    ImagesNumbered(g, keep, imgIds, imgMap);
    var texs, mats, texMap := CopyTextures(g, imgMap);
    h := Gltf(MovedPrims(accMap, g.prims), MovedSkins(accMap, g.skins), MovedSamplers(accMap, g.samplers),
              mats, texs, imgs, accs, buf.views, buf.bytes);
    ghost var via := Moves(keep, ids, accMap, viewMap, imgIds, imgMap, texMap, base);
    assert Built(g, h, shrink, via);
    assert InTheirOrder(g, via);
    assert Assembled(g, h, shrink, via);
    BuiltIsRelocated(g, h, shrink, via);
    RelocatedData(g, h, shrink);
    BuiltSparse(g, h, shrink, via);
  }

  lemma RelocatedData(g: Gltf, h: Gltf, shrink: Shrink)
    requires Relocated(g, h, shrink)
    ensures SameData(g, h)
  {
  }

  // ---- Sparse accessors ----

  /** How large, and whether with alpha, the materials that show an image have it kept. */
  ghost function SizeFor(g: Gltf, image: nat): nat {
    if exists m :: 0 <= m < |g.materials| && ImageOf(g, m) == Some(image) && IsFace(g.materials[m].name)
    then FACE_PX
    else MAX_PX
  }

  ghost predicate AlphaFor(g: Gltf, image: nat) {
    exists m :: 0 <= m < |g.materials| && ImageOf(g, m) == Some(image) && g.materials[m].blends
  }

  ghost predicate Shown(g: Gltf, image: nat) {
    exists m :: 0 <= m < |g.materials| && ImageOf(g, m) == Some(image)
  }

  /** What view `v` holds once all is moved: the views still used by accessors in order of first use, then the
      images still shown, shrunk. */
  ghost function ViewAfter(g: Gltf, shrink: Shrink, v: nat): Option<(seq<Byte>, Extra)>
    requires Sound(g)
  {
    var used := InOrder(set a: nat | a < |g.accessors| && Refers(g, a), |g.accessors|);
    OrderIsBelow(set a: nat | a < |g.accessors| && Refers(g, a), |g.accessors|);
    var views := ViewsInOrder(g, used);
    var images := InOrder(set i: nat | i < |g.images| && Shown(g, i), |g.images|);
    if v < |views| then (if views[v] < |g.views| then Some((ViewBytes(g, views[v]), g.views[views[v]].extra)) else None)
    else if v - |views| < |images| then
      var i := images[v - |views|];
      if i < |g.images| && g.images[i].view < |g.views|
      then Some((shrink(ViewBytes(g, g.images[i].view), SizeFor(g, i), AlphaFor(g, i)), Extra(None, None)))
      else None
    else None
  }

  lemma {:induction false} OrderIsBelow(s: set<nat>, n: nat)
    ensures forall i :: 0 <= i < |InOrder(s, n)| ==> InOrder(s, n)[i] < n && InOrder(s, n)[i] in s
  {
    if n > 0 {
      OrderIsBelow(s, n - 1);
    }
  }

  /** A sparse accessor's view numbers are copied as they are: what they named must lie at the same number of the
      new table. */
  ghost predicate StillNames(g: Gltf, shrink: Shrink, v: nat)
    requires Sound(g)
  {
    v < |g.views| ==> ViewAfter(g, shrink, v) == Some((ViewBytes(g, v), g.views[v].extra))
  }

  ghost predicate SparseSurvives(g: Gltf, shrink: Shrink)
    requires Sound(g)
  {
    forall a: nat :: a < |g.accessors| && Refers(g, a) && g.accessors[a].sparse.Some? ==>
      && StillNames(g, shrink, g.accessors[a].sparse.value.indices)
      && StillNames(g, shrink, g.accessors[a].sparse.value.values)
  }

  lemma SoundRefs(g: Gltf, ids: seq<nat>)
    requires Sound(g) && forall a :: a in ids ==> Refers(g, a)
    ensures forall i :: 0 <= i < |ids| ==> ids[i] < |g.accessors| && g.accessors[ids[i]].view < |g.views|
  {
    forall i | 0 <= i < |ids|
      ensures ids[i] < |g.accessors| && g.accessors[ids[i]].view < |g.views|
    {
      assert Refers(g, ids[i]);
    }
  }

  lemma SoundImages(g: Gltf, keep: map<nat, Keep>, ids: seq<nat>)
    requires Sound(g) && KeptImages(g, |g.materials|, keep) && forall i :: i in ids ==> i in keep
    ensures forall i :: 0 <= i < |ids| ==> ids[i] < |g.images| && g.images[ids[i]].view < |g.views| && ids[i] in keep
  {
    forall i | 0 <= i < |ids|
      ensures ids[i] < |g.images| && g.images[ids[i]].view < |g.views| && ids[i] in keep
    {
      assert KeptAs(g, |g.materials|, ids[i], keep[ids[i]]);
    }
  }

  lemma ViewsStay(g: Gltf, viewMap: map<nat, nat>, bytes: seq<Byte>, views: seq<View>, bytes': seq<Byte>)
    requires ViewsCopied(g, viewMap, bytes, views) && Tidy(views, bytes) && bytes <= bytes'
    ensures ViewsCopied(g, viewMap, bytes', views)
  {
    forall v | v in viewMap
      ensures viewMap[v] < |views| && Copies(g, v, bytes', views[viewMap[v]])
    {
      GrowingKeeps(bytes, bytes', views[viewMap[v]]);
    }
  }

  lemma ImagesNumbered(g: Gltf, keep: map<nat, Keep>, ids: seq<nat>, imgMap: map<nat, nat>)
    requires KeptImages(g, |g.materials|, keep) && (forall i :: i in ids <==> i in keep) && Numbers(imgMap, ids)
    ensures forall m :: 0 <= m < |g.materials| && ImageOf(g, m).Some? ==> ImageOf(g, m).value in imgMap
  {
    forall m | 0 <= m < |g.materials| && ImageOf(g, m).Some?
      ensures ImageOf(g, m).value in imgMap
    {
      assert ImageOf(g, m).value in ids;
    }
  }

  lemma BuiltIsRelocated(g: Gltf, h: Gltf, shrink: Shrink, via: Moves)
    requires Built(g, h, shrink, via)
    ensures Relocated(g, h, shrink)
  {
    hide Built, SameData, SameSharing, NothingIdle, SameLooks, Sound, Tidy;
    BuiltSound(g, h, shrink, via);
    BuiltSameData(g, h, shrink, via);
    BuiltSameSharing(g, h, shrink, via);
    BuiltNothingIdle(g, h, shrink, via);
    BuiltSameLooks(g, h, shrink, via);
    BuiltTidy(g, h, shrink, via);
  }

  lemma BuiltTidy(g: Gltf, h: Gltf, shrink: Shrink, via: Moves)
    requires Built(g, h, shrink, via)
    ensures Tidy(h.views, h.binary) && Sound(g)
  {
  }

  /** One reference: where it went, and what is there. */
  lemma BuiltRef(g: Gltf, h: Gltf, shrink: Shrink, via: Moves, site: Site)
    requires Built(g, h, shrink, via)
    ensures RefAt(h, site).Some? <==> RefAt(g, site).Some?
    ensures RefAt(g, site).Some? ==>
              var a := RefAt(g, site).value;
              && a in via.accMap && RefAt(h, site) == Some(via.accMap[a])
              && a < |g.accessors| && via.accMap[a] < |h.accessors|
              && g.accessors[a].view in via.viewMap
              && h.accessors[via.accMap[a]] == g.accessors[a].(view := via.viewMap[g.accessors[a].view])
  {
    hide RefAt, Sound, KeptImages, Tidy, ViewsCopied, ImagesCopied, TexturesCopied;
    RefsMoved(g, h, via.accMap, site);
    if RefAt(g, site).Some? {
      var a := RefAt(g, site).value;
      assert Refers(g, a);
      assert a in via.ids;
      var i :| 0 <= i < |via.ids| && via.ids[i] == a;
      assert via.accMap[a] == i;
    }
  }

  lemma BuiltSameData(g: Gltf, h: Gltf, shrink: Shrink, via: Moves)
    requires Built(g, h, shrink, via) && Sound(h)
    ensures SameData(g, h)
  {
    hide RefAt, Sound, KeptImages, Tidy, AccessorsCopied, ImagesCopied, TexturesCopied, Refers;
    forall site
      ensures RefAt(h, site).Some? <==> RefAt(g, site).Some?
      ensures RefAt(g, site).Some? ==> SameAccessor(g, RefAt(g, site).value, h, RefAt(h, site).value)
    {
      BuiltRef(g, h, shrink, via, site);
      if RefAt(g, site).Some? {
        var v := g.accessors[RefAt(g, site).value].view;
        assert Copies(g, v, h.binary, h.views[..via.base][via.viewMap[v]]);
        assert h.views[..via.base][via.viewMap[v]] == h.views[via.viewMap[v]];
      }
    }
  }

  lemma BuiltSameSharing(g: Gltf, h: Gltf, shrink: Shrink, via: Moves)
    requires Built(g, h, shrink, via) && SameData(g, h)
    ensures SameSharing(g, h)
  {
    hide RefAt, Sound, KeptImages, Tidy, AccessorsCopied, ImagesCopied, TexturesCopied, Refers, Copies;
    forall s, t | RefAt(g, s).Some? && RefAt(g, t).Some?
      ensures RefAt(h, s) == RefAt(h, t) <==> RefAt(g, s) == RefAt(g, t)
      ensures h.accessors[RefAt(h, s).value].view == h.accessors[RefAt(h, t).value].view
          <==> g.accessors[RefAt(g, s).value].view == g.accessors[RefAt(g, t).value].view
    {
      BuiltRef(g, h, shrink, via, s);
      BuiltRef(g, h, shrink, via, t);
    }
  }

  lemma BuiltSound(g: Gltf, h: Gltf, shrink: Shrink, via: Moves)
    requires Built(g, h, shrink, via)
    ensures Sound(h)
  {
    hide RefAt, KeptImages, Tidy, Copies;
    forall site | RefAt(h, site).Some?
      ensures RefAt(h, site).value < |h.accessors|
    {
      BuiltRef(g, h, shrink, via, site);
    }
    forall m | 0 <= m < |h.materials| && h.materials[m].baseColour.Some?
      ensures SoundTexture(h, h.materials[m].baseColour.value)
    {
      BuiltTexture(g, h, shrink, via, m);
    }
  }

  /** One material's texture: where it went, and the image behind it. */
  lemma BuiltTexture(g: Gltf, h: Gltf, shrink: Shrink, via: Moves, m: nat)
    requires Built(g, h, shrink, via)
    requires m < |g.materials| && g.materials[m].baseColour.Some?
    ensures |h.materials| == |g.materials| && h.materials[m].baseColour.Some?
    ensures SameTexture(g, g.materials[m].baseColour.value, h, h.materials[m].baseColour.value, shrink)
  {
    hide RefAt, Tidy, ViewsCopied, AccessorsCopied, ImageCopied, Refers, KeptAs, Painted;
    var t := g.materials[m].baseColour.value;
    assert SoundTexture(g, t);
    assert TextureCopied(g, t, via.texMap[t], via.imgMap, h.textures);
    var id := g.textures[t].source;
    var i := via.imgMap[id];
    assert via.imgIds[i] == id;
    assert id in via.imgIds;
    ImageShown(g, via.imgIds, via.keep, shrink, h, via.base, i);
    assert KeptAs(g, |g.materials|, id, via.keep[id]);
  }

  lemma ImageShown(g: Gltf, ids: seq<nat>, keep: map<nat, Keep>, shrink: Shrink, h: Gltf, base: nat, i: nat)
    requires ImagesCopied(g, ids, keep, shrink, h.images, base, h.binary, h.views) && i < |ids|
    ensures ids[i] < |g.images| && g.images[ids[i]].view < |g.views| && ids[i] in keep
    ensures i < |h.images| && h.images[i].view < |h.views| && h.images[i].name == g.images[ids[i]].name
    ensures ViewBytes(h, h.images[i].view)
            == shrink(ViewBytes(g, g.images[ids[i]].view), keep[ids[i]].px, keep[ids[i]].alpha)
  {
    assert ImageCopied(g, ids[i], keep, shrink, h.images[i], base + i, h.binary, h.views[base + i]);
  }

  lemma BuiltSameLooks(g: Gltf, h: Gltf, shrink: Shrink, via: Moves)
    requires Built(g, h, shrink, via) && Sound(h)
    ensures SameLooks(g, h, shrink)
  {
    hide RefAt, Tidy, ViewsCopied, AccessorsCopied, ImagesCopied, KeptImages, Refers, SameTexture, Sound;
    forall m | 0 <= m < |g.materials| && g.materials[m].baseColour.Some?
      ensures h.materials[m].baseColour.Some?
              && SameTexture(g, g.materials[m].baseColour.value, h, h.materials[m].baseColour.value, shrink)
    {
      BuiltTexture(g, h, shrink, via, m);
    }
  }

  lemma BuiltNothingIdle(g: Gltf, h: Gltf, shrink: Shrink, via: Moves)
    requires Built(g, h, shrink, via)
    ensures NothingIdle(h)
  {
    hide RefAt, Tidy, ViewsCopied, KeptAs, Refers;
    forall b: nat | b < |h.accessors|
      ensures Refers(h, b)
    {
      IdleAccessor(g, h, shrink, via, b);
    }
    forall v: nat | v < |h.views|
      ensures HoldsData(h, v)
    {
      if v < via.base {
        assert Holding(h.accessors, v);
      } else {
        var i := v - via.base;
        assert ImageCopied(g, via.imgIds[i], via.keep, shrink, h.images[i], via.base + i, h.binary,
                           h.views[via.base + i]);
      }
    }
    forall i: nat | i < |h.images|
      ensures Sourced(h, i)
    {
      IdleImage(g, h, shrink, via, i);
    }
  }

  lemma IdleAccessor(g: Gltf, h: Gltf, shrink: Shrink, via: Moves, b: nat)
    requires Built(g, h, shrink, via) && b < |h.accessors|
    ensures Refers(h, b)
  {
    hide RefAt, Sound, KeptImages, Tidy, ViewsCopied, ImagesCopied, TexturesCopied;
    assert via.ids[b] in via.ids;
    var site :| RefAt(g, site) == Some(via.ids[b]);
    BuiltRef(g, h, shrink, via, site);
  }

  lemma IdleImage(g: Gltf, h: Gltf, shrink: Shrink, via: Moves, i: nat)
    requires Built(g, h, shrink, via) && i < |h.images|
    ensures Sourced(h, i)
  {
    hide RefAt, Tidy, ViewsCopied, AccessorsCopied, ImageCopied, Refers, KeptImages, Painted, Sound;
    var id := via.imgIds[i];
    assert id in via.imgIds;
    var m := KeptMaterial(g, via.keep, id);
    var t := g.materials[m].baseColour.value;
    assert t in via.texMap;
    assert TextureCopied(g, t, via.texMap[t], via.imgMap, h.textures);
    assert h.textures[via.texMap[t]].source == i;
  }

  lemma KeptMaterial(g: Gltf, keep: map<nat, Keep>, id: nat) returns (m: nat)
    requires KeptImages(g, |g.materials|, keep) && id in keep
    ensures m < |g.materials| && ImageOf(g, m) == Some(id)
  {
    hide PxOf;
    assert KeptAs(g, |g.materials|, id, keep[id]);
    m :| 0 <= m < |g.materials| && ImageOf(g, m) == Some(id) && PxOf(g.materials[m]) == keep[id].px;
  }

  // ---- What becomes of sparse accessors ----

  lemma KeptSize(g: Gltf, image: nat, k: Keep)
    requires KeptAs(g, |g.materials|, image, k)
    ensures k.px == SizeFor(g, image) && (k.alpha <==> AlphaFor(g, image)) && Shown(g, image)
  {
    hide IsFace;
  }

  lemma BuiltOrders(g: Gltf, h: Gltf, shrink: Shrink, via: Moves)
    requires Built(g, h, shrink, via) && InTheirOrder(g, via)
    ensures via.ids == InOrder(set a: nat | a < |g.accessors| && Refers(g, a), |g.accessors|)
    ensures via.imgIds == InOrder(set i: nat | i < |g.images| && Shown(g, i), |g.images|)
  {
    hide RefAt, Tidy, ViewsCopied, AccessorsCopied, ImagesCopied, TexturesCopied, ViewsInOrder, Numbers, Refers, PxOf;
    var used := set a: nat | a < |g.accessors| && Refers(g, a);
    forall a: nat
      ensures a in via.ids <==> a in used && a < |g.accessors|
    {
      if Refers(g, a) {
        UsedInRange(g, a);
      }
    }
    OneOrder(used, |g.accessors|, via.ids);
    var shown := set i: nat | i < |g.images| && Shown(g, i);
    forall i: nat
      ensures i in via.imgIds <==> i in shown && i < |g.images|
    {
      if i in via.keep {
        assert KeptAs(g, |g.materials|, i, via.keep[i]);
      }
    }
    OneOrder(shown, |g.images|, via.imgIds);
  }

  lemma UsedInRange(g: Gltf, a: nat)
    requires Sound(g) && Refers(g, a)
    ensures a < |g.accessors|
  {
    hide RefAt, SoundTexture;
  }

  /** The new view table, view by view. */
  lemma BuiltView(g: Gltf, h: Gltf, shrink: Shrink, via: Moves, v: nat)
    requires Built(g, h, shrink, via) && InTheirOrder(g, via)
    ensures ViewAfter(g, shrink, v) == if v < |h.views| then Some((ViewBytes(h, v), h.views[v].extra)) else None
  {
    hide RefAt, Built, ViewsInOrder, Refers, Sound, Increasing, Numbers, Shown, SizeFor, AlphaFor, ViewBytes;
    BuiltOrders(g, h, shrink, via);
    OrderIsBelow(set a: nat | a < |g.accessors| && Refers(g, a), |g.accessors|);
    BuiltSize(g, h, shrink, via);
    if v < via.base {
      BuiltCopy(g, h, shrink, via, v);
    } else if v < |h.views| {
      BuiltImage(g, h, shrink, via, v - via.base);
    }
  }

  lemma BuiltSize(g: Gltf, h: Gltf, shrink: Shrink, via: Moves)
    requires Built(g, h, shrink, via)
    ensures |h.views| == via.base + |via.imgIds|
  {
  }

  lemma BuiltCopy(g: Gltf, h: Gltf, shrink: Shrink, via: Moves, v: nat)
    requires Built(g, h, shrink, via) && v < via.base && forall i :: 0 <= i < |via.ids| ==> via.ids[i] < |g.accessors|
    requires InTheirOrder(g, via)
    ensures v < |h.views| && var old_ := ViewsInOrder(g, via.ids)[v];
            old_ < |g.views| && ViewBytes(h, v) == ViewBytes(g, old_) && h.views[v].extra == g.views[old_].extra
  {
    hide RefAt, Tidy, AccessorsCopied, ImagesCopied, TexturesCopied, ViewsInOrder, Refers, KeptAs, Sound, Increasing,
         KeptImages;
    var old_ := ViewsInOrder(g, via.ids)[v];
    assert via.viewMap[old_] == v;
    assert Copies(g, old_, h.binary, h.views[..via.base][via.viewMap[old_]]);
    assert h.views[..via.base][v] == h.views[v];
  }

  lemma BuiltImage(g: Gltf, h: Gltf, shrink: Shrink, via: Moves, i: nat)
    requires Built(g, h, shrink, via) && i < |via.imgIds|
    ensures via.base + i < |h.views| && var id := via.imgIds[i];
            && id < |g.images| && g.images[id].view < |g.views|
            && ViewBytes(h, via.base + i) == shrink(ViewBytes(g, g.images[id].view), SizeFor(g, id), AlphaFor(g, id))
            && h.views[via.base + i].extra == Extra(None, None)
  {
    hide RefAt, Tidy, AccessorsCopied, ViewsCopied, TexturesCopied, Refers, KeptAs, Sound, SizeFor, AlphaFor;
    var id := via.imgIds[i];
    assert ImageCopied(g, id, via.keep, shrink, h.images[i], via.base + i, h.binary, h.views[via.base + i]);
    KeptSize(g, id, via.keep[id]);
  }

  /** Sparse data is as it was exactly when the numbers left in place still name it. */
  lemma BuiltSparse(g: Gltf, h: Gltf, shrink: Shrink, via: Moves)
    requires Built(g, h, shrink, via) && InTheirOrder(g, via)
    requires SameData(g, h) && Sound(g)
    ensures SameSparse(g, h) <==> SparseSurvives(g, shrink)
  {
    hide RefAt, Built, InTheirOrder, Sound, SameData, StillNames, SameView;
    forall site | RefAt(g, site).Some?
      ensures SparseAt(g, h, shrink, site)
    {
      BuiltSparseAt(g, h, shrink, via, site);
    }
    if SameSparse(g, h) {
      forall a: nat | a < |g.accessors| && Refers(g, a) && g.accessors[a].sparse.Some?
        ensures StillNames(g, shrink, g.accessors[a].sparse.value.indices)
                && StillNames(g, shrink, g.accessors[a].sparse.value.values)
      {
        var site :| RefAt(g, site) == Some(a);
        assert SparseAt(g, h, shrink, site);
      }
    }
    if SparseSurvives(g, shrink) {
      forall site | RefAt(g, site).Some?
        ensures SameSparseData(g, g.accessors[RefAt(g, site).value], h, h.accessors[RefAt(h, site).value])
      {
        assert SparseAt(g, h, shrink, site) && Refers(g, RefAt(g, site).value);
      }
    }
  }

  /** The same of one reference. */
  ghost predicate SparseAt(g: Gltf, h: Gltf, shrink: Shrink, site: Site)
    requires Sound(g)
  {
    && RefAt(g, site).Some? && RefAt(h, site).Some?
    && var a, b := RefAt(g, site).value, RefAt(h, site).value;
       && a < |g.accessors| && b < |h.accessors| && h.accessors[b].sparse == g.accessors[a].sparse
       && (g.accessors[a].sparse.Some? ==>
             var x := g.accessors[a].sparse.value;
             && (SameView(g, x.indices, h, x.indices) <==> StillNames(g, shrink, x.indices))
             && (SameView(g, x.values, h, x.values) <==> StillNames(g, shrink, x.values)))
  }

  lemma BuiltSparseAt(g: Gltf, h: Gltf, shrink: Shrink, via: Moves, site: Site)
    requires Built(g, h, shrink, via) && InTheirOrder(g, via)
    requires RefAt(g, site).Some? && Sound(g)
    ensures SparseAt(g, h, shrink, site)
  {
    hide RefAt, Built, InTheirOrder, Sound;
    BuiltRef(g, h, shrink, via, site);
    var a := g.accessors[RefAt(g, site).value];
    if a.sparse.Some? {
      BuiltView(g, h, shrink, via, a.sparse.value.indices);
      BuiltView(g, h, shrink, via, a.sparse.value.values);
    }
  }

  /** With no accessor in use sparse there is nothing to lose. */
  lemma DenseSurvives(g: Gltf, shrink: Shrink)
    requires Sound(g) && forall a: nat :: a < |g.accessors| && Refers(g, a) ==> g.accessors[a].sparse.None?
    ensures SparseSurvives(g, shrink)
  {
  }

  /** One mesh whose positions are sparse: the view they start from, then the places changed, then what goes there. */
  function SparseMesh(a: Byte, b: Byte, c: Byte): Gltf {
    var one := Extra(None, None);
    Gltf([Prim(map["POSITION" := 0], None, [])], [], [], [], [], [], [Accessor(0, Some(Sparse(1, 2)), "")],
         [View(0, 1, one), View(1, 1, one), View(2, 1, one)], [a, b, c])
  }

  /** Its sparse data is lost, whatever it was: only the first view is copied. */
  lemma SparseMeshLosesData(a: Byte, b: Byte, c: Byte, shrink: Shrink)
    ensures Sound(SparseMesh(a, b, c)) && !SparseSurvives(SparseMesh(a, b, c), shrink)
  {
    var g := SparseMesh(a, b, c);
    SparseMeshSound(g, a, b, c);
    hide Sound, Refers, ViewAfter;
    SparseMeshKeepsOne(g, a, b, c, shrink);
    assert !StillNames(g, shrink, 1);
  }

  lemma SparseMeshSound(g: Gltf, a: Byte, b: Byte, c: Byte)
    requires g == SparseMesh(a, b, c)
    ensures Sound(g) && Refers(g, 0)
  {
    assert RefAt(g, Attribute(0, "POSITION")) == Some(0);
  }

  lemma SparseMeshKeepsOne(g: Gltf, a: Byte, b: Byte, c: Byte, shrink: Shrink)
    requires g == SparseMesh(a, b, c) && Sound(g) && Refers(g, 0)
    ensures ViewAfter(g, shrink, 1) == None
  {
    hide RefAt, Sound, Refers;
    var used := set a: nat | a < |g.accessors| && Refers(g, a);
    OneInOrder(used);
    OneView(g);
  }

  lemma OneInOrder(s: set<nat>)
    requires 0 in s
    ensures InOrder(s, 1) == [0]
  {
    assert InOrder(s, 0) == [];
  }

  lemma OneView(g: Gltf)
    requires |g.accessors| == 1
    ensures |ViewsInOrder(g, [0])| == 1
  {
    ViewsInOrderNext(g, [], 0);
    assert [] + [0] == [0];
  }

  // ---- The file it is written to ----

  /** A document read back from a file: its JSON, over the buffer that came with it. */
  function FromFile(read: (Gltf, seq<Byte>)): Gltf {
    read.0.(binary := read.1)
  }

  lemma PaddingKeepsViews(h: Gltf, v: nat)
    requires Tidy(h.views, h.binary) && v < |h.views|
    ensures ViewBytes(h.(binary := Glb.ZeroPadded(h.binary)), v) == ViewBytes(h, v)
  {
    GrowingKeeps(h.binary, Glb.ZeroPadded(h.binary), h.views[v]);
  }

  /** Two documents over one another's buffers: the same tables, each view with the same bytes. */
  ghost predicate SameBytes(h: Gltf, p: Gltf) {
    p == h.(binary := p.binary) && forall v: nat :: v < |h.views| ==> ViewBytes(p, v) == ViewBytes(h, v)
  }

  lemma SameBytesSameRefs(h: Gltf, p: Gltf)
    requires SameBytes(h, p)
    ensures forall site :: RefAt(p, site) == RefAt(h, site)
    ensures forall a: nat :: Refers(p, a) <==> Refers(h, a)
  {
    forall site
      ensures RefAt(p, site) == RefAt(h, site)
    {
    }
    forall a: nat
      ensures Refers(p, a) <==> Refers(h, a)
    {
    }
  }

  lemma SameBytesSound(h: Gltf, p: Gltf)
    requires SameBytes(h, p) && Sound(h)
    ensures Sound(p)
  {
    SameBytesSameRefs(h, p);
    hide RefAt, Refers;
    forall m | 0 <= m < |p.materials| && p.materials[m].baseColour.Some?
      ensures SoundTexture(p, p.materials[m].baseColour.value)
    {
      assert SoundTexture(h, h.materials[m].baseColour.value);
    }
  }

  lemma SameBytesSameData(g: Gltf, h: Gltf, p: Gltf)
    requires SameBytes(h, p) && SameData(g, h)
    ensures SameData(g, p)
    ensures SameSparse(g, p) <==> SameSparse(g, h)
    ensures SameSharing(g, p) <==> SameSharing(g, h)
  {
    SameBytesSound(h, p);
    SameBytesSameRefs(h, p);
    hide RefAt, Refers, Sound, ViewBytes;
  }

  lemma SameBytesSameLooks(g: Gltf, h: Gltf, p: Gltf, shrink: Shrink)
    requires SameBytes(h, p) && Sound(g) && Sound(h) && Sound(p) && SameLooks(g, h, shrink)
    ensures SameLooks(g, p, shrink)
  {
    hide Sound, ViewBytes, KeptAs;
    forall m | 0 <= m < |g.materials| && g.materials[m].baseColour.Some?
      ensures SameTexture(g, g.materials[m].baseColour.value, p, p.materials[m].baseColour.value, shrink)
    {
      assert SameTexture(g, g.materials[m].baseColour.value, h, h.materials[m].baseColour.value, shrink);
    }
  }

  lemma SameBytesNothingIdle(h: Gltf, p: Gltf)
    requires SameBytes(h, p) && NothingIdle(h)
    ensures NothingIdle(p)
  {
    SameBytesSameRefs(h, p);
    hide RefAt, Refers, ViewBytes;
    forall v: nat | v < |p.views|
      ensures HoldsData(p, v)
    {
      assert HoldsData(h, v);
    }
    forall i: nat | i < |p.images|
      ensures Sourced(p, i)
    {
      assert Sourced(h, i);
    }
  }

  /** Main result: the file the prepared document is written to reads back as a document still relocated, over
      the zero-padded buffer, its sparse data as it came out of the preparation. */
  lemma FileStaysRelocated(json: Glb.Json<Gltf>, g: Gltf, h: Gltf, shrink: Shrink)
    requires Glb.Faithful(json) && Relocated(g, h, shrink)
    requires Glb.Write(json, h.(binary := []), h.binary).Ok?
    ensures var r := Glb.Read(json, Glb.Write(json, h.(binary := []), h.binary).value);
            && r.Ok? && FromFile(r.value).binary == Glb.ZeroPadded(h.binary)
            && Relocated(g, FromFile(r.value), shrink)
            && (SameSparse(g, FromFile(r.value)) <==> SameSparse(g, h))
  {
    hide Glb.Faithful, Glb.Write, Glb.Read, SameData, SameSparse, SameSharing, NothingIdle, SameLooks, ViewBytes,
         Glb.ZeroPadded;
    Glb.ReadUndoesWrite(json, h.(binary := []), h.binary);
    var p := h.(binary := Glb.ZeroPadded(h.binary));
    forall v: nat | v < |h.views|
      ensures ViewBytes(p, v) == ViewBytes(h, v)
    {
      PaddingKeepsViews(h, v);
    }
    SoundEnds(g, h);
    SameBytesSameData(g, h, p);
    SoundEnds(g, p);
    SameBytesSameLooks(g, h, p, shrink);
    SameBytesNothingIdle(h, p);
    PaddedTidy(h);
  }

  lemma SoundEnds(g: Gltf, h: Gltf)
    requires SameData(g, h)
    ensures Sound(g) && Sound(h)
  {
  }

  lemma PaddedTidy(h: Gltf)
    requires Tidy(h.views, h.binary)
    ensures Tidy(h.views, Glb.ZeroPadded(h.binary))
  {
  }

  // ---- One source, one result ----

  lemma NumbersUnique(m: map<nat, nat>, n: map<nat, nat>, ids: seq<nat>)
    requires Numbers(m, ids) && Numbers(n, ids)
    ensures m == n
  {
    assert forall x :: x in m ==> x in n && m[x] == n[x];
    assert forall x :: x in n ==> x in m;
  }

  /** The tables of views and the buffers are the same. */
  lemma SameLayout(g: Gltf, h: Gltf, k: Gltf, shrink: Shrink)
    requires Sound(g) && Packed(h.views, h.binary) && Packed(k.views, k.binary)
    requires forall v: nat :: TableEntry(g, h, shrink, v) && TableEntry(g, k, shrink, v)
    ensures h.views == k.views && h.binary == k.binary
  {
    hide ViewAfter, Laid;
    assert TableEntry(g, h, shrink, |k.views|) && TableEntry(g, k, shrink, |k.views|);
    assert TableEntry(g, h, shrink, |h.views|) && TableEntry(g, k, shrink, |h.views|);
    var a, b := PartsOf(h.views, h.binary), PartsOf(k.views, k.binary);
    forall v | 0 <= v < |h.views|
      ensures a[v] == b[v]
    {
      assert TableEntry(g, h, shrink, v) && TableEntry(g, k, shrink, v);
    }
    assert a == b;
  }

  /** View `v` of `h` is as specified. */
  ghost predicate TableEntry(g: Gltf, h: Gltf, shrink: Shrink, v: nat)
    requires Sound(g)
  {
    ViewAfter(g, shrink, v) == if v < |h.views| then Some((ViewBytes(h, v), h.views[v].extra)) else None
  }

  lemma SameAccessors(g: Gltf, h: Gltf, k: Gltf, ids: seq<nat>, viewMap: map<nat, nat>, base: nat)
    requires AccessorsCopied(g, ids, h.accessors, viewMap, base) && AccessorsCopied(g, ids, k.accessors, viewMap, base)
    ensures h.accessors == k.accessors
  {
  }

  lemma SameImages(g: Gltf, h: Gltf, k: Gltf, shrink: Shrink, keep: map<nat, Keep>, keep': map<nat, Keep>,
                   ids: seq<nat>, base: nat)
    requires ImagesCopied(g, ids, keep, shrink, h.images, base, h.binary, h.views)
    requires ImagesCopied(g, ids, keep', shrink, k.images, base, k.binary, k.views)
    ensures h.images == k.images
  {
    forall i | 0 <= i < |ids|
      ensures h.images[i] == k.images[i]
    {
      assert ImageCopied(g, ids[i], keep, shrink, h.images[i], base + i, h.binary, h.views[base + i]);
      assert ImageCopied(g, ids[i], keep', shrink, k.images[i], base + i, k.binary, k.views[base + i]);
    }
  }

  lemma SameTextures(g: Gltf, h: Gltf, k: Gltf, imgMap: map<nat, nat>, texMap: map<nat, nat>)
    requires TexturesCopied(g, |g.materials|, texMap, imgMap, h.textures, h.materials) && Settled(g, h, texMap)
    requires TexturesCopied(g, |g.materials|, texMap, imgMap, k.textures, k.materials) && Settled(g, k, texMap)
    ensures h.textures == k.textures && h.materials == k.materials
  {
    hide TexturesInOrder, Packed, Painted;
    var order := TexturesInOrder(g, |g.materials|);
    forall u | 0 <= u < |order|
      ensures h.textures[u] == k.textures[u]
    {
      assert texMap[order[u]] == u;
      assert TextureCopied(g, order[u], u, imgMap, h.textures) && TextureCopied(g, order[u], u, imgMap, k.textures);
    }
    forall m | 0 <= m < |g.materials|
      ensures h.materials[m] == k.materials[m]
    {
    }
  }

  /** Main result: one document, with one way of shrinking images, is prepared to one result, its buffer byte for
      byte. */
  lemma OnePrepared(g: Gltf, h: Gltf, k: Gltf, shrink: Shrink)
    requires Prepared(g, h, shrink) && Prepared(g, k, shrink)
    ensures h == k
  {
    hide Assembled;
    var via :| Assembled(g, h, shrink, via);
    var via' :| Assembled(g, k, shrink, via');
    AssembledSettles(g, h, shrink, via);
    AssembledSettles(g, k, shrink, via');
    hide ViewsInOrder, TexturesInOrder, Numbers, InOrder, TableEntry, Shown, Refers, Packed, Sound;
    NumbersUnique(via.accMap, via'.accMap, via.ids);
    NumbersUnique(via.viewMap, via'.viewMap, ViewsInOrder(g, via.ids));
    NumbersUnique(via.imgMap, via'.imgMap, via.imgIds);
    NumbersUnique(via.texMap, via'.texMap, TexturesInOrder(g, |g.materials|));
    SameLayout(g, h, k, shrink);
    AssembledSame(g, h, k, shrink, via, via');
  }

  /** Every choice but how the images are kept is settled by `g`. */
  lemma AssembledSettles(g: Gltf, h: Gltf, shrink: Shrink, via: Moves)
    requires Assembled(g, h, shrink, via)
    ensures Sound(g) && via.ids == InOrder(set a: nat | a < |g.accessors| && Refers(g, a), |g.accessors|)
    ensures via.imgIds == InOrder(set i: nat | i < |g.images| && Shown(g, i), |g.images|)
    ensures (forall i :: 0 <= i < |via.ids| ==> via.ids[i] < |g.accessors|) && via.base == |ViewsInOrder(g, via.ids)|
    ensures Numbers(via.accMap, via.ids) && Numbers(via.viewMap, ViewsInOrder(g, via.ids))
            && Numbers(via.imgMap, via.imgIds)
    ensures Numbers(via.texMap, TexturesInOrder(g, |g.materials|)) && Packed(h.views, h.binary)
    ensures forall v: nat :: TableEntry(g, h, shrink, v)
  {
    hide Sound, KeptImages, ViewsCopied, AccessorsCopied, ImagesCopied, TexturesCopied, Tidy, Numbers, Packed,
         ViewsInOrder, TexturesInOrder, InOrder, Refers, Shown, ViewAfter;
    BuiltOrders(g, h, shrink, via);
    forall v: nat
      ensures TableEntry(g, h, shrink, v)
    {
      BuiltView(g, h, shrink, via, v);
    }
  }

  lemma AssembledSame(g: Gltf, h: Gltf, k: Gltf, shrink: Shrink, via: Moves, via': Moves)
    requires Assembled(g, h, shrink, via) && Assembled(g, k, shrink, via') && via' == via.(keep := via'.keep)
    requires h.views == k.views && h.binary == k.binary
    ensures h == k
  {
    hide Sound, KeptImages, ViewsCopied, AccessorsCopied, ImagesCopied, TexturesCopied, Tidy, Numbers, Settled,
         InTheirOrder, Refers;
    SameAccessors(g, h, k, via.ids, via.viewMap, via.base);
    SameImages(g, h, k, shrink, via.keep, via'.keep, via.imgIds, via.base);
    SameTextures(g, h, k, via.imgMap, via.texMap);
  }
}
