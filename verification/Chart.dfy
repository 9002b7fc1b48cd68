/** The chart's labels: which of them to show so that none pile up, and the numbers they carry. */
module Chart {
  import opened Digits

  datatype Label = Label(x: real, y: real, w: real, h: real, rank: nat)

  /** A box `gap` round `l` does not reach into `p`'s. */
  predicate Clear(l: Label, p: Label, gap: real) {
    l.x + l.w + gap <= p.x || l.x - gap >= p.x + p.w || l.y + l.h + gap <= p.y || l.y - gap >= p.y + p.h
  }

  /** A point inside the box, grown by `gap` on every side. */
  predicate Inside(l: Label, gap: real, x: real, y: real) {
    l.x - gap < x < l.x + l.w + gap && l.y - gap < y < l.y + l.h + gap
  }

  /** Labels are clear of each other exactly when no point lies inside both, one of them grown by the gap. */
  lemma ClearIff(l: Label, p: Label, gap: real)
    requires l.w > 0.0 && l.h > 0.0 && p.w > 0.0 && p.h > 0.0 && gap >= 0.0
    ensures Clear(l, p, gap) <==> forall x, y :: !(Inside(l, gap, x, y) && Inside(p, 0.0, x, y))
  {
    if !Clear(l, p, gap) {
      var x := Between(l.x - gap, l.x + l.w + gap, p.x, p.x + p.w);
      var y := Between(l.y - gap, l.y + l.h + gap, p.y, p.y + p.h);
      assert Inside(l, gap, x, y) && Inside(p, 0.0, x, y);
    }
  }

  /** Two spans that overlap share a point. */
  lemma Between(a: real, b: real, c: real, d: real) returns (x: real)
    requires a < b && c < d && a < d && c < b
    ensures a < x < b && c < x < d
  {
    var lo, hi := if a < c then c else a, if b < d then b else d;
    x := (lo + hi) / 2.0;
  }

  /** `i` is considered before `j`: a higher rank, or the same and earlier in the list. */
  predicate Before(labels: seq<Label>, i: nat, j: nat)
    requires i < |labels| && j < |labels|
  {
    labels[i].rank > labels[j].rank || (labels[i].rank == labels[j].rank && i < j)
  }

  /** Nothing shown ahead of `i` comes within the gap of it. */
  ghost predicate Unblocked(labels: seq<Label>, gap: real, shown: seq<bool>, i: nat)
    requires i < |labels| == |shown|
  {
    forall j :: 0 <= j < |labels| && Before(labels, j, i) && shown[j] ==> Clear(labels[i], labels[j], gap)
  }

  /** The greedy choice: a label is shown exactly when nothing shown ahead of it is in its way. */
  ghost predicate Greedy(labels: seq<Label>, gap: real, shown: seq<bool>) {
    |shown| == |labels| && forall i :: 0 <= i < |labels| ==> (shown[i] <==> Unblocked(labels, gap, shown, i))
  }

  // ---- The order labels are considered in ----

  ghost predicate InOrder(labels: seq<Label>, order: seq<nat>) {
    && (forall a :: 0 <= a < |order| ==> order[a] < |labels|)
    && (forall a, b :: 0 <= a < b < |order| ==> Before(labels, order[a], order[b]))
  }

  /** Puts `i` in its place among those already in order. */
  method Insert(labels: seq<Label>, order: seq<nat>, i: nat) returns (r: seq<nat>)
    requires InOrder(labels, order) && i < |labels| && i !in order
    ensures InOrder(labels, r) && forall j :: j in r <==> j in order || j == i
  {
    var k := 0;
    while k < |order| && Before(labels, order[k], i)
      invariant 0 <= k <= |order| && forall a :: 0 <= a < k ==> Before(labels, order[a], i)
    {
      k := k + 1;
    }
    r := order[..k] + [i] + order[k..];
    forall j
      ensures j in r <==> j in order || j == i
    {
      assert order == order[..k] + order[k..];
    }
    forall a, b | 0 <= a < b < |r|
      ensures r[a] < |labels| && r[b] < |labels| && Before(labels, r[a], r[b])
    {
      if a == k {
        assert r[b] == order[b - 1];
        if b - 1 > k {
          assert Before(labels, order[k], order[b - 1]);
        }
      }
    }
  }

  /** The labels' indices, highest rank first. */
  method Order(labels: seq<Label>) returns (order: seq<nat>)
    ensures InOrder(labels, order) && forall j :: j in order <==> 0 <= j < |labels|
  {
    order := [];
    for i := 0 to |labels|
      invariant InOrder(labels, order) && forall j :: j in order <==> 0 <= j < i
    {
      order := Insert(labels, order, i);
    }
  }

  /** Which labels to show. */
  method Declutter(labels: seq<Label>, gap: real) returns (shown: seq<bool>)
    ensures Greedy(labels, gap, shown)
  {
    hide Clear, Unblocked, Before;
    var order := Order(labels);
    shown := seq(|labels|, _ => false);
    var placed: seq<Label> := [];
    var k := 0;
    while k < |order|
      invariant 0 <= k <= |order| && |shown| == |labels|
      invariant forall p :: p in placed <==> exists a :: 0 <= a < k && shown[order[a]] && labels[order[a]] == p
      invariant forall j :: 0 <= j < |labels| && shown[j] ==> j in order[..k]
      invariant forall a :: 0 <= a < k ==> (shown[order[a]] <==> Unblocked(labels, gap, shown, order[a]))
    {
      var i := order[k];
      var clear := forall p :: p in placed ==> Clear(labels[i], p, gap);
      PlacedAreAhead(labels, gap, order, k, shown, placed);
      NotYet(labels, order, k);
      ghost var was := shown;
      if clear {
        placed := placed + [labels[i]];
        shown := shown[i := true];
      }
      assert order[..k + 1] == order[..k] + [i];
      EarlierStand(labels, gap, order, k, was, shown);
      k := k + 1;
    }
    forall i | 0 <= i < |labels|
      ensures shown[i] <==> Unblocked(labels, gap, shown, i)
    {
      assert i in order;
    }
  }

  /** The boxes placed are those of the shown labels ahead of the next one. */
  lemma PlacedAreAhead(labels: seq<Label>, gap: real, order: seq<nat>, k: nat, shown: seq<bool>, placed: seq<Label>)
    requires InOrder(labels, order) && k < |order| && |shown| == |labels|
    requires forall j :: 0 <= j < |labels| ==> j in order
    requires forall p :: p in placed <==> exists a :: 0 <= a < k && shown[order[a]] && labels[order[a]] == p
    requires forall j :: 0 <= j < |labels| && shown[j] ==> j in order[..k]
    ensures (forall p :: p in placed ==> Clear(labels[order[k]], p, gap)) <==> Unblocked(labels, gap, shown, order[k])
  {
    var i := order[k];
    if forall p :: p in placed ==> Clear(labels[i], p, gap) {
      forall j | 0 <= j < |labels| && Before(labels, j, i) && shown[j]
        ensures Clear(labels[i], labels[j], gap)
      {
        assert j in order[..k];
        assert labels[j] in placed;
      }
    }
    if Unblocked(labels, gap, shown, i) {
      forall p | p in placed
        ensures Clear(labels[i], p, gap)
      {
        var a :| 0 <= a < k && shown[order[a]] && labels[order[a]] == p;
        assert Before(labels, order[a], order[k]);
      }
    }
  }

  /** Showing `i` blocks nothing that comes before it. */
  lemma LaterDoesNotBlock(labels: seq<Label>, gap: real, was: seq<bool>, shown: seq<bool>, i: nat, j: nat)
    requires i < |labels| == |was| == |shown| && j < |labels|
    requires shown == was || shown == was[i := true]
    requires !Before(labels, i, j)
    ensures Unblocked(labels, gap, shown, j) <==> Unblocked(labels, gap, was, j)
  {
  }

  lemma NotYet(labels: seq<Label>, order: seq<nat>, k: nat)
    requires InOrder(labels, order) && k < |order|
    ensures order[k] !in order[..k]
  {
    forall a | 0 <= a < k
      ensures order[a] != order[k]
    {
      assert Before(labels, order[a], order[k]);
    }
  }

  /** So the answers given so far stand, and the next one's is its own. */
  lemma EarlierStand(labels: seq<Label>, gap: real, order: seq<nat>, k: nat, was: seq<bool>, shown: seq<bool>)
    requires InOrder(labels, order) && k < |order| && |was| == |labels|
    requires shown == was || shown == was[order[k] := true]
    ensures forall a :: 0 <= a <= k ==>
              (Unblocked(labels, gap, shown, order[a]) <==> Unblocked(labels, gap, was, order[a]))
  {
    hide Unblocked;
    forall a | 0 <= a <= k
      ensures Unblocked(labels, gap, shown, order[a]) <==> Unblocked(labels, gap, was, order[a])
    {
      if a < k {
        assert Before(labels, order[a], order[k]);
      }
      LaterDoesNotBlock(labels, gap, was, shown, order[k], order[a]);
    }
  }

  // ---- Main results ----

  /** The labels considered ahead of `i`. */
  ghost function Ahead(labels: seq<Label>, i: nat): set<nat>
    requires i < |labels|
  {
    set j | 0 <= j < |labels| && Before(labels, j, i)
  }

  lemma {:induction false} GreedyAgree(labels: seq<Label>, gap: real, a: seq<bool>, b: seq<bool>, i: nat)
    requires Greedy(labels, gap, a) && Greedy(labels, gap, b) && i < |labels|
    ensures a[i] == b[i]
    decreases Ahead(labels, i)
  {
    forall j | 0 <= j < |labels| && Before(labels, j, i)
      ensures a[j] == b[j]
    {
      assert j in Ahead(labels, i) && j !in Ahead(labels, j);
      assert Ahead(labels, j) <= Ahead(labels, i);
      GreedyAgree(labels, gap, a, b, j);
    }
    assert a[i] <==> Unblocked(labels, gap, a, i);
    assert b[i] <==> Unblocked(labels, gap, b, i);
  }

  /** There is one greedy choice. */
  lemma GreedyUnique(labels: seq<Label>, gap: real, a: seq<bool>, b: seq<bool>)
    requires Greedy(labels, gap, a) && Greedy(labels, gap, b)
    ensures a == b
  {
    forall i | 0 <= i < |labels|
      ensures a[i] == b[i]
    {
      GreedyAgree(labels, gap, a, b, i);
    }
  }

  /** No two labels shown come within the gap of each other, and each one hidden is blocked by one
      shown ahead of it. */
  lemma ShownApartHiddenBlocked(labels: seq<Label>, gap: real, shown: seq<bool>)
    requires Greedy(labels, gap, shown)
    ensures forall i, j :: 0 <= i < |labels| && 0 <= j < |labels| && i != j && shown[i] && shown[j] ==>
                             Clear(labels[i], labels[j], gap)
    ensures forall i :: 0 <= i < |labels| && !shown[i] ==>
                          exists j :: 0 <= j < |labels| && Before(labels, j, i) && shown[j]
                                      && !Clear(labels[i], labels[j], gap)
  {
    forall i, j | 0 <= i < |labels| && 0 <= j < |labels| && i != j && shown[i] && shown[j]
      ensures Clear(labels[i], labels[j], gap)
    {
      if Before(labels, j, i) {
        assert Unblocked(labels, gap, shown, i);
      } else {
        assert Unblocked(labels, gap, shown, j);
        ClearBothWays(labels[j], labels[i], gap);
      }
    }
  }

  lemma ClearBothWays(l: Label, p: Label, gap: real)
    ensures Clear(l, p, gap) <==> Clear(p, l, gap)
  {
  }

  /** `p` lists each index below `n` once, and `q` says where. */
  predicate Shuffle(p: seq<nat>, q: seq<nat>, n: nat) {
    && |p| == |q| == n && (forall i :: 0 <= i < n ==> p[i] < n && q[i] < n)
    && (forall i :: 0 <= i < n ==> q[p[i]] == i && p[q[i]] == i)
  }

  predicate DistinctRanks(labels: seq<Label>) {
    forall i, j :: 0 <= i < j < |labels| ==> labels[i].rank != labels[j].rank
  }

  function Shuffled<T>(s: seq<T>, p: seq<nat>): (r: seq<T>)
    requires forall i :: 0 <= i < |p| ==> p[i] < |s|
    ensures |r| == |p|
  {
    seq(|p|, i requires 0 <= i < |p| => s[p[i]])
  }

  /** With distinct ranks the answer does not depend on the order the labels are listed in. */
  lemma OrderDoesNotMatter(labels: seq<Label>, gap: real, shown: seq<bool>, p: seq<nat>, q: seq<nat>, shown': seq<bool>)
    requires Shuffle(p, q, |labels|) && DistinctRanks(labels)
    requires Greedy(labels, gap, shown) && Greedy(Shuffled(labels, p), gap, shown')
    ensures shown' == Shuffled(shown, p)
  {
    var there, back := Shuffled(labels, p), Shuffled(shown, p);
    forall i | 0 <= i < |labels|
      ensures back[i] <==> Unblocked(there, gap, back, i)
    {
      assert shown[p[i]] <==> Unblocked(labels, gap, shown, p[i]);
      SameBlocking(labels, gap, shown, p, q, i);
    }
    GreedyUnique(there, gap, shown', back);
  }

  lemma SameBlocking(labels: seq<Label>, gap: real, shown: seq<bool>, p: seq<nat>, q: seq<nat>, i: nat)
    requires Shuffle(p, q, |labels|) && DistinctRanks(labels) && |shown| == |labels| && i < |labels|
    requires |p| == |q| == |labels| && forall j :: 0 <= j < |labels| ==> p[j] < |labels|
    ensures Unblocked(Shuffled(labels, p), gap, Shuffled(shown, p), i) <==> Unblocked(labels, gap, shown, p[i])
  {
    hide Shuffle, Clear;
    var there, back := Shuffled(labels, p), Shuffled(shown, p);
    forall j | 0 <= j < |labels|
      ensures Before(there, j, i) <==> Before(labels, p[j], p[i])
      ensures back[j] == shown[p[j]] && there[j] == labels[p[j]]
    {
      ShuffleAt(p, q, |labels|, j);
      ShuffleAt(p, q, |labels|, i);
    }
    hide DistinctRanks, Before;
    if Unblocked(there, gap, back, i) {
      forall k | 0 <= k < |labels| && Before(labels, k, p[i]) && shown[k]
        ensures Clear(labels[p[i]], labels[k], gap)
      {
        ShuffleAt(p, q, |labels|, k);
        var j := q[k];
        assert p[j] == k && Before(there, j, i) && back[j];
      }
    }
    if Unblocked(labels, gap, shown, p[i]) {
      forall j | 0 <= j < |labels| && Before(there, j, i) && back[j]
        ensures Clear(there[i], there[j], gap)
      {
        assert Before(labels, p[j], p[i]) && shown[p[j]];
      }
    }
  }

  lemma ShuffleAt(p: seq<nat>, q: seq<nat>, n: nat, i: nat)
    requires Shuffle(p, q, n) && i < n
    ensures |p| == |q| == n && p[i] < n && q[i] < n && q[p[i]] == i && p[q[i]] == i
  {
  }

  /** With equal ranks it does: of two labels in one place the first listed is shown, whichever it is. */
  lemma TiesGoToTheFirst(a: Label, b: Label, gap: real, shown: seq<bool>)
    requires a.rank == b.rank && !Clear(a, b, gap) && Greedy([a, b], gap, shown)
    ensures shown == [true, false]
  {
    var labels := [a, b];
    assert Unblocked(labels, gap, shown, 0);
    assert Before(labels, 0, 1);
    ClearBothWays(a, b, gap);
    assert !Unblocked(labels, gap, shown, 1);
  }

  // ---- Numbers with thousands marked ----

  function WithoutCommas(s: string): string {
    if s == "" then "" else WithoutCommas(s[..|s| - 1]) + (if s[|s| - 1] == ',' then "" else [s[|s| - 1]])
  }

  lemma WithoutCommasAppend(s: string, c: char)
    ensures WithoutCommas(s + [c]) == WithoutCommas(s) + (if c == ',' then "" else [c])
  {
    assert (s + [c])[..|s|] == s;
  }

  lemma {:induction false} DecimalHasNoCommas(v: nat, i: nat)
    requires i < |Decimal(v)|
    ensures Decimal(v)[i] != ','
  {
    if v >= 10 && i < |Decimal(v)| - 1 {
      DecimalHasNoCommas(v / 10, i);
    }
  }

  /** How many characters the last `m` digits take, the comma before them included. */
  function TailLength(m: nat): nat {
    m + m / 3
  }

  /** `1234567` as `1,234,567`: the same digits, a comma after every third from the right and nowhere else. */
  method Thousands(n: nat) returns (out: string)
    ensures WithoutCommas(out) == Decimal(n)
    ensures forall j :: 0 <= j < |out| ==> (out[j] == ',' <==> (|out| - 1 - j) % 4 == 3)
    ensures out != "" && out[0] != ','
  {
    var s := Decimal(n);
    out := "";
    for i := 0 to |s|
      invariant WithoutCommas(out) == s[..i]
      invariant i > 0 ==> out != "" && out[0] == s[0]
      invariant i == 0 ==> out == ""
      invariant CommasPlaced(out, |s| - i)
    {
      hide CommasPlaced;
      DecimalHasNoCommas(n, i);
      CommasStayPlaced(out, s[i], |s| - i);
      assert s[..i + 1] == s[..i] + [s[i]];
      if i > 0 && (|s| - i) % 3 == 0 {
        WithoutCommasAppend(out, ',');
        out := out + ",";
      }
      WithoutCommasAppend(out, s[i]);
      out := out + [s[i]];
    }
    assert s[..|s|] == s;
    DecimalHasNoCommas(n, 0);
  }

  /** With `m` digits still to come, each character so far is a comma exactly when it will stand fourth, eighth, …
      from the end. */
  predicate CommasPlaced(out: string, m: nat) {
    forall j :: 0 <= j < |out| ==> (out[j] == ',' <==> (|out| - 1 - j + TailLength(m)) % 4 == 3)
  }

  lemma CommasStayPlaced(out: string, c: char, m: nat)
    requires m > 0 && c != ',' && CommasPlaced(out, m)
    ensures m % 3 == 0 ==> CommasPlaced(out + "," + [c], m - 1)
    ensures m % 3 != 0 || out == "" ==> CommasPlaced(out + [c], m - 1)
  {
    hide TailLength;
    TailShrinks(m);
  }

  lemma TailShrinks(m: nat)
    requires m > 0
    ensures TailLength(m) == TailLength(m - 1) + (if m % 3 == 0 then 2 else 1)
    ensures TailLength(m - 1) % 4 != 3
    ensures m % 3 == 0 ==> (1 + TailLength(m - 1)) % 4 == 3
  {
    var q := m / 3;
    assert m == 3 * q + m % 3;
    if m % 3 == 0 {
      assert TailLength(m - 1) == 4 * (q - 1) + 2;
    } else {
      assert TailLength(m - 1) == 4 * q + m % 3 - 1;
    }
  }
}
