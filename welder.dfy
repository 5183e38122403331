/**
 * Vertex welding and the bounding box: the nested loop of
 * `stl_to_gltf_custom` that walks the unpacked records, rounds every vertex
 * to a key, hands out dense indices in first-seen order and keeps six
 * running bounds.
 *
 * Rounding a float to five decimals is a parameter `round5` from a float's
 * bit pattern to the rounded value counted in units of 10^-5, so a key is a
 * triple of integers and comparisons between keys and bounds are exact.
 */
module Welder {

  /** A rounded vertex position; the dictionary key `tuple_xyz`. */
  datatype Vec3 = Vec3(x: int, y: int, z: int)

  datatype Axis = X | Y | Z

  function Coord(p: Vec3, a: Axis): int
  {
    match a
    case X => p.x
    case Y => p.y
    case Z => p.z
  }

  /** The position of a coordinate within a vertex. */
  function AxisIndex(a: Axis): nat
  {
    match a
    case X => 0
    case Y => 1
    case Z => 2
  }

  /** `round(x, 5)` keeps five decimals: coordinates count units of 10^-5. */
  const SCALE: int := 100000

  /** The start values 9999999 / -9999999 of the running bounds, in units of 10^-5. */
  const SENTINEL: int := 9999999 * SCALE

  /** The value offset of the first vertex in a 13-value record (after the normal). */
  const FIRST_VERTEX: nat := 3

  /** The rounded vertex whose three coordinates start at value `at`. */
  function KeyAt(data: seq<nat>, at: nat, round5: nat -> int): Vec3
    requires at + 3 <= |data|
  {
    Vec3(round5(data[at]), round5(data[at + 1]), round5(data[at + 2]))
  }

  /** The three vertices of the record that starts at value `i`: offsets 3, 6 and 9. */
  function RecordKeys(data: seq<nat>, i: nat, round5: nat -> int): seq<Vec3>
    requires i + 13 <= |data|
  {
    [KeyAt(data, i + 3, round5), KeyAt(data, i + 6, round5), KeyAt(data, i + 9, round5)]
  }

  /** The keys of all vertex visits, in file order. */
  function Visits(data: seq<nat>, round5: nat -> int): (r: seq<Vec3>)
    requires |data| % 13 == 0
    ensures |r| == 3 * (|data| / 13)
  {
    if data == [] then []
    else
      var last := |data| - 13;
      Visits(data[..last], round5) + RecordKeys(data, last, round5)
  }

  /**
   * The record walk: visit `3n + c` is vertex `c` of record `n`, read at
   * value offset 3, 6 or 9 of that record. The normal (values 0-2) and the
   * attribute (value 12) are never read.
   */
  lemma {:induction false} VisitAt(data: seq<nat>, round5: nat -> int, n: nat, c: nat)
    requires |data| % 13 == 0 && 13 * n + 13 <= |data| && c < 3
    ensures 3 * n + c < |Visits(data, round5)|
    ensures Visits(data, round5)[3 * n + c] == KeyAt(data, 13 * n + FIRST_VERTEX + 3 * c, round5)
  {
    var last := |data| - 13;
    var prefix := data[..last];
    assert |prefix| % 13 == 0;
    var before := Visits(prefix, round5);
    assert Visits(data, round5) == before + RecordKeys(data, last, round5);
    if 13 * n + 13 <= last {
      VisitAt(prefix, round5, n, c);
      assert KeyAt(prefix, 13 * n + 3 + 3 * c, round5) == KeyAt(data, 13 * n + 3 + 3 * c, round5);
    } else {
      assert last == 13 * n;
      assert |before| == 3 * n;
    }
  }

  /** Coordinate `a` of visit `3n + c` is the rounded value `3 + 3c + a` of record `n`. */
  lemma VisitCoordAt(data: seq<nat>, round5: nat -> int, n: nat, c: nat, a: Axis)
    requires |data| % 13 == 0 && 13 * n + 13 <= |data| && c < 3
    ensures 3 * n + c < |Visits(data, round5)|
    ensures Coord(Visits(data, round5)[3 * n + c], a) == round5(data[13 * n + FIRST_VERTEX + 3 * c + AxisIndex(a)])
  {
    VisitAt(data, round5, n, c);
  }

  // ---------------------------------------------------------------------
  // Welding: the dictionary `vertices`, the list `indices` and the counter
  // ---------------------------------------------------------------------

  /**
   * The welder's state after some visits: the key-to-index table, the keys in
   * the order they got their index, and one index per visit.
   */
  datatype Welded = Welded(table: map<Vec3, nat>, order: seq<Vec3>, indices: seq<nat>)

  /** One visit: reuse the key's index, or give a new key the next index. */
  function WeldStep(w: Welded, key: Vec3): Welded
  {
    if key in w.table then w.(indices := w.indices + [w.table[key]])
    else Welded(w.table[key := |w.order|], w.order + [key], w.indices + [|w.order|])
  }

  function Weld(visits: seq<Vec3>): Welded
  {
    if visits == [] then Welded(map[], [], [])
    else WeldStep(Weld(visits[..|visits| - 1]), visits[|visits| - 1])
  }

  /** The keys that occur in some visit. */
  function SeenKeys(visits: seq<Vec3>): set<Vec3>
  {
    set key | key in visits
  }

  /** `table` gives each key of `order` its position there, and nothing else. */
  ghost predicate DenseIndex(table: map<Vec3, nat>, order: seq<Vec3>)
  {
    && (forall i :: 0 <= i < |order| ==> order[i] in table && table[order[i]] == i)
    && (forall key :: key in table ==> table[key] < |order| && order[table[key]] == key)
  }

  /** Giving a new key the next index keeps the table dense. */
  lemma NewKeyDense(table: map<Vec3, nat>, order: seq<Vec3>, key: Vec3)
    requires DenseIndex(table, order) && key !in table
    ensures DenseIndex(table[key := |order|], order + [key])
  {
    var table', order' := table[key := |order|], order + [key];
    forall i | 0 <= i < |order'|
      ensures order'[i] in table' && table'[order'[i]] == i
    {
      if i < |order| {
        assert order'[i] == order[i];
      }
    }
    forall k | k in table'
      ensures table'[k] < |order'| && order'[table'[k]] == k
    {
      if k != key {
        assert table'[k] == table[k];
      }
    }
  }

  /** One step keeps the table dense and only adds the visited key. */
  lemma WeldStepDense(w: Welded, key: Vec3)
    requires DenseIndex(w.table, w.order) && |w.table| == |w.order|
    ensures var w' := WeldStep(w, key);
            && DenseIndex(w'.table, w'.order) && |w'.table| == |w'.order|
            && w'.table.Keys == w.table.Keys + {key}
            && |w'.indices| == |w.indices| + 1
  {
    if key !in w.table {
      NewKeyDense(w.table, w.order, key);
    }
  }

  /** The last visit adds its key to the keys seen before it. */
  lemma SeenKeysLast(visits: seq<Vec3>)
    requires visits != []
    ensures SeenKeys(visits) == SeenKeys(visits[..|visits| - 1]) + {visits[|visits| - 1]}
  {
    var prefix := visits[..|visits| - 1];
    forall k | k in SeenKeys(visits)
      ensures k in SeenKeys(prefix) + {visits[|visits| - 1]}
    {
      var i :| 0 <= i < |visits| && visits[i] == k;
      if i < |prefix| {
        assert prefix[i] == k;
      }
    }
    forall k | k in SeenKeys(prefix)
      ensures k in SeenKeys(visits)
    {
      var i :| 0 <= i < |prefix| && prefix[i] == k;
      assert visits[i] == k;
    }
  }

  /** The table is dense over [0, V), with V the number of distinct keys seen. */
  lemma {:induction false} WeldTable(visits: seq<Vec3>)
    ensures var w := Weld(visits);
            && DenseIndex(w.table, w.order)
            && w.table.Keys == SeenKeys(visits)
            && |w.order| == |w.table| == |SeenKeys(visits)|
            && |w.indices| == |visits|
  {
    if visits != [] {
      var prefix := visits[..|visits| - 1];
      var key := visits[|visits| - 1];
      WeldTable(prefix);
      WeldStepDense(Weld(prefix), key);
      SeenKeysLast(visits);
    }
  }

  /** One step keeps every visit's index equal to its key's table entry. */
  lemma WeldStepLookup(p: Welded, prefix: seq<Vec3>, key: Vec3)
    requires |p.indices| == |prefix|
    requires forall k :: 0 <= k < |prefix| ==> prefix[k] in p.table && p.indices[k] == p.table[prefix[k]]
    ensures var w, visits := WeldStep(p, key), prefix + [key];
            && |w.indices| == |visits|
            && forall k :: 0 <= k < |visits| ==> visits[k] in w.table && w.indices[k] == w.table[visits[k]]
  {
    var w, visits := WeldStep(p, key), prefix + [key];
    WeldStepExtends(p, key);
    forall k | 0 <= k < |visits|
      ensures visits[k] in w.table && w.indices[k] == w.table[visits[k]]
    {
      if k < |prefix| {
        assert visits[k] == prefix[k];
        assert w.indices[k] == w.indices[..|p.indices|][k];
      }
    }
  }

  /** Each visit's index is the table entry of its key. */
  lemma {:induction false} WeldLookup(visits: seq<Vec3>)
    ensures var w := Weld(visits);
            && |w.indices| == |visits|
            && (forall k :: 0 <= k < |visits| ==> visits[k] in w.table && w.indices[k] == w.table[visits[k]])
  {
    if visits != [] {
      var prefix := visits[..|visits| - 1];
      var key := visits[|visits| - 1];
      WeldLookup(prefix);
      assert visits == prefix + [key];
      WeldStepLookup(Weld(prefix), prefix, key);
    }
  }

  /**
   * `vertices_list` inverts the table: looking up the index of visit `k` in
   * the first-seen list gives back the key of visit `k`.
   */
  lemma WeldInverse(visits: seq<Vec3>, k: nat)
    requires k < |visits|
    ensures var w := Weld(visits);
            |w.indices| == |visits| && w.indices[k] < |w.order| && w.order[w.indices[k]] == visits[k]
  {
    WeldTable(visits);
    WeldLookup(visits);
  }

  /** Two visits share an index exactly when they have the same rounded key. */
  lemma WeldEqualKeys(visits: seq<Vec3>, a: nat, b: nat)
    requires a < |visits| && b < |visits|
    ensures var w := Weld(visits);
            |w.indices| == |visits| && (visits[a] == visits[b] <==> w.indices[a] == w.indices[b])
  {
    WeldTable(visits);
    WeldLookup(visits);
  }

  /** One step only appends: earlier indices, the order so far and the table entries stay. */
  lemma WeldStepExtends(w: Welded, key: Vec3)
    ensures var w' := WeldStep(w, key);
            && |w'.indices| == |w.indices| + 1 && w'.indices[..|w.indices|] == w.indices
            && w.order <= w'.order
            && (forall k :: k in w.table ==> k in w'.table && w'.table[k] == w.table[k])
  {
    var w' := WeldStep(w, key);
    assert w'.indices[..|w.indices|] == w.indices;
  }

  /** An index, once given, is never changed by later visits. */
  lemma {:induction false} WeldPrefix(visits: seq<Vec3>, n: nat)
    requires n <= |visits|
    ensures var w, v := Weld(visits[..n]), Weld(visits);
            && |w.indices| == n <= |v.indices|
            && w.indices == v.indices[..n]
            && w.order <= v.order
            && (forall key :: key in w.table ==> key in v.table && v.table[key] == w.table[key])
  {
    if n == |visits| {
      assert visits[..n] == visits;
      WeldTable(visits);
      WeldLookup(visits);
    } else {
      var prefix := visits[..|visits| - 1];
      WeldPrefix(prefix, n);
      assert prefix[..n] == visits[..n];
      var p, v := Weld(prefix), Weld(visits);
      assert v == WeldStep(p, visits[|visits| - 1]);
      WeldStepExtends(p, visits[|visits| - 1]);
      assert v.indices[..n] == v.indices[..|p.indices|][..n];
    }
  }

  /**
   * First-seen order: a key met for the first time at visit `k` gets the
   * number of distinct keys met before it, so new indices come 0, 1, 2, ...
   */
  lemma {:induction false} WeldFirstSeen(visits: seq<Vec3>, k: nat)
    requires k < |visits|
    ensures var w := Weld(visits);
            |w.indices| == |visits| &&
            (visits[k] !in visits[..k] ==> w.indices[k] == |SeenKeys(visits[..k])|)
  {
    var before, upTo := visits[..k], visits[..k + 1];
    WeldPrefix(visits, k + 1);
    WeldTable(before);
    WeldLookup(before);
    WeldTable(visits);
    WeldLookup(visits);
    var w, w1 := Weld(before), Weld(upTo);
    assert upTo[..|upTo| - 1] == before && upTo[|upTo| - 1] == visits[k];
    assert w1 == WeldStep(w, visits[k]);
    assert Weld(visits).indices[k] == w1.indices[k];
    if visits[k] !in before {
      assert visits[k] !in SeenKeys(before);
      assert w1.indices[k] == |w.order|;
    }
  }

  /** The largest index is V - 1 and some visit has it (so the index accessor's max is attained). */
  lemma WeldLastIndexUsed(visits: seq<Vec3>)
    requires visits != []
    ensures var w := Weld(visits);
            |w.order| > 0 && |w.indices| == |visits| &&
            exists k :: 0 <= k < |visits| && w.indices[k] == |w.order| - 1
  {
    WeldTable(visits);
    WeldLookup(visits);
    var w := Weld(visits);
    var key := w.order[|w.order| - 1];
    assert key in SeenKeys(visits);
    var k :| 0 <= k < |visits| && visits[k] == key;
    assert w.indices[k] == |w.order| - 1;
  }

  // ---------------------------------------------------------------------
  // The running bounding box
  // ---------------------------------------------------------------------

  datatype Box = Box(min: Vec3, max: Vec3)

  const INITIAL_BOX: Box :=
    Box(Vec3(SENTINEL, SENTINEL, SENTINEL), Vec3(-SENTINEL, -SENTINEL, -SENTINEL))

  /** Python's `min(a, b)`: the first argument unless the second is smaller. */
  function Min(a: int, b: int): int
  {
    if b < a then b else a
  }

  /** Python's `max(a, b)`: the first argument unless the second is larger. */
  function Max(a: int, b: int): int
  {
    if b > a then b else a
  }

  /** The six running updates for one visit. */
  function Extend(b: Box, p: Vec3): Box
  {
    Box(Vec3(Min(b.min.x, p.x), Min(b.min.y, p.y), Min(b.min.z, p.z)),
        Vec3(Max(b.max.x, p.x), Max(b.max.y, p.y), Max(b.max.z, p.z)))
  }

  /** The box the source computes: every visit folded into the sentinel box. */
  function BoxOf(visits: seq<Vec3>): Box
  {
    if visits == [] then INITIAL_BOX
    else Extend(BoxOf(visits[..|visits| - 1]), visits[|visits| - 1])
  }

  /** `b` holds `p` on every axis. */
  ghost predicate Contains(b: Box, p: Vec3)
  {
    forall a :: Coord(b.min, a) <= Coord(p, a) <= Coord(b.max, a)
  }

  /** Extending a box keeps what it held and adds the new point. */
  lemma ExtendContains(b: Box, p: Vec3)
    ensures Contains(Extend(b, p), p)
    ensures forall q :: Contains(b, q) ==> Contains(Extend(b, p), q)
  {
    var e := Extend(b, p);
    forall q | Contains(b, q)
      ensures Contains(e, q)
    {
      forall a ensures Coord(e.min, a) <= Coord(q, a) <= Coord(e.max, a) {
        assert Coord(b.min, a) <= Coord(q, a) <= Coord(b.max, a);
      }
    }
    forall a ensures Coord(e.min, a) <= Coord(p, a) <= Coord(e.max, a) {
    }
  }

  /** Each bound after extending is the old bound or the new point's coordinate. */
  lemma ExtendBound(b: Box, p: Vec3, a: Axis)
    ensures Coord(Extend(b, p).min, a) == Coord(b.min, a) || Coord(Extend(b, p).min, a) == Coord(p, a)
    ensures Coord(Extend(b, p).min, a) <= Coord(b.min, a)
    ensures Coord(Extend(b, p).max, a) == Coord(b.max, a) || Coord(Extend(b, p).max, a) == Coord(p, a)
    ensures Coord(Extend(b, p).max, a) >= Coord(b.max, a)
  {
  }

  /** With no visits the bounds keep their sentinels; otherwise every visit lies inside. */
  lemma {:induction false} BoxOfContainsVisits(visits: seq<Vec3>)
    ensures visits == [] ==> BoxOf(visits) == INITIAL_BOX
    ensures forall k :: 0 <= k < |visits| ==> Contains(BoxOf(visits), visits[k])
  {
    if visits != [] {
      var prefix := visits[..|visits| - 1];
      BoxOfContainsVisits(prefix);
      ExtendContains(BoxOf(prefix), visits[|visits| - 1]);
      forall k | 0 <= k < |prefix|
        ensures Contains(BoxOf(visits), visits[k])
      {
        assert visits[k] == prefix[k];
      }
    }
  }

  /** Every welded vertex lies inside the box of the visits: each one is some visit's key. */
  lemma BoxHoldsVertex(visits: seq<Vec3>, v: nat, a: Axis)
    requires v < |Weld(visits).order|
    ensures Coord(BoxOf(visits).min, a) <= Coord(Weld(visits).order[v], a) <= Coord(BoxOf(visits).max, a)
  {
    var w := Weld(visits);
    WeldTable(visits);
    WeldLookup(visits);
    BoxOfContainsVisits(visits);
    assert w.order[v] in SeenKeys(visits);
    var k :| 0 <= k < |visits| && visits[k] == w.order[v];
    assert Contains(BoxOf(visits), visits[k]);
  }

  /**
   * Each bound is its sentinel or the coordinate of some visit; together with
   * BoxOfContainsVisits this makes it the exact minimum (maximum) whenever
   * some visit lies on the sentinel's side.
   */
  lemma {:induction false} BoxOfAttained(visits: seq<Vec3>, a: Axis)
    ensures Coord(BoxOf(visits).min, a) <= SENTINEL
    ensures Coord(BoxOf(visits).min, a) == SENTINEL ||
            exists k :: 0 <= k < |visits| && Coord(visits[k], a) == Coord(BoxOf(visits).min, a)
    ensures Coord(BoxOf(visits).max, a) >= -SENTINEL
    ensures Coord(BoxOf(visits).max, a) == -SENTINEL ||
            exists k :: 0 <= k < |visits| && Coord(visits[k], a) == Coord(BoxOf(visits).max, a)
  {
    if visits != [] {
      var last := |visits| - 1;
      var prefix := visits[..last];
      var b := BoxOf(prefix);
      BoxOfAttained(prefix, a);
      ExtendBound(b, visits[last], a);
      if Coord(BoxOf(visits).min, a) != SENTINEL && Coord(BoxOf(visits).min, a) != Coord(visits[last], a) {
        var k :| 0 <= k < |prefix| && Coord(prefix[k], a) == Coord(b.min, a);
        assert visits[k] == prefix[k];
      }
      if Coord(BoxOf(visits).max, a) != -SENTINEL && Coord(BoxOf(visits).max, a) != Coord(visits[last], a) {
        var k :| 0 <= k < |prefix| && Coord(prefix[k], a) == Coord(b.max, a);
        assert visits[k] == prefix[k];
      }
    }
  }

  /** The box a glTF accessor must carry: the exact bounds of the visits, no sentinels. */
  function ExactBox(visits: seq<Vec3>): Box
    requires visits != []
  {
    if |visits| == 1 then Box(visits[0], visits[0])
    else Extend(ExactBox(visits[..|visits| - 1]), visits[|visits| - 1])
  }

  /** ExactBox holds every visit. */
  lemma {:induction false} ExactBoxContainsVisits(visits: seq<Vec3>)
    requires visits != []
    ensures forall k :: 0 <= k < |visits| ==> Contains(ExactBox(visits), visits[k])
  {
    var last := |visits| - 1;
    if |visits| == 1 {
      assert forall a :: Coord(ExactBox(visits).min, a) == Coord(visits[0], a) == Coord(ExactBox(visits).max, a);
    } else {
      var prefix := visits[..last];
      ExactBoxContainsVisits(prefix);
      ExtendContains(ExactBox(prefix), visits[last]);
      forall k | 0 <= k < last
        ensures Contains(ExactBox(visits), visits[k])
      {
        assert visits[k] == prefix[k];
      }
    }
  }

  /** Each bound of ExactBox is the coordinate of some visit. */
  lemma {:induction false} ExactBoxAttained(visits: seq<Vec3>, a: Axis)
    requires visits != []
    ensures exists k :: 0 <= k < |visits| && Coord(visits[k], a) == Coord(ExactBox(visits).min, a)
    ensures exists k :: 0 <= k < |visits| && Coord(visits[k], a) == Coord(ExactBox(visits).max, a)
  {
    var last := |visits| - 1;
    if |visits| == 1 {
      assert Coord(visits[0], a) == Coord(ExactBox(visits).min, a);
      assert Coord(visits[0], a) == Coord(ExactBox(visits).max, a);
    } else {
      var prefix := visits[..last];
      var b := ExactBox(prefix);
      ExactBoxAttained(prefix, a);
      ExtendBound(b, visits[last], a);
      if Coord(ExactBox(visits).min, a) != Coord(visits[last], a) {
        var k :| 0 <= k < |prefix| && Coord(prefix[k], a) == Coord(b.min, a);
        assert visits[k] == prefix[k];
      } else {
        assert Coord(visits[last], a) == Coord(ExactBox(visits).min, a);
      }
      if Coord(ExactBox(visits).max, a) != Coord(visits[last], a) {
        var k :| 0 <= k < |prefix| && Coord(prefix[k], a) == Coord(b.max, a);
        assert visits[k] == prefix[k];
      } else {
        assert Coord(visits[last], a) == Coord(ExactBox(visits).max, a);
      }
    }
  }

  /** Every coordinate lies between the sentinels. */
  ghost predicate WithinSentinels(visits: seq<Vec3>)
  {
    forall k, a :: 0 <= k < |visits| ==> -SENTINEL <= Coord(visits[k], a) <= SENTINEL
  }

  /** Inside the sentinel range the source's box is the exact one. */
  lemma {:induction false} BoxOfExactWithinSentinels(visits: seq<Vec3>)
    requires visits != [] && WithinSentinels(visits)
    ensures BoxOf(visits) == ExactBox(visits)
  {
    var last := |visits| - 1;
    var prefix := visits[..last];
    if |visits| == 1 {
      var p := visits[0];
      assert -SENTINEL <= Coord(p, X) <= SENTINEL;
      assert -SENTINEL <= Coord(p, Y) <= SENTINEL;
      assert -SENTINEL <= Coord(p, Z) <= SENTINEL;
      assert BoxOf(prefix) == INITIAL_BOX;
      assert Extend(INITIAL_BOX, p) == Box(p, p);
    } else {
      forall k, a | 0 <= k < |prefix|
        ensures -SENTINEL <= Coord(prefix[k], a) <= SENTINEL
      {
        assert prefix[k] == visits[k];
      }
      BoxOfExactWithinSentinels(prefix);
    }
  }

  /**
   * A facet far from the origin: all of its coordinates are 2 * 9999999, so
   * the sentinel is smaller than every one of them and survives as the
   * minimum, a value no vertex has.
   */
  lemma SentinelClampsFarFacet()
    ensures var far := Vec3(2 * SENTINEL, 2 * SENTINEL, 2 * SENTINEL);
            var visits := [far, far, far];
            && BoxOf(visits).min == Vec3(SENTINEL, SENTINEL, SENTINEL)
            && (forall k :: 0 <= k < |visits| ==> visits[k].x != BoxOf(visits).min.x)
            && ExactBox(visits).min == far
  {
    var far := Vec3(2 * SENTINEL, 2 * SENTINEL, 2 * SENTINEL);
    var one, two, three := [far], [far, far], [far, far, far];
    assert three[..2] == two && two[..1] == one && one[..0] == [];
    assert BoxOf(one).min == Vec3(SENTINEL, SENTINEL, SENTINEL);
    assert BoxOf(two).min == Vec3(SENTINEL, SENTINEL, SENTINEL);
    assert ExactBox(one).min == far;
    assert ExactBox(two).min == far;
  }

  // ---------------------------------------------------------------------
  // The loop itself
  // ---------------------------------------------------------------------

  /** What one more visit does to the welder's state, given the state so far. */
  lemma WeldAppend(seen: seq<Vec3>, key: Vec3, vertices: map<Vec3, nat>, indices: seq<nat>, counter: nat)
    requires vertices == Weld(seen).table && indices == Weld(seen).indices && counter == |Weld(seen).order|
    ensures var w' := Weld(seen + [key]);
            if key in vertices then
              w'.table == vertices && w'.indices == indices + [vertices[key]] && |w'.order| == counter
            else
              w'.table == vertices[key := counter] && w'.indices == indices + [counter] && |w'.order| == counter + 1
  {
    assert (seen + [key])[..|seen|] == seen;
  }

  /** What one more visit does to the box. */
  lemma BoxAppend(seen: seq<Vec3>, key: Vec3)
    ensures BoxOf(seen + [key]) == Extend(BoxOf(seen), key)
  {
    assert (seen + [key])[..|seen|] == seen;
  }

  lemma VisitsAppend(data: seq<nat>, i: nat, round5: nat -> int)
    requires i % 13 == 0 && i + 13 <= |data|
    ensures (i + 13) % 13 == 0
    ensures Visits(data[..i + 13], round5) == Visits(data[..i], round5) + RecordKeys(data, i, round5)
  {
    assert data[..i + 13][..i] == data[..i];
    assert RecordKeys(data[..i + 13], i, round5) == RecordKeys(data, i, round5);
  }

  /** The welder's state and the six bounds are those reached after `seen`. */
  ghost predicate Reached(seen: seq<Vec3>, vertices: map<Vec3, nat>, indices: seq<nat>, counter: nat, box: Box)
  {
    var w := Weld(seen);
    vertices == w.table && indices == w.indices && counter == |w.order| && box == BoxOf(seen)
  }

  /**
   * main.py's inner loop: `j` walks the three vertices of the record at
   * value `i`, updating the dictionary, the index list, the counter and the
   * six running bounds.
   */
  method WeldRecord(data: seq<nat>, i: nat, round5: nat -> int, ghost seen: seq<Vec3>,
                    vertices0: map<Vec3, nat>, indices0: seq<nat>, counter0: nat, box0: Box)
    returns (vertices: map<Vec3, nat>, indices: seq<nat>, counter: nat, box: Box)
    requires i + 13 <= |data|
    requires Reached(seen, vertices0, indices0, counter0, box0)
    ensures Reached(seen + RecordKeys(data, i, round5), vertices, indices, counter, box)
  {
    vertices, indices, counter := vertices0, indices0, counter0;
    var minx, maxx := box0.min.x, box0.max.x;
    var miny, maxy := box0.min.y, box0.max.y;
    var minz, maxz := box0.min.z, box0.max.z;
    ghost var keys := RecordKeys(data, i, round5);
    ghost var t := 0;
    ghost var now := seen;
    assert keys[..0] == [];
    var j := 3;
    while j < 12
      invariant 0 <= t <= 3 && j == 3 + 3 * t
      invariant now == seen + keys[..t]
      invariant Reached(now, vertices, indices, counter, Box(Vec3(minx, miny, minz), Vec3(maxx, maxy, maxz)))
    {
      var tupleXyz := KeyAt(data, i + j, round5);
      var x, y, z := tupleXyz.x, tupleXyz.y, tupleXyz.z;
      assert keys[t] == tupleXyz;
      WeldAppend(now, tupleXyz, vertices, indices, counter);
      BoxAppend(now, tupleXyz);
      if tupleXyz in vertices {
        indices := indices + [vertices[tupleXyz]];
      } else {
        vertices := vertices[tupleXyz := counter];
        counter := counter + 1;
        indices := indices + [vertices[tupleXyz]];
      }
      minx, maxx := Min(minx, x), Max(maxx, x);
      miny, maxy := Min(miny, y), Max(maxy, y);
      minz, maxz := Min(minz, z), Max(maxz, z);
      assert keys[..t + 1] == keys[..t] + [keys[t]];
      now := now + [tupleXyz];
      j, t := j + 3, t + 1;
    }
    assert keys[..3] == keys;
    box := Box(Vec3(minx, miny, minz), Vec3(maxx, maxy, maxz));
  }

  /**
   * main.py's outer loop over the unpacked values: `i` walks the records.
   * It returns the dictionary, the index list, the counter and the six
   * bounds as a box.
   */
  method WeldVertices(data: seq<nat>, round5: nat -> int)
    returns (vertices: map<Vec3, nat>, indices: seq<nat>, counter: nat, box: Box)
    requires |data| % 13 == 0
    ensures var w := Weld(Visits(data, round5));
            vertices == w.table && indices == w.indices && counter == |w.order|
    ensures box == BoxOf(Visits(data, round5))
  {
    vertices, indices, counter := map[], [], 0;
    box := INITIAL_BOX;
    ghost var seen: seq<Vec3> := [];
    var i := 0;
    while i < |data|
      invariant i <= |data| && i % 13 == 0
      invariant seen == Visits(data[..i], round5)
      invariant Reached(seen, vertices, indices, counter, box)
    {
      VisitsAppend(data, i, round5);
      vertices, indices, counter, box := WeldRecord(data, i, round5, seen, vertices, indices, counter, box);
      seen := seen + RecordKeys(data, i, round5);
      i := i + 13;
    }
    assert data[..i] == data;
  }

  /**
   * main.py lines 153-154: invert the table into `reversed_vertices`, then
   * list the keys by index. Given the welder's table it yields the keys in
   * first-seen order.
   */
  method ListVertices(vertices: map<Vec3, nat>, numberVertices: nat, ghost order: seq<Vec3>)
    returns (verticesList: seq<Vec3>)
    requires DenseIndex(vertices, order) && numberVertices == |order|
    ensures verticesList == order
    ensures forall v :: 0 <= v < |verticesList| ==> vertices[verticesList[v]] == v
  {
    var reversed: map<nat, Vec3> := map[];
    var rest := vertices.Keys;
    while rest != {}
      invariant rest <= vertices.Keys
      invariant forall key :: key in vertices && key !in rest ==>
                  vertices[key] in reversed && reversed[vertices[key]] == key
      invariant forall v :: v in reversed ==> v < |order| && order[v] in vertices && order[v] !in rest
      invariant forall v :: v in reversed ==> reversed[v] == order[v]
      decreases rest
    {
      var key :| key in rest;
      reversed := reversed[vertices[key] := key];
      rest := rest - {key};
    }
    verticesList := [];
    var v := 0;
    while v < numberVertices
      invariant 0 <= v <= numberVertices
      invariant verticesList == order[..v]
    {
      assert order[v] in vertices;
      verticesList := verticesList + [reversed[v]];
      v := v + 1;
    }
  }
}
