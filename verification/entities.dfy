/** The entity store and the subdivision engine of src/stores/entities.ts.

    The store owns the ordered list `entities` and the id counter `nextId`
    (both module-level state in the source). Entities are values: the source
    never mutates an entity once it is stored, so an object reference is
    identified with the entity's id, which the store keeps unique. */
module Entities {
  import opened Utils
  import opened Geometry

  datatype EntityError = UnsupportedEntityType

  /** The key `{ id }` that addEntity and removeEntityById match on. */
  function IdOf(e: Entity): int { e.id }

  predicate HasId(es: seq<Entity>, id: int)
  {
    exists i :: 0 <= i < |es| && es[i].id == id
  }

  predicate UniqueIds(es: seq<Entity>)
  {
    forall i, j :: 0 <= i < j < |es| ==> es[i].id != es[j].id
  }

  predicate IdsBelow(es: seq<Entity>, n: int)
  {
    forall i :: 0 <= i < |es| ==> es[i].id < n
  }

  // ---------------------------------------------------------------------------
  // Upsert and delete by id

  /** The store after addEntity's `upsert(entities, { id }, entity)`. */
  function UpsertById(es: seq<Entity>, e: Entity): seq<Entity>
  {
    Deleted(es, IdOf, e.id) + [e]
  }

  /** The store after upserting each of `xs` in turn. */
  function UpsertAll(es: seq<Entity>, xs: seq<Entity>): seq<Entity>
    decreases |xs|
  {
    if xs == [] then es else UpsertById(UpsertAll(es, xs[..|xs| - 1]), xs[|xs| - 1])
  }

  /** Deleting by id from a store with unique ids removes that id entirely,
      keeps every other entity and keeps ids unique. */
  lemma DeletedById(es: seq<Entity>, k: int)
    requires UniqueIds(es)
    ensures UniqueIds(Deleted(es, IdOf, k))
    ensures !HasId(Deleted(es, IdOf, k), k)
    ensures forall e :: e in es && e.id != k ==> e in Deleted(es, IdOf, k)
    ensures forall e :: e in Deleted(es, IdOf, k) ==> e in es
  {
    var i := FirstIndex(es, IdOf, k);
    var d := Deleted(es, IdOf, k);
    if 0 <= i {
      assert |d| == |es| - 1;
      assert forall j :: 0 <= j < |d| ==> d[j] == es[if j < i then j else j + 1];
    }
    forall e | e in es && e.id != k
      ensures e in d
    {
      DeletedKeeps(es, IdOf, k, e);
    }
    forall e | e in d
      ensures e in es
    {
      DeletedWithin(es, IdOf, k, e);
    }
  }

  /** Upserting an entity whose id is absent appends it. */
  lemma UpsertFresh(es: seq<Entity>, e: Entity)
    requires !HasId(es, e.id)
    ensures UpsertById(es, e) == es + [e]
  {
    assert forall j :: 0 <= j < |es| ==> IdOf(es[j]) != e.id;
  }

  /** Repeated upserts by id keep at most one entity per id, and the entity
      just upserted is the only one with its id. */
  lemma UpsertKeepsIdsUnique(es: seq<Entity>, e: Entity)
    requires UniqueIds(es)
    ensures UniqueIds(UpsertById(es, e))
    ensures forall x :: x in UpsertById(es, e) && x.id == e.id ==> x == e
  {
    DeletedById(es, e.id);
    var d := Deleted(es, IdOf, e.id);
    var u := UpsertById(es, e);
    forall i, j | 0 <= i < j < |u|
      ensures u[i].id != u[j].id
    {
      if j == |u| - 1 {
        assert u[i] in d;
      }
    }
  }

  lemma UniqueIdsPrefix(xs: seq<Entity>)
    requires UniqueIds(xs) && xs != []
    ensures UniqueIds(xs[..|xs| - 1])
  {
  }

  /** Deleting keeps every id below a bound that held before. */
  lemma DeletedIdsBelow(es: seq<Entity>, k: int, n: int)
    requires IdsBelow(es, n)
    ensures IdsBelow(Deleted(es, IdOf, k), n)
  {
    var d := Deleted(es, IdOf, k);
    forall i | 0 <= i < |d|
      ensures d[i].id < n
    {
      assert d[i] in d;
      DeletedWithin(es, IdOf, k, d[i]);
    }
  }

  /** Upserting entities with distinct ids, all at or above every id in the
      store, appends them in order. */
  lemma {:induction false} UpsertAllFresh(es: seq<Entity>, xs: seq<Entity>, n: int)
    requires IdsBelow(es, n) && UniqueIds(xs)
    requires forall i :: 0 <= i < |xs| ==> xs[i].id >= n
    ensures UpsertAll(es, xs) == es + xs
    decreases |xs|
  {
    if xs != [] {
      var init, last := xs[..|xs| - 1], xs[|xs| - 1];
      UniqueIdsPrefix(xs);
      UpsertAllFresh(es, init, n);
      forall i | 0 <= i < |es + init|
        ensures (es + init)[i].id != last.id
      {
        if i < |es| {
          assert es[i].id < n;
        } else {
          assert (es + init)[i] == xs[i - |es|];
        }
      }
      UpsertFresh(es + init, last);
      assert es + init + [last] == es + xs;
    }
  }

  // ---------------------------------------------------------------------------
  // Split pieces

  /** A piece splitEntity builds along a span: an edge line with a drawn id,
      zIndex 0 and no style. */
  function Piece(s: Span, id: int): Entity
  {
    LineEntity(s.from.x, s.from.y, s.to.x, s.to.y, false, Extra(id, 0, true, None, Unstyled))
  }

  /** multiSplitEntity's optional recolouring with a random stroke. */
  function Recolored(e: Entity, randomColor: bool): Entity
  {
    if randomColor then e.(style := RandomStroke) else e
  }

  /** The id of piece `i` of `k + 1`: each cut draws two ids (the finished
      piece, then the remainder), and only the last remainder is kept. */
  function PieceId(n0: int, i: int, k: int): int
  {
    if i < k then n0 + 2 * i else n0 + 2 * k - 1
  }

  /** The entities multiSplitEntity appends for a segment from `a` to `b`
      cut at `ps`, with the counter at `n0` when it starts. */
  function Pieces(a: Point, b: Point, ps: seq<Point>, n0: int, randomColor: bool): (r: seq<Entity>)
    ensures |r| == |ps| + 1
  {
    var chain := SplitChain(a, b, ps);
    seq(|chain|, i requires 0 <= i < |chain| => Recolored(Piece(chain[i], PieceId(n0, i, |ps|)), randomColor))
  }

  /** The k + 1 pieces are edge lines at zIndex 0, with distinct ids drawn
      from the 2k values starting at the counter, each spanning its link of
      the chain. */
  lemma PiecesFresh(a: Point, b: Point, ps: seq<Point>, n0: int, randomColor: bool)
    requires ps != []
    ensures UniqueIds(Pieces(a, b, ps, n0, randomColor))
    ensures forall e :: e in Pieces(a, b, ps, n0, randomColor) ==> n0 <= e.id < n0 + 2 * |ps|
  {
    var r := Pieces(a, b, ps, n0, randomColor);
    var k := |ps|;
    forall i | 0 <= i < |r|
      ensures r[i].id == PieceId(n0, i, k)
    {
    }
    forall i, j | 0 <= i < j < |r|
      ensures r[i].id != r[j].id
    {
      if j == k {
        assert r[i].id == n0 + 2 * i;
        assert r[j].id == n0 + 2 * k - 1;
      }
    }
  }

  /** Each piece is an edge line at zIndex 0 spanning its link of the
      chain, styled only by the optional random stroke. */
  lemma PiecesSpans(a: Point, b: Point, ps: seq<Point>, n0: int, randomColor: bool)
    ensures forall i :: 0 <= i < |ps| + 1 ==>
      var e := Pieces(a, b, ps, n0, randomColor)[i];
      && e.edge && e.shape.Line? && e.zIndex == 0 && e.inter == None
      && e.ends == [SplitChain(a, b, ps)[i].from, SplitChain(a, b, ps)[i].to]
      && e.style == (if randomColor then RandomStroke else Unstyled)
  {
  }

  // ---------------------------------------------------------------------------
  // Intersection bookkeeping

  /** One entry of updateIntersectionBy's `inters`. */
  datatype Crossing = Crossing(target: Entity, point: Point)

  function TargetOf(c: Crossing): Entity { c.target }

  function PointOf(c: Crossing): Point { c.point }

  /** The edge entities other than `base`: the filter updateIntersectionBy
      starts from (identity with `base` is identity of ids). */
  function OtherEdges(es: seq<Entity>, id: int): (r: seq<Entity>)
    ensures forall e :: e in r <==> e in es && e.edge && e.id != id
    decreases |es|
  {
    if es == [] then []
    else
      var e := es[|es| - 1];
      assert forall x :: x in es <==> x in es[..|es| - 1] || x == e;
      OtherEdges(es[..|es| - 1], id) + (if e.edge && e.id != id then [e] else [])
  }

  /** The crossings of `base` with each target, in target order. */
  function Crossings(base: Entity, targets: seq<Entity>): seq<Crossing>
    decreases |targets|
  {
    if targets == [] then []
    else
      var t := targets[|targets| - 1];
      Crossings(base, targets[..|targets| - 1]) +
        (match CalcIntersection(base, t)
         case Some(p) => [Crossing(t, p)]
         case None => [])
  }

  /** The crossings are exactly the targets calcIntersection meets, each
      with its intersection point. */
  lemma {:induction false} CrossingsMembers(base: Entity, targets: seq<Entity>)
    ensures forall c :: c in Crossings(base, targets) ==>
      c.target in targets && CalcIntersection(base, c.target) == Some(c.point)
    ensures forall t :: t in targets && CalcIntersection(base, t).Some? ==>
      Crossing(t, CalcIntersection(base, t).value) in Crossings(base, targets)
    decreases |targets|
  {
    if targets != [] {
      var init, t := targets[..|targets| - 1], targets[|targets| - 1];
      CrossingsMembers(base, init);
      assert forall x :: x in targets <==> x in init || x == t;
    }
  }

  /** One more target: its crossing, if any, is appended. */
  lemma CrossingsStep(base: Entity, ts: seq<Entity>, i: int)
    requires 0 <= i < |ts|
    ensures CalcIntersection(base, ts[i]).None? ==> Crossings(base, ts[..i + 1]) == Crossings(base, ts[..i])
    ensures CalcIntersection(base, ts[i]).Some? ==>
      Crossings(base, ts[..i + 1]) == Crossings(base, ts[..i]) + [Crossing(ts[i], CalcIntersection(base, ts[i]).value)]
  {
    assert ts[..i + 1][..i] == ts[..i];
  }

  /** The marker dot newDot builds for a crossing: zIndex 1, no edge, the
      source pair, no fill. */
  function Marker(base: Entity, c: Crossing, id: int): Entity
  {
    DotEntity(c.point.x, c.point.y, Extra(id, 1, false, Some(InterRef(base.id, c.target.id)), FillNone))
  }

  function Markers(base: Entity, cs: seq<Crossing>, n0: int): (r: seq<Entity>)
    ensures |r| == |cs|
  {
    seq(|cs|, j requires 0 <= j < |cs| => Marker(base, cs[j], n0 + j))
  }

  lemma MarkersSnoc(base: Entity, cs: seq<Crossing>, c: Crossing, n0: int)
    ensures Markers(base, cs + [c], n0) == Markers(base, cs, n0) + [Marker(base, c, n0 + |cs|)]
  {
  }

  lemma IdsBelowGrow(es: seq<Entity>, n: int, m: int)
    requires IdsBelow(es, n) && n <= m
    ensures IdsBelow(es, m)
  {
  }

  /** The crossing points that are not ends of `base`, in discovery order. */
  function BasePoints(base: Entity, cs: seq<Crossing>): (r: seq<Point>)
    ensures forall p :: p in r <==> exists c :: c in cs && c.point == p && !IsEndPoint(p, base)
    ensures r != [] ==> exists c :: c in cs && !IsEndPoint(c.point, base)
    decreases |cs|
  {
    if cs == [] then []
    else
      var c := cs[|cs| - 1];
      assert forall x :: x in cs <==> x in cs[..|cs| - 1] || x == c;
      BasePoints(base, cs[..|cs| - 1]) + (if IsEndPoint(c.point, base) then [] else [c.point])
  }

  /** The crossings whose point is not an end of their target. */
  function TargetCrossings(cs: seq<Crossing>): (r: seq<Crossing>)
    ensures forall c :: c in r <==> c in cs && !IsEndPoint(c.point, c.target)
    decreases |cs|
  {
    if cs == [] then []
    else
      var c := cs[|cs| - 1];
      assert forall x :: x in cs <==> x in cs[..|cs| - 1] || x == c;
      TargetCrossings(cs[..|cs| - 1]) + (if IsEndPoint(c.point, c.target) then [] else [c])
  }

  /** The target is crossed at a point that is not one of its own ends. */
  predicate CutsTarget(t: Entity, cs: seq<Crossing>)
  {
    exists c :: c in cs && c.target == t && !IsEndPoint(c.point, t)
  }

  /** The entity is one updateIntersectionBy splits and so retires. */
  predicate Retired(e: Entity, base: Entity, cs: seq<Crossing>)
  {
    (e == base && BasePoints(base, cs) != []) || CutsTarget(e, cs)
  }

  /** The pieces of base: it is cut at its points off its own ends, with
      the counter where the markers left it. */
  function BasePieces(base: Entity, cs: seq<Crossing>, n0: int, randomColor: bool): seq<Entity>
  {
    if base.shape.Line? && BasePoints(base, cs) != []
    then Pieces(First(base), Second(base), BasePoints(base, cs), n0 + |cs|, randomColor)
    else []
  }

  /** The targets cut, in order of their first crossing off their own ends:
      the keys of updateIntersectionBy's `groupBy`. */
  function TargetKeys(cs: seq<Crossing>): seq<Entity>
  {
    KeysOf(TargetCrossings(cs), TargetOf)
  }

  /** The points a target is cut at, in discovery order. */
  function TargetPoints(cs: seq<Crossing>, t: Entity): seq<Point>
  {
    GroupOf(TargetCrossings(cs), TargetOf, PointOf, t)
  }

  /** The counter once base is split: after the markers and the two ids
      per cut of base. */
  function BaseEnd(base: Entity, cs: seq<Crossing>, n0: int): int
  {
    n0 + |cs| + 2 * |BasePoints(base, cs)|
  }

  /** The counter when the `i`-th cut target is split, the targets starting
      at `m`: two ids per cut of each earlier target. */
  function TargetStart(cs: seq<Crossing>, m: int, i: int): int
    requires 0 <= i <= |TargetKeys(cs)|
  {
    m + 2 * SizeSum(TargetKeys(cs)[..i], TargetCrossings(cs), TargetOf, PointOf)
  }

  /** The pieces of the `i`-th cut target, the targets starting at `m`. */
  function TargetPieces(cs: seq<Crossing>, m: int, randomColor: bool, i: int): seq<Entity>
    requires 0 <= i < |TargetKeys(cs)|
  {
    var t := TargetKeys(cs)[i];
    if t.shape.Line?
    then Pieces(First(t), Second(t), TargetPoints(cs, t), TargetStart(cs, m, i), randomColor)
    else []
  }

  /** The store once base is split: its id removed and its pieces appended,
      or unchanged when no crossing is off base's own ends. */
  function BaseSplit(es: seq<Entity>, base: Entity, cs: seq<Crossing>, n0: int, randomColor: bool): seq<Entity>
  {
    if BasePoints(base, cs) != [] then Deleted(es, IdOf, base.id) + BasePieces(base, cs, n0, randomColor) else es
  }

  /** The store once the entities `keys` are split in turn: each one's id
      removed and its pieces, the matching entry of `tp`, appended. */
  function SplitAll(es: seq<Entity>, keys: seq<Entity>, tp: seq<seq<Entity>>): seq<Entity>
    requires |keys| == |tp|
    decreases |keys|
  {
    if keys == [] then es
    else Deleted(SplitAll(es, keys[..|keys| - 1], tp[..|tp| - 1]), IdOf, keys[|keys| - 1].id) + tp[|tp| - 1]
  }

  /** The pieces of every cut target, the targets starting at `m`. */
  function AllTargetPieces(cs: seq<Crossing>, m: int, randomColor: bool): (r: seq<seq<Entity>>)
    ensures |r| == |TargetKeys(cs)|
    ensures forall i :: 0 <= i < |r| ==> r[i] == TargetPieces(cs, m, randomColor, i)
  {
    seq(|TargetKeys(cs)|, i requires 0 <= i < |TargetKeys(cs)| => TargetPieces(cs, m, randomColor, i))
  }

  /** The store updateIntersectionBy leaves, in order: the old store, one
      marker per crossing, then base and each cut target in first-crossing
      order replaced by its pieces at the end. */
  function PassResult(before: seq<Entity>, n0: int, base: Entity, cs: seq<Crossing>, randomColor: bool): seq<Entity>
  {
    SplitAll(BaseSplit(before + Markers(base, cs, n0), base, cs, n0, randomColor),
             TargetKeys(cs), AllTargetPieces(cs, BaseEnd(base, cs, n0), randomColor))
  }

  /** What updateIntersectionBy(base) does to a store `before` with the
      counter at `n0`, leaving `after` and the counter at `n1`. */
  ghost predicate IntersectionUpdate(before: seq<Entity>, n0: int, base: Entity, after: seq<Entity>, n1: int, randomColor: bool)
  {
    UpdateOutcome(before, n0, base, Crossings(base, OtherEdges(before, base.id)), after, n1, randomColor)
  }

  /** The outcome for the crossings `cs` found:
      - the store is exactly PassResult, in that order;
      - the counter advances by one per marker and two per cut;
      - one marker per crossing, with ids n0, n0 + 1, ... in discovery order;
      - base and every target crossed away from its own ends are removed;
      - every other entity stays;
      - base's pieces and every cut target's pieces are present;
      - nothing else is added. */
  ghost predicate UpdateOutcome(before: seq<Entity>, n0: int, base: Entity, cs: seq<Crossing>,
                                after: seq<Entity>, n1: int, randomColor: bool)
  {
    && after == PassResult(before, n0, base, cs, randomColor)
    && n1 == BaseEnd(base, cs, n0) + 2 * |TargetCrossings(cs)|
    && (forall j :: 0 <= j < |cs| ==> Marker(base, cs[j], n0 + j) in after)
    && (forall e :: e in before && Retired(e, base, cs) ==> !HasId(after, e.id))
    && (forall e :: e in before && !Retired(e, base, cs) ==> e in after)
    && (forall e :: e in BasePieces(base, cs, n0, randomColor) ==> e in after)
    && (forall i :: 0 <= i < |TargetKeys(cs)| ==>
          forall e :: e in TargetPieces(cs, BaseEnd(base, cs, n0), randomColor, i) ==> e in after)
    && (forall e :: e in after ==>
          || e in before || e in Markers(base, cs, n0) || e in BasePieces(base, cs, n0, randomColor)
          || exists i :: 0 <= i < |TargetKeys(cs)| && e in TargetPieces(cs, BaseEnd(base, cs, n0), randomColor, i))
  }

  /** Crossings that all lie at ends of both sides leave their markers and
      split nothing: every entity of the store survives. */
  lemma EndpointCrossingsSplitNothing(before: seq<Entity>, n0: int, base: Entity, cs: seq<Crossing>,
                                      after: seq<Entity>, n1: int, randomColor: bool)
    requires UpdateOutcome(before, n0, base, cs, after, n1, randomColor)
    requires forall c :: c in cs ==> IsEndPoint(c.point, base) && IsEndPoint(c.point, c.target)
    ensures forall e :: e in before ==> e in after
    ensures forall j :: 0 <= j < |cs| ==> Marker(base, cs[j], n0 + j) in after
    ensures forall e :: e in after ==> e in before || e in Markers(base, cs, n0)
    ensures after == before + Markers(base, cs, n0)
    ensures n1 == n0 + |cs|
  {
    NoBasePoints(base, cs);
    NoTargetCrossings(cs);
    assert TargetKeys(cs) == [];
    forall e | e in before
      ensures e in after
    {
      assert !CutsTarget(e, cs);
    }
  }

  /** Crossings all at ends of base give base no cut point. */
  lemma NoBasePoints(base: Entity, cs: seq<Crossing>)
    requires forall c :: c in cs ==> IsEndPoint(c.point, base)
    ensures BasePoints(base, cs) == []
  {
  }

  /** Two crossings at one point that is not an end of base give base that
      point twice, and so a zero-length piece (SplitChainRepeatedPoint). */
  lemma RepeatedCrossingPoint(base: Entity, t1: Entity, t2: Entity, p: Point)
    requires !IsEndPoint(p, base)
    ensures BasePoints(base, [Crossing(t1, p), Crossing(t2, p)]) == [p, p]
  {
    assert [Crossing(t1, p), Crossing(t2, p)][..1] == [Crossing(t1, p)];
    assert [Crossing(t1, p)][..0] == [];
  }

  /** Crossings all at ends of their targets keep no crossing for them. */
  lemma NoTargetCrossings(cs: seq<Crossing>)
    requires forall c :: c in cs ==> IsEndPoint(c.point, c.target)
    ensures TargetCrossings(cs) == []
  {
  }

  /** A crossing needs two lines, so only lines are split, and `base` is
      never among the targets it cuts. */
  lemma CrossingsAreLines(base: Entity, targets: seq<Entity>, cs: seq<Crossing>)
    requires cs == Crossings(base, targets)
    requires forall t :: t in targets ==> t.id != base.id
    ensures BasePoints(base, cs) != [] ==> base.shape.Line?
    ensures !CutsTarget(base, cs)
    ensures forall t :: t in KeysOf(TargetCrossings(cs), TargetOf) <==> CutsTarget(t, cs)
    ensures forall t :: t in KeysOf(TargetCrossings(cs), TargetOf) ==>
      t in targets && t.shape.Line? && GroupOf(TargetCrossings(cs), TargetOf, PointOf, t) != []
  {
    CrossingsMembers(base, targets);
    var tcs := TargetCrossings(cs);
    forall t
      ensures t in KeysOf(tcs, TargetOf) <==> CutsTarget(t, cs)
    {
      KeyListed(tcs, TargetOf, t);
      if CutsTarget(t, cs) {
        var c :| c in cs && c.target == t && !IsEndPoint(c.point, t);
        var j :| 0 <= j < |tcs| && tcs[j] == c;
        assert TargetOf(tcs[j]) == t;
      }
    }
    forall t | t in KeysOf(tcs, TargetOf)
      ensures t in targets && t.shape.Line? && GroupOf(tcs, TargetOf, PointOf, t) != []
    {
      KeyListed(tcs, TargetOf, t);
      var j :| 0 <= j < |tcs| && TargetOf(tcs[j]) == t;
      assert tcs[j] in tcs;
      ItemInItsGroup(tcs, TargetOf, PointOf, j);
    }
  }

  /** What the splits of updateIntersectionBy rely on about the crossings
      found: base is cut only when it is a line, and the cut targets are
      lines of the store other than base, each with a point to split at. */
  ghost predicate CutsReady(before: seq<Entity>, base: Entity, cs: seq<Crossing>)
  {
    && (BasePoints(base, cs) != [] ==> base.shape.Line?)
    && !CutsTarget(base, cs)
    && (forall t :: t in TargetKeys(cs) <==> CutsTarget(t, cs))
    && (forall t :: t in TargetKeys(cs) ==> t in before && t != base && t.shape.Line? && TargetPoints(cs, t) != [])
  }

  /** The crossings base makes with the other edges of the store are ready
      to split. */
  lemma CrossingsReady(before: seq<Entity>, base: Entity, cs: seq<Crossing>)
    requires cs == Crossings(base, OtherEdges(before, base.id))
    ensures CutsReady(before, base, cs)
  {
    var targets := OtherEdges(before, base.id);
    CrossingsAreLines(base, targets, cs);
    assert BasePoints(base, cs) != [] ==> base.shape.Line?;
    assert !CutsTarget(base, cs);
    assert forall t :: t in TargetKeys(cs) <==> CutsTarget(t, cs);
    forall t | t in TargetKeys(cs)
      ensures t in before && t != base && t.shape.Line? && TargetPoints(cs, t) != []
    {
      assert t in targets;
    }
  }

  /** groupBy's result on the crossings kept for the targets lists each cut
      target with its points, ready to split. */
  lemma GroupsReady(before: seq<Entity>, base: Entity, cs: seq<Crossing>,
                    keys: seq<Entity>, groups: map<Entity, seq<Point>>)
    requires CutsReady(before, base, cs)
    requires keys == KeysOf(TargetCrossings(cs), TargetOf)
    requires groups.Keys == set k | k in keys
    requires forall k :: k in groups ==> groups[k] == GroupOf(TargetCrossings(cs), TargetOf, PointOf, k)
    ensures SplitGroups(before, base, cs, keys, groups)
  {
  }

  /** Each listed target is mapped to its points, has some, is a line of
      the store and is not base. */
  ghost predicate SplitGroups(before: seq<Entity>, base: Entity, cs: seq<Crossing>,
                              keys: seq<Entity>, groups: map<Entity, seq<Point>>)
  {
    forall t :: t in keys ==>
      t in groups && groups[t] == TargetPoints(cs, t) && groups[t] != [] && t.shape.Line? && t in before && t != base
  }

  /** One split step as the store sees it: delete id `k`, append pieces with
      ids from `n` on. */
  lemma AfterSplit(es: seq<Entity>, k: int, ps: seq<Entity>, n: int)
    requires UniqueIds(es) && k < n
    requires forall p :: p in ps ==> p.id >= n
    ensures forall e :: e in es && e.id != k ==> e in Deleted(es, IdOf, k) + ps
    ensures !HasId(Deleted(es, IdOf, k) + ps, k)
    ensures forall x :: x < n && !HasId(es, x) ==> !HasId(Deleted(es, IdOf, k) + ps, x)
    ensures forall e :: e in Deleted(es, IdOf, k) + ps ==> e in es || e in ps
  {
    DeletedById(es, k);
    var d := Deleted(es, IdOf, k);
    forall x, i | x < n && !HasId(es, x) && 0 <= i < |d + ps|
      ensures (d + ps)[i].id != x
    {
      if i < |d| {
        assert d[i] in d;
        var j :| 0 <= j < |es| && es[j] == d[i];
      } else {
        assert ps[i - |d|] in ps;
      }
    }
    forall i | 0 <= i < |d + ps|
      ensures (d + ps)[i].id != k
    {
      if i < |d| {
        assert d[i] in d;
      } else {
        assert ps[i - |d|] in ps;
      }
    }
  }

  lemma PieceEnds(s: Span, id: int)
    ensures Piece(s, id).shape.Line? && Piece(s, id).id == id
    ensures First(Piece(s, id)) == s.from && Second(Piece(s, id)) == s.to
  {
  }

  /** The split loop's segments, followed by the last remainder, are the
      chain's pieces before recolouring. */
  lemma SegmentsArePieces(a: Point, b: Point, ps: seq<Point>, n0: int, segs: seq<Entity>)
    requires |segs| == |ps| + 1
    requires forall j :: 0 <= j < |ps| ==>
      segs[j] == Piece(Span(Trail(a, b, ps)[j], Trail(a, b, ps)[j + 2]), n0 + 2 * j)
    requires segs[|ps|] == Piece(Span(Trail(a, b, ps)[|ps|], Trail(a, b, ps)[|ps| + 1]), n0 + 2 * |ps| - 1)
    ensures segs == Pieces(a, b, ps, n0, false)
  {
    SplitChainAt(a, b, ps);
    var r := Pieces(a, b, ps, n0, false);
    forall i | 0 <= i < |segs|
      ensures segs[i] == r[i]
    {
      assert r[i] == Piece(SplitChain(a, b, ps)[i], PieceId(n0, i, |ps|));
      if i < |ps| {
        assert SplitChain(a, b, ps)[i] == Span(Trail(a, b, ps)[i], Trail(a, b, ps)[i + 2]);
      } else {
        assert SplitChain(a, b, ps)[i] == Span(Trail(a, b, ps)[|ps|], Trail(a, b, ps)[|ps| + 1]);
      }
    }
  }

  /** Giving every segment a random stroke yields the recoloured pieces. */
  lemma RecoloredPieces(a: Point, b: Point, ps: seq<Point>, n0: int, j: int)
    requires 0 <= j <= |ps|
    ensures |Pieces(a, b, ps, n0, true)| == |Pieces(a, b, ps, n0, false)|
    ensures Pieces(a, b, ps, n0, true)[j] == Pieces(a, b, ps, n0, false)[j].(style := RandomStroke)
  {
  }

  /** The `segments.forEach` of multiSplitEntity under boardOpts.randomColor:
      every piece gets a random stroke, and nothing else about it changes. */
  method RecolorSegments(ghost a: Point, ghost b: Point, ghost ps: seq<Point>, ghost n0: int, segments: seq<Entity>)
    returns (r: seq<Entity>)
    requires segments == Pieces(a, b, ps, n0, false)
    ensures r == Pieces(a, b, ps, n0, true)
  {
    r := [];
    for i := 0 to |segments|
      invariant |r| == i
      invariant forall j :: 0 <= j < i ==> r[j] == Pieces(a, b, ps, n0, true)[j]
    {
      RecoloredPieces(a, b, ps, n0, i);
      r := r + [segments[i].(style := RandomStroke)];
    }
    RecoloredPieces(a, b, ps, n0, 0);
  }

  /** Entities with ids from `n` on are absent from a store whose ids are
      all below `n`. */
  lemma FreshAgainst(es: seq<Entity>, n: int, xs: seq<Entity>)
    requires IdsBelow(es, n)
    requires forall x :: x in xs ==> x.id >= n
    ensures forall x :: x in xs ==> !HasId(es, x.id)
  {
  }

  /** Entities of `before` that are neither base nor a target split so far
      are still present; those split (the targets in `done`, base once
      `baseGone`) no longer have an id in `es`. */
  ghost predicate Survivors(before: seq<Entity>, base: Entity, baseGone: bool, done: seq<Entity>, es: seq<Entity>)
  {
    && (forall e :: e in before && e != base && e !in done ==> e in es)
    && (forall e :: e in before && e in done ==> !HasId(es, e.id))
    && (baseGone ==> !HasId(es, base.id))
    && (!baseGone ==> base in es)
  }

  /** The markers, base's pieces and the pieces `tp` of the targets split so
      far are present, the pieces with fresh ids; every entry is old, a
      marker or one of those pieces, and is old or has a fresh id. */
  ghost predicate Additions(before: seq<Entity>, n0: int, base: Entity, cs: seq<Crossing>,
                            basePieces: seq<Entity>, tp: seq<seq<Entity>>, es: seq<Entity>, n: int)
  {
    && (forall j :: 0 <= j < |cs| ==> Marker(base, cs[j], n0 + j) in es)
    && (forall e :: e in basePieces ==> e in es)
    && (forall j :: 0 <= j < |tp| ==> forall e :: e in tp[j] ==> e in es && e.id >= n0)
    && (forall e :: e in es ==> e in before || n0 <= e.id < n)
    && (forall e :: e in es ==>
          || e in before || e in Markers(base, cs, n0) || e in basePieces
          || exists j :: 0 <= j < |tp| && e in tp[j])
  }

  /** What holds of the store part way through updateIntersectionBy's
      splits: `done` lists the targets split so far and `tp` their pieces,
      `baseGone` says whether base has been split, `basePieces` are its
      pieces. */
  ghost predicate SplitProgress(before: seq<Entity>, n0: int, base: Entity, cs: seq<Crossing>,
                                baseGone: bool, basePieces: seq<Entity>, done: seq<Entity>,
                                tp: seq<seq<Entity>>, es: seq<Entity>, n: int)
  {
    Survivors(before, base, baseGone, done, es) && Additions(before, n0, base, cs, basePieces, tp, es, n)
  }

  /** Splitting base preserves the progress, with base gone. */
  lemma BaseSplitStep(before: seq<Entity>, n0: int, base: Entity, cs: seq<Crossing>,
                      es: seq<Entity>, n: int, ps: seq<Entity>, n': int)
    requires SplitProgress(before, n0, base, cs, false, [], [], [], es, n)
    requires UniqueIds(es) && base in before && IdsBelow(before, n0) && n0 <= n <= n'
    requires forall p :: p in ps ==> n <= p.id < n'
    ensures SplitProgress(before, n0, base, cs, true, ps, [], [], Deleted(es, IdOf, base.id) + ps, n')
  {
    AfterSplit(es, base.id, ps, n);
    BaseSurvivorsStep(before, n0, base, es, n, ps);
    BaseAdditionsStep(before, n0, base, cs, es, n, ps, n');
  }

  /** Splitting base retires its id and keeps every other old entity. */
  lemma BaseSurvivorsStep(before: seq<Entity>, n0: int, base: Entity, es: seq<Entity>, n: int, ps: seq<Entity>)
    requires Survivors(before, base, false, [], es)
    requires UniqueIds(es) && base in before && IdsBelow(before, n0) && n0 <= n
    requires forall e :: e in es && e.id != base.id ==> e in Deleted(es, IdOf, base.id) + ps
    requires !HasId(Deleted(es, IdOf, base.id) + ps, base.id)
    ensures Survivors(before, base, true, [], Deleted(es, IdOf, base.id) + ps)
  {
    forall e | e in before && e != base
      ensures e in Deleted(es, IdOf, base.id) + ps
    {
      DistinctIds(es, e, base);
    }
  }

  /** Splitting base keeps the markers, adds its pieces and nothing else. */
  lemma BaseAdditionsStep(before: seq<Entity>, n0: int, base: Entity, cs: seq<Crossing>,
                          es: seq<Entity>, n: int, ps: seq<Entity>, n': int)
    requires Additions(before, n0, base, cs, [], [], es, n)
    requires base in before && IdsBelow(before, n0) && n0 <= n <= n'
    requires forall p :: p in ps ==> n <= p.id < n'
    requires forall e :: e in es && e.id != base.id ==> e in Deleted(es, IdOf, base.id) + ps
    requires forall e :: e in Deleted(es, IdOf, base.id) + ps ==> e in es || e in ps
    ensures Additions(before, n0, base, cs, ps, [], Deleted(es, IdOf, base.id) + ps, n')
  {
    var es' := Deleted(es, IdOf, base.id) + ps;
    forall j | 0 <= j < |cs|
      ensures Marker(base, cs[j], n0 + j) in es'
    {
      assert Marker(base, cs[j], n0 + j).id == n0 + j;
      assert base.id < n0;
    }
    assert forall e :: e in ps ==> e in es';
  }


  /** Distinct entities of a store with unique ids have distinct ids. */
  lemma DistinctIds(es: seq<Entity>, e: Entity, f: Entity)
    requires UniqueIds(es) && e in es && f in es && e != f
    ensures e.id != f.id
  {
    var i :| 0 <= i < |es| && es[i] == e;
    var k :| 0 <= k < |es| && es[k] == f;
  }

  /** Splitting a target preserves the progress, with the target done and
      its pieces recorded. */
  lemma TargetSplitStep(before: seq<Entity>, n0: int, base: Entity, cs: seq<Crossing>,
                        baseGone: bool, basePieces: seq<Entity>, keys: seq<Entity>, i: int,
                        tp: seq<seq<Entity>>, es: seq<Entity>, n: int, ps: seq<Entity>, n': int)
    requires 0 <= i < |keys|
    requires SplitProgress(before, n0, base, cs, baseGone, basePieces, keys[..i], tp, es, n)
    requires UniqueIds(es) && UniqueIds(before) && IdsBelow(before, n0) && n0 <= n <= n'
    requires base in before && keys[i] in before && keys[i] != base
    requires forall e :: e in basePieces ==> e.id >= n0
    requires forall p :: p in ps ==> n <= p.id < n'
    ensures SplitProgress(before, n0, base, cs, baseGone, basePieces, keys[..i + 1],
                          tp + [ps], Deleted(es, IdOf, keys[i].id) + ps, n')
  {
    SurvivorsStep(before, n0, base, baseGone, keys, i, es, n, ps);
    AdditionsStep(before, n0, base, cs, basePieces, tp, keys[i], es, n, ps, n');
  }

  lemma SurvivorsStep(before: seq<Entity>, n0: int, base: Entity, baseGone: bool, keys: seq<Entity>, i: int,
                      es: seq<Entity>, n: int, ps: seq<Entity>)
    requires 0 <= i < |keys|
    requires Survivors(before, base, baseGone, keys[..i], es)
    requires UniqueIds(es) && UniqueIds(before) && IdsBelow(before, n0) && n0 <= n
    requires base in before && keys[i] in before && keys[i] != base
    requires forall p :: p in ps ==> n <= p.id
    ensures Survivors(before, base, baseGone, keys[..i + 1], Deleted(es, IdOf, keys[i].id) + ps)
  {
    var t, done := keys[i], keys[..i];
    assert keys[..i + 1] == done + [t];
    AfterSplit(es, t.id, ps, n);
    var es' := Deleted(es, IdOf, t.id) + ps;
    assert t.id < n0;
    forall e | e in before && e != base && e !in done + [t]
      ensures e in es'
    {
      DistinctIds(before, e, t);
    }
    DistinctIds(before, base, t);
    forall e | e in before && e in done + [t]
      ensures !HasId(es', e.id)
    {
      assert e.id < n0;
    }
  }

  lemma AdditionsStep(before: seq<Entity>, n0: int, base: Entity, cs: seq<Crossing>, basePieces: seq<Entity>,
                      tp: seq<seq<Entity>>, t: Entity, es: seq<Entity>, n: int, ps: seq<Entity>, n': int)
    requires Additions(before, n0, base, cs, basePieces, tp, es, n)
    requires UniqueIds(es) && IdsBelow(before, n0) && n0 <= n <= n' && t in before
    requires forall e :: e in basePieces ==> e.id >= n0
    requires forall p :: p in ps ==> n <= p.id < n'
    ensures Additions(before, n0, base, cs, basePieces, tp + [ps], Deleted(es, IdOf, t.id) + ps, n')
  {
    assert t.id < n0;
    AfterSplit(es, t.id, ps, n);
    var es', tp' := Deleted(es, IdOf, t.id) + ps, tp + [ps];
    forall j | 0 <= j < |cs|
      ensures Marker(base, cs[j], n0 + j) in es'
    {
      assert Marker(base, cs[j], n0 + j).id == n0 + j;
    }
    forall j, e | 0 <= j < |tp'| && e in tp'[j]
      ensures e in es' && e.id >= n0
    {
      if j < |tp| {
        assert e in tp[j];
      }
    }
    forall e | e in es'
      ensures || e in before || e in Markers(base, cs, n0) || e in basePieces
              || exists j :: 0 <= j < |tp'| && e in tp'[j]
    {
      if e in ps {
        assert tp'[|tp|] == ps;
      } else if !(e in before || e in Markers(base, cs, n0) || e in basePieces) {
        var j :| 0 <= j < |tp| && e in tp[j];
        assert tp'[j] == tp[j];
      }
    }
  }

  /** After the marker pass nothing is split yet. */
  lemma MarkersProgress(before: seq<Entity>, n0: int, base: Entity, cs: seq<Crossing>)
    requires base in before
    ensures SplitProgress(before, n0, base, cs, false, [], [], [], before + Markers(base, cs, n0), n0 + |cs|)
  {
    var es := before + Markers(base, cs, n0);
    forall j | 0 <= j < |cs|
      ensures Marker(base, cs[j], n0 + j) in es
    {
      assert es[|before| + j] == Marker(base, cs[j], n0 + j);
    }
  }

  /** The counter after one more target: two ids per cut point. */
  lemma TargetStartStep(cs: seq<Crossing>, m: int, i: int)
    requires 0 <= i < |TargetKeys(cs)|
    ensures TargetStart(cs, m, i + 1) == TargetStart(cs, m, i) + 2 * |TargetPoints(cs, TargetKeys(cs)[i])|
  {
    var keys := TargetKeys(cs);
    assert keys[..i + 1] == keys[..i] + [keys[i]];
    SizeSumAppendKey(keys[..i], keys[i], TargetCrossings(cs), TargetOf, PointOf);
  }

  /** After every cut target: two ids per crossing kept for the targets. */
  lemma TargetStartEnd(cs: seq<Crossing>, m: int)
    ensures TargetStart(cs, m, |TargetKeys(cs)|) == m + 2 * |TargetCrossings(cs)|
  {
    assert TargetKeys(cs)[..|TargetKeys(cs)|] == TargetKeys(cs);
    GroupSizesSum(TargetCrossings(cs), TargetOf, PointOf);
  }

  /** After the first `i` cut targets, the targets starting at `m`: the
      counter is at their end and `tp` lists their pieces. */
  ghost predicate TargetsSoFar(cs: seq<Crossing>, m: int, randomColor: bool, i: int, tp: seq<seq<Entity>>, n: int)
  {
    && 0 <= i <= |TargetKeys(cs)|
    && n == TargetStart(cs, m, i)
    && |tp| == i
    && forall j :: 0 <= j < i ==> tp[j] == TargetPieces(cs, m, randomColor, j)
  }

  /** Splitting the `i`-th cut target at its points, with the counter at
      its start, adds its TargetPieces and two ids per point. */
  lemma TargetsSoFarStep(cs: seq<Crossing>, m: int, randomColor: bool, i: int, tp: seq<seq<Entity>>, n: int)
    requires TargetsSoFar(cs, m, randomColor, i, tp, n) && i < |TargetKeys(cs)|
    requires TargetKeys(cs)[i].shape.Line?
    ensures TargetsSoFar(cs, m, randomColor, i + 1,
      tp + [Pieces(First(TargetKeys(cs)[i]), Second(TargetKeys(cs)[i]), TargetPoints(cs, TargetKeys(cs)[i]), n, randomColor)],
      n + 2 * |TargetPoints(cs, TargetKeys(cs)[i])|)
  {
    TargetStartStep(cs, m, i);
    var t := TargetKeys(cs)[i];
    var tp' := tp + [Pieces(First(t), Second(t), TargetPoints(cs, t), n, randomColor)];
    forall j | 0 <= j <= i
      ensures tp'[j] == TargetPieces(cs, m, randomColor, j)
    {
      if j < i {
        assert tp'[j] == tp[j];
      }
    }
  }

  /** Splitting one more entity extends the fold by one step. */
  lemma SplitAllStep(es0: seq<Entity>, keys: seq<Entity>, i: int, tp: seq<seq<Entity>>, ps: seq<Entity>)
    requires 0 <= i < |keys| && |tp| == i
    ensures Deleted(SplitAll(es0, keys[..i], tp), IdOf, keys[i].id) + ps == SplitAll(es0, keys[..i + 1], tp + [ps])
  {
    assert keys[..i + 1][..i] == keys[..i];
    assert (tp + [ps])[..i] == tp;
  }

  /** The finished pass meets the specification of updateIntersectionBy. */
  lemma ProgressDone(before: seq<Entity>, n0: int, base: Entity, cs: seq<Crossing>, es: seq<Entity>, n: int,
                     randomColor: bool, basePieces: seq<Entity>, done: seq<Entity>, tp: seq<seq<Entity>>)
    requires base in before && UniqueIds(before)
    requires CutsReady(before, base, cs)
    requires SplitProgress(before, n0, base, cs, BasePoints(base, cs) != [], basePieces, done, tp, es, n)
    requires n == n0 + |cs| + 2 * |BasePoints(base, cs)| + 2 * |TargetCrossings(cs)|
    requires forall t :: t in done <==> CutsTarget(t, cs)
    requires basePieces == BasePieces(base, cs, n0, randomColor)
    requires |tp| == |TargetKeys(cs)|
    requires forall i :: 0 <= i < |tp| ==> tp[i] == TargetPieces(cs, BaseEnd(base, cs, n0), randomColor, i)
    requires es == SplitAll(BaseSplit(before + Markers(base, cs, n0), base, cs, n0, randomColor), TargetKeys(cs), tp)
    ensures UpdateOutcome(before, n0, base, cs, es, n, randomColor)
  {
    assert tp == AllTargetPieces(cs, BaseEnd(base, cs, n0), randomColor);
    forall e | e in before && Retired(e, base, cs)
      ensures !HasId(es, e.id)
    {
      if e != base {
        assert e in done;
      }
    }
    forall e | e in before && !Retired(e, base, cs)
      ensures e in es
    {
      if e != base {
        assert e !in done;
      }
    }
    forall i | 0 <= i < |TargetKeys(cs)|
      ensures forall e :: e in TargetPieces(cs, BaseEnd(base, cs, n0), randomColor, i) ==> e in es
    {
      assert tp[i] == TargetPieces(cs, BaseEnd(base, cs, n0), randomColor, i);
    }
    forall e | e in es
      ensures || e in before || e in Markers(base, cs, n0) || e in BasePieces(base, cs, n0, randomColor)
              || exists i :: 0 <= i < |TargetKeys(cs)| && e in TargetPieces(cs, BaseEnd(base, cs, n0), randomColor, i)
    {
      if !(e in before || e in Markers(base, cs, n0) || e in basePieces) {
        var j :| 0 <= j < |tp| && e in tp[j];
        assert e in TargetPieces(cs, BaseEnd(base, cs, n0), randomColor, j);
      }
    }
  }

  // ---------------------------------------------------------------------------
  // The stable sort of entitiesSorted

  predicate SortedByZ(s: seq<Entity>)
  {
    forall i, j :: 0 <= i < j < |s| ==> s[i].zIndex <= s[j].zIndex
  }

  /** The entities with zIndex `z`, in order. */
  function WithZ(s: seq<Entity>, z: int): seq<Entity>
    decreases |s|
  {
    if s == [] then [] else (if s[0].zIndex == z then [s[0]] else []) + WithZ(s[1..], z)
  }

  /** Inserts `e` after every element whose zIndex is not greater. */
  function InsertByZ(e: Entity, s: seq<Entity>): seq<Entity>
    decreases |s|
  {
    if s == [] then [e]
    else if e.zIndex < s[0].zIndex then [e] + s
    else [s[0]] + InsertByZ(e, s[1..])
  }

  /** `[...entities].sort((e1, e2) => e1.zIndex - e2.zIndex)`: a stable sort,
      here insertion of each element in input order. */
  function SortByZ(es: seq<Entity>): seq<Entity>
    decreases |es|
  {
    if es == [] then [] else InsertByZ(es[|es| - 1], SortByZ(es[..|es| - 1]))
  }

  lemma {:induction false} InsertByZContents(e: Entity, s: seq<Entity>)
    ensures multiset(InsertByZ(e, s)) == multiset(s) + multiset{e}
    ensures |InsertByZ(e, s)| == |s| + 1
    decreases |s|
  {
    if s != [] && e.zIndex >= s[0].zIndex {
      InsertByZContents(e, s[1..]);
      assert s == [s[0]] + s[1..];
    }
  }

  lemma {:induction false} InsertByZSorted(e: Entity, s: seq<Entity>)
    requires SortedByZ(s)
    ensures SortedByZ(InsertByZ(e, s))
    decreases |s|
  {
    if s != [] && e.zIndex >= s[0].zIndex {
      var rest := InsertByZ(e, s[1..]);
      InsertByZSorted(e, s[1..]);
      InsertByZContents(e, s[1..]);
      forall j | 0 <= j < |rest|
        ensures s[0].zIndex <= rest[j].zIndex
      {
        assert rest[j] in multiset(rest);
        assert rest[j] in multiset(s[1..]) || rest[j] == e;
      }
    }
  }

  lemma {:induction false} NoneWithZ(s: seq<Entity>, z: int)
    requires forall i :: 0 <= i < |s| ==> s[i].zIndex != z
    ensures WithZ(s, z) == []
    decreases |s|
  {
    if s != [] {
      NoneWithZ(s[1..], z);
    }
  }

  lemma {:induction false} InsertByZWithZ(e: Entity, s: seq<Entity>, z: int)
    requires SortedByZ(s)
    ensures WithZ(InsertByZ(e, s), z) == WithZ(s, z) + (if e.zIndex == z then [e] else [])
    decreases |s|
  {
    if s == [] {
    } else if e.zIndex < s[0].zIndex {
      WithZCons(e, s, z);
      if e.zIndex == z {
        forall i | 0 <= i < |s|
          ensures s[i].zIndex != z
        {
          assert s[0].zIndex <= s[i].zIndex;
        }
        NoneWithZ(s, z);
      }
    } else {
      var h := if s[0].zIndex == z then [s[0]] else [];
      var t := if e.zIndex == z then [e] else [];
      SortedTail(s);
      InsertByZWithZ(e, s[1..], z);
      WithZCons(s[0], InsertByZ(e, s[1..]), z);
      assert h + (WithZ(s[1..], z) + t) == (h + WithZ(s[1..], z)) + t;
    }
  }

  lemma SortedTail(s: seq<Entity>)
    requires SortedByZ(s) && s != []
    ensures SortedByZ(s[1..])
  {
    forall i, j | 0 <= i < j < |s| - 1
      ensures s[1..][i].zIndex <= s[1..][j].zIndex
    {
      assert s[1..][i] == s[i + 1] && s[1..][j] == s[j + 1];
    }
  }

  lemma WithZCons(x: Entity, s: seq<Entity>, z: int)
    ensures WithZ([x] + s, z) == (if x.zIndex == z then [x] else []) + WithZ(s, z)
  {
    assert ([x] + s)[1..] == s;
  }


  lemma {:induction false} WithZAppend(s: seq<Entity>, e: Entity, z: int)
    ensures WithZ(s + [e], z) == WithZ(s, z) + (if e.zIndex == z then [e] else [])
    decreases |s|
  {
    if s != [] {
      WithZAppend(s[1..], e, z);
      assert (s + [e])[1..] == s[1..] + [e];
    }
  }

  /** The sort orders by zIndex. */
  lemma {:induction false} SortByZSorted(es: seq<Entity>)
    ensures SortedByZ(SortByZ(es))
    decreases |es|
  {
    if es != [] {
      var init := es[..|es| - 1];
      SortByZSorted(init);
      InsertByZSorted(es[|es| - 1], SortByZ(init));
    }
  }

  /** The sort is a permutation. */
  lemma {:induction false} SortByZPermutes(es: seq<Entity>)
    ensures multiset(SortByZ(es)) == multiset(es)
    decreases |es|
  {
    if es != [] {
      var init, last := es[..|es| - 1], es[|es| - 1];
      SortByZPermutes(init);
      InsertByZContents(last, SortByZ(init));
      MultisetSnoc(es);
    }
  }

  lemma MultisetSnoc(es: seq<Entity>)
    requires es != []
    ensures multiset(es) == multiset(es[..|es| - 1]) + multiset{es[|es| - 1]}
  {
    assert es == es[..|es| - 1] + [es[|es| - 1]];
  }

  /** The sort is stable: the entities of each zIndex keep their store order. */
  lemma {:induction false} SortByZStable(es: seq<Entity>, z: int)
    ensures WithZ(SortByZ(es), z) == WithZ(es, z)
    decreases |es|
  {
    if es != [] {
      var init, last := es[..|es| - 1], es[|es| - 1];
      SortByZStable(init, z);
      SortByZSorted(init);
      InsertByZWithZ(last, SortByZ(init), z);
      WithZAppend(init, last, z);
      assert es == init + [last];
    }
  }

  // ---------------------------------------------------------------------------
  // The store

  class EntityStore {
    var entities: seq<Entity>
    var nextId: int
    /** boardOpts.randomColor, read when pieces are made. */
    var randomColor: bool

    /** Ids are unique, and every id in the store was drawn before the
        counter's current value. */
    ghost predicate Valid()
      reads this
    {
      UniqueIds(entities) && IdsBelow(entities, nextId)
    }

    constructor (randomColor: bool)
      ensures Valid() && entities == [] && nextId == 0 && this.randomColor == randomColor
    {
      entities := [];
      nextId := 0;
      this.randomColor := randomColor;
    }

    /** entitiesSorted: the store ordered by zIndex, ties in store order. */
    function EntitiesSorted(): (r: seq<Entity>)
      reads this
      ensures SortedByZ(r)
      ensures forall z :: WithZ(r, z) == WithZ(entities, z)
      ensures multiset(r) == multiset(entities)
    {
      SortByZSorted(entities);
      SortByZPermutes(entities);
      forall z
        ensures WithZ(SortByZ(entities), z) == WithZ(entities, z)
      {
        SortByZStable(entities, z);
      }
      SortByZ(entities)
    }

    /** getEntityId: the counter's value, post-incremented. */
    method GetEntityId() returns (id: int)
      modifies this`nextId
      ensures id == old(nextId) && nextId == old(nextId) + 1
    {
      id := nextId;
      nextId := nextId + 1;
    }

    /** newEntityExtra: an explicit id is kept and leaves the counter alone;
        otherwise the id is drawn from the counter. zIndex defaults to 0. */
    method NewEntityExtra(pre: PreExtra) returns (x: Extra)
      modifies this`nextId
      ensures x == ResolveExtra(pre, old(nextId))
      ensures pre.id.None? ==> x.id == old(nextId) && nextId == old(nextId) + 1
      ensures pre.id.Some? ==> x.id == pre.id.value && nextId == old(nextId)
      ensures x.zIndex == (if pre.zIndex.Some? then pre.zIndex.value else 0)
    {
      var id: int;
      if pre.id.Some? {
        id := pre.id.value;
      } else {
        id := GetEntityId();
      }
      x := Extra(id, if pre.zIndex.Some? then pre.zIndex.value else 0, pre.edge, pre.inter, pre.style);
    }

    /** newLineE. */
    method NewLineE(x1: real, y1: real, x2: real, y2: real, pre: PreExtra, grid: bool) returns (e: Entity)
      modifies this`nextId
      ensures e == LineEntity(x1, y1, x2, y2, grid, ResolveExtra(pre, old(nextId)))
      ensures nextId == old(nextId) + (if pre.id.None? then 1 else 0)
    {
      var x := NewEntityExtra(pre);
      e := LineEntity(x1, y1, x2, y2, grid, x);
    }

    /** newDot. */
    method NewDot(x: real, y: real, pre: PreExtra) returns (e: Entity)
      modifies this`nextId
      ensures e == DotEntity(x, y, ResolveExtra(pre, old(nextId)))
      ensures nextId == old(nextId) + (if pre.id.None? then 1 else 0)
    {
      var xe := NewEntityExtra(pre);
      e := DotEntity(x, y, xe);
    }

    /** splitEntity: a line from (x1, y1) to (x2, y2) cut at p gives the
        edge lines (x1, y1)-p and (x2, y2)-p, in that order, drawing two
        ids; a dot fails and draws none. */
    method SplitEntity(base: Entity, p: Point) returns (r: Result<(Entity, Entity), EntityError>)
      modifies this`nextId
      ensures nextId == old(nextId) + (if base.shape.Line? then 2 else 0)
      ensures r == if base.shape.Line?
        then Success((Piece(Span(First(base), p), old(nextId)), Piece(Span(Second(base), p), old(nextId) + 1)))
        else Failure(UnsupportedEntityType)
    {
      match base.shape
      case Line(x1, y1, x2, y2, _) =>
        var edgeOnly := PreExtra(None, None, true, None, Unstyled);
        var first := NewLineE(x1, y1, p.x, p.y, edgeOnly, false);
        var second := NewLineE(x2, y2, p.x, p.y, edgeOnly, false);
        r := Success((first, second));
      case Dot(_, _) =>
        r := Failure(UnsupportedEntityType);
    }

    /** removeEntityById: deletes the first entity with the id; true when
        there was one. */
    method RemoveEntityById(id: int) returns (removed: bool)
      requires Valid()
      modifies this`entities
      ensures Valid()
      ensures removed <==> HasId(old(entities), id)
      ensures entities == Deleted(old(entities), IdOf, id)
      ensures !HasId(entities, id)
    {
      DeletedById(entities, id);
      var rest, gone := DeleteBy(entities, IdOf, id);
      entities := rest;
      removed := gone != [];
    }

    /** multiSplitEntity: with no points nothing changes. Otherwise base is
        cut at each point in turn (splitEntity fails on a dot before anything
        changes), base's id is removed and the k + 1 pieces are appended
        without intersection checks. */
    method MultiSplitEntity(base: Entity, points: seq<Point>) returns (ok: bool)
      requires Valid()
      modifies this
      decreases 3
      ensures Valid() && randomColor == old(randomColor)
      ensures ok <==> points == [] || base.shape.Line?
      ensures !ok || points == [] ==> entities == old(entities) && nextId == old(nextId)
      ensures ok && points != [] ==>
        nextId == old(nextId) + 2 * |points| &&
        entities == Deleted(old(entities), IdOf, base.id) +
                    Pieces(First(base), Second(base), points, old(nextId), randomColor)
    {
      if points == [] {
        return true;
      }
      if base.shape.Dot? {
        var r := SplitEntity(base, points[0]);
        return false;
      }
      ReplaceByPieces(base, points);
      return true;
    }

    /** multiSplitEntity on a line and at least one point: cut it, remove
        it, recolor the pieces when asked, and append them unchecked. */
    method ReplaceByPieces(base: Entity, points: seq<Point>)
      requires Valid() && base.shape.Line? && points != []
      modifies this
      decreases 2
      ensures Valid() && randomColor == old(randomColor)
      ensures nextId == old(nextId) + 2 * |points|
      ensures entities == Deleted(old(entities), IdOf, base.id) +
                          Pieces(First(base), Second(base), points, old(nextId), randomColor)
    {
      ghost var n0 := nextId;
      ghost var es0 := entities;
      assert IdsBelow(es0, n0);
      var segments := CutChain(base, points);
      var _ := RemoveEntityById(base.id);
      DeletedIdsBelow(es0, base.id, n0);
      if randomColor {
        segments := RecolorSegments(First(base), Second(base), points, n0, segments);
      }
      PiecesFresh(First(base), Second(base), points, n0, randomColor);
      UpsertAllFresh(entities, segments, n0);
      AddEntities(segments, true);
    }

    /** The for-of loop of multiSplitEntity and the final push: each point
        splits the current remainder into a finished segment and a new
        remainder. */
    method CutChain(base: Entity, points: seq<Point>) returns (segments: seq<Entity>)
      requires base.shape.Line? && points != []
      modifies this`nextId
      ensures nextId == old(nextId) + 2 * |points|
      ensures segments == Pieces(First(base), Second(base), points, old(nextId), false)
    {
      ghost var n0 := nextId;
      ghost var trail := Trail(First(base), Second(base), points);
      var curr := base;
      segments := [];
      for i := 0 to |points|
        invariant nextId == n0 + 2 * i && |segments| == i
        invariant curr.shape.Line? && First(curr) == trail[i] && Second(curr) == trail[i + 1]
        invariant i > 0 ==> curr == Piece(Span(trail[i], trail[i + 1]), n0 + 2 * i - 1)
        invariant forall j :: 0 <= j < i ==> segments[j] == Piece(Span(trail[j], trail[j + 2]), n0 + 2 * j)
      {
        var r := SplitEntity(curr, points[i]);
        PieceEnds(Span(Second(curr), points[i]), n0 + 2 * i + 1);
        segments := segments + [r.value.0];
        curr := r.value.1;
      }
      segments := segments + [curr];
      SegmentsArePieces(First(base), Second(base), points, n0, segments);
    }

    /** updateIntersectionBy: one pass over the other edge entities; a
        marker dot for each crossing, then base split at the crossings that
        are not its own ends, then each crossed target split at the crossing
        points that are not its own ends. */
    method UpdateIntersectionBy(base: Entity)
      requires Valid() && base in entities
      modifies this
      decreases 7
      ensures Valid() && randomColor == old(randomColor)
      ensures IntersectionUpdate(old(entities), old(nextId), base, entities, nextId, randomColor)
    {
      ghost var before, n0 := entities, nextId;
      var targets := OtherEdges(entities, base.id);
      var inters := MarkCrossings(base, targets);
      ghost var cs := inters;
      MarkersProgress(before, n0, base, cs);
      assert entities == before + Markers(base, cs, n0) && nextId == n0 + |cs|;
      ghost var basePieces: seq<Entity> := [];
      ghost var done: seq<Entity> := [];
      ghost var tp: seq<seq<Entity>> := [];
      CrossingsReady(before, base, cs);
      if inters != [] {
        basePieces, done, tp := SplitCrossed(base, inters, before, n0);
      } else {
        assert BasePoints(base, cs) == [] && TargetCrossings(cs) == [];
        assert forall t :: !CutsTarget(t, cs);
        assert TargetKeys(cs) == [];
      }
      ProgressDone(before, n0, base, cs, entities, nextId, randomColor, basePieces, done, tp);
    }

    /** The forEach of updateIntersectionBy: for each target in order, a
        marker dot per crossing, added with addEntity. */
    method MarkCrossings(base: Entity, targets: seq<Entity>) returns (inters: seq<Crossing>)
      requires Valid()
      modifies this
      decreases 6
      ensures Valid() && randomColor == old(randomColor)
      ensures inters == Crossings(base, targets)
      ensures nextId == old(nextId) + |inters|
      ensures entities == old(entities) + Markers(base, inters, old(nextId))
    {
      ghost var before, n0 := entities, nextId;
      inters := [];
      for i := 0 to |targets|
        invariant Valid() && randomColor == old(randomColor)
        invariant inters == Crossings(base, targets[..i])
        invariant nextId == n0 + |inters|
        invariant entities == before + Markers(base, inters, n0)
      {
        var target := targets[i];
        CrossingsStep(base, targets, i);
        var point := CalcIntersection(base, target);
        if point.Some? {
          AddMarker(base, Crossing(target, point.value));
          MarkersSnoc(base, inters, Crossing(target, point.value), n0);
          inters := inters + [Crossing(target, point.value)];
        }
      }
      assert targets[..|targets|] == targets;
    }

    /** `addEntity(newDot(x, y, { inter, zIndex: 1, style: { fill: 'none' } }))`:
        the marker of a crossing gets the next id and is appended. */
    method AddMarker(base: Entity, c: Crossing)
      requires Valid()
      modifies this
      decreases 1
      ensures Valid() && randomColor == old(randomColor)
      ensures nextId == old(nextId) + 1
      ensures entities == old(entities) + [Marker(base, c, old(nextId))]
    {
      assert IdsBelow(entities, nextId);
      var dot := NewDot(c.point.x, c.point.y,
        PreExtra(None, Some(1), false, Some(InterRef(base.id, c.target.id)), FillNone));
      FreshAgainst(entities, dot.id, [dot]);
      IdsBelowGrow(entities, dot.id, nextId);
      UpsertFresh(entities, dot);
      AddEntity(dot, false);
    }

    /** The `if (inters.length)` block of updateIntersectionBy: base split at
        the crossings off its ends, then each target grouped with its
        crossings off its own ends and split there. */
    method SplitCrossed(base: Entity, inters: seq<Crossing>, ghost before: seq<Entity>, ghost n0: int)
      returns (ghost basePieces: seq<Entity>, ghost done: seq<Entity>, ghost tp: seq<seq<Entity>>)
      requires Valid() && base in before && UniqueIds(before) && IdsBelow(before, n0)
      requires CutsReady(before, base, inters)
      requires nextId == n0 + |inters|
      requires SplitProgress(before, n0, base, inters, false, [], [], [], entities, nextId)
      modifies this
      decreases 6
      ensures Valid() && randomColor == old(randomColor)
      ensures nextId == n0 + |inters| + 2 * |BasePoints(base, inters)| + 2 * |TargetCrossings(inters)|
      ensures SplitProgress(before, n0, base, inters, BasePoints(base, inters) != [], basePieces, done, tp, entities, nextId)
      ensures forall t :: t in done <==> CutsTarget(t, inters)
      ensures basePieces == BasePieces(base, inters, n0, randomColor)
      ensures |tp| == |TargetKeys(inters)|
      ensures forall i :: 0 <= i < |tp| ==> tp[i] == TargetPieces(inters, BaseEnd(base, inters, n0), randomColor, i)
      ensures entities == SplitAll(BaseSplit(old(entities), base, inters, n0, randomColor), TargetKeys(inters), tp)
    {
      basePieces := SplitBase(base, inters, before, n0);
      var keys, groups := GroupBy(TargetCrossings(inters), TargetOf, PointOf);
      GroupsReady(before, base, inters, keys, groups);
      tp := SplitTargets(keys, groups, before, n0, base, inters, BasePoints(base, inters) != [], basePieces,
                         BaseEnd(base, inters, n0));
      TargetStartEnd(inters, BaseEnd(base, inters, n0));
      done := keys;
    }

    /** `multiSplitEntity(base, basePoints)`: base cut at its crossings off
        its own ends, the counter left at BaseEnd. */
    method SplitBase(base: Entity, inters: seq<Crossing>, ghost before: seq<Entity>, ghost n0: int)
      returns (ghost basePieces: seq<Entity>)
      requires Valid() && base in before && UniqueIds(before) && IdsBelow(before, n0)
      requires BasePoints(base, inters) != [] ==> base.shape.Line?
      requires nextId == n0 + |inters|
      requires SplitProgress(before, n0, base, inters, false, [], [], [], entities, nextId)
      modifies this
      decreases 4
      ensures Valid() && randomColor == old(randomColor)
      ensures nextId == BaseEnd(base, inters, n0)
      ensures basePieces == BasePieces(base, inters, n0, randomColor)
      ensures forall e :: e in basePieces ==> e.id >= n0
      ensures SplitProgress(before, n0, base, inters, BasePoints(base, inters) != [], basePieces, [], [], entities, nextId)
      ensures entities == BaseSplit(old(entities), base, inters, n0, randomColor)
    {
      var basePoints := BasePoints(base, inters);
      ghost var es1, n1 := entities, nextId;
      basePieces := [];
      var ok := MultiSplitEntity(base, basePoints);
      if basePoints != [] {
        basePieces := Pieces(First(base), Second(base), basePoints, n1, randomColor);
        PiecesFresh(First(base), Second(base), basePoints, n1, randomColor);
        BaseSplitStep(before, n0, base, inters, es1, n1, basePieces, nextId);
      }
    }

    /** `targets.forEach((points, target) => multiSplitEntity(target, points))`:
        each crossed target, in first-crossing order, split at its points. */
    method SplitTargets(keys: seq<Entity>, groups: map<Entity, seq<Point>>,
                        ghost before: seq<Entity>, ghost n0: int, ghost base: Entity, ghost cs: seq<Crossing>,
                        ghost baseGone: bool, ghost basePieces: seq<Entity>, ghost m: int)
      returns (ghost tp: seq<seq<Entity>>)
      requires Valid() && UniqueIds(before) && IdsBelow(before, n0) && base in before
      requires keys == TargetKeys(cs) && SplitGroups(before, base, cs, keys, groups)
      requires forall e :: e in basePieces ==> e.id >= n0
      requires nextId == m
      requires SplitProgress(before, n0, base, cs, baseGone, basePieces, [], [], entities, nextId)
      modifies this
      decreases 5
      ensures Valid() && randomColor == old(randomColor)
      ensures nextId == TargetStart(cs, m, |keys|)
      ensures SplitProgress(before, n0, base, cs, baseGone, basePieces, keys, tp, entities, nextId)
      ensures |tp| == |keys|
      ensures forall i :: 0 <= i < |keys| ==> tp[i] == TargetPieces(cs, m, randomColor, i)
      ensures entities == SplitAll(old(entities), keys, tp)
    {
      tp := [];
      ghost var es0 := entities;
      for i := 0 to |keys|
        invariant Valid() && randomColor == old(randomColor)
        invariant TargetsSoFar(cs, m, randomColor, i, tp, nextId)
        invariant SplitProgress(before, n0, base, cs, baseGone, basePieces, keys[..i], tp, entities, nextId)
        invariant entities == SplitAll(es0, keys[..i], tp)
      {
        var ps := SplitTarget(keys, groups, i, before, n0, base, cs, baseGone, basePieces, m, tp, es0);
        tp := tp + [ps];
      }
      assert keys[..|keys|] == keys;
    }

    /** One turn of that forEach: `multiSplitEntity(target, points)` on the
        `i`-th cut target, which records its pieces and extends the fold. */
    method SplitTarget(keys: seq<Entity>, groups: map<Entity, seq<Point>>, i: int,
                       ghost before: seq<Entity>, ghost n0: int, ghost base: Entity, ghost cs: seq<Crossing>,
                       ghost baseGone: bool, ghost basePieces: seq<Entity>, ghost m: int,
                       ghost tp: seq<seq<Entity>>, ghost es0: seq<Entity>)
      returns (ghost ps: seq<Entity>)
      requires Valid() && UniqueIds(before) && IdsBelow(before, n0) && base in before
      requires keys == TargetKeys(cs) && SplitGroups(before, base, cs, keys, groups) && 0 <= i < |keys|
      requires forall e :: e in basePieces ==> e.id >= n0
      requires TargetsSoFar(cs, m, randomColor, i, tp, nextId)
      requires SplitProgress(before, n0, base, cs, baseGone, basePieces, keys[..i], tp, entities, nextId)
      requires entities == SplitAll(es0, keys[..i], tp)
      modifies this
      decreases 4
      ensures Valid() && randomColor == old(randomColor)
      ensures TargetsSoFar(cs, m, randomColor, i + 1, tp + [ps], nextId)
      ensures SplitProgress(before, n0, base, cs, baseGone, basePieces, keys[..i + 1], tp + [ps], entities, nextId)
      ensures entities == SplitAll(es0, keys[..i + 1], tp + [ps])
    {
      var target := keys[i];
      assert target in keys;
      var points := groups[target];
      ghost var es, n := entities, nextId;
      var ok := MultiSplitEntity(target, points);
      ps := Pieces(First(target), Second(target), points, n, randomColor);
      PiecesFresh(First(target), Second(target), points, n, randomColor);
      TargetsSoFarStep(cs, m, randomColor, i, tp, n);
      TargetSplitStep(before, n0, base, cs, baseGone, basePieces, keys, i, tp, es, n, ps, nextId);
      SplitAllStep(es0, keys, i, tp, ps);
    }

    /** addEntity: upserts by id, then, unless checking is off or the entity
        is not an edge, resolves its intersections. */
    method AddEntity(entity: Entity, noInterCheck: bool)
      requires Valid() && entity.id < nextId
      modifies this
      decreases if !noInterCheck && entity.edge then 8 else 0
      ensures Valid() && randomColor == old(randomColor) && nextId >= old(nextId)
      ensures noInterCheck || !entity.edge ==>
        entities == UpsertById(old(entities), entity) && nextId == old(nextId)
      ensures !noInterCheck && entity.edge ==>
        IntersectionUpdate(UpsertById(old(entities), entity), old(nextId), entity, entities, nextId, randomColor)
    {
      UpsertKeepsIdsUnique(entities, entity);
      DeletedById(entities, entity.id);
      entities := Upsert(entities, IdOf, entity.id, entity);
      if !noInterCheck && entity.edge {
        UpdateIntersectionBy(entity);
      }
    }

    /** addEntities: addEntity on each entity in turn. */
    method AddEntities(es: seq<Entity>, noInterCheck: bool)
      requires Valid() && forall e :: e in es ==> e.id < nextId
      modifies this
      decreases if noInterCheck then 1 else 9
      ensures Valid() && randomColor == old(randomColor) && nextId >= old(nextId)
      ensures noInterCheck ==> entities == UpsertAll(old(entities), es) && nextId == old(nextId)
    {
      for i := 0 to |es|
        invariant Valid() && randomColor == old(randomColor) && nextId >= old(nextId)
        invariant noInterCheck ==> entities == UpsertAll(old(entities), es[..i]) && nextId == old(nextId)
      {
        assert es[..i + 1][..i] == es[..i];
        AddEntity(es[i], noInterCheck);
      }
      assert es[..|es|] == es;
    }
  }
}
