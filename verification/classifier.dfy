/** Per-region cluster detection: reduce the generator's piece list to
    bridge-crossing anchors, look for aligned neighbours of every anchor on
    its own level, and label the anchor with the first pattern that
    matches. */
module Classifier {
  import opened Cluster

  /** Spacing of connected bridge crossings on x and z. */
  const Unit: int := 19

  /** Offset from an anchor to the reported centre, on x and on z. */
  const CenterOffset: int := 9

  /** Fewest pieces a region must report before its crossings are examined. */
  const MinPieces: nat := 3

  // ---------------------------------------------------------------------
  // Crossing extraction

  /** The bridge-crossing positions among `ps`, in their original order. */
  function Crossings(ps: seq<Piece>): (cs: seq<Pos3>)
    ensures |cs| <= |ps|
    ensures forall c :: c in cs <==>
      exists i :: 0 <= i < |ps| && ps[i].kind == BridgeCrossing && ps[i].pos == c
  {
    if |ps| == 0 then []
    else
      var init := Crossings(ps[..|ps| - 1]);
      var last := ps[|ps| - 1];
      assert forall i :: 0 <= i < |ps| - 1 ==> ps[..|ps| - 1][i] == ps[i];
      if last.kind == BridgeCrossing then init + [last.pos] else init
  }

  /** Extraction keeps order: the crossings of a concatenation are the
      crossings of the first part followed by those of the second. */
  lemma {:induction false} CrossingsAppend(a: seq<Piece>, b: seq<Piece>)
    ensures Crossings(a + b) == Crossings(a) + Crossings(b)
    decreases |b|
  {
    if |b| == 0 {
      assert a + b == a;
    } else {
      var b' := b[..|b| - 1];
      assert (a + b)[..|a + b| - 1] == a + b';
      CrossingsAppend(a, b');
    }
  }

  // ---------------------------------------------------------------------
  // Neighbour flags

  /** The five neighbour tests of an anchor: right, right-two, down,
      down-two and diagonal. */
  datatype Flags = Flags(r1: bool, r2: bool, d1: bool, d2: bool, dr: bool)

  const NoFlags := Flags(false, false, false, false, false)

  /** `c` lies on the level of `a`, offset by (dx, dz). */
  predicate At(c: Pos3, a: Pos3, dx: int, dz: int) {
    c.y == a.y && c.x - a.x == dx && c.z - a.z == dz
  }

  /** Some crossing of `cs` lies on the level of `a`, offset by (dx, dz). */
  predicate HasAt(cs: seq<Pos3>, a: Pos3, dx: int, dz: int) {
    exists j :: 0 <= j < |cs| && At(cs[j], a, dx, dz)
  }

  /** The geometric meaning of the five flags. */
  ghost function Neighbours(cs: seq<Pos3>, a: Pos3): Flags {
    Flags(HasAt(cs, a, Unit, 0), HasAt(cs, a, 2 * Unit, 0),
          HasAt(cs, a, 0, Unit), HasAt(cs, a, 0, 2 * Unit),
          HasAt(cs, a, Unit, Unit))
  }

  lemma HasAtSnoc(cs: seq<Pos3>, c: Pos3, a: Pos3)
    ensures forall dx, dz :: HasAt(cs + [c], a, dx, dz) <==> HasAt(cs, a, dx, dz) || At(c, a, dx, dz)
  {
    forall dx, dz
      ensures HasAt(cs + [c], a, dx, dz) <==> HasAt(cs, a, dx, dz) || At(c, a, dx, dz)
    {
      if HasAt(cs, a, dx, dz) {
        var j :| 0 <= j < |cs| && At(cs[j], a, dx, dz);
        assert (cs + [c])[j] == cs[j];
      }
      if At(c, a, dx, dz) {
        assert (cs + [c])[|cs|] == c;
      }
      if HasAt(cs + [c], a, dx, dz) {
        var j :| 0 <= j < |cs + [c]| && At((cs + [c])[j], a, dx, dz);
        if j < |cs| {
          assert (cs + [c])[j] == cs[j];
        }
      }
    }
  }

  /** One step of the neighbour scan: update the flags with crossing `c`. */
  function Mark(f: Flags, c: Pos3, a: Pos3): Flags {
    if c.y != a.y then f
    else
      var dx := c.x - a.x;
      var dz := c.z - a.z;
      Flags(f.r1 || (dx == Unit && dz == 0),
            f.r2 || (dx == 2 * Unit && dz == 0),
            f.d1 || (dx == 0 && dz == Unit),
            f.d2 || (dx == 0 && dz == 2 * Unit),
            f.dr || (dx == Unit && dz == Unit))
  }

  /** The neighbour scan over all crossings in order: each flag ends up set
      exactly when a crossing on the anchor's level sits at its offset. */
  function ScanFlags(cs: seq<Pos3>, a: Pos3): (f: Flags)
    ensures f == Neighbours(cs, a)
  {
    if |cs| == 0 then NoFlags
    else
      var init := cs[..|cs| - 1];
      var last := cs[|cs| - 1];
      assert cs == init + [last];
      HasAtSnoc(init, last, a);
      Mark(ScanFlags(init, a), last, a)
  }

  /** The anchor never counts as its own neighbour: every offset looked for is
      non-zero. */
  lemma AnchorNeverSetsFlag(cs: seq<Pos3>, a: Pos3)
    ensures Neighbours(cs + [a], a) == Neighbours(cs, a)
    ensures Neighbours([a], a) == NoFlags
  {
    HasAtSnoc(cs, a, a);
    HasAtSnoc([], a, a);
    assert [] + [a] == [a];
  }

  /** Only crossings on the anchor's level matter, and neither their order
      nor repetitions do: two crossing lists with the same members on that
      level give the same flags. */
  lemma NeighboursDependOnlyOnLevel(cs1: seq<Pos3>, cs2: seq<Pos3>, a: Pos3)
    requires forall c: Pos3 :: c.y == a.y ==> (c in cs1 <==> c in cs2)
    ensures Neighbours(cs1, a) == Neighbours(cs2, a)
  {
    forall dx, dz | HasAt(cs1, a, dx, dz)
      ensures HasAt(cs2, a, dx, dz)
    {
      var j :| 0 <= j < |cs1| && At(cs1[j], a, dx, dz);
      assert cs1[j] in cs2;
    }
    forall dx, dz | HasAt(cs2, a, dx, dz)
      ensures HasAt(cs1, a, dx, dz)
    {
      var j :| 0 <= j < |cs2| && At(cs2[j], a, dx, dz);
      assert cs2[j] in cs1;
    }
  }

  // ---------------------------------------------------------------------
  // Classification

  /** The first pattern whose condition holds, testing Quad, T, L and
      Triple in that order. Each label is characterised by exactly the
      conditions under which it is chosen. */
  function Classify(f: Flags): (p: Option<Pattern>)
    ensures p == Some(Quad) <==> f.r1 && f.d1 && f.dr
    ensures p == Some(TShape) <==> f.r1 && f.r2 && f.d1 && !f.dr
    ensures p == Some(LShape) <==> f.r1 && f.d1 && !f.r2 && !f.dr
    ensures p == Some(Triple) <==> !(f.r1 && f.d1) && ((f.r1 && f.r2) || (f.d1 && f.d2))
    ensures p == None <==> !(f.r1 && f.d1) && !(f.r1 && f.r2) && !(f.d1 && f.d2)
  {
    if f.r1 && f.d1 && f.dr then Some(Quad)
    else if f.r1 && f.r2 && f.d1 then Some(TShape)
    else if f.r1 && f.d1 then Some(LShape)
    else if (f.r1 && f.r2) || (f.d1 && f.d2) then Some(Triple)
    else None
  }

  /** An anchor meeting both the Quad and the Triple conditions is reported
      as Quad only. */
  lemma QuadBeatsTriple(f: Flags)
    requires f.r1 && f.d1 && f.dr
    requires (f.r1 && f.r2) || (f.d1 && f.d2)
    ensures Classify(f) == Some(Quad)
  {
  }

  /** The result for one anchor `a`, with neighbours searched in `cs`. */
  function AnchorResult(seed: int, cs: seq<Pos3>, a: Pos3, perm: bool): (r: Option<ClusterResult>)
    ensures r.Some? <==> Classify(Neighbours(cs, a)).Some?
    ensures r.Some? ==> r.value.pattern == Classify(Neighbours(cs, a)).value
    ensures r.Some? ==> && r.value.seed == seed
                        && r.value.centerX == a.x + CenterOffset
                        && r.value.centerY == a.y
                        && r.value.centerZ == a.z + CenterOffset
                        && r.value.isPermanent == perm
    ensures r.Some? ==> r.value.distSq == a.x * a.x + a.z * a.z && r.value.distSq >= 0
  {
    match Classify(ScanFlags(cs, a))
    case None => None
    case Some(p) =>
      Some(ClusterResult(seed, a.x + CenterOffset, a.y, a.z + CenterOffset,
                         a.x * a.x + a.z * a.z, p, perm))
  }

  /** Results for every anchor of `anchors`, in anchor order; neighbours
      are searched in `cs`. Each anchor contributes at most one result,
      every result comes from some anchor, and every qualifying anchor
      contributes its result. */
  function ClassifyAnchors(seed: int, cs: seq<Pos3>, anchors: seq<Pos3>, perm: bool): (r: seq<ClusterResult>)
    ensures |r| <= |anchors|
    ensures forall k :: 0 <= k < |r| ==>
      exists i :: 0 <= i < |anchors| && AnchorResult(seed, cs, anchors[i], perm) == Some(r[k])
    ensures forall i :: 0 <= i < |anchors| && AnchorResult(seed, cs, anchors[i], perm).Some? ==>
      AnchorResult(seed, cs, anchors[i], perm).value in r
    ensures forall x :: x in r ==> x.seed == seed && x.isPermanent == perm && x.distSq >= 0
  {
    if |anchors| == 0 then []
    else
      var init := anchors[..|anchors| - 1];
      var last := anchors[|anchors| - 1];
      assert forall i :: 0 <= i < |init| ==> init[i] == anchors[i];
      var prev := ClassifyAnchors(seed, cs, init, perm);
      match AnchorResult(seed, cs, last, perm)
      case None => prev
      case Some(res) => prev + [res]
  }

  /** A single anchor gives no result when no pattern matches and exactly
      its own result when one does. */
  lemma ClassifyOneAnchor(seed: int, cs: seq<Pos3>, a: Pos3, perm: bool)
    ensures AnchorResult(seed, cs, a, perm).None? ==> ClassifyAnchors(seed, cs, [a], perm) == []
    ensures AnchorResult(seed, cs, a, perm).Some? ==>
      ClassifyAnchors(seed, cs, [a], perm) == [AnchorResult(seed, cs, a, perm).value]
  {
    assert [a][..0] == [];
  }

  /** The anchor loop keeps anchor order: the results for a concatenation
      of anchors are the results for the first part followed by those for
      the second. With `ClassifyOneAnchor` this pins the output to one
      result per qualifying anchor, in anchor order. */
  lemma {:induction false} ClassifyAnchorsAppend(seed: int, cs: seq<Pos3>, a: seq<Pos3>, b: seq<Pos3>, perm: bool)
    ensures ClassifyAnchors(seed, cs, a + b, perm) == ClassifyAnchors(seed, cs, a, perm) + ClassifyAnchors(seed, cs, b, perm)
    decreases |b|
  {
    if |b| == 0 {
      assert a + b == a;
    } else {
      var b' := b[..|b| - 1];
      assert (a + b)[..|a + b| - 1] == a + b';
      assert (a + b)[|a + b| - 1] == b[|b| - 1];
      ClassifyAnchorsAppend(seed, cs, a, b', perm);
    }
  }

  /** Classification of one region's crossings: every crossing is an
      anchor, so every crossing with a matching pattern contributes its
      result and nothing else is reported. */
  function ClassifyCrossings(seed: int, cs: seq<Pos3>, perm: bool): (r: seq<ClusterResult>)
    ensures |r| <= |cs|
    ensures forall a :: a in cs && AnchorResult(seed, cs, a, perm).Some? ==> AnchorResult(seed, cs, a, perm).value in r
    ensures forall x :: x in r ==> exists a :: a in cs && AnchorResult(seed, cs, a, perm) == Some(x)
  {
    ClassifyAnchors(seed, cs, cs, perm)
  }

  /** Any pattern needs the anchor and two further crossings on its level. */
  lemma PatternNeedsThreeCrossings(cs: seq<Pos3>, a: Pos3)
    requires a in cs
    requires Classify(Neighbours(cs, a)).Some?
    ensures |cs| >= 3
  {
    var i :| 0 <= i < |cs| && cs[i] == a;
    var f := Neighbours(cs, a);
    var dx1, dz1, dx2, dz2;
    if f.r1 && f.d1 {
      dx1, dz1, dx2, dz2 := Unit, 0, 0, Unit;
    } else if f.r1 && f.r2 {
      dx1, dz1, dx2, dz2 := Unit, 0, 2 * Unit, 0;
    } else {
      dx1, dz1, dx2, dz2 := 0, Unit, 0, 2 * Unit;
    }
    var j1 :| 0 <= j1 < |cs| && At(cs[j1], a, dx1, dz1);
    var j2 :| 0 <= j2 < |cs| && At(cs[j2], a, dx2, dz2);
    assert i != j1 && i != j2 && j1 != j2;
  }

  /** With fewer than three crossings no anchor qualifies. */
  lemma FewCrossingsNoResults(seed: int, cs: seq<Pos3>, perm: bool)
    requires |cs| < 3
    ensures ClassifyCrossings(seed, cs, perm) == []
  {
    var r := ClassifyCrossings(seed, cs, perm);
    if |r| > 0 {
      var i :| 0 <= i < |cs| && AnchorResult(seed, cs, cs[i], perm) == Some(r[0]);
      PatternNeedsThreeCrossings(cs, cs[i]);
    }
  }

  // ---------------------------------------------------------------------
  // One region

  /** What the generator reports for one region: no structure placed, a
      structure whose position is not viable, or the pieces of a viable
      structure. */
  datatype Probe = NoStructure | NotViable | Found(pieces: seq<Piece>)

  /** The clusters of one region. The early exit looks at the number of
      PIECES, not crossings; it never loses a result, because any pattern
      needs three crossings and crossings are a subset of the pieces. */
  function RegionResults(seed: int, probe: Probe, perm: bool): (r: seq<ClusterResult>)
    ensures !probe.Found? ==> r == []
    ensures probe.Found? && |probe.pieces| < MinPieces ==> r == []
    ensures probe.Found? ==> r == ClassifyCrossings(seed, Crossings(probe.pieces), perm)
    ensures probe.Found? ==> |r| <= |Crossings(probe.pieces)|
    ensures forall x :: x in r ==> x.seed == seed && x.isPermanent == perm
  {
    match probe
    case NoStructure => []
    case NotViable => []
    case Found(ps) =>
      if |ps| < MinPieces then
        FewCrossingsNoResults(seed, Crossings(ps), perm);
        []
      else
        ClassifyCrossings(seed, Crossings(ps), perm)
  }

  /** The four crossings of a square of side `Unit` whose lower corner is `a`. */
  function Square(a: Pos3): seq<Pos3> {
    [a, Pos3(a.x + Unit, a.y, a.z), Pos3(a.x, a.y, a.z + Unit), Pos3(a.x + Unit, a.y, a.z + Unit)]
  }

  lemma SquareAnchors(seed: int, a: Pos3)
    ensures AnchorResult(seed, Square(a), a, false)
      == Some(ClusterResult(seed, a.x + 9, a.y, a.z + 9, a.x * a.x + a.z * a.z, Quad, false))
    ensures AnchorResult(seed, Square(a), Square(a)[1], false) == None
    ensures AnchorResult(seed, Square(a), Square(a)[2], false) == None
    ensures AnchorResult(seed, Square(a), Square(a)[3], false) == None
  {
    var cs := Square(a);
    // the lower corner has right, down and diagonal neighbours
    assert At(cs[1], a, Unit, 0);
    assert At(cs[2], a, 0, Unit);
    assert At(cs[3], a, Unit, Unit);
    // the right corner has no right neighbour and no second down neighbour
    assert !HasAt(cs, cs[1], Unit, 0);
    assert !HasAt(cs, cs[1], 0, 2 * Unit);
    // the upper corner has no down neighbour and no second right neighbour
    assert !HasAt(cs, cs[2], 0, Unit);
    assert !HasAt(cs, cs[2], 2 * Unit, 0);
    // the far corner has neither a right nor a down neighbour
    assert !HasAt(cs, cs[3], Unit, 0);
    assert !HasAt(cs, cs[3], 0, Unit);
  }

  /** Four crossings forming a square give exactly one Quad, reported at
      the lower corner moved by 9 on x and z, with the distance of the
      lower corner itself. */
  lemma SquareIsOneQuad(seed: int, a: Pos3)
    ensures ClassifyCrossings(seed, Square(a), false)
      == [ClusterResult(seed, a.x + 9, a.y, a.z + 9, a.x * a.x + a.z * a.z, Quad, false)]
  {
    var cs := Square(a);
    var q := ClusterResult(seed, a.x + 9, a.y, a.z + 9, a.x * a.x + a.z * a.z, Quad, false);
    SquareAnchors(seed, a);
    assert cs[..1][..0] == [];
    assert ClassifyAnchors(seed, cs, cs[..1], false) == [q];
    assert cs[..2][..1] == cs[..1];
    assert ClassifyAnchors(seed, cs, cs[..2], false) == [q];
    assert cs[..3][..2] == cs[..2];
    assert ClassifyAnchors(seed, cs, cs[..3], false) == [q];
    assert cs[..3] == cs[..|cs| - 1];
  }
}
