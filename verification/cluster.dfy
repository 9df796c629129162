/** Data model of the Nether-fortress cluster finder: the four cluster
    patterns, block positions, generator pieces and the ClusterResult
    record together with its identity comparison. */
module Cluster {

  datatype Option<+T> = None | Some(value: T)

  /** The four cluster shapes. Their numeric codes are 0..3 in this order. */
  datatype Pattern = Quad | TShape | LShape | Triple

  /** Number of pattern kinds (one past the largest code). */
  const PatternCount: nat := 4

  /** Numeric code of a pattern, as stored in a result record. */
  function PatternCode(p: Pattern): (c: nat)
    ensures c < PatternCount
  {
    match p
    case Quad => 0
    case TShape => 1
    case LShape => 2
    case Triple => 3
  }

  /** The pattern a numeric code names, if any. */
  function PatternFromCode(c: int): (p: Option<Pattern>)
    ensures p.Some? <==> 0 <= c < PatternCount
    ensures p.Some? ==> PatternCode(p.value) == c
  {
    if c == 0 then Some(Quad)
    else if c == 1 then Some(TShape)
    else if c == 2 then Some(LShape)
    else if c == 3 then Some(Triple)
    else None
  }

  /** Codes name patterns one-to-one: distinct patterns have distinct
      codes, and decoding a pattern's code gives the pattern back. */
  lemma PatternCodeRoundTrip(p: Pattern, q: Pattern)
    ensures PatternCode(p) == PatternCode(q) ==> p == q
    ensures PatternFromCode(PatternCode(p)) == Some(p)
  {
  }

  /** A block position. Bridge-crossing anchors are positions. */
  datatype Pos3 = Pos3(x: int, y: int, z: int)

  /** Piece types of a fortress layout; only bridge crossings matter here. */
  datatype PieceKind = BridgeCrossing | OtherPiece

  /** One structure piece as the generator reports it. */
  datatype Piece = Piece(kind: PieceKind, pos: Pos3)

  /** One discovered cluster. `distSq` and `isPermanent` are not part of
      its identity (see `Same`). */
  datatype ClusterResult = ClusterResult(
    seed: int,
    centerX: int,
    centerY: int,
    centerZ: int,
    distSq: int,
    pattern: Pattern,
    isPermanent: bool)

  /** Identity comparison of two results: seed, centre and pattern must
      agree; distance and permanence are ignored. */
  predicate Same(a: ClusterResult, b: ClusterResult) {
    && a.seed == b.seed
    && a.centerX == b.centerX
    && a.centerY == b.centerY
    && a.centerZ == b.centerZ
    && a.pattern == b.pattern
  }

  /** The identity tuple of a result. */
  datatype Identity = Identity(seed: int, x: int, y: int, z: int, pattern: Pattern)

  function Key(r: ClusterResult): Identity {
    Identity(r.seed, r.centerX, r.centerY, r.centerZ, r.pattern)
  }

  /** `Same` is exactly equality of identity tuples, so it is an
      equivalence, and it does not look at distance or permanence. */
  lemma SameIsIdentityEquality(a: ClusterResult, b: ClusterResult, d: int, p: bool)
    ensures Same(a, b) <==> Key(a) == Key(b)
    ensures Same(a, a.(distSq := d, isPermanent := p))
  {
  }
}
