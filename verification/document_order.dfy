/** The comparator `apply` hands to `Array.sort`: arithmetic on the bitmask
    returned by `a.compareDocumentPosition(b)` (section 4.4 of the WHATWG DOM
    Standard, interface Node). Nodes of one tree are named by their paths from
    the root (the child index taken at each level), and the position of `b`
    relative to `a` is derived from the two paths. */
module DocumentOrder {

  /** Where `b` lies with respect to `a`. */
  datatype Position =
    | Same
    | Preceding                    // b comes before a and is not its ancestor
    | Following                    // b comes after a and is not its descendant
    | Contains                     // b is an ancestor of a
    | ContainedBy                  // b is a descendant of a
    | Disconnected(before: bool)   // other tree; the order is implementation specific

  const DISCONNECTED: bv16 := 1
  const PRECEDING: bv16 := 2
  const FOLLOWING: bv16 := 4
  const CONTAINS: bv16 := 8
  const CONTAINED_BY: bv16 := 16
  const IMPLEMENTATION_SPECIFIC: bv16 := 32

  /** The bitmask `compareDocumentPosition` reports: an ancestor is also
      preceding and a descendant also following. */
  function Mask(p: Position): bv16
  {
    match p
    case Same => 0
    case Preceding => PRECEDING
    case Following => FOLLOWING
    case Contains => CONTAINS | PRECEDING
    case ContainedBy => CONTAINED_BY | FOLLOWING
    case Disconnected(before) =>
      DISCONNECTED | IMPLEMENTATION_SPECIFIC | (if before then PRECEDING else FOLLOWING)
  }

  /** The comparator's arithmetic on a mask: `(cmp&2)+(cmp&8)-(cmp&4)-(cmp&16)`. */
  function Arithmetic(cmp: bv16): int
  {
    (cmp & 2) as int + (cmp & 8) as int - (cmp & 4) as int - (cmp & 16) as int
  }

  /** The comparator applied to a position. A positive result sorts `a` after
      `b`: it happens exactly when `b` precedes or contains `a`; a negative one
      exactly when `b` follows or is contained by `a`; zero only for the node
      itself. */
  function Comparator(p: Position): (c: int)
    ensures c > 0 <==> p in {Preceding, Contains, Disconnected(true)}
    ensures c < 0 <==> p in {Following, ContainedBy, Disconnected(false)}
    ensures c == 0 <==> p == Same
  {
    Arithmetic(Mask(p))
  }

  /** The position of `a` seen from `b`. */
  function Converse(p: Position): Position
  {
    match p
    case Same => Same
    case Preceding => Following
    case Following => Preceding
    case Contains => ContainedBy
    case ContainedBy => Contains
    case Disconnected(before) => Disconnected(!before)
  }

  function Sign(x: int): int
  {
    if x > 0 then 1 else if x < 0 then -1 else 0
  }

  /** Swapping the arguments flips the comparator's sign. */
  lemma ComparatorAntisymmetric(p: Position)
    ensures Sign(Comparator(Converse(p))) == -Sign(Comparator(p))
  {
  }

  /** A node of a tree, named by the child indices leading to it from the root. */
  type Path = seq<nat>

  /** The first level at which two paths differ or one of them ends: their
      common prefix is the path of their nearest common ancestor. */
  function Split(a: Path, b: Path): (k: nat)
    ensures k <= |a| && k <= |b|
    ensures a[..k] == b[..k]
    ensures k < |a| && k < |b| ==> a[k] != b[k]
    decreases |a|
  {
    if |a| == 0 || |b| == 0 || a[0] != b[0] then 0
    else
      var k := Split(a[1..], b[1..]);
      assert a[..k + 1] == [a[0]] + a[1..][..k];
      assert b[..k + 1] == [b[0]] + b[1..][..k];
      k + 1
  }

  /** Any level with the three properties of `Split` is the split level. */
  lemma {:induction false} SplitUnique(a: Path, b: Path, k: nat)
    requires k <= |a| && k <= |b| && a[..k] == b[..k]
    requires k == |a| || k == |b| || a[k] != b[k]
    ensures Split(a, b) == k
    decreases k
  {
    if k > 0 {
      assert a[0] == a[..k][0] && b[0] == b[..k][0];
      assert a[1..][..k - 1] == a[..k][1..] && b[1..][..k - 1] == b[..k][1..];
      if k - 1 < |a| - 1 && k - 1 < |b| - 1 {
        assert a[1..][k - 1] == a[k] && b[1..][k - 1] == b[k];
      }
      SplitUnique(a[1..], b[1..], k - 1);
    }
  }

  /** The DOM's answer for two nodes of the same tree: `b` relative to `a`.
      Where the paths split decides it: if `b` ends there it is an ancestor of
      `a`, if `a` ends there `b` is a descendant, and otherwise the sibling
      order at that level decides. */
  function PositionOf(a: Path, b: Path): (p: Position)
    ensures p == Same <==> a == b
    ensures p == Contains ==> |b| < |a| && b == a[..|b|]
    ensures p == ContainedBy ==> |a| < |b| && a == b[..|a|]
    ensures !p.Disconnected?
  {
    var k := Split(a, b);
    if k == |a| && k == |b| then Same
    else if k == |b| then Contains
    else if k == |a| then ContainedBy
    else if b[k] < a[k] then Preceding
    else Following
  }

  /** Document order (a depth-first walk, parents before children): `x` comes
      strictly before `y` when, after a common prefix, either `x` ends while
      `y` goes on, or `x` turns to an earlier sibling. */
  ghost predicate Before(x: Path, y: Path)
  {
    exists k :: 0 <= k <= |x| && k < |y| && x[..k] == y[..k] && (k == |x| || x[k] < y[k])
  }

  /** A witness of `Before(x, y)` is where the two paths split, in either order. */
  lemma BeforeAtSplit(x: Path, y: Path) returns (k: nat)
    requires Before(x, y)
    ensures k <= |x| && k < |y| && (k == |x| || x[k] < y[k])
    ensures Split(x, y) == k && Split(y, x) == k
  {
    k :| 0 <= k <= |x| && k < |y| && x[..k] == y[..k] && (k == |x| || x[k] < y[k]);
    SplitUnique(x, y, k);
    SplitUnique(y, x, k);
  }

  /** The comparator sorts the nodes of a tree in document order: it is
      negative exactly when `a` comes before `b`, positive exactly when `b`
      comes before `a`, and zero only for the same node. */
  lemma ComparatorFollowsDocumentOrder(a: Path, b: Path)
    ensures Comparator(PositionOf(a, b)) < 0 <==> Before(a, b)
    ensures Comparator(PositionOf(a, b)) > 0 <==> Before(b, a)
    ensures Comparator(PositionOf(a, b)) == 0 <==> a == b
  {
    var k := Split(a, b);
    if Before(a, b) {
      var j := BeforeAtSplit(a, b);
      assert PositionOf(a, b) in {Following, ContainedBy};
    }
    if Before(b, a) {
      var j := BeforeAtSplit(b, a);
      assert PositionOf(a, b) in {Preceding, Contains};
    }
    match PositionOf(a, b)
    case Following =>
      assert k < |a| && a[k] < b[k];
      assert Before(a, b);
    case ContainedBy =>
      assert k == |a| < |b|;
      assert Before(a, b);
    case Preceding =>
      assert k < |b| && b[k] < a[k];
      assert Before(b, a);
    case Contains =>
      assert k == |b| < |a|;
      assert Before(b, a);
    case Same =>
    case Disconnected(_) =>
  }

  /** Document order is transitive. */
  lemma BeforeTransitive(x: Path, y: Path, z: Path)
    requires Before(x, y) && Before(y, z)
    ensures Before(x, z)
  {
    var i :| 0 <= i <= |x| && i < |y| && x[..i] == y[..i] && (i == |x| || x[i] < y[i]);
    var j :| 0 <= j <= |y| && j < |z| && y[..j] == z[..j] && (j == |y| || y[j] < z[j]);
    if i < j {
      assert y[..j][..i] == y[..i] && z[..j][..i] == z[..i];
      if i < |x| {
        assert y[i] == y[..j][i] && z[i] == z[..j][i];
      }
      assert x[..i] == z[..i];
    } else if j < i {
      assert x[..i][..j] == x[..j] && y[..i][..j] == y[..j];
      assert x[j] == x[..i][j] && y[j] == y[..i][j];
      assert x[..j] == z[..j];
    } else {
      assert x[..i] == z[..i];
    }
  }

  /** Document order is irreflexive and total on distinct nodes. */
  lemma BeforeStrictTotal(x: Path, y: Path)
    ensures !Before(x, x)
    ensures x != y ==> Before(x, y) || Before(y, x)
  {
    ComparatorFollowsDocumentOrder(x, x);
    ComparatorFollowsDocumentOrder(x, y);
  }

  /** Exchanging the two nodes exchanges their relative position. */
  lemma PositionOfConverse(a: Path, b: Path)
    ensures PositionOf(b, a) == Converse(PositionOf(a, b))
  {
    var k := Split(a, b);
    SplitUnique(b, a, k);
  }

  /** The comparator is antisymmetric on the nodes of a tree. */
  lemma ComparatorSwap(a: Path, b: Path)
    ensures Sign(Comparator(PositionOf(b, a))) == -Sign(Comparator(PositionOf(a, b)))
  {
    PositionOfConverse(a, b);
    ComparatorAntisymmetric(PositionOf(a, b));
  }
}
