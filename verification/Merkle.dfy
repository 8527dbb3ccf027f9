// src/audit_pipeline/merkle.py: the tree.  Leaves are sorted before pairing and
// an odd level duplicates its last node, so this is not the tree of section 2.1
// of RFC 6962, and lists of different lengths can share a root.
module Merkle {
  import opened Bytes
  import opened Sorting

  // "\x00leaf\x00" and "\x01node\x01"
  const LEAF_PREFIX: Octets := [0, 108, 101, 97, 102, 0]
  const NODE_PREFIX: Octets := [1, 110, 111, 100, 101, 1]
  const EMPTY_ROOT: Digest := seq(32, _ => 0)

  function LeafInput(canonical: Octets): Octets {
    LEAF_PREFIX + canonical
  }

  function NodeInput(left: Digest, right: Digest): Octets {
    NODE_PREFIX + left + right
  }

  function LeafHash(h: Hash, canonical: Octets): Digest {
    h(LeafInput(canonical))
  }

  function InternalHash(h: Hash, left: Digest, right: Digest): Digest {
    h(NodeInput(left, right))
  }

  predicate DigestLe(a: Digest, b: Digest) {
    LexLe(a, b)
  }

  // ---- the root as a function ----------------------------------------------

  /** The left child of parent k. */
  function LeftOf(nodes: seq<Digest>, k: nat): Digest
    requires 2 * k < |nodes|
  {
    nodes[2 * k]
  }

  /** The right child of parent k; at the end of an odd level, the left one again. */
  function RightOf(nodes: seq<Digest>, k: nat): Digest
    requires 2 * k < |nodes|
  {
    if 2 * k + 1 < |nodes| then nodes[2 * k + 1] else nodes[2 * k]
  }

  function Half(n: nat): (m: nat)
    ensures 2 * m == n || 2 * m == n + 1
  {
    (n + 1) / 2
  }

  /** The byte strings hashed to build the level above `nodes`. */
  function LevelInputs(nodes: seq<Digest>): (ins: seq<Octets>)
    ensures |ins| == Half(|nodes|)
    ensures forall k :: 0 <= k < |ins| ==> ins[k] == NodeInput(LeftOf(nodes, k), RightOf(nodes, k))
  {
    seq(Half(|nodes|), k requires 0 <= k < Half(|nodes|) => NodeInput(LeftOf(nodes, k), RightOf(nodes, k)))
  }

  function LevelUp(h: Hash, nodes: seq<Digest>): (up: seq<Digest>)
    ensures |up| == Half(|nodes|)
    ensures forall k :: 0 <= k < |up| ==> up[k] == h(LevelInputs(nodes)[k])
  {
    var ins := LevelInputs(nodes);
    seq<Digest>(|ins|, k requires 0 <= k < |ins| => h(ins[k]))
  }

  function Fold(h: Hash, nodes: seq<Digest>): Digest
    requires nodes != []
    decreases |nodes|
  {
    if |nodes| == 1 then nodes[0] else Fold(h, LevelUp(h, nodes))
  }

  function Root(h: Hash, leaves: seq<Digest>): Digest {
    if leaves == [] then EMPTY_ROOT else Fold(h, Sort(DigestLe, leaves))
  }

  /** The root of a single leaf is that leaf, not hashed again. */
  lemma SingleLeaf(h: Hash, leaf: Digest)
    ensures Root(h, [leaf]) == leaf
  {
    assert [leaf][1..] == [] && Sort(DigestLe, [leaf]) == [leaf];
  }

  /** The byte strings hashed by the whole loop, level by level. */
  function NodeInputs(h: Hash, nodes: seq<Digest>): (ins: seq<Octets>)
    requires nodes != []
    decreases |nodes|
  {
    if |nodes| == 1 then [] else LevelInputs(nodes) + NodeInputs(h, LevelUp(h, nodes))
  }

  /** One turn of the loop: the last node repeated on an odd level, then paired. */
  method Pair(h: Hash, nodes: seq<Digest>) returns (parents: seq<Digest>)
    requires |nodes| > 1
    ensures parents == LevelUp(h, nodes)
  {
    var padded := nodes;
    if |padded| % 2 == 1 {
      padded := padded + [padded[|padded| - 1]];
    }
    parents := [];
    for k := 0 to |padded| / 2
      invariant |parents| == k
      invariant forall j :: 0 <= j < k ==> parents[j] == LevelUp(h, nodes)[j]
    {
      assert padded[2 * k] == LeftOf(nodes, k) && padded[2 * k + 1] == RightOf(nodes, k);
      parents := parents + [InternalHash(h, padded[2 * k], padded[2 * k + 1])];
    }
  }

  /** merkle_root, with the number of internal hashes it makes. */
  method MerkleRoot(h: Hash, leaves: seq<Digest>) returns (root: Digest, hashes: nat)
    ensures root == Root(h, leaves)
    ensures hashes == if leaves == [] then 0 else |NodeInputs(h, Sort(DigestLe, leaves))|
  {
    hashes := 0;
    if leaves == [] {
      return EMPTY_ROOT, 0;
    }
    var nodes: seq<Digest> := Sort(DigestLe, leaves);
    while |nodes| > 1
      invariant nodes != []
      invariant Fold(h, nodes) == Root(h, leaves)
      invariant hashes + |NodeInputs(h, nodes)| == |NodeInputs(h, Sort(DigestLe, leaves))|
      decreases |nodes|
    {
      nodes := Pair(h, nodes);
      hashes := hashes + |nodes|;
    }
    root := nodes[0];
  }

  // ---- determinism and cost ------------------------------------------------

  lemma DigestOrder()
    ensures Total(DigestLe) && Transitive(DigestLe) && Antisymmetric(DigestLe)
  {
    forall a: Digest, b: Digest
      ensures DigestLe(a, b) || DigestLe(b, a)
      ensures DigestLe(a, b) && DigestLe(b, a) ==> a == b
    {
      LexTotal(a, b);
      if DigestLe(a, b) && DigestLe(b, a) {
        LexAntisymmetric(a, b);
      }
    }
    forall a: Digest, b: Digest, c: Digest | DigestLe(a, b) && DigestLe(b, c)
      ensures DigestLe(a, c)
    {
      LexTransitive(a, b, c);
    }
  }

  /** The order in which the rows arrive does not matter. */
  lemma RootIgnoresOrder(h: Hash, a: seq<Digest>, b: seq<Digest>)
    requires multiset(a) == multiset(b)
    ensures Root(h, a) == Root(h, b)
  {
    DigestOrder();
    SortPermutation(DigestLe, a, b);
    assert |a| == |multiset(a)| == |multiset(b)| == |b|;
  }

  /** ceil(log2 n) for n >= 1: the number of levels above the leaves. */
  function Depth(n: nat): (d: nat)
    requires n > 0
  {
    if n == 1 then 0 else 1 + Depth(Half(n))
  }

  function Pow2(d: nat): (p: nat)
    ensures p > 0
  {
    if d == 0 then 1 else 2 * Pow2(d - 1)
  }

  /** Depth is the least d with n <= 2^d. */
  lemma {:induction false} DepthIsLog(n: nat)
    requires n > 0
    ensures n <= Pow2(Depth(n))
    ensures n > 1 ==> Pow2(Depth(n) - 1) < n
  {
    if n > 1 {
      DepthIsLog(Half(n));
    }
  }

  lemma {:induction false} HashCount(h: Hash, nodes: seq<Digest>)
    requires nodes != []
    ensures |nodes| - 1 <= |NodeInputs(h, nodes)| <= |nodes| - 1 + Depth(|nodes|)
    decreases |nodes|
  {
    if |nodes| > 1 {
      HashCount(h, LevelUp(h, nodes));
    }
  }

  // ---- which leaf sits under which position of the perfect tree -------------

  /** A position below a root: which child, below which parent. */
  datatype Position = Top | Below(parent: Position, right: bool)
  {
    function Level(): nat {
      match this
      case Top => 0
      case Below(p, _) => 1 + p.Level()
    }
  }

  /**
   * Repeating the last node of every odd level turns n leaves into a perfect
   * tree; Source(p, n) is the index of the leaf found at position p.
   */
  function Source(p: Position, n: nat): (k: nat)
    requires n > 0 && p.Level() == Depth(n)
    ensures k < n
  {
    match p
    case Top => 0
    case Below(q, right) =>
      var k := 2 * Source(q, Half(n));
      if right && k + 1 < n then k + 1 else k
  }

  function PositionOf(i: nat, n: nat): (p: Position)
    requires i < n
    ensures p.Level() == Depth(n)
    decreases n
  {
    if n == 1 then Top else Below(PositionOf(i / 2, Half(n)), i % 2 == 1)
  }

  /** Every leaf is found somewhere. */
  lemma {:induction false} SourceOfPosition(i: nat, n: nat)
    requires i < n
    ensures Source(PositionOf(i, n), n) == i
    decreases n
  {
    if n > 1 {
      SourceOfPosition(i / 2, Half(n));
    }
  }

  predicate SameAt(a: seq<Digest>, b: seq<Digest>, p: Position)
    requires a != [] && b != [] && p.Level() == Depth(|a|) == Depth(|b|)
  {
    a[Source(p, |a|)] == b[Source(p, |b|)]
  }

  /** The two lists fill the same perfect tree with the same leaves. */
  ghost predicate SameExpansion(a: seq<Digest>, b: seq<Digest>)
    requires a != [] && b != []
  {
    Depth(|a|) == Depth(|b|) &&
    forall p: Position :: p.Level() == Depth(|a|) ==> SameAt(a, b, p)
  }

  lemma NodeInputInjective(l: Digest, r: Digest, l': Digest, r': Digest)
    requires NodeInput(l, r) == NodeInput(l', r')
    ensures l == l' && r == r'
  {
    assert l == NodeInput(l, r)[6..38] && r == NodeInput(l, r)[38..];
    assert l' == NodeInput(l', r')[6..38] && r' == NodeInput(l', r')[38..];
  }

  lemma LeafIsNotNode(canonical: Octets, l: Digest, r: Digest)
    ensures LeafInput(canonical) != NodeInput(l, r)
  {
    assert LeafInput(canonical)[0] == 0 && NodeInput(l, r)[0] == 1;
  }

  lemma ParentFromChildren(h: Hash, a: seq<Digest>, b: seq<Digest>, q: Position)
    requires |a| > 1 && |b| > 1 && q.Level() == Depth(Half(|a|)) == Depth(Half(|b|))
    requires SameAt(a, b, Below(q, false)) && SameAt(a, b, Below(q, true))
    ensures SameAt(LevelUp(h, a), LevelUp(h, b), q)
  {
    var i, j := Source(q, Half(|a|)), Source(q, Half(|b|));
    assert LeftOf(a, i) == a[Source(Below(q, false), |a|)];
    assert RightOf(a, i) == a[Source(Below(q, true), |a|)];
    assert LeftOf(b, j) == b[Source(Below(q, false), |b|)];
    assert RightOf(b, j) == b[Source(Below(q, true), |b|)];
  }

  lemma ChildrenFromParent(h: Hash, a: seq<Digest>, b: seq<Digest>, q: Position, right: bool)
    requires |a| > 1 && |b| > 1 && q.Level() == Depth(Half(|a|)) == Depth(Half(|b|))
    requires SameAt(LevelUp(h, a), LevelUp(h, b), q)
    ensures SameAt(a, b, Below(q, right)) || CollisionAmong(h, LevelInputs(a), LevelInputs(b))
  {
    var i, j := Source(q, Half(|a|)), Source(q, Half(|b|));
    if LevelInputs(a)[i] == LevelInputs(b)[j] {
      NodeInputInjective(LeftOf(a, i), RightOf(a, i), LeftOf(b, j), RightOf(b, j));
    } else {
      CollisionFound(h, LevelInputs(a), i, LevelInputs(b), j);
    }
  }

  /** Trees of one depth: equal expansions have equal roots. */
  lemma {:induction false} ExpansionFixesFold(h: Hash, a: seq<Digest>, b: seq<Digest>)
    requires a != [] && b != [] && SameExpansion(a, b)
    ensures Fold(h, a) == Fold(h, b)
    decreases |a|
  {
    if |a| == 1 {
      assert SameAt(a, b, Top);
    } else {
      var a', b' := LevelUp(h, a), LevelUp(h, b);
      forall q: Position | q.Level() == Depth(|a'|)
        ensures SameAt(a', b', q)
      {
        assert SameAt(a, b, Below(q, false)) && SameAt(a, b, Below(q, true));
        ParentFromChildren(h, a, b, q);
      }
      ExpansionFixesFold(h, a', b');
    }
  }

  lemma LiftCollision(h: Hash, a: seq<Digest>, b: seq<Digest>)
    requires |a| > 1 && |b| > 1
    requires CollisionAmong(h, LevelInputs(a), LevelInputs(b)) ||
             CollisionAmong(h, NodeInputs(h, LevelUp(h, a)), NodeInputs(h, LevelUp(h, b)))
    ensures CollisionAmong(h, NodeInputs(h, a), NodeInputs(h, b))
  {
    var a', b' := NodeInputs(h, LevelUp(h, a)), NodeInputs(h, LevelUp(h, b));
    if CollisionAmong(h, LevelInputs(a), LevelInputs(b)) {
      CollisionMonotone(h, LevelInputs(a), LevelInputs(b), LevelInputs(a) + a', LevelInputs(b) + b');
    } else {
      CollisionMonotone(h, a', b', LevelInputs(a) + a', LevelInputs(b) + b');
    }
  }

  /** Trees of one depth: equal roots have equal expansions, or two nodes collide. */
  lemma {:induction false} FoldFixesExpansion(h: Hash, a: seq<Digest>, b: seq<Digest>)
    requires a != [] && b != [] && Depth(|a|) == Depth(|b|)
    requires Fold(h, a) == Fold(h, b)
    ensures SameExpansion(a, b) || CollisionAmong(h, NodeInputs(h, a), NodeInputs(h, b))
    decreases |a|
  {
    if |a| == 1 {
    } else if CollisionAmong(h, LevelInputs(a), LevelInputs(b)) {
      LiftCollision(h, a, b);
    } else {
      var a', b' := LevelUp(h, a), LevelUp(h, b);
      FoldFixesExpansion(h, a', b');
      if SameExpansion(a', b') {
        forall p: Position | p.Level() == Depth(|a|)
          ensures SameAt(a, b, p)
        {
          assert SameAt(a', b', p.parent);
          ChildrenFromParent(h, a, b, p.parent, p.right);
        }
      } else {
        LiftCollision(h, a, b);
      }
    }
  }

  // ---- binding -------------------------------------------------------------

  function Leaves(h: Hash, records: seq<Octets>): (ls: seq<Digest>)
    ensures |ls| == |records|
  {
    seq(|records|, i requires 0 <= i < |records| => LeafHash(h, records[i]))
  }

  /** Everything hashed from the canonical records up to the root. */
  function HashInputs(h: Hash, records: seq<Octets>): seq<Octets>
    requires records != []
  {
    seq(|records|, i requires 0 <= i < |records| => LeafInput(records[i]))
    + NodeInputs(h, Sort(DigestLe, Leaves(h, records)))
  }

  lemma SortedLeafIsLeaf(h: Hash, records: seq<Octets>, d: Digest)
    ensures d in Sort(DigestLe, Leaves(h, records)) <==> d in Leaves(h, records)
  {
    SortElements(DigestLe, Leaves(h, records));
    assert d in Sort(DigestLe, Leaves(h, records)) <==> d in multiset(Sort(DigestLe, Leaves(h, records)));
    assert d in Leaves(h, records) <==> d in multiset(Leaves(h, records));
  }

  lemma LeafMeetsNode(h: Hash, records: seq<Octets>, b: seq<Digest>, k: nat, j: nat)
    requires records != [] && k < |records|
    requires |b| > 1 && j < |LevelInputs(b)|
    requires LeafHash(h, records[k]) == h(LevelInputs(b)[j])
    ensures CollisionAmong(h, HashInputs(h, records), NodeInputs(h, b))
  {
    LeafIsNotNode(records[k], LeftOf(b, j), RightOf(b, j));
    CollisionFound(h, HashInputs(h, records), k, NodeInputs(h, b), j);
  }

  /** A shallower tree over leaf hashes never has the root of a deeper tree. */
  lemma {:induction false} DepthsDiffer(h: Hash, records: seq<Octets>, a: seq<Digest>, b: seq<Digest>)
    requires records != [] && a == Sort(DigestLe, Leaves(h, records))
    requires b != [] && Depth(|a|) < Depth(|b|)
    requires Fold(h, a) == Fold(h, b)
    ensures CollisionAmong(h, HashInputs(h, records), NodeInputs(h, b))
    decreases |b|
  {
    var b' := LevelUp(h, b);
    if Depth(|a|) < Depth(|b'|) {
      DepthsDiffer(h, records, a, b');
      CollisionMonotone(h, HashInputs(h, records), NodeInputs(h, b'), HashInputs(h, records), NodeInputs(h, b));
    } else {
      FoldFixesExpansion(h, a, b');
      if SameExpansion(a, b') {
        var p := PositionOf(0, |a|);
        assert SameAt(a, b', p);
        var d := a[Source(p, |a|)];
        SortedLeafIsLeaf(h, records, d);
        var k :| 0 <= k < |records| && Leaves(h, records)[k] == d;
        LeafMeetsNode(h, records, b, k, Source(p, |b'|));
      } else {
        CollisionMonotone(h, NodeInputs(h, a), NodeInputs(h, b'), HashInputs(h, records), NodeInputs(h, b));
      }
    }
  }

  lemma CollisionSymmetric(h: Hash, xs: seq<Octets>, ys: seq<Octets>)
    requires CollisionAmong(h, xs, ys)
    ensures CollisionAmong(h, ys, xs)
  {
    var x, y :| x in xs && y in ys && Collides(h, x, y);
    assert Collides(h, y, x);
  }

  lemma NoCollisionSymmetric(h: Hash, xs: seq<Octets>, ys: seq<Octets>)
    requires !CollisionAmong(h, xs, ys)
    ensures !CollisionAmong(h, ys, xs)
  {
    if CollisionAmong(h, ys, xs) {
      CollisionSymmetric(h, ys, xs);
    }
  }

  /**
   * Exactly when two non-empty cycles share a root: their sorted leaves fill
   * the same perfect tree.  Without a collision there is no other way.
   */
  lemma RootsEqualIff(h: Hash, xs: seq<Octets>, ys: seq<Octets>)
    requires xs != [] && ys != []
    ensures CollisionAmong(h, HashInputs(h, xs), HashInputs(h, ys)) ||
            (Root(h, Leaves(h, xs)) == Root(h, Leaves(h, ys)) <==>
             SameExpansion(Sort(DigestLe, Leaves(h, xs)), Sort(DigestLe, Leaves(h, ys))))
  {
    var a, b := Sort(DigestLe, Leaves(h, xs)), Sort(DigestLe, Leaves(h, ys));
    if SameExpansion(a, b) {
      ExpansionFixesFold(h, a, b);
    } else if Fold(h, a) == Fold(h, b) {
      if Depth(|a|) < Depth(|b|) {
        DepthsDiffer(h, xs, a, b);
        CollisionMonotone(h, HashInputs(h, xs), NodeInputs(h, b), HashInputs(h, xs), HashInputs(h, ys));
      } else if Depth(|b|) < Depth(|a|) {
        DepthsDiffer(h, ys, b, a);
        CollisionSymmetric(h, HashInputs(h, ys), NodeInputs(h, a));
        CollisionMonotone(h, NodeInputs(h, a), HashInputs(h, ys), HashInputs(h, xs), HashInputs(h, ys));
      } else {
        FoldFixesExpansion(h, a, b);
        CollisionMonotone(h, NodeInputs(h, a), NodeInputs(h, b), HashInputs(h, xs), HashInputs(h, ys));
      }
    }
  }

  /** Every leaf of one list is a leaf of the other. */
  lemma ExpansionElements(a: seq<Digest>, b: seq<Digest>, d: Digest)
    requires a != [] && b != [] && SameExpansion(a, b) && d in a
    ensures d in b
  {
    var i :| 0 <= i < |a| && a[i] == d;
    SourceOfPosition(i, |a|);
    assert SameAt(a, b, PositionOf(i, |a|));
  }

  lemma ExpansionSameLength(a: seq<Digest>, b: seq<Digest>)
    requires a != [] && |a| == |b| && SameExpansion(a, b)
    ensures a == b
  {
    forall i | 0 <= i < |a|
      ensures a[i] == b[i]
    {
      SourceOfPosition(i, |a|);
      assert SameAt(a, b, PositionOf(i, |a|));
    }
  }

  lemma EqualLeafEqualRecord(h: Hash, xs: seq<Octets>, ys: seq<Octets>, i: nat, j: nat)
    requires i < |xs| && j < |ys|
    requires !CollisionAmong(h, HashInputs(h, xs), HashInputs(h, ys))
    requires Leaves(h, xs)[i] == Leaves(h, ys)[j]
    ensures xs[i] == ys[j]
  {
    var x, y := LeafInput(xs[i]), LeafInput(ys[j]);
    assert HashInputs(h, xs)[i] == x && HashInputs(h, ys)[j] == y;
    assert !Collides(h, x, y);
    assert xs[i] == x[6..] && ys[j] == y[6..];
  }

  lemma RecordsCarryOver(h: Hash, xs: seq<Octets>, ys: seq<Octets>, i: nat)
    requires xs != [] && ys != [] && i < |xs|
    requires !CollisionAmong(h, HashInputs(h, xs), HashInputs(h, ys))
    requires SameExpansion(Sort(DigestLe, Leaves(h, xs)), Sort(DigestLe, Leaves(h, ys)))
    ensures xs[i] in ys
  {
    var d := Leaves(h, xs)[i];
    SortedLeafIsLeaf(h, xs, d);
    ExpansionElements(Sort(DigestLe, Leaves(h, xs)), Sort(DigestLe, Leaves(h, ys)), d);
    SortedLeafIsLeaf(h, ys, d);
    var j :| 0 <= j < |ys| && Leaves(h, ys)[j] == d;
    EqualLeafEqualRecord(h, xs, ys, i, j);
  }

  /** Where leaf hashing is injective on x, the leaf occurs as often as the record. */
  lemma {:induction false} LeafCount(h: Hash, s: seq<Octets>, x: Octets)
    requires forall y :: y in s && LeafHash(h, y) == LeafHash(h, x) ==> y == x
    ensures multiset(Leaves(h, s))[LeafHash(h, x)] == multiset(s)[x]
  {
    if s != [] {
      LeafCount(h, s[1..], x);
      assert s == [s[0]] + s[1..];
      assert Leaves(h, s) == [LeafHash(h, s[0])] + Leaves(h, s[1..]);
    }
  }

  lemma SameMultiset(h: Hash, xs: seq<Octets>, ys: seq<Octets>)
    requires xs != [] && ys != []
    requires forall x :: x in xs <==> x in ys
    requires !CollisionAmong(h, HashInputs(h, xs), HashInputs(h, ys))
    requires Sort(DigestLe, Leaves(h, xs)) == Sort(DigestLe, Leaves(h, ys))
    ensures multiset(xs) == multiset(ys)
  {
    SortElements(DigestLe, Leaves(h, xs));
    SortElements(DigestLe, Leaves(h, ys));
    forall x
      ensures multiset(xs)[x] == multiset(ys)[x]
    {
      if x in xs {
        forall y | y in xs && LeafHash(h, y) == LeafHash(h, x)
          ensures y == x
        {
          var i :| 0 <= i < |xs| && xs[i] == y;
          var j :| 0 <= j < |ys| && ys[j] == x;
          EqualLeafEqualRecord(h, xs, ys, i, j);
        }
        LeafCount(h, xs, x);
        LeafCount(h, ys, x);
      } else {
        assert x !in multiset(xs) && x !in multiset(ys);
      }
    }
  }

  /**
   * Binding: cycles with equal roots hold the same records, each as often when
   * there are as many; or two byte strings hashed on the way collide.
   */
  lemma Binding(h: Hash, xs: seq<Octets>, ys: seq<Octets>)
    requires xs != [] && ys != []
    requires Root(h, Leaves(h, xs)) == Root(h, Leaves(h, ys))
    ensures CollisionAmong(h, HashInputs(h, xs), HashInputs(h, ys)) ||
            ((forall x :: x in xs <==> x in ys) && (|xs| == |ys| ==> multiset(xs) == multiset(ys)))
  {
    if !CollisionAmong(h, HashInputs(h, xs), HashInputs(h, ys)) {
      RootsEqualIff(h, xs, ys);
      NoCollisionSymmetric(h, HashInputs(h, xs), HashInputs(h, ys));
      forall x
        ensures x in xs <==> x in ys
      {
        if x in xs {
          var i :| 0 <= i < |xs| && xs[i] == x;
          RecordsCarryOver(h, xs, ys, i);
        }
        if x in ys {
          var i :| 0 <= i < |ys| && ys[i] == x;
          RecordsCarryOver(h, ys, xs, i);
        }
      }
      if |xs| == |ys| {
        ExpansionSameLength(Sort(DigestLe, Leaves(h, xs)), Sort(DigestLe, Leaves(h, ys)));
        SameMultiset(h, xs, ys);
      }
    }
  }

  /**
   * Lengths do matter: repeating the greatest leaf of an odd list of at least
   * three leaves keeps the root, for every hash.
   */
  lemma RepeatedLastLeafKeepsRoot(h: Hash, a: seq<Digest>)
    requires |a| >= 3 && |a| % 2 == 1 && Sorted(DigestLe, a)
    ensures Root(h, a + [a[|a| - 1]]) == Root(h, a)
  {
    var b := a + [a[|a| - 1]];
    DigestOrder();
    forall i, j | 0 <= i < j < |b|
      ensures DigestLe(b[i], b[j])
    {
      if j == |a| && i < |a| - 1 {
        assert DigestLe(a[i], a[|a| - 1]);
      }
    }
    SortFixpoint(DigestLe, a);
    SortFixpoint(DigestLe, b);
    assert LevelInputs(a) == LevelInputs(b);
    assert LevelUp(h, a) == LevelUp(h, b);
  }

  // ---- the tree in bytes ---------------------------------------------------

  /** The hash of "\x01node\x01", the left child and the right child. */
  function NodeHash(h: Hash, left: Octets, right: Octets): Digest {
    h([1, 110, 111, 100, 101, 1] + left + right)
  }

  lemma PairRoot(h: Hash, a: Digest, b: Digest)
    ensures LevelUp(h, [a, b]) == [NodeHash(h, a, b)] && Fold(h, [a, b]) == NodeHash(h, a, b)
  {
    assert LevelInputs([a, b])[0] == NodeInput(a, b);
    assert LevelUp(h, [a, b]) == [NodeHash(h, a, b)];
  }

  lemma TripleLevel(h: Hash, a: Digest, b: Digest, c: Digest)
    ensures LevelUp(h, [a, b, c]) == [NodeHash(h, a, b), NodeHash(h, c, c)]
  {
    assert LevelInputs([a, b, c])[0] == NodeInput(a, b) && LevelInputs([a, b, c])[1] == NodeInput(c, c);
  }

  /** Small trees spelled out: no leaf, a leaf's own bytes, two leaves with the smaller one left, and three. */
  lemma TreeInBytes(h: Hash, a: Digest, b: Digest, c: Digest, record: Octets)
    requires LexLe(a, b) && LexLe(b, c)
    ensures Root(h, []) == seq<byte>(32, _ => 0)
    ensures LeafHash(h, record) == h([0, 108, 101, 97, 102, 0] + record)
    ensures Root(h, [a, b]) == NodeHash(h, a, b) && Root(h, [b, a]) == NodeHash(h, a, b)
    ensures Root(h, [a, b, c]) == NodeHash(h, NodeHash(h, a, b), NodeHash(h, c, c))
  {
    LexTransitive(a, b, c);
    SortFixpoint(DigestLe, [a, b]);
    SortFixpoint(DigestLe, [a, b, c]);
    PairRoot(h, a, b);
    assert multiset([a, b]) == multiset([b, a]);
    RootIgnoresOrder(h, [a, b], [b, a]);
    TripleLevel(h, a, b, c);
    PairRoot(h, NodeHash(h, a, b), NodeHash(h, c, c));
  }
}
