/** The archive's Merkle tree: built layer by layer, an unpaired node at the end of a layer being
    promoted unchanged, and the head and audit paths of section 2.1 of RFC 6962, which splits at
    the largest power of two. The two constructions are the same. */
module MerkleTree {
  import opened Texts

  /** Prefixed SHA-256 as a free algebra: a leaf hash, an interior hash, or any other 32 bytes. */
  datatype Digest =
    | LeafHash(content: string)
    | NodeHash(left: Digest, right: Digest)
    | Other(bytes: string)

  /** A level of an audit path as the archive emits it: a sibling, or the empty string at a level
      where the node was promoted. */
  datatype Level = Sibling(digest: Digest) | Promoted

  // ---------------------------------------------------------------- layer by layer

  /** The next layer up. */
  function Layer(nodes: seq<Digest>): (up: seq<Digest>)
    ensures |up| == (|nodes| + 1) / 2
  {
    if |nodes| < 2 then nodes
    else [NodeHash(nodes[0], nodes[1])] + Layer(nodes[2..])
  }

  /** compute_merkle_root of the archive. */
  function LayeredRoot(nodes: seq<Digest>): Digest
    requires nodes != []
    decreases |nodes|
  {
    if |nodes| == 1 then nodes[0] else LayeredRoot(Layer(nodes))
  }

  /** What the path records for position m of one layer. */
  function LevelFor(nodes: seq<Digest>, m: nat): Level
    requires m < |nodes|
  {
    if m == |nodes| - 1 && m % 2 == 0 then Promoted
    else Sibling(nodes[if m % 2 == 1 then m - 1 else m + 1])
  }

  /** compute_inclusion_proof of the archive. */
  function LayeredPath(nodes: seq<Digest>, m: nat): seq<Level>
    requires m < |nodes|
    decreases |nodes|
  {
    if |nodes| == 1 then [] else [LevelFor(nodes, m)] + LayeredPath(Layer(nodes), m / 2)
  }

  // ---------------------------------------------------------------- section 2.1 of RFC 6962

  /** The largest power of two smaller than n. */
  function Split(n: nat): (k: nat)
    requires n >= 2
    ensures 1 <= k < n <= 2 * k
    decreases n
  {
    if n == 2 then 1 else 2 * Split((n + 1) / 2)
  }

  ghost predicate PowerOfTwo(k: nat) {
    exists e: nat :: k == Pow2(e)
  }

  function Pow2(e: nat): nat {
    if e == 0 then 1 else 2 * Pow2(e - 1)
  }

  /** Split is indeed a power of two, hence with its bounds the largest one below n. */
  lemma {:induction false} SplitIsPowerOfTwo(n: nat)
    requires n >= 2
    ensures PowerOfTwo(Split(n))
  {
    if n == 2 {
      assert Split(n) == Pow2(0);
    } else {
      SplitIsPowerOfTwo((n + 1) / 2);
      var e: nat :| Split((n + 1) / 2) == Pow2(e);
      assert Split(n) == Pow2(e + 1);
    }
  }

  /** MTH over already hashed nodes. */
  function TreeHead(nodes: seq<Digest>): Digest
    requires nodes != []
    decreases |nodes|
  {
    if |nodes| == 1 then nodes[0]
    else
      var k := Split(|nodes|);
      NodeHash(TreeHead(nodes[..k]), TreeHead(nodes[k..]))
  }

  /** PATH of section 2.1.1: the siblings from the bottom up. */
  function TreePath(nodes: seq<Digest>, m: nat): seq<Digest>
    requires m < |nodes|
    decreases |nodes|
  {
    if |nodes| == 1 then []
    else
      var k := Split(|nodes|);
      if m < k then TreePath(nodes[..k], m) + [TreeHead(nodes[k..])]
      else TreePath(nodes[k..], m - k) + [TreeHead(nodes[..k])]
  }

  /** Which side the node is on at each of those levels: true for the right. */
  function Turns(m: nat, n: nat): seq<bool>
    requires m < n
    decreases n
  {
    if n == 1 then []
    else
      var k := Split(n);
      if m < k then Turns(m, k) + [false] else Turns(m - k, n - k) + [true]
  }

  // ---------------------------------------------------------------- the layers respect the split

  lemma {:induction false} LayerSplits(a: seq<Digest>, b: seq<Digest>)
    requires |a| % 2 == 0
    ensures Layer(a + b) == Layer(a) + Layer(b)
  {
    if a == [] {
      assert a + b == b;
    } else {
      LayerSplits(a[2..], b);
      assert (a + b)[2..] == a[2..] + b && (a + b)[0] == a[0] && (a + b)[1] == a[1];
      Regroup([NodeHash(a[0], a[1])], Layer(a[2..]), Layer(b));
    }
  }

  /** For more than two nodes the split point is even, and halving it splits the next layer. */
  lemma SplitHalves(n: nat)
    requires n > 2
    ensures Split(n) % 2 == 0 && Split((n + 1) / 2) == Split(n) / 2
  {
  }

  lemma LayerAtSplit(nodes: seq<Digest>)
    requires |nodes| > 2
    ensures var k := Split(|nodes|);
            && Layer(nodes) == Layer(nodes[..k]) + Layer(nodes[k..])
            && |Layer(nodes[..k])| == k / 2 == Split(|Layer(nodes)|)
            && Layer(nodes)[..k / 2] == Layer(nodes[..k])
            && Layer(nodes)[k / 2..] == Layer(nodes[k..])
  {
    var k := Split(|nodes|);
    SplitHalves(|nodes|);
    assert nodes == nodes[..k] + nodes[k..];
    LayerSplits(nodes[..k], nodes[k..]);
  }

  /** One layer up does not change the RFC 6962 head. */
  lemma {:induction false} LayerKeepsHead(nodes: seq<Digest>)
    requires |nodes| >= 2
    ensures TreeHead(Layer(nodes)) == TreeHead(nodes)
    decreases |nodes|
  {
    if |nodes| == 2 {
      assert nodes[2..] == [];
      assert nodes[..1] == [nodes[0]] && nodes[1..] == [nodes[1]];
    } else {
      var k := Split(|nodes|);
      LayerAtSplit(nodes);
      LayerKeepsHead(nodes[..k]);
      if |nodes| - k >= 2 {
        LayerKeepsHead(nodes[k..]);
      }
    }
  }

  /** The layer-by-layer root is the Merkle Tree Hash of RFC 6962. */
  lemma {:induction false} LayeredRootIsTreeHead(nodes: seq<Digest>)
    requires nodes != []
    ensures LayeredRoot(nodes) == TreeHead(nodes)
    decreases |nodes|
  {
    if |nodes| > 1 {
      LayerKeepsHead(nodes);
      LayeredRootIsTreeHead(Layer(nodes));
    }
  }

  // ---------------------------------------------------------------- paths

  /** The siblings of a path with its promotion markers erased. */
  function Siblings(path: seq<Level>): seq<Digest> {
    if path == [] then []
    else (if path[0].Sibling? then [path[0].digest] else []) + Siblings(path[1..])
  }

  /** The sides read off the index, one bit a level, at the levels that carry a sibling. */
  function Sides(path: seq<Level>, index: nat): seq<bool> {
    if path == [] then []
    else (if path[0].Sibling? then [index % 2 == 1] else []) + Sides(path[1..], index / 2)
  }

  /** One layer up on either side of the split keeps that side's head. */
  lemma SideKeepsHead(nodes: seq<Digest>)
    requires nodes != []
    ensures TreeHead(Layer(nodes)) == TreeHead(nodes)
  {
    if |nodes| >= 2 {
      LayerKeepsHead(nodes);
    }
  }

  lemma LevelBelowSplit(nodes: seq<Digest>, k: nat, m: nat)
    requires k % 2 == 0 && m < k <= |nodes|
    ensures LevelFor(nodes[..k], m) == LevelFor(nodes, m)
  {
  }

  lemma LevelAboveSplit(nodes: seq<Digest>, k: nat, m: nat)
    requires k % 2 == 0 && k <= m < |nodes|
    ensures LevelFor(nodes[k..], m - k) == LevelFor(nodes, m) && m / 2 == k / 2 + (m - k) / 2
  {
  }

  lemma OneSibling(l: Level)
    ensures Siblings([l]) == if l.Sibling? then [l.digest] else []
  {
    assert [l][1..] == [];
  }

  /** The siblings of a path are the one at the bottom, if any, and those of the path one layer up. */
  lemma {:induction false} TreePathByLayer(nodes: seq<Digest>, m: nat)
    requires m < |nodes| && |nodes| >= 2
    ensures ByLayer(nodes, m)
    decreases |nodes|
  {
    if |nodes| == 2 {
      PathOfTwo(nodes, m);
    } else {
      var k := Split(|nodes|);
      SplitHalves(|nodes|);
      if m < k {
        TreePathByLayer(nodes[..k], m);
        LowPathByLayer(nodes, m);
      } else {
        if |nodes| - k >= 2 {
          TreePathByLayer(nodes[k..], m - k);
        }
        HighPathByLayer(nodes, m);
      }
    }
  }

  ghost predicate ByLayer(nodes: seq<Digest>, m: nat)
    requires m < |nodes|
  {
    TreePath(nodes, m) == Siblings([LevelFor(nodes, m)]) + TreePath(Layer(nodes), m / 2)
  }

  lemma PathOfTwo(nodes: seq<Digest>, m: nat)
    requires m < |nodes| == 2
    ensures TreePath(nodes, m) == Siblings([LevelFor(nodes, m)]) + TreePath(Layer(nodes), m / 2)
  {
    OneSibling(LevelFor(nodes, m));
    assert nodes[2..] == [];
    assert nodes[..1] == [nodes[0]] && nodes[1..] == [nodes[1]];
  }

  lemma LowPathUp(nodes: seq<Digest>, m: nat)
    requires |nodes| > 2 && m < Split(|nodes|)
    ensures var k := Split(|nodes|);
            |Layer(nodes[..k])| == k / 2 > m / 2
            && TreePath(Layer(nodes), m / 2) == TreePath(Layer(nodes[..k]), m / 2) + [TreeHead(nodes[k..])]
  {
    var k := Split(|nodes|);
    SplitHalves(|nodes|);
    LayerAtSplit(nodes);
    SideKeepsHead(nodes[k..]);
  }

  lemma LowPathByLayer(nodes: seq<Digest>, m: nat)
    requires |nodes| > 2 && m < Split(|nodes|)
    requires var low := nodes[..Split(|nodes|)];
             TreePath(low, m) == Siblings([LevelFor(low, m)]) + TreePath(Layer(low), m / 2)
    ensures TreePath(nodes, m) == Siblings([LevelFor(nodes, m)]) + TreePath(Layer(nodes), m / 2)
  {
    var k := Split(|nodes|);
    SplitHalves(|nodes|);
    LevelBelowSplit(nodes, k, m);
    LowPathUp(nodes, m);
    Regroup(Siblings([LevelFor(nodes, m)]), TreePath(Layer(nodes[..k]), m / 2), [TreeHead(nodes[k..])]);
  }

  lemma PathBelowSplit(nodes: seq<Digest>, k: nat, m: nat)
    requires |nodes| >= 2 && k == Split(|nodes|) && m < k
    ensures TreePath(nodes, m) == TreePath(nodes[..k], m) + [TreeHead(nodes[k..])]
  {
  }

  lemma PathAboveSplit(nodes: seq<Digest>, k: nat, m: nat)
    requires |nodes| >= 2 && k == Split(|nodes|) && k <= m < |nodes|
    ensures TreePath(nodes, m) == TreePath(nodes[k..], m - k) + [TreeHead(nodes[..k])]
  {
  }

  lemma EvenShift(k: nat, m: nat)
    requires k % 2 == 0 && k <= m
    ensures m / 2 == k / 2 + (m - k) / 2
  {
  }

  lemma HighPathUp(nodes: seq<Digest>, m: nat)
    requires |nodes| > 2 && Split(|nodes|) <= m < |nodes|
    ensures var k := Split(|nodes|);
            (m - k) / 2 < |Layer(nodes[k..])|
            && TreePath(Layer(nodes), m / 2) == TreePath(Layer(nodes[k..]), (m - k) / 2) + [TreeHead(nodes[..k])]
  {
    var k := Split(|nodes|);
    LayerAtSplit(nodes);
    SideKeepsHead(nodes[..k]);
    SplitHalves(|nodes|);
    EvenShift(k, m);
    PathAboveSplit(Layer(nodes), k / 2, m / 2);
  }

  lemma HighPathByLayer(nodes: seq<Digest>, m: nat)
    requires |nodes| > 2 && Split(|nodes|) <= m < |nodes|
    requires var k := Split(|nodes|);
             |nodes| - k >= 2 ==>
               TreePath(nodes[k..], m - k) == Siblings([LevelFor(nodes[k..], m - k)]) + TreePath(Layer(nodes[k..]), (m - k) / 2)
    ensures TreePath(nodes, m) == Siblings([LevelFor(nodes, m)]) + TreePath(Layer(nodes), m / 2)
  {
    var k := Split(|nodes|);
    SplitHalves(|nodes|);
    LevelAboveSplit(nodes, k, m);
    OneSibling(LevelFor(nodes, m));
    HighPathUp(nodes, m);
    if |nodes| - k >= 2 {
      Regroup(Siblings([LevelFor(nodes, m)]), TreePath(Layer(nodes[k..]), (m - k) / 2), [TreeHead(nodes[..k])]);
    }
  }

  /** The side at the bottom level, if the node is not promoted there. */
  function BottomTurn(m: nat, n: nat): seq<bool> {
    if m == n - 1 && m % 2 == 0 then [] else [m % 2 == 1]
  }

  /** The sides of a path one layer up are those above the bottom. */
  lemma {:induction false} TurnsByLayer(m: nat, n: nat)
    requires m < n && n >= 2
    ensures Turns(m, n) == BottomTurn(m, n) + Turns(m / 2, (n + 1) / 2)
    decreases n
  {
    if n == 2 {
      TurnsOfTwo(m);
    } else {
      var k := Split(n);
      SplitHalves(n);
      if m < k {
        TurnsByLayer(m, k);
        LowTurnsByLayer(m, n, k, (n + 1) / 2);
      } else {
        if n - k >= 2 {
          TurnsByLayer(m - k, n - k);
        }
        HighTurnsByLayer(m, n, k, (n + 1) / 2);
      }
    }
  }

  lemma TurnsOfTwo(m: nat)
    requires m < 2
    ensures Turns(m, 2) == BottomTurn(m, 2) + Turns(m / 2, 1)
  {
    assert Turns(0, 1) == [];
  }

  lemma TurnsBelowSplit(m: nat, n: nat, k: nat)
    requires n >= 2 && k == Split(n) && m < k
    ensures Turns(m, n) == Turns(m, k) + [false]
  {
  }

  lemma TurnsAboveSplit(m: nat, n: nat, k: nat)
    requires n >= 2 && k == Split(n) && k <= m < n
    ensures Turns(m, n) == Turns(m - k, n - k) + [true]
  {
  }

  lemma EvenHalf(k: nat, m: nat)
    requires k % 2 == 0
    ensures (k + 1) / 2 == k / 2 && (m < k ==> m / 2 < k / 2)
  {
  }

  lemma LowTurnsByLayer(m: nat, n: nat, k: nat, up: nat)
    requires n > 2 && up == (n + 1) / 2 && k == Split(n) && k % 2 == 0 && k / 2 == Split(up) && m < k
    requires Turns(m, k) == BottomTurn(m, k) + Turns(m / 2, (k + 1) / 2)
    ensures Turns(m, n) == BottomTurn(m, n) + Turns(m / 2, up)
  {
    EvenHalf(k, m);
    TurnsBelowSplit(m, n, k);
    TurnsBelowSplit(m / 2, up, k / 2);
    BottomTurnBelow(m, n, k);
    Regroup(BottomTurn(m, n), Turns(m / 2, k / 2), [false]);
  }

  lemma BottomTurnBelow(m: nat, n: nat, k: nat)
    requires k % 2 == 0 && m < k <= n
    ensures BottomTurn(m, k) == BottomTurn(m, n)
  {
  }

  lemma BottomTurnAbove(m: nat, n: nat, k: nat)
    requires k % 2 == 0 && k <= m < n
    ensures BottomTurn(m - k, n - k) == BottomTurn(m, n)
  {
  }

  lemma HighTurnsUp(m: nat, n: nat, k: nat, up: nat)
    requires n > 2 && up == (n + 1) / 2 && k % 2 == 0 && k / 2 == Split(up) && k <= m < n
    ensures (m - k) / 2 < (n - k + 1) / 2
    ensures Turns(m / 2, up) == Turns((m - k) / 2, (n - k + 1) / 2) + [true]
  {
    EvenShift(k, m);
    EvenShift(k, n + 1);
    TurnsAboveSplit(m / 2, up, k / 2);
  }

  lemma HighTurnsByLayer(m: nat, n: nat, k: nat, up: nat)
    requires n > 2 && up == (n + 1) / 2 && k == Split(n) && k % 2 == 0 && k / 2 == Split(up) && k <= m < n
    requires n - k >= 2 ==> Turns(m - k, n - k) == BottomTurn(m - k, n - k) + Turns((m - k) / 2, (n - k + 1) / 2)
    ensures Turns(m, n) == BottomTurn(m, n) + Turns(m / 2, up)
  {
    TurnsAboveSplit(m, n, k);
    HighTurnsUp(m, n, k, up);
    BottomTurnAbove(m, n, k);
    if n - k >= 2 {
      Regroup(BottomTurn(m, n), Turns((m - k) / 2, (n - k + 1) / 2), [true]);
    } else {
      AloneAbove(m, n, k);
    }
  }

  lemma AloneAbove(m: nat, n: nat, k: nat)
    requires k % 2 == 0 && k <= m < n && n - k < 2
    ensures BottomTurn(m, n) == [] && Turns((m - k) / 2, (n - k + 1) / 2) == [] == Turns(m - k, n - k)
  {
  }

  /** The archive's path with its markers erased is PATH of RFC 6962, and the sides its verifier
      reads off the index are the sides of that path. */
  lemma {:induction false} LayeredPathIsTreePath(nodes: seq<Digest>, m: nat)
    requires m < |nodes|
    ensures Siblings(LayeredPath(nodes, m)) == TreePath(nodes, m)
    ensures Sides(LayeredPath(nodes, m), m) == Turns(m, |nodes|)
    decreases |nodes|
  {
    if |nodes| > 1 {
      LayeredPathIsTreePath(Layer(nodes), m / 2);
      TreePathByLayer(nodes, m);
      TurnsByLayer(m, |nodes|);
      FirstLevel(LevelFor(nodes, m), LayeredPath(Layer(nodes), m / 2), m);
    }
  }

  lemma FirstLevel(l: Level, rest: seq<Level>, m: nat)
    ensures Siblings([l] + rest) == Siblings([l]) + Siblings(rest)
    ensures Sides([l] + rest, m) == (if l.Sibling? then [m % 2 == 1] else []) + Sides(rest, m / 2)
  {
    OneSibling(l);
    assert ([l] + rest)[1..] == rest;
  }
}
