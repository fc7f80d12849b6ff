/** The offline check of an archive inclusion proof: which paths it accepts, for which leaf, and
    when acceptance says something about the claimed leaf index. */
module AuditPaths {
  import opened Texts
  import opened MerkleTree

  /** One audit_path element as read from the proof file. */
  datatype Entry = Readable(level: Level) | Malformed

  function Levels(path: seq<Entry>): seq<Level>
    requires Malformed !in path
  {
    seq(|path|, i requires 0 <= i < |path| => assert path[i] in path; path[i].level)
  }

  function Combine(h: Digest, sibling: Digest, right: bool): Digest {
    if right then NodeHash(sibling, h) else NodeHash(h, sibling)
  }

  /** The digest reached from h along a path, the side at each level being a bit of the index. */
  function Replay(h: Digest, path: seq<Level>, index: nat): Digest
    decreases |path|
  {
    if path == [] then h
    else match path[0]
      case Promoted => Replay(h, path[1..], index / 2)
      case Sibling(d) => Replay(Combine(h, d, index % 2 == 1), path[1..], index / 2)
  }

  ghost predicate Accepts(leafHash: Digest, path: seq<Level>, index: int, size: int, root: Digest) {
    0 <= index < size && Replay(leafHash, path, index) == root
  }

  /** _rfc6962_verify_audit_path */
  method VerifyAuditPath(leafHash: Digest, path: seq<Entry>, leafIndex: int, treeSize: int, expectedRoot: Digest)
    returns (ok: bool)
    ensures ok <==> Malformed !in path && Accepts(leafHash, Levels(path), leafIndex, treeSize, expectedRoot)
    ensures ok ==> 0 <= leafIndex < treeSize
  {
    if !(0 <= leafIndex < treeSize) {
      return false;
    }
    var h, idx := leafHash, leafIndex;
    for i := 0 to |path|
      invariant idx >= 0
      invariant Malformed !in path[..i]
      invariant Malformed !in path ==> Replay(h, Levels(path)[i..], idx) == Replay(leafHash, Levels(path), leafIndex)
    {
      assert path[..i + 1] == path[..i] + [path[i]];
      match path[i] {
        case Malformed =>
          return false;
        case Readable(level) =>
          assert Malformed !in path ==> Levels(path)[i..][0] == level && Levels(path)[i..][1..] == Levels(path)[i + 1..];
          match level {
            case Promoted =>
            case Sibling(d) =>
              h := if idx % 2 == 1 then NodeHash(d, h) else NodeHash(h, d);
          }
          idx := idx / 2;
      }
    }
    assert path[..|path|] == path;
    assert Levels(path)[|path|..] == [];
    ok := h == expectedRoot;
  }

  // ---------------------------------------------------------------- climbing with explicit sides

  function Climb(h: Digest, siblings: seq<Digest>, sides: seq<bool>): Digest
    requires |siblings| == |sides|
  {
    if siblings == [] then h
    else
      var k := |siblings| - 1;
      Combine(Climb(h, siblings[..k], sides[..k]), siblings[k], sides[k])
  }

  lemma {:induction false} SiblingsMatchSides(path: seq<Level>, index: nat)
    ensures |Siblings(path)| == |Sides(path, index)|
  {
    if path != [] {
      SiblingsMatchSides(path[1..], index / 2);
    }
  }

  lemma {:induction false} ClimbFirst(h: Digest, d: Digest, b: bool, siblings: seq<Digest>, sides: seq<bool>)
    requires |siblings| == |sides|
    ensures Climb(h, [d] + siblings, [b] + sides) == Climb(Combine(h, d, b), siblings, sides)
  {
    if siblings == [] {
      assert [d] + siblings == [d] && [b] + sides == [b];
      assert Climb(h, [d][..0], [b][..0]) == h;
    } else {
      var k := |siblings| - 1;
      ClimbFirst(h, d, b, siblings[..k], sides[..k]);
      assert ([d] + siblings)[..k + 1] == [d] + siblings[..k] && ([b] + sides)[..k + 1] == [b] + sides[..k];
    }
  }

  /** Only the siblings and the sides they are on matter. */
  lemma {:induction false} ReplayClimbs(h: Digest, path: seq<Level>, index: nat)
    ensures |Siblings(path)| == |Sides(path, index)|
    ensures Replay(h, path, index) == Climb(h, Siblings(path), Sides(path, index))
    decreases |path|
  {
    SiblingsMatchSides(path, index);
    if path != [] {
      var rest := path[1..];
      match path[0] {
        case Promoted =>
          ReplayClimbs(h, rest, index / 2);
          assert Siblings(path) == Siblings(rest) && Sides(path, index) == Sides(rest, index / 2);
        case Sibling(d) =>
          ReplayClimbs(Combine(h, d, index % 2 == 1), rest, index / 2);
          ClimbFirst(h, d, index % 2 == 1, Siblings(rest), Sides(rest, index / 2));
      }
    }
  }

  lemma ClimbLast(h: Digest, siblings: seq<Digest>, sides: seq<bool>, d: Digest, b: bool)
    requires |siblings| == |sides|
    ensures Climb(h, siblings + [d], sides + [b]) == Combine(Climb(h, siblings, sides), d, b)
  {
    assert (siblings + [d])[..|siblings|] == siblings && (sides + [b])[..|sides|] == sides;
  }

  /** The RFC 6962 path of node m, with its turns, leads to the head. */
  ghost predicate PathClimbs(nodes: seq<Digest>, m: nat)
    requires m < |nodes|
  {
    && |TreePath(nodes, m)| == |Turns(m, |nodes|)|
    && Climb(nodes[m], TreePath(nodes, m), Turns(m, |nodes|)) == TreeHead(nodes)
  }

  /** That of any node does. */
  lemma {:induction false} TreePathClimbs(nodes: seq<Digest>, m: nat)
    requires m < |nodes|
    ensures PathClimbs(nodes, m)
    decreases |nodes|
  {
    if |nodes| > 1 {
      var k := Split(|nodes|);
      if m < k {
        TreePathClimbs(nodes[..k], m);
        ClimbsFromLow(nodes, m, k);
      } else {
        TreePathClimbs(nodes[k..], m - k);
        ClimbsFromHigh(nodes, m, k);
      }
    }
  }

  lemma {:induction false} HeadAtSplit(nodes: seq<Digest>, k: nat)
    requires |nodes| > 1 && k == Split(|nodes|)
    ensures TreeHead(nodes) == NodeHash(TreeHead(nodes[..k]), TreeHead(nodes[k..]))
  {
  }

  lemma {:induction false} ClimbsFromLow(nodes: seq<Digest>, m: nat, k: nat)
    requires |nodes| > 1 && k == Split(|nodes|) && m < k && PathClimbs(nodes[..k], m)
    ensures PathClimbs(nodes, m)
  {
    var low, high := nodes[..k], nodes[k..];
    assert low[m] == nodes[m];
    var path, turns := TreePath(low, m), Turns(m, |low|);
    ClimbLast(low[m], path, turns, TreeHead(high), false);
    assert TreePath(nodes, m) == path + [TreeHead(high)] by { PathBelowSplit(nodes, k, m); }
    assert Turns(m, |nodes|) == turns + [false] by { TurnsBelowSplit(m, |nodes|, k); }
    HeadAtSplit(nodes, k);
  }

  lemma {:induction false} ClimbsFromHigh(nodes: seq<Digest>, m: nat, k: nat)
    requires |nodes| > 1 && k == Split(|nodes|) && k <= m < |nodes| && PathClimbs(nodes[k..], m - k)
    ensures PathClimbs(nodes, m)
  {
    var low, high := nodes[..k], nodes[k..];
    assert high[m - k] == nodes[m];
    var path, turns := TreePath(high, m - k), Turns(m - k, |high|);
    ClimbLast(high[m - k], path, turns, TreeHead(low), true);
    assert TreePath(nodes, m) == path + [TreeHead(low)] by { PathAboveSplit(nodes, k, m); }
    assert Turns(m, |nodes|) == turns + [true] by { TurnsAboveSplit(m, |nodes|, k); }
    HeadAtSplit(nodes, k);
  }

  ghost predicate AllLeaves(nodes: seq<Digest>) {
    forall i :: 0 <= i < |nodes| ==> nodes[i].LeafHash?
  }

  /** These siblings on these sides are the RFC 6962 path of leaf j. */
  ghost predicate PathOf(nodes: seq<Digest>, j: nat, siblings: seq<Digest>, sides: seq<bool>)
    requires j < |nodes|
  {
    sides == Turns(j, |nodes|) && siblings == TreePath(nodes, j)
  }

  lemma {:induction false} PathInLowHalf(nodes: seq<Digest>, k: nat, j: nat, siblings: seq<Digest>, sides: seq<bool>)
    requires |nodes| > 1 && k == Split(|nodes|) && j < k && PathOf(nodes[..k], j, siblings, sides)
    ensures PathOf(nodes, j, siblings + [TreeHead(nodes[k..])], sides + [false])
  {
    TurnsBelowSplit(j, |nodes|, k);
    PathBelowSplit(nodes, k, j);
  }

  lemma {:induction false} PathInHighHalf(nodes: seq<Digest>, k: nat, j: nat, siblings: seq<Digest>, sides: seq<bool>)
    requires |nodes| > 1 && k == Split(|nodes|) && k <= j < |nodes| && PathOf(nodes[k..], j - k, siblings, sides)
    ensures PathOf(nodes, j, siblings + [TreeHead(nodes[..k])], sides + [true])
  {
    TurnsAboveSplit(j, |nodes|, k);
    PathAboveSplit(nodes, k, j);
  }

  /** The last step of a climb to a head enters one half and supplies the head of the other. */
  lemma TopStep(h: Digest, siblings: seq<Digest>, sides: seq<bool>, low: Digest, high: Digest)
    returns (s: seq<Digest>, t: seq<bool>, right: bool)
    requires h.LeafHash? && |siblings| == |sides| && Climb(h, siblings, sides) == NodeHash(low, high)
    ensures |s| == |t| && sides == t + [right] && siblings == s + [if right then low else high]
    ensures Climb(h, s, t) == if right then high else low
  {
    var top := |siblings| - 1;
    s, t, right := siblings[..top], sides[..top], sides[top];
  }

  /** Whatever leads a leaf hash to the head of a tree of leaf hashes is the path of one of the
      leaves, turn by turn and sibling by sibling. */
  lemma {:induction false} OnlyTreePathsClimb(c: string, siblings: seq<Digest>, sides: seq<bool>, nodes: seq<Digest>)
    returns (j: nat)
    requires nodes != [] && AllLeaves(nodes) && |siblings| == |sides|
    requires Climb(LeafHash(c), siblings, sides) == TreeHead(nodes)
    ensures j < |nodes| && nodes[j] == LeafHash(c) && PathOf(nodes, j, siblings, sides)
    decreases |nodes|
  {
    if |nodes| == 1 {
      j := 0;
    } else {
      var k := Split(|nodes|);
      var low, high := nodes[..k], nodes[k..];
      var s, t, right := TopStep(LeafHash(c), siblings, sides, TreeHead(low), TreeHead(high));
      if right {
        var i := OnlyTreePathsClimb(c, s, t, high);
        j := k + i;
        PathInHighHalf(nodes, k, j, s, t);
      } else {
        j := OnlyTreePathsClimb(c, s, t, low);
        PathInLowHalf(nodes, k, j, s, t);
      }
    }
  }

  /** Turns identify the leaf. */
  lemma {:induction false} TurnsInjective(i: nat, j: nat, n: nat)
    requires i < n && j < n && Turns(i, n) == Turns(j, n)
    ensures i == j
    decreases n
  {
    if n > 1 {
      var k := Split(n);
      var t, u := Turns(i, n), Turns(j, n);
      assert t[|t| - 1] == (i >= k) && u[|u| - 1] == (j >= k);
      if i < k {
        assert t[..|t| - 1] == Turns(i, k) && u[..|u| - 1] == Turns(j, k);
        TurnsInjective(i, j, k);
      } else {
        assert t[..|t| - 1] == Turns(i - k, n - k) && u[..|u| - 1] == Turns(j - k, n - k);
        TurnsInjective(i - k, j - k, n - k);
      }
    }
  }

  // ---------------------------------------------------------------- what acceptance means

  function LeafHashes(leaves: seq<string>): seq<Digest> {
    seq(|leaves|, i requires 0 <= i < |leaves| => LeafHash(leaves[i]))
  }

  /** The archive's root over the row hashes of an epoch. */
  function Root(leaves: seq<string>): Digest
    requires leaves != []
  {
    LayeredRoot(LeafHashes(leaves))
  }

  /** Completeness: every proof the archive emits is accepted, for every size and index. */
  lemma EmittedProofsAccepted(leaves: seq<string>, m: nat)
    requires m < |leaves|
    ensures Accepts(LeafHash(leaves[m]), LayeredPath(LeafHashes(leaves), m), m, |leaves|, Root(leaves))
  {
    var nodes := LeafHashes(leaves);
    LayeredRootIsTreeHead(nodes);
    LayeredPathIsTreePath(nodes, m);
    TreePathClimbs(nodes, m);
    ReplayClimbs(nodes[m], LayeredPath(nodes, m), m);
  }

  /** Leaf j is what this path, read with this index, leads to. */
  ghost predicate LeadsTo(leaves: seq<string>, path: seq<Level>, index: nat, j: nat)
    requires j < |leaves|
  {
    PathOf(LeafHashes(leaves), j, Siblings(path), Sides(path, index))
  }

  /** A leaf-prefixed hash is accepted exactly when it is the hash of a leaf whose RFC 6962 path,
      sides and siblings, is the given path read with the given index. */
  lemma AcceptedIffLeadsToLeaf(leaves: seq<string>, c: string, path: seq<Level>, index: nat)
    requires index < |leaves|
    ensures Accepts(LeafHash(c), path, index, |leaves|, Root(leaves))
       <==> exists j :: 0 <= j < |leaves| && leaves[j] == c && LeadsTo(leaves, path, index, j)
  {
    var nodes := LeafHashes(leaves);
    LayeredRootIsTreeHead(nodes);
    ReplayClimbs(LeafHash(c), path, index);
    if Accepts(LeafHash(c), path, index, |leaves|, Root(leaves)) {
      var j := OnlyTreePathsClimb(c, Siblings(path), Sides(path, index), nodes);
      assert leaves[j] == c && LeadsTo(leaves, path, index, j);
    }
    forall j | 0 <= j < |leaves| && leaves[j] == c && LeadsTo(leaves, path, index, j)
      ensures Accepts(LeafHash(c), path, index, |leaves|, Root(leaves))
    {
      TreePathClimbs(nodes, j);
    }
  }

  /** An accepted proof is about the claimed index exactly when the sides the path reads off that
      index are the turns of that index in a tree of that size: a comparison of the proof with
      leaf_index and tree_size alone, which the verifier does not make. Otherwise it is about one
      other leaf, and says nothing of the claimed one unless the two happen to be equal. */
  lemma AboutClaimedIndexIff(leaves: seq<string>, c: string, path: seq<Level>, index: nat)
    requires index < |leaves| && Accepts(LeafHash(c), path, index, |leaves|, Root(leaves))
    ensures LeadsTo(leaves, path, index, index) <==> Sides(path, index) == Turns(index, |leaves|)
    ensures leaves[index] == c
       <==> || Sides(path, index) == Turns(index, |leaves|)
            || exists j :: 0 <= j < |leaves| && j != index && leaves[j] == c == leaves[index] && LeadsTo(leaves, path, index, j)
  {
    AcceptedIffLeadsToLeaf(leaves, c, path, index);
    var j :| 0 <= j < |leaves| && leaves[j] == c && LeadsTo(leaves, path, index, j);
    if Sides(path, index) == Turns(index, |leaves|) {
      TurnsInjective(index, j, |leaves|);
    }
  }

  /** The markers sit exactly at the levels where leaf m of n is promoted, all levels present. */
  predicate MarkersFit(path: seq<Level>, m: nat, n: nat)
    requires m < n
    decreases n
  {
    if n == 1 then path == []
    else
      && path != []
      && (path[0].Promoted? <==> m == n - 1 && m % 2 == 0)
      && MarkersFit(path[1..], m / 2, (n + 1) / 2)
  }

  lemma {:induction false} FittingMarkersTurn(path: seq<Level>, m: nat, n: nat)
    requires m < n && MarkersFit(path, m, n)
    ensures Sides(path, m) == Turns(m, n)
    decreases n
  {
    if n > 1 {
      TurnsByLayer(m, n);
      FittingMarkersTurn(path[1..], m / 2, (n + 1) / 2);
    }
  }

  lemma {:induction false} EmittedMarkersFit(nodes: seq<Digest>, m: nat)
    requires m < |nodes|
    ensures MarkersFit(LayeredPath(nodes, m), m, |nodes|)
    decreases |nodes|
  {
    if |nodes| > 1 {
      var path := LayeredPath(nodes, m);
      assert path[1..] == LayeredPath(Layer(nodes), m / 2);
      EmittedMarkersFit(Layer(nodes), m / 2);
    }
  }

  /** Fitting markers and equal siblings make equal paths. */
  lemma {:induction false} FittingPathsEqual(p: seq<Level>, q: seq<Level>, m: nat, n: nat)
    requires m < n && MarkersFit(p, m, n) && MarkersFit(q, m, n) && Siblings(p) == Siblings(q)
    ensures p == q
    decreases n
  {
    if n > 1 {
      if p[0].Sibling? {
        var s, t := Siblings(p), Siblings(q);
        assert s[0] == p[0].digest && t[0] == q[0].digest;
        assert s[1..] == Siblings(p[1..]) && t[1..] == Siblings(q[1..]);
      } else {
        assert Siblings(p) == Siblings(p[1..]) && Siblings(q) == Siblings(q[1..]);
      }
      FittingPathsEqual(p[1..], q[1..], m / 2, (n + 1) / 2);
      assert p == [p[0]] + p[1..] && q == [q[0]] + q[1..];
    }
  }

  /** Soundness and uniqueness: with markers that fit the claimed index and size, an accepted leaf
      hash is the leaf at that index and the path is the one the archive emits for it. */
  lemma FittingProofIsTheEmittedOne(leaves: seq<string>, c: string, path: seq<Level>, index: nat)
    requires index < |leaves| && MarkersFit(path, index, |leaves|)
    ensures Accepts(LeafHash(c), path, index, |leaves|, Root(leaves))
       <==> c == leaves[index] && path == LayeredPath(LeafHashes(leaves), index)
  {
    var nodes, n := LeafHashes(leaves), |leaves|;
    if Accepts(LeafHash(c), path, index, n, Root(leaves)) {
      AcceptedIffLeadsToLeaf(leaves, c, path, index);
      var j :| 0 <= j < n && leaves[j] == c && LeadsTo(leaves, path, index, j);
      FittingMarkersTurn(path, index, n);
      TurnsInjective(index, j, n);
      LayeredPathIsTreePath(nodes, index);
      EmittedMarkersFit(nodes, index);
      FittingPathsEqual(path, LayeredPath(nodes, index), index, n);
    } else if c == leaves[index] && path == LayeredPath(nodes, index) {
      EmittedProofsAccepted(leaves, index);
    }
  }

  /** Without that comparison acceptance does not establish the index: in a tree of three leaves
      the last one is also accepted as number 1, by leaving the promotion marker out. */
  lemma AcceptedAtWrongIndex(a: string, b: string, c: string)
    requires a != b && b != c && a != c
    ensures Accepts(LeafHash(c), [Sibling(NodeHash(LeafHash(a), LeafHash(b)))], 1, 3, Root([a, b, c]))
    ensures [a, b, c][1] != c
  {
    var nodes := LeafHashes([a, b, c]);
    assert nodes == [LeafHash(a), LeafHash(b), LeafHash(c)];
    assert nodes[2..] == [LeafHash(c)];
    var up := Layer(nodes);
    assert Layer(nodes[2..]) == [LeafHash(c)];
    assert up == [NodeHash(LeafHash(a), LeafHash(b)), LeafHash(c)];
    assert up[2..] == [];
    assert Layer(up) == [NodeHash(up[0], up[1])];
    assert LayeredRoot(nodes) == LayeredRoot(up) == LayeredRoot(Layer(up)) == NodeHash(up[0], up[1]);
    var path := [Sibling(up[0])];
    assert path[1..] == [];
    assert Replay(NodeHash(up[0], LeafHash(c)), path[1..], 0) == NodeHash(up[0], LeafHash(c));
  }
}
