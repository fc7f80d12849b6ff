/** The batch anchor's Merkle tree: an odd layer is completed by repeating its last node. Every proof
    it issues verifies, what else is accepted is stated exactly, root and leaf count together bind the
    batch, and the tree is the one of RFC 6962 exactly for powers of two. */
module BatchMerkle {
  import opened Texts
  import opened MerkleTree

  // ---------------------------------------------------------------- the tree

  /** A layer with its last node repeated if it is odd. */
  function Evened(nodes: seq<Digest>): (even: seq<Digest>)
    ensures |even| % 2 == 0 && |nodes| <= |even| == |nodes| + |nodes| % 2
  {
    if |nodes| % 2 == 0 then nodes else nodes + [nodes[|nodes| - 1]]
  }

  /** In an even layer nothing is left unpaired. */
  lemma {:induction false} LayerAt(nodes: seq<Digest>, i: nat)
    requires |nodes| % 2 == 0 && 2 * i < |nodes|
    ensures i < |Layer(nodes)| && Layer(nodes)[i] == NodeHash(nodes[2 * i], nodes[2 * i + 1])
  {
    if i > 0 {
      var rest := nodes[2..];
      LayerAt(rest, i - 1);
      assert Layer(nodes)[i] == Layer(rest)[i - 1];
      assert rest[2 * (i - 1)] == nodes[2 * i] && rest[2 * (i - 1) + 1] == nodes[2 * i + 1];
    }
  }

  /** The next layer up. */
  function Up(nodes: seq<Digest>): (up: seq<Digest>)
    ensures |up| == (|nodes| + 1) / 2
  {
    HalfOfEvened(|nodes|);
    Layer(Evened(nodes))
  }

  lemma HalfOfEvened(n: nat)
    ensures (n + n % 2 + 1) / 2 == (n + 1) / 2
  {
  }

  function BatchRoot(leaves: seq<Digest>): Digest
    requires leaves != []
    decreases |leaves|
  {
    if |leaves| == 1 then leaves[0] else BatchRoot(Up(leaves))
  }

  /** One round of the loop: complete the layer, hash it in pairs. */
  method NextLayer(current: seq<Digest>) returns (up: seq<Digest>)
    requires current != []
    ensures up == Up(current)
  {
    var layer := current;
    if |layer| % 2 == 1 {
      layer := layer + [layer[|layer| - 1]];
    }
    up := [];
    for i := 0 to |layer| / 2
      invariant up == Layer(layer)[..i]
    {
      LayerAt(layer, i);
      up := up + [NodeHash(layer[2 * i], layer[2 * i + 1])];
    }
  }

  /** compute_merkle_root; an empty batch is refused. */
  method ComputeMerkleRoot(leaves: seq<Digest>) returns (root: Option<Digest>)
    ensures root == if leaves == [] then None else Some(BatchRoot(leaves))
  {
    if leaves == [] {
      return None;
    }
    var current := leaves;
    while |current| > 1
      invariant current != [] && BatchRoot(current) == BatchRoot(leaves)
      decreases |current|
    {
      current := NextLayer(current);
    }
    root := Some(current[0]);
  }

  // ---------------------------------------------------------------- proofs

  /** A proof step: the sibling, and whether it sits on the left. */
  datatype ProofStep = ProofStep(sibling: Digest, onLeft: bool)

  function StepFor(even: seq<Digest>, index: nat): ProofStep
    requires index < |even| && |even| % 2 == 0
  {
    if index % 2 == 1 then ProofStep(even[index - 1], true) else ProofStep(even[index + 1], false)
  }

  /** inclusion_proof */
  function BatchProof(leaves: seq<Digest>, index: nat): seq<ProofStep>
    requires index < |leaves|
    decreases |leaves|
  {
    if |leaves| == 1 then []
    else [StepFor(Evened(leaves), index)] + BatchProof(Up(leaves), index / 2)
  }

  function Apply(h: Digest, s: ProofStep): Digest {
    if s.onLeft then NodeHash(s.sibling, h) else NodeHash(h, s.sibling)
  }

  function Follow(h: Digest, proof: seq<ProofStep>): Digest
    decreases |proof|
  {
    if proof == [] then h else Follow(Apply(h, proof[0]), proof[1..])
  }

  /** The steps of a proof in which every element could be read. */
  function Steps(proof: seq<Option<ProofStep>>): seq<ProofStep>
    requires None !in proof
  {
    seq(|proof|, i requires 0 <= i < |proof| => assert proof[i] in proof; proof[i].value)
  }

  /** verify_inclusion, online and offline alike; a malformed step is None. */
  method VerifyInclusion(leaf: Digest, proof: seq<Option<ProofStep>>, root: Digest) returns (ok: bool)
    ensures ok <==> None !in proof && Follow(leaf, Steps(proof)) == root
  {
    var current := leaf;
    for i := 0 to |proof|
      invariant None !in proof[..i]
      invariant None !in proof ==> Follow(current, Steps(proof)[i..]) == Follow(leaf, Steps(proof))
    {
      assert proof[..i + 1] == proof[..i] + [proof[i]];
      if proof[i].None? {
        return false;
      }
      var s := proof[i].value;
      assert None !in proof ==> Steps(proof)[i..][0] == s && Steps(proof)[i..][1..] == Steps(proof)[i + 1..];
      if s.onLeft {
        current := NodeHash(s.sibling, current);
      } else {
        current := NodeHash(current, s.sibling);
      }
    }
    assert proof[..|proof|] == proof;
    ok := current == root;
  }

  lemma StepGoesUp(even: seq<Digest>, index: nat)
    requires index < |even| && |even| % 2 == 0
    ensures Apply(even[index], StepFor(even, index)) == Layer(even)[index / 2]
  {
    LayerAt(even, index / 2);
  }

  /** Every issued proof verifies. */
  lemma {:induction false} IssuedProofsVerify(leaves: seq<Digest>, index: nat)
    requires index < |leaves|
    ensures Follow(leaves[index], BatchProof(leaves, index)) == BatchRoot(leaves)
    decreases |leaves|
  {
    if |leaves| > 1 {
      var even := Evened(leaves);
      var rest := BatchProof(Up(leaves), index / 2);
      IssuedProofsVerify(Up(leaves), index / 2);
      StepGoesUp(even, index);
      assert ([StepFor(even, index)] + rest)[1..] == rest;
    }
  }

  // ---------------------------------------------------------------- what a root contains

  /** Row hashes, none of which is the hash of two digests run together. */
  ghost predicate AllBottom(nodes: seq<Digest>) {
    forall i :: 0 <= i < |nodes| ==> !nodes[i].NodeHash?
  }

  /** Repeating last nodes completes the tree to Pow2(Height(n)) bottom positions. This is the node,
      of the n there are, that stands at a position: its own for i < n, else the repeated one. */
  function Slot(n: nat, i: nat): (s: nat)
    requires n >= 1
    ensures s < n
    decreases n
  {
    if n == 1 then 0
    else
      var s := 2 * Slot((n + 1) / 2, i / 2) + i % 2;
      if s < n then s else n - 1
  }

  lemma {:induction false} SlotOfOwn(n: nat, i: nat)
    requires i < n
    ensures Slot(n, i) == i
    decreases n
  {
    if n > 1 {
      SlotOfOwn((n + 1) / 2, i / 2);
    }
  }

  /** The siblings on the way up from a position of the completed tree. */
  function PathFrom(nodes: seq<Digest>, i: nat): seq<ProofStep>
    requires nodes != []
    decreases |nodes|
  {
    if |nodes| == 1 then []
    else
      ChildInRange(|nodes|, Slot((|nodes| + 1) / 2, i / 2), i % 2);
      [StepFor(Evened(nodes), 2 * Slot((|nodes| + 1) / 2, i / 2) + i % 2)] + PathFrom(Up(nodes), i / 2)
  }

  /** For the positions of the leaves themselves it is the issued proof. */
  lemma {:induction false} IssuedProofIsPath(leaves: seq<Digest>, index: nat)
    requires index < |leaves|
    ensures PathFrom(leaves, index) == BatchProof(leaves, index)
    decreases |leaves|
  {
    if |leaves| > 1 {
      IssuedProofIsPath(Up(leaves), index / 2);
      SlotOfOwn((|leaves| + 1) / 2, index / 2);
      ChildOfHalf(index);
    }
  }

  lemma ChildOfHalf(i: nat)
    ensures 2 * (i / 2) + i % 2 == i
  {
  }

  /** The node at a position of the completed bottom layer. */
  lemma {:induction false} SlotInEven(nodes: seq<Digest>, i: nat)
    requires |nodes| > 1
    ensures var s := 2 * Slot((|nodes| + 1) / 2, i / 2) + i % 2;
            s < |Evened(nodes)| && Evened(nodes)[s] == nodes[Slot(|nodes|, i)]
  {
    ChildInRange(|nodes|, Slot((|nodes| + 1) / 2, i / 2), i % 2);
  }

  lemma ChildInRange(n: nat, q: nat, bit: nat)
    requires q < (n + 1) / 2 && bit < 2
    ensures 2 * q + bit < n + n % 2
  {
  }

  lemma {:induction false} FollowFirst(d: Digest, step: ProofStep, rest: seq<ProofStep>)
    ensures Follow(d, [step] + rest) == Follow(Apply(d, step), rest)
  {
    assert ([step] + rest)[1..] == rest;
  }

  lemma {:induction false} HeightOfLayer(nodes: seq<Digest>)
    requires |nodes| > 1
    ensures Height(|nodes|) == 1 + Height(|Up(nodes)|)
  {
  }

  lemma {:induction false} PathLength(nodes: seq<Digest>, i: nat)
    requires nodes != []
    ensures |PathFrom(nodes, i)| == Height(|nodes|)
    decreases |nodes|
  {
    if |nodes| > 1 {
      HeightOfLayer(nodes);
      PathLength(Up(nodes), i / 2);
    }
  }

  /** Every path of the completed tree leads to the root. */
  lemma {:induction false} PathsLeadUp(nodes: seq<Digest>, i: nat)
    requires nodes != []
    ensures Follow(nodes[Slot(|nodes|, i)], PathFrom(nodes, i)) == BatchRoot(nodes)
    decreases |nodes|
  {
    if |nodes| > 1 {
      PathsLeadUp(Up(nodes), i / 2);
      PathStep(nodes, Up(nodes), i);
    }
  }

  lemma {:induction false} PathStep(nodes: seq<Digest>, up: seq<Digest>, i: nat)
    requires |nodes| > 1 && up == Up(nodes)
    ensures Follow(nodes[Slot(|nodes|, i)], PathFrom(nodes, i)) == Follow(up[Slot(|up|, i / 2)], PathFrom(up, i / 2))
  {
    var even, q := Evened(nodes), Slot(|up|, i / 2);
    SlotInEven(nodes, i);
    var s := 2 * q + i % 2;
    ChildIndex(q, i % 2);
    assert PathFrom(nodes, i) == [StepFor(even, s)] + PathFrom(up, i / 2);
    StepGoesUp(even, s);
    FollowFirst(even[s], StepFor(even, s), PathFrom(up, i / 2));
  }

  /** A step from d to the parent at q of an even layer comes from one of the two children there. */
  lemma StepFromChild(even: seq<Digest>, q: nat, d: Digest, step: ProofStep) returns (bit: nat)
    requires |even| % 2 == 0 && 2 * q < |even| && Apply(d, step) == Layer(even)[q]
    ensures bit < 2 && even[2 * q + bit] == d && StepFor(even, 2 * q + bit) == step
  {
    LayerAt(even, q);
    bit := if step.onLeft then 1 else 0;
    ChildIndex(q, bit);
  }

  lemma ChildIndex(q: nat, bit: nat)
    requires bit < 2
    ensures (2 * q + bit) % 2 == bit && (2 * q + bit) / 2 == q
  {
  }

  /** This proof is the path of this digest from this position. */
  ghost predicate IsPath(nodes: seq<Digest>, d: Digest, proof: seq<ProofStep>, i: nat)
    requires nodes != []
  {
    i < Pow2(Height(|nodes|)) && nodes[Slot(|nodes|, i)] == d && proof == PathFrom(nodes, i)
  }

  ghost predicate HasPath(nodes: seq<Digest>, d: Digest, proof: seq<ProofStep>)
    requires nodes != []
  {
    exists i :: IsPath(nodes, d, proof, i)
  }

  /** A proof as long as the tree is high leads to the root only from a position of the bottom layer,
      along that position's path. */
  lemma {:induction false} OnlyPathsLeadUp(nodes: seq<Digest>, d: Digest, proof: seq<ProofStep>) returns (i: nat)
    requires nodes != [] && |proof| == Height(|nodes|) && Follow(d, proof) == BatchRoot(nodes)
    ensures IsPath(nodes, d, proof, i)
    decreases |nodes|
  {
    if |nodes| == 1 {
      i := 0;
      assert Pow2(0) == 1;
    } else {
      var up := Up(nodes);
      HeightOfLayer(nodes);
      var j := OnlyPathsLeadUp(up, Apply(d, proof[0]), proof[1..]);
      i := PathFromAbove(nodes, up, d, proof, j);
    }
  }

  lemma {:induction false} PathFromAbove(nodes: seq<Digest>, up: seq<Digest>, d: Digest, proof: seq<ProofStep>, j: nat) returns (i: nat)
    requires |nodes| > 1 && proof != [] && up == Up(nodes)
    requires Height(|nodes|) == 1 + Height(|up|) && IsPath(up, Apply(d, proof[0]), proof[1..], j)
    ensures IsPath(nodes, d, proof, i)
  {
    var even, q := Evened(nodes), Slot(|up|, j);
    ChildInRange(|nodes|, q, 0);
    var bit := StepFromChild(even, q, d, proof[0]);
    i := 2 * j + bit;
    ChildIndex(j, bit);
    SlotInEven(nodes, i);
    assert proof == [proof[0]] + proof[1..];
  }

  /** The layer l levels up. */
  function LayerUp(leaves: seq<Digest>, l: nat): (nodes: seq<Digest>)
    requires leaves != []
    ensures nodes != []
    decreases l
  {
    if l == 0 then leaves else LayerUp(Up(leaves), l - 1)
  }

  lemma {:induction false} LayerUpRoot(leaves: seq<Digest>, l: nat, h: nat)
    requires leaves != [] && h == Height(|leaves|) && l <= h
    ensures BatchRoot(LayerUp(leaves, l)) == BatchRoot(leaves)
    decreases l
  {
    if l > 0 {
      HeightOfLayer(leaves);
      LayerUpRoot(Up(leaves), l - 1, h - 1);
    }
  }

  /** How many nodes that layer has. */
  function Halved(n: nat, l: nat): nat {
    if l == 0 then n else Halved((n + 1) / 2, l - 1)
  }

  lemma {:induction false} HalvedHeight(n: nat, l: nat)
    requires l <= Height(n)
    ensures Height(Halved(n, l)) == Height(n) - l
    decreases l
  {
    if l > 0 {
      HalvedHeight((n + 1) / 2, l - 1);
    }
  }

  lemma {:induction false} LayerUpLength(leaves: seq<Digest>, l: nat)
    requires leaves != []
    ensures |LayerUp(leaves, l)| == Halved(|leaves|, l)
    decreases l
  {
    if l > 0 {
      LayerUpLength(Up(leaves), l - 1);
    }
  }

  /** What leads up to a full tree is itself full, lower by the length of the proof. */
  lemma {:induction false} FollowFromFull(d: Digest, proof: seq<ProofStep>, h: nat)
    requires Full(Follow(d, proof), h)
    ensures |proof| <= h && Full(d, h - |proof|)
    decreases |proof|
  {
    if proof != [] {
      FollowFromFull(Apply(d, proof[0]), proof[1..], h);
    }
  }

  lemma {:induction false} RootIsFull(leaves: seq<Digest>, h: nat)
    requires leaves != [] && AllBottom(leaves) && h == Height(|leaves|)
    ensures Full(BatchRoot(leaves), h)
  {
    assert AllFull(leaves, 0);
    BatchRootFull(leaves, 0, h);
  }

  lemma {:induction false} AcceptedDepth(leaves: seq<Digest>, d: Digest, proof: seq<ProofStep>, h: nat)
    requires leaves != [] && AllBottom(leaves) && h == Height(|leaves|) && Follow(d, proof) == BatchRoot(leaves)
    ensures |proof| <= h && Full(d, h - |proof|)
  {
    RootIsFull(leaves, h);
    FollowFromFull(d, proof, h);
  }

  /** The proof is the path of the digest in the completed layer from which it reaches the top. */
  ghost predicate NodeOfTree(leaves: seq<Digest>, d: Digest, proof: seq<ProofStep>)
    requires leaves != []
  {
    |proof| <= Height(|leaves|) && HasPath(LayerUp(leaves, Height(|leaves|) - |proof|), d, proof)
  }

  /** Exactly what is accepted: a digest with a proof leads to the root of a batch of row hashes
      exactly when the proof is no longer than the tree is high and is the path of that digest from a
      position of the completed layer at that height, which need not be the layer of the rows. */
  lemma {:induction false} AcceptedIffNodeOfTree(leaves: seq<Digest>, d: Digest, proof: seq<ProofStep>)
    requires leaves != [] && AllBottom(leaves)
    ensures Follow(d, proof) == BatchRoot(leaves) <==> NodeOfTree(leaves, d, proof)
  {
    var h := Height(|leaves|);
    if |proof| > h {
      TooLong(leaves, d, proof, h);
    } else {
      var l := h - |proof|;
      assert NodeOfTree(leaves, d, proof) <==> HasPath(LayerUp(leaves, l), d, proof);
      LeadsUpFromLayerIff(leaves, d, proof, l);
    }
  }

  lemma {:induction false} TooLong(leaves: seq<Digest>, d: Digest, proof: seq<ProofStep>, h: nat)
    requires leaves != [] && AllBottom(leaves) && h == Height(|leaves|) && |proof| > h
    ensures Follow(d, proof) != BatchRoot(leaves)
  {
    if Follow(d, proof) == BatchRoot(leaves) {
      AcceptedDepth(leaves, d, proof, h);
    }
  }

  lemma {:induction false} LeadsUpFromLayerIff(leaves: seq<Digest>, d: Digest, proof: seq<ProofStep>, l: nat)
    requires leaves != [] && l + |proof| == Height(|leaves|)
    ensures Follow(d, proof) == BatchRoot(leaves) <==> HasPath(LayerUp(leaves, l), d, proof)
  {
    LayerUpRoot(leaves, l, l + |proof|);
    LayerUpLength(leaves, l);
    HalvedHeight(|leaves|, l);
    LeadsUpIffPath(LayerUp(leaves, l), d, proof);
  }

  /** Among proofs as long as the tree is high. */
  lemma {:induction false} LeadsUpIffPath(nodes: seq<Digest>, d: Digest, proof: seq<ProofStep>)
    requires nodes != [] && |proof| == Height(|nodes|)
    ensures Follow(d, proof) == BatchRoot(nodes) <==> HasPath(nodes, d, proof)
  {
    if Follow(d, proof) == BatchRoot(nodes) {
      var i := OnlyPathsLeadUp(nodes, d, proof);
    }
    if HasPath(nodes, d, proof) {
      var i :| IsPath(nodes, d, proof, i);
      PathsLeadUp(nodes, i);
    }
  }

  /** The documentation says: true iff the leaf is included. An accepted digest is a row of the batch
      exactly when the proof is as long as the tree is high, a comparison with the leaf count that is
      not made; in other words when the digest is not itself the hash of two others. */
  lemma {:induction false} VerifiedLeafIsInBatch(leaves: seq<Digest>, leaf: Digest, proof: seq<ProofStep>)
    requires leaves != [] && AllBottom(leaves)
    requires Follow(leaf, proof) == BatchRoot(leaves)
    ensures leaf in leaves <==> |proof| == Height(|leaves|)
    ensures leaf in leaves <==> !leaf.NodeHash?
  {
    AcceptedDepth(leaves, leaf, proof, Height(|leaves|));
    if |proof| == Height(|leaves|) {
      var i := OnlyPathsLeadUp(leaves, leaf, proof);
      assert leaf == leaves[Slot(|leaves|, i)];
    }
  }

  /** An interior digest passes for a row of a batch of four. */
  lemma {:induction false} InteriorDigestAccepted(a: Digest, b: Digest, c: Digest, d: Digest)
    ensures Follow(NodeHash(a, b), [ProofStep(NodeHash(c, d), false)]) == BatchRoot([a, b, c, d])
  {
    var leaves := [a, b, c, d];
    var up := [NodeHash(a, b), NodeHash(c, d)];
    assert leaves[2..] == [c, d] && [c, d][2..] == [] && up[2..] == [];
    assert Layer([c, d]) == [NodeHash(c, d)];
    assert Layer(leaves) == up;
    assert Layer(up) == [NodeHash(up[0], up[1])];
    var proof := [ProofStep(NodeHash(c, d), false)];
    assert proof[1..] == [];
    assert Follow(NodeHash(NodeHash(a, b), NodeHash(c, d)), proof[1..]) == NodeHash(up[0], up[1]);
    assert BatchRoot(leaves) == BatchRoot(up) == BatchRoot(Layer(up));
  }

  // ---------------------------------------------------------------- what a root binds

  lemma {:induction false} LayerInjective(a: seq<Digest>, b: seq<Digest>)
    requires |a| == |b| && |a| % 2 == 0 && Layer(a) == Layer(b)
    ensures a == b
  {
    if a != [] {
      var x, y := Layer(a), Layer(b);
      assert x[0] == NodeHash(a[0], a[1]) && y[0] == NodeHash(b[0], b[1]);
      assert x[1..] == Layer(a[2..]) && y[1..] == Layer(b[2..]);
      LayerInjective(a[2..], b[2..]);
      assert a == [a[0], a[1]] + a[2..] && b == [b[0], b[1]] + b[2..];
    }
  }

  /** Root and leaf count, which an anchor stores together, determine the batch. */
  lemma {:induction false} RootAndCountBind(a: seq<Digest>, b: seq<Digest>)
    requires |a| == |b| > 0 && BatchRoot(a) == BatchRoot(b)
    ensures a == b
    decreases |a|
  {
    if |a| > 1 {
      RootAndCountBind(Up(a), Up(b));
      LayerInjective(Evened(a), Evened(b));
      assert a == Evened(a)[..|a|] && b == Evened(b)[..|b|];
    }
  }

  /** The root alone does not: an odd batch and the batch with its last row repeated share it. */
  lemma RootAloneDoesNotBind(leaves: seq<Digest>)
    requires |leaves| > 1 && |leaves| % 2 == 1
    ensures BatchRoot(leaves + [leaves[|leaves| - 1]]) == BatchRoot(leaves)
  {
    var longer := leaves + [leaves[|leaves| - 1]];
    assert longer == Evened(leaves);
    EvenedEven(longer);
  }

  lemma EvenedEven(nodes: seq<Digest>)
    requires |nodes| % 2 == 0
    ensures Evened(nodes) == nodes
  {
  }

  // ---------------------------------------------------------------- compared with RFC 6962

  /** How many bottom positions a tree of node hashes has. */
  function Weight(d: Digest): nat {
    if d.NodeHash? then Weight(d.left) + Weight(d.right) else 1
  }

  /** A tree of node hashes in which every bottom position is e levels down. */
  ghost predicate Full(d: Digest, e: nat) {
    if e == 0 then !d.NodeHash? else d.NodeHash? && Full(d.left, e - 1) && Full(d.right, e - 1)
  }

  ghost predicate AllFull(nodes: seq<Digest>, e: nat) {
    forall i :: 0 <= i < |nodes| ==> Full(nodes[i], e)
  }

  lemma {:induction false} FullWeight(d: Digest, e: nat)
    requires Full(d, e)
    ensures Weight(d) == Pow2(e)
  {
    if e > 0 {
      FullWeight(d.left, e - 1);
      FullWeight(d.right, e - 1);
    }
  }

  /** The number of layers above n nodes. */
  function Height(n: nat): nat {
    if n <= 1 then 0 else 1 + Height((n + 1) / 2)
  }

  lemma {:induction false} HeightBounds(n: nat)
    requires n >= 1
    ensures n <= Pow2(Height(n))
    ensures n == Pow2(Height(n)) <==> PowerOfTwo(n)
  {
    if n == 1 {
      assert n == Pow2(0);
    } else {
      HeightBounds((n + 1) / 2);
      if PowerOfTwo(n) {
        var e: nat :| n == Pow2(e);
        assert n == 2 * Pow2(e - 1);
        assert PowerOfTwo((n + 1) / 2);
      }
    }
  }

  lemma LayerFull(nodes: seq<Digest>, e: nat)
    requires AllFull(nodes, e)
    ensures AllFull(Up(nodes), e + 1)
  {
    var even := Evened(nodes);
    var up := Layer(even);
    forall i | 0 <= i < |up| ensures Full(up[i], e + 1) {
      LayerAt(even, i);
    }
  }

  /** This tree is always full. */
  lemma {:induction false} BatchRootFull(nodes: seq<Digest>, e: nat, h: nat)
    requires nodes != [] && AllFull(nodes, e) && h == e + Height(|nodes|)
    ensures Full(BatchRoot(nodes), h) && Weight(BatchRoot(nodes)) == Pow2(h)
    decreases |nodes|
  {
    if |nodes| > 1 {
      LayerFull(nodes, e);
      BatchRootFull(Up(nodes), e + 1, h);
    } else {
      FullWeight(nodes[0], e);
    }
  }

  lemma {:induction false} TreeHeadWeight(nodes: seq<Digest>)
    requires nodes != [] && AllFull(nodes, 0)
    ensures Weight(TreeHead(nodes)) == |nodes|
    decreases |nodes|
  {
    if |nodes| > 1 {
      var k := Split(|nodes|);
      TreeHeadWeight(nodes[..k]);
      TreeHeadWeight(nodes[k..]);
    }
  }

  lemma {:induction false} SameRootForPowers(nodes: seq<Digest>, e: nat)
    requires nodes != [] && |nodes| == Pow2(e)
    ensures BatchRoot(nodes) == LayeredRoot(nodes)
    decreases e
  {
    if e > 0 {
      PowerHalved(|nodes|, e);
      var up := Layer(nodes);
      SameRootForPowers(up, e - 1);
      SameRootFromAbove(nodes, up);
    }
  }

  lemma PowerHalved(n: nat, e: nat)
    requires e > 0 && n == Pow2(e)
    ensures n % 2 == 0 && (n + 1) / 2 == Pow2(e - 1)
  {
    HalfOfEven(Pow2(e - 1));
  }

  lemma HalfOfEven(k: nat)
    ensures (2 * k) % 2 == 0 && (2 * k + 1) / 2 == k
  {
  }

  lemma SameRootFromAbove(nodes: seq<Digest>, up: seq<Digest>)
    requires nodes != [] && |nodes| % 2 == 0 && up == Layer(nodes) && BatchRoot(up) == LayeredRoot(up)
    ensures BatchRoot(nodes) == LayeredRoot(nodes)
  {
    EvenedEven(nodes);
  }

  lemma RfcRootForPowers(leaves: seq<Digest>)
    requires leaves != [] && PowerOfTwo(|leaves|)
    ensures BatchRoot(leaves) == TreeHead(leaves)
  {
    var e: nat :| |leaves| == Pow2(e);
    SameRootForPowers(leaves, e);
    LayeredRootIsTreeHead(leaves);
  }

  /** The module's documentation calls this the construction of RFC 6962. Prefix bytes aside, the two
      roots coincide exactly when the number of leaves is a power of two. */
  lemma IsRfcTreeIffPowerOfTwo(leaves: seq<Digest>)
    requires leaves != [] && AllBottom(leaves)
    ensures BatchRoot(leaves) == TreeHead(leaves) <==> PowerOfTwo(|leaves|)
  {
    if PowerOfTwo(|leaves|) {
      RfcRootForPowers(leaves);
    } else {
      assert AllFull(leaves, 0);
      BatchRootFull(leaves, 0, Height(|leaves|));
      TreeHeadWeight(leaves);
      HeightBounds(|leaves|);
    }
  }
}
