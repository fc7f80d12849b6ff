/** The breadth-first search that decides whether a timestamp signer's certificate chains up to an
    operator trust root through the certificates embedded in the token. */
module TrustSearch {
  import opened Texts

  /** A certificate, identified by its content (and so by its fingerprint). */
  datatype Cert = Cert(id: nat, subject: string, issuer: string, pathLen: Option<nat>)

  /** What the search asks of certificates: whether parent's key validates child's signature,
      whether a certificate is in its validity window at the verification time, and whether its
      extensions let it issue certificates. */
  datatype Checks = Checks(signedBy: (Cert, Cert) -> bool, inValidity: Cert -> bool, mayIssue: Cert -> bool)

  /** parent names and signs child. */
  predicate Issued(k: Checks, parent: Cert, child: Cert) {
    child.issuer == parent.subject && k.signedBy(child, parent)
  }

  /** Some trust root vouches for the certificate. */
  predicate Anchored(k: Checks, roots: seq<Cert>, c: Cert) {
    exists i :: 0 <= i < |roots| && Issued(k, roots[i], c) && k.inValidity(roots[i])
  }

  /** cand may sit directly above node, given the count node carries. */
  predicate AllowedAbove(k: Checks, node: Cert, cand: Cert, below: nat) {
    && Issued(k, cand, node)
    && k.mayIssue(cand)
    && (cand.pathLen.Some? ==> below <= cand.pathLen.value)
  }

  /** The count carried by the node d hops above the leaf: 0, 0, 1, 2, ... */
  function Below(d: nat): nat {
    if d == 0 then 0 else d - 1
  }

  /** cand may sit directly above node, which is d hops above the leaf. */
  predicate Hop(k: Checks, node: Cert, cand: Cert, d: nat) {
    AllowedAbove(k, node, cand, Below(d))
  }

  /** A chain from the leaf through embedded certificates, every member in validity, each one naming,
      signing and allowed to issue the one before it. The i-th of them tolerates i - 2 certificates
      below it, or none. */
  ghost predicate Chain(k: Checks, leaf: Cert, embedded: seq<Cert>, chain: seq<Cert>) {
    && chain != []
    && chain[0] == leaf
    && (forall i :: 0 <= i < |chain| ==> k.inValidity(chain[i]))
    && (forall i :: 0 < i < |chain| ==>
          && chain[i] in embedded
          && chain[i - 1].issuer == chain[i].subject
          && k.signedBy(chain[i - 1], chain[i])
          && k.mayIssue(chain[i])
          && (chain[i].pathLen.None? || i <= 2 || i - 2 <= chain[i].pathLen.value))
  }

  /** A chain whose last member a trust root in validity names as its own issue and signs. */
  ghost predicate TrustedChain(k: Checks, leaf: Cert, embedded: seq<Cert>, roots: seq<Cert>, chain: seq<Cert>) {
    && Chain(k, leaf, embedded, chain)
    && exists j :: 0 <= j < |roots| && k.inValidity(roots[j])
                   && chain[|chain| - 1].issuer == roots[j].subject && k.signedBy(chain[|chain| - 1], roots[j])
  }

  lemma AnchoredSpelled(k: Checks, roots: seq<Cert>, c: Cert)
    ensures Anchored(k, roots, c)
       <==> exists j :: 0 <= j < |roots| && k.inValidity(roots[j]) && c.issuer == roots[j].subject && k.signedBy(c, roots[j])
  {
    if Anchored(k, roots, c) {
      var i :| 0 <= i < |roots| && Issued(k, roots[i], c) && k.inValidity(roots[i]);
      assert k.inValidity(roots[i]) && c.issuer == roots[i].subject && k.signedBy(c, roots[i]);
    }
    if exists j :: 0 <= j < |roots| && k.inValidity(roots[j]) && c.issuer == roots[j].subject && k.signedBy(c, roots[j]) {
      var j :| 0 <= j < |roots| && k.inValidity(roots[j]) && c.issuer == roots[j].subject && k.signedBy(c, roots[j]);
      assert Issued(k, roots[j], c);
    }
  }

  /** The i-th link as the search sees it. */
  lemma HopSpelled(k: Checks, node: Cert, cand: Cert, i: nat)
    requires i > 0
    ensures Hop(k, node, cand, i - 1)
       <==> && node.issuer == cand.subject && k.signedBy(node, cand) && k.mayIssue(cand)
            && (cand.pathLen.None? || i <= 2 || i - 2 <= cand.pathLen.value)
  {
  }

  // ---------------------------------------------------------------- reachable at a depth

  ghost predicate HopFrom(k: Checks, nodes: set<Cert>, cand: Cert, d: nat) {
    exists p :: p in nodes && Hop(k, p, cand, d)
  }

  /** The certificates at the end of a chain of d hops. */
  ghost function Reach(k: Checks, leaf: Cert, embedded: seq<Cert>, d: nat): set<Cert> {
    if d == 0 then set c | c == leaf && k.inValidity(c)
    else set c | c in embedded && k.inValidity(c) && HopFrom(k, Reach(k, leaf, embedded, d - 1), c, d - 1)
  }

  /** Those at the end of a shorter chain. */
  ghost function Nearer(k: Checks, leaf: Cert, embedded: seq<Cert>, d: nat): set<Cert> {
    if d == 0 then {} else Nearer(k, leaf, embedded, d - 1) + Reach(k, leaf, embedded, d - 1)
  }

  lemma {:induction false} ChainEndsInReach(k: Checks, leaf: Cert, embedded: seq<Cert>, chain: seq<Cert>)
    requires Chain(k, leaf, embedded, chain)
    ensures chain[|chain| - 1] in Reach(k, leaf, embedded, |chain| - 1)
    decreases |chain|
  {
    if |chain| > 1 {
      var init := chain[..|chain| - 1];
      ChainEndsInReach(k, leaf, embedded, init);
      assert init[|init| - 1] == chain[|chain| - 2];
    }
  }

  lemma {:induction false} ReachHasChain(k: Checks, leaf: Cert, embedded: seq<Cert>, d: nat, c: Cert)
    returns (chain: seq<Cert>)
    requires c in Reach(k, leaf, embedded, d)
    ensures Chain(k, leaf, embedded, chain) && |chain| == d + 1 && chain[d] == c
  {
    if d == 0 {
      chain := [c];
    } else {
      var p :| p in Reach(k, leaf, embedded, d - 1) && Hop(k, p, c, d - 1);
      var init := ReachHasChain(k, leaf, embedded, d - 1, p);
      chain := init + [c];
      ChainGrows(k, leaf, embedded, init, c);
    }
  }

  lemma {:induction false} ChainGrows(k: Checks, leaf: Cert, embedded: seq<Cert>, chain: seq<Cert>, c: Cert)
    requires Chain(k, leaf, embedded, chain) && c in embedded && k.inValidity(c)
    requires Hop(k, chain[|chain| - 1], c, |chain| - 1)
    ensures Chain(k, leaf, embedded, chain + [c])
  {
    HopSpelled(k, chain[|chain| - 1], c, |chain|);
    var longer := chain + [c];
    assert forall i :: 0 <= i < |chain| ==> longer[i] == chain[i];
  }

  /** What may sit above a node high up may also sit above it lower down. */
  lemma {:induction false} HopLower(k: Checks, node: Cert, cand: Cert, d: nat, e: nat)
    requires e <= d && Hop(k, node, cand, d)
    ensures Hop(k, node, cand, e)
  {
  }

  lemma {:induction false} NearerHasDepth(k: Checks, leaf: Cert, embedded: seq<Cert>, d: nat, c: Cert)
    returns (e: nat)
    requires c in Nearer(k, leaf, embedded, d)
    ensures e < d && c in Reach(k, leaf, embedded, e)
  {
    if c in Reach(k, leaf, embedded, d - 1) {
      e := d - 1;
    } else {
      e := NearerHasDepth(k, leaf, embedded, d - 1, c);
    }
  }

  lemma {:induction false} DepthIsNearer(k: Checks, leaf: Cert, embedded: seq<Cert>, e: nat, d: nat)
    requires e < d
    ensures Reach(k, leaf, embedded, e) <= Nearer(k, leaf, embedded, d)
    decreases d
  {
    if e < d - 1 {
      DepthIsNearer(k, leaf, embedded, e, d - 1);
    }
  }

  /** What can be reached from a node that already has a shorter chain has a shorter chain itself:
      skipping visited certificates loses nothing, because the constraint only tightens with
      depth. */
  lemma {:induction false} NearerStaysNearer(k: Checks, leaf: Cert, embedded: seq<Cert>, d: nat, p: Cert, c: Cert)
    requires p in Nearer(k, leaf, embedded, d) && c in embedded && k.inValidity(c) && Hop(k, p, c, d)
    ensures c in Nearer(k, leaf, embedded, d + 1)
  {
    var e := NearerHasDepth(k, leaf, embedded, d, p);
    HopLower(k, p, c, d, e);
    NearerByHop(k, leaf, embedded, e, d + 1, p, c);
  }

  lemma {:induction false} NearerByHop(k: Checks, leaf: Cert, embedded: seq<Cert>, e: nat, n: nat, p: Cert, c: Cert)
    requires e + 1 < n && p in Reach(k, leaf, embedded, e) && c in embedded && k.inValidity(c) && Hop(k, p, c, e)
    ensures c in Nearer(k, leaf, embedded, n)
  {
    ReachByHop(k, leaf, embedded, e, p, c);
    DepthIsNearer(k, leaf, embedded, e + 1, n);
  }

  lemma {:induction false} ReachByHop(k: Checks, leaf: Cert, embedded: seq<Cert>, e: nat, p: Cert, c: Cert)
    requires p in Reach(k, leaf, embedded, e) && c in embedded && k.inValidity(c) && Hop(k, p, c, e)
    ensures c in Reach(k, leaf, embedded, e + 1)
  {
    assert HopFrom(k, Reach(k, leaf, embedded, e), c, e);
  }

  /** Once a layer adds nothing, no later layer does. */
  lemma {:induction false} ReachCloses(k: Checks, leaf: Cert, embedded: seq<Cert>, d: nat, n: nat)
    requires Reach(k, leaf, embedded, d) <= Nearer(k, leaf, embedded, d)
    ensures Reach(k, leaf, embedded, n) <= Nearer(k, leaf, embedded, d)
    decreases n
  {
    if n < d {
      DepthIsNearer(k, leaf, embedded, n, d);
    } else if n > d {
      ReachCloses(k, leaf, embedded, d, n - 1);
      forall c | c in Reach(k, leaf, embedded, n) ensures c in Nearer(k, leaf, embedded, d) {
        var p :| p in Reach(k, leaf, embedded, n - 1) && Hop(k, p, c, n - 1);
        HopLower(k, p, c, n - 1, d);
        NearerStaysNearer(k, leaf, embedded, d, p, c);
      }
    }
  }

  lemma {:induction false} LeafIsNearest(k: Checks, leaf: Cert, embedded: seq<Cert>, d: nat, c: Cert)
    requires d > 0 && c in Reach(k, leaf, embedded, d)
    ensures leaf in Nearer(k, leaf, embedded, d)
  {
    var chain := ReachHasChain(k, leaf, embedded, d, c);
    assert chain[0] == leaf;
    assert leaf in Reach(k, leaf, embedded, 0);
    DepthIsNearer(k, leaf, embedded, 0, d);
  }

  lemma {:induction false} NearerIsSmall(k: Checks, leaf: Cert, embedded: seq<Cert>, d: nat)
    ensures Nearer(k, leaf, embedded, d) <= {leaf} + SetOf(embedded)
    ensures |{leaf} + SetOf(embedded)| <= |embedded| + 1
  {
    if d > 0 {
      NearerIsSmall(k, leaf, embedded, d - 1);
    }
    SetOfIsSmall(embedded);
  }

  ghost function SetOf(s: seq<Cert>): set<Cert> {
    set c | c in s
  }

  lemma {:induction false} SetOfIsSmall(s: seq<Cert>)
    ensures |SetOf(s)| <= |s|
  {
    if s != [] {
      SetOfIsSmall(s[1..]);
      assert SetOf(s) == {s[0]} + SetOf(s[1..]);
    }
  }

  // ---------------------------------------------------------------- the search

  /** A frontier entry: a certificate and the count it carries. */
  type Entry = (Cert, nat)

  ghost function Nodes(frontier: seq<Entry>): set<Cert> {
    set f | f in frontier :: f.0
  }

  /** The state at the start of layer d: visited is exactly what has a shorter chain, none of it is
      anchored, the frontier holds whatever is first reached at this depth (and perhaps
      certificates out of validity or already visited), and every layer so far visited something. */
  ghost predicate AtLayer(k: Checks, leaf: Cert, embedded: seq<Cert>, roots: seq<Cert>, d: nat,
                          frontier: seq<Entry>, visited: set<Cert>)
  {
    && visited == Nearer(k, leaf, embedded, d)
    && (forall c :: c in visited ==> !Anchored(k, roots, c))
    && (forall f :: f in frontier ==> f.1 == Below(d))
    && (forall c :: c in Nodes(frontier) && k.inValidity(c) ==> c in Reach(k, leaf, embedded, d))
    && Reach(k, leaf, embedded, d) - visited <= Nodes(frontier)
    && (frontier != [] ==> |visited| >= d)
  }

  /** The loop over the trust roots. */
  method AnyRootVouches(k: Checks, roots: seq<Cert>, node: Cert) returns (yes: bool)
    ensures yes <==> Anchored(k, roots, node)
  {
    for i := 0 to |roots|
      invariant forall j :: 0 <= j < i ==> !(Issued(k, roots[j], node) && k.inValidity(roots[j]))
    {
      if node.issuer == roots[i].subject && k.signedBy(node, roots[i]) && k.inValidity(roots[i]) {
        return true;
      }
    }
    return false;
  }

  /** The loop over the embedded certificates for one node. */
  method Parents(k: Checks, leaf: Cert, embedded: seq<Cert>, node: Cert, below: nat, visited: set<Cert>)
    returns (parents: seq<Entry>)
    ensures forall c :: c in Nodes(parents) <==> c in embedded && c !in visited && AllowedAbove(k, node, c, below)
    ensures forall f :: f in parents ==> f.1 == if node == leaf then below else below + 1
  {
    parents := [];
    for i := 0 to |embedded|
      invariant forall c :: c in Nodes(parents) <==> c in embedded[..i] && c !in visited && AllowedAbove(k, node, c, below)
      invariant forall f :: f in parents ==> f.1 == if node == leaf then below else below + 1
    {
      var cand := embedded[i];
      assert embedded[..i + 1] == embedded[..i] + [cand];
      if cand in visited {
        continue;
      }
      if node.issuer == cand.subject && k.signedBy(node, cand) && k.mayIssue(cand) {
        if cand.pathLen.Some? && below > cand.pathLen.value {
          continue;
        }
        var entry := (cand, if node == leaf then below else below + 1);
        NodesAppend(parents, [entry]);
        parents := parents + [entry];
      }
    }
    assert embedded[..|embedded|] == embedded;
  }

  lemma NodesAppend(a: seq<Entry>, b: seq<Entry>)
    ensures Nodes(a + b) == Nodes(a) + Nodes(b)
  {
    forall c | c in Nodes(a) + Nodes(b) ensures c in Nodes(a + b) {
      if c in Nodes(a) {
        var f :| f in a && f.0 == c;
        assert f in a + b;
      } else {
        var f :| f in b && f.0 == c;
        assert f in a + b;
      }
    }
  }

  /** The state inside layer d after the first i frontier entries: what they added to visited, and
      what has been queued for the next layer. */
  ghost predicate MidLayer(k: Checks, leaf: Cert, embedded: seq<Cert>, roots: seq<Cert>, d: nat,
                           done: set<Cert>, before: set<Cert>, visited: set<Cert>, nxt: seq<Entry>)
  {
    && visited == before + (set c | c in done && k.inValidity(c))
    && visited <= Nearer(k, leaf, embedded, d + 1)
    && (forall c :: c in visited ==> !Anchored(k, roots, c))
    && (forall f :: f in nxt ==> f.1 == Below(d + 1))
    && (forall c :: c in Nodes(nxt) && k.inValidity(c) ==> c in Reach(k, leaf, embedded, d + 1))
    && (forall p, c :: p in visited - before && c in embedded && c !in visited && Hop(k, p, c, d) ==> c in Nodes(nxt))
    && (nxt != [] ==> visited - before != {})
  }

  /** Visiting one more node of the layer. */
  lemma VisitKeepsMidLayer(k: Checks, leaf: Cert, embedded: seq<Cert>, roots: seq<Cert>, d: nat, done: set<Cert>,
                           before: set<Cert>, visited: set<Cert>, nxt: seq<Entry>, node: Cert, parents: seq<Entry>)
    requires MidLayer(k, leaf, embedded, roots, d, done, before, visited, nxt)
    requires before == Nearer(k, leaf, embedded, d) && node in Reach(k, leaf, embedded, d) && node !in visited
    requires !Anchored(k, roots, node)
    requires forall c :: c in Nodes(parents) <==>
               c in embedded && c !in visited + {node} && AllowedAbove(k, node, c, Below(d))
    requires forall f :: f in parents ==> f.1 == Below(d + 1)
    ensures MidLayer(k, leaf, embedded, roots, d, done + {node}, before, visited + {node}, nxt + parents)
  {
    NodesAppend(nxt, parents);
    assert k.inValidity(node);
    forall c | c in Nodes(parents) && k.inValidity(c) ensures c in Reach(k, leaf, embedded, d + 1) {
      assert Hop(k, node, c, d);
      assert HopFrom(k, Reach(k, leaf, embedded, d), c, d);
    }
    var visited' := visited + {node};
    assert node in visited' - before;
    forall p, c | p in visited' - before && c in embedded && c !in visited' && Hop(k, p, c, d)
      ensures c in Nodes(nxt + parents)
    {
      if p == node {
        assert AllowedAbove(k, node, c, Below(d));
      }
    }
  }

  /** A node out of validity or already visited is passed over. */
  lemma SkipKeepsMidLayer(k: Checks, leaf: Cert, embedded: seq<Cert>, roots: seq<Cert>, d: nat, done: set<Cert>,
                          before: set<Cert>, visited: set<Cert>, nxt: seq<Entry>, node: Cert)
    requires MidLayer(k, leaf, embedded, roots, d, done, before, visited, nxt)
    requires !k.inValidity(node) || node in visited
    ensures MidLayer(k, leaf, embedded, roots, d, done + {node}, before, visited, nxt)
  {
    assert visited == before + (set c | c in done + {node} && k.inValidity(c));
  }

  lemma NodesStep(frontier: seq<Entry>, i: nat)
    requires i < |frontier|
    ensures Nodes(frontier[..i + 1]) == Nodes(frontier[..i]) + {frontier[i].0}
    ensures frontier[i].0 in Nodes(frontier)
  {
    assert frontier[..i + 1] == frontier[..i] + [frontier[i]];
    NodesAppend(frontier[..i], [frontier[i]]);
    assert Nodes([frontier[i]]) == {frontier[i].0};
    assert frontier[i] in frontier;
  }

  /** In a deeper layer a node still to be visited is not the leaf. */
  lemma CountCarried(k: Checks, leaf: Cert, embedded: seq<Cert>, d: nat, node: Cert)
    requires node in Reach(k, leaf, embedded, d) && node !in Nearer(k, leaf, embedded, d)
    ensures (if node == leaf then Below(d) else Below(d) + 1) == Below(d + 1)
  {
    if d > 0 {
      LeafIsNearest(k, leaf, embedded, d, node);
    }
  }

  /** One pass over the frontier. */
  method ScanLayer(k: Checks, leaf: Cert, embedded: seq<Cert>, roots: seq<Cert>, ghost d: nat,
                   frontier: seq<Entry>, seen: set<Cert>)
    returns (found: bool, visited: set<Cert>, nxt: seq<Entry>)
    requires AtLayer(k, leaf, embedded, roots, d, frontier, seen)
    ensures found ==> exists c :: c in Reach(k, leaf, embedded, d) && Anchored(k, roots, c)
    ensures !found ==> MidLayer(k, leaf, embedded, roots, d, Nodes(frontier), seen, visited, nxt)
  {
    visited, nxt := seen, [];
    for i := 0 to |frontier|
      invariant MidLayer(k, leaf, embedded, roots, d, Nodes(frontier[..i]), seen, visited, nxt)
    {
      var (node, below) := frontier[i];
      NodesStep(frontier, i);
      assert frontier[i] in frontier;
      if !k.inValidity(node) || node in visited {
        SkipKeepsMidLayer(k, leaf, embedded, roots, d, Nodes(frontier[..i]), seen, visited, nxt, node);
        continue;
      }
      CountCarried(k, leaf, embedded, d, node);
      var vouched := AnyRootVouches(k, roots, node);
      if vouched {
        return true, visited, nxt;
      }
      var parents := Parents(k, leaf, embedded, node, below, visited + {node});
      VisitKeepsMidLayer(k, leaf, embedded, roots, d, Nodes(frontier[..i]), seen, visited, nxt, node, parents);
      visited, nxt := visited + {node}, nxt + parents;
    }
    assert frontier[..|frontier|] == frontier;
    found := false;
  }

  /** Nothing first reached at the next depth is missing from the next frontier. */
  lemma NothingMissed(k: Checks, leaf: Cert, embedded: seq<Cert>, roots: seq<Cert>, d: nat, done: set<Cert>,
                      seen: set<Cert>, visited: set<Cert>, nxt: seq<Entry>, c: Cert)
    requires MidLayer(k, leaf, embedded, roots, d, done, seen, visited, nxt)
    requires seen == Nearer(k, leaf, embedded, d) && visited == Nearer(k, leaf, embedded, d + 1)
    requires c in Reach(k, leaf, embedded, d + 1) && c !in visited
    ensures c in Nodes(nxt)
  {
    var p :| p in Reach(k, leaf, embedded, d) && Hop(k, p, c, d);
    if p in seen {
      NearerStaysNearer(k, leaf, embedded, d, p, c);
    }
    assert p in visited - seen;
  }

  lemma GrewByOne(seen: set<Cert>, visited: set<Cert>)
    requires seen <= visited && visited - seen != {}
    ensures |visited| >= |seen| + 1
  {
    assert visited == (visited - seen) + seen;
    assert |visited| == |visited - seen| + |seen|;
  }

  /** A finished layer has visited everything reached at its depth. */
  lemma LayerVisitsReach(k: Checks, leaf: Cert, embedded: seq<Cert>, roots: seq<Cert>, d: nat, frontier: seq<Entry>,
                         seen: set<Cert>, visited: set<Cert>, nxt: seq<Entry>)
    requires AtLayer(k, leaf, embedded, roots, d, frontier, seen)
    requires MidLayer(k, leaf, embedded, roots, d, Nodes(frontier), seen, visited, nxt)
    ensures visited == Nearer(k, leaf, embedded, d + 1)
  {
    forall c | c in Reach(k, leaf, embedded, d) ensures c in visited {
      assert k.inValidity(c);
    }
  }

  /** A finished layer is the start of the next one. */
  lemma NextLayer(k: Checks, leaf: Cert, embedded: seq<Cert>, roots: seq<Cert>, d: nat, frontier: seq<Entry>,
                  seen: set<Cert>, visited: set<Cert>, nxt: seq<Entry>)
    requires frontier != [] && AtLayer(k, leaf, embedded, roots, d, frontier, seen)
    requires MidLayer(k, leaf, embedded, roots, d, Nodes(frontier), seen, visited, nxt)
    ensures AtLayer(k, leaf, embedded, roots, d + 1, nxt, visited)
  {
    LayerVisitsReach(k, leaf, embedded, roots, d, frontier, seen, visited, nxt);
    forall c | c in Reach(k, leaf, embedded, d + 1) - visited ensures c in Nodes(nxt) {
      NothingMissed(k, leaf, embedded, roots, d, Nodes(frontier), seen, visited, nxt, c);
    }
    if nxt != [] {
      GrewByOne(seen, visited);
    }
  }

  /** With nothing left in the frontier there is no trusted chain. */
  lemma EmptyFrontierMeansNone(k: Checks, leaf: Cert, embedded: seq<Cert>, roots: seq<Cert>, d: nat, visited: set<Cert>)
    requires AtLayer(k, leaf, embedded, roots, d, [], visited)
    ensures !exists chain :: TrustedChain(k, leaf, embedded, roots, chain)
  {
    var reached := Reach(k, leaf, embedded, d);
    assert Nodes([]) == {};
    assert reached - visited == {};
    assert reached == (reached - visited) + (reached * visited);
    forall chain ensures !TrustedChain(k, leaf, embedded, roots, chain) {
      if Chain(k, leaf, embedded, chain) {
        ChainEndNotAnchored(k, leaf, embedded, roots, d, visited, chain);
      }
    }
  }

  lemma ChainEndNotAnchored(k: Checks, leaf: Cert, embedded: seq<Cert>, roots: seq<Cert>, d: nat,
                            visited: set<Cert>, chain: seq<Cert>)
    requires visited == Nearer(k, leaf, embedded, d) && Reach(k, leaf, embedded, d) <= visited
    requires forall c :: c in visited ==> !Anchored(k, roots, c)
    requires Chain(k, leaf, embedded, chain)
    ensures !Anchored(k, roots, chain[|chain| - 1])
  {
    ChainEndsInReach(k, leaf, embedded, chain);
    ReachCloses(k, leaf, embedded, d, |chain| - 1);
  }

  /** _chain_reaches_trust_store: true exactly when a trusted chain exists. Neither the visited set
      nor the bound on the number of layers loses one. */
  method ChainReachesTrustStore(k: Checks, leaf: Cert, embedded: seq<Cert>, roots: seq<Cert>) returns (ok: bool)
    ensures ok <==> exists chain :: TrustedChain(k, leaf, embedded, roots, chain)
  {
    var visited: set<Cert> := {};
    var frontier: seq<Entry> := [(leaf, 0)];
    var maxSteps := |embedded| + |roots| + 2;
    assert Nodes(frontier) == {leaf};
    for d := 0 to maxSteps
      invariant AtLayer(k, leaf, embedded, roots, d, frontier, visited)
    {
      if frontier == [] {
        EmptyFrontierMeansNone(k, leaf, embedded, roots, d, visited);
        return false;
      }
      var found, visited', nxt := ScanLayer(k, leaf, embedded, roots, d, frontier, visited);
      if found {
        ghost var c :| c in Reach(k, leaf, embedded, d) && Anchored(k, roots, c);
        ghost var chain := ReachHasChain(k, leaf, embedded, d, c);
        assert TrustedChain(k, leaf, embedded, roots, chain);
        return true;
      }
      NextLayer(k, leaf, embedded, roots, d, frontier, visited, visited', nxt);
      visited, frontier := visited', nxt;
    }
    NearerIsSmall(k, leaf, embedded, maxSteps);
    SubsetIsSmaller(visited, {leaf} + SetOf(embedded));
    EmptyFrontierMeansNone(k, leaf, embedded, roots, maxSteps, visited);
    return false;
  }

  lemma SubsetIsSmaller(a: set<Cert>, b: set<Cert>)
    requires a <= b
    ensures |a| <= |b|
  {
    assert b == a + (b - a);
  }

  // ---------------------------------------------------------------- section 4.2.1.9 of RFC 5280

  predicate SelfIssued(c: Cert) {
    c.subject == c.issuer
  }

  /** How many intermediates below the i-th one count: those that are not self-issued. */
  function Counted(chain: seq<Cert>, i: nat): (n: nat)
    requires i <= |chain|
    ensures i > 0 ==> n <= i - 1
  {
    if i <= 1 then 0 else Counted(chain, i - 1) + if SelfIssued(chain[i - 1]) then 0 else 1
  }

  /** The path length rule: the number of non-self-issued intermediates between a CA and the leaf
      is at most the CA's constraint. */
  ghost predicate WithinRfcPathLen(chain: seq<Cert>) {
    forall i :: 0 < i < |chain| && chain[i].pathLen.Some? ==> Counted(chain, i) <= chain[i].pathLen.value
  }

  lemma {:induction false} CountedAllIff(chain: seq<Cert>, i: nat)
    requires 0 < i <= |chain|
    ensures Counted(chain, i) == i - 1 <==> forall j :: 0 < j < i ==> !SelfIssued(chain[j])
  {
    if i > 1 {
      CountedAllIff(chain, i - 1);
    }
  }

  /** A chain the search accepts also respects the RFC's count exactly when every intermediate from
      the second on with a constraint of exactly i - 2, the count the search uses, has a self-issued
      one below it. */
  lemma RfcPathLenIff(k: Checks, leaf: Cert, embedded: seq<Cert>, chain: seq<Cert>)
    requires Chain(k, leaf, embedded, chain)
    ensures WithinRfcPathLen(chain)
       <==> forall i :: 2 <= i < |chain| && chain[i].pathLen == Some(i - 2) ==> exists j :: 0 < j < i && SelfIssued(chain[j])
  {
    forall i | 0 < i < |chain| && chain[i].pathLen.Some?
      ensures Below(i - 1) <= chain[i].pathLen.value
      ensures Counted(chain, i) == i - 1 <==> forall j :: 0 < j < i ==> !SelfIssued(chain[j])
    {
      assert Hop(k, chain[i - 1], chain[i], i - 1);
      CountedAllIff(chain, i);
    }
  }

  /** A self-issued intermediate, as in a key rollover, does not count: this chain conforms. */
  lemma SelfIssuedExample()
    ensures var leaf := Cert(0, "leaf", "ca", None);
            WithinRfcPathLen([leaf, Cert(1, "ca", "ca", None), Cert(2, "ca", "root", Some(0))])
  {
    var chain := [Cert(0, "leaf", "ca", None), Cert(1, "ca", "ca", None), Cert(2, "ca", "root", Some(0))];
    assert SelfIssued(chain[1]);
    assert Counted(chain, 2) == Counted(chain, 1) == 0;
  }

  /** The two counts do differ: an intermediate limited to 0 is accepted above another one. */
  lemma PathLenExample(k: Checks)
    requires k == Checks((c, p) => true, c => true, c => true)
    ensures var leaf := Cert(0, "leaf", "ca1", None);
            var ca1 := Cert(1, "ca1", "ca2", None);
            var ca2 := Cert(2, "ca2", "root", Some(0));
            var root := Cert(3, "root", "root", None);
            && TrustedChain(k, leaf, [ca1, ca2], [root], [leaf, ca1, ca2])
            && !WithinRfcPathLen([leaf, ca1, ca2])
  {
    var leaf := Cert(0, "leaf", "ca1", None);
    var ca1 := Cert(1, "ca1", "ca2", None);
    var ca2 := Cert(2, "ca2", "root", Some(0));
    var root := Cert(3, "root", "root", None);
    assert Issued(k, [root][0], ca2);
    var chain := [leaf, ca1, ca2];
    assert chain[2].pathLen == Some(0) && !SelfIssued(chain[1]);
    assert Counted(chain, 2) == Counted(chain, 1) + 1;
  }
}
