/** The iterative component walk and the crypto statistics counted over it. */
module Components {
  import opened Results
  import opened Integers

  const MAX_COMPONENT_DEPTH: nat := 1000

  datatype AssetType = Algorithm | Certificate | Protocol | RelatedCryptoMaterial | OtherAsset

  /**
    * `crypto` is None for nil CryptoProperties. A nil `Components` pointer and a pointer to an
    * empty slice take the same way through the walk; both are [].
    */
  datatype Component = Component(isCryptoAsset: bool, crypto: Option<AssetType>, components: seq<Component>)

  function Size(cs: seq<Component>): nat
    decreases cs, 0
  {
    if cs == [] then 0 else NodeSize(cs[0]) + Size(cs[1..])
  }

  function NodeSize(c: Component): nat
    decreases c, 1
  {
    1 + Size(c.components)
  }

  lemma SizeSplits(cs: seq<Component>)
    requires cs != []
    ensures Size(cs) == 1 + Size(cs[0].components) + Size(cs[1..])
  {
    assert NodeSize(cs[0]) == 1 + Size(cs[0].components);
  }

  /** Number of nesting levels; top-level components are depth 1. */
  function Height(cs: seq<Component>): nat
    decreases cs, 0
  {
    if cs == [] then 0 else Max(1 + Under(cs[0]), Height(cs[1..]))
  }

  /** Number of levels nested under one component. */
  function Under(c: Component): nat
    decreases c, 1
  {
    Height(c.components)
  }

  /** Every component of the forest in document order. */
  function FullPreOrder(cs: seq<Component>): seq<Component>
    decreases cs, 0
  {
    if cs == [] then [] else [cs[0]] + Nested(cs[0]) + FullPreOrder(cs[1..])
  }

  function Nested(c: Component): seq<Component>
    decreases c, 1
  {
    FullPreOrder(c.components)
  }

  /** The same traversal of a forest whose roots sit at `depth`, cut at the depth bound. */
  function PreOrder(cs: seq<Component>, depth: nat): seq<Component>
    decreases cs, 0
  {
    if cs == [] then [] else [cs[0]] + Below(cs[0], depth) + PreOrder(cs[1..], depth)
  }

  function Below(c: Component, depth: nat): seq<Component>
    decreases c, 1
  {
    if depth >= MAX_COMPONENT_DEPTH then [] else PreOrder(c.components, depth + 1)
  }

  // ---------- the explicit stack ----------

  datatype ComponentFrame = ComponentFrame(component: Component, depth: nat)

  /** What popping the whole stack still yields. */
  ghost function Rest(pending: seq<ComponentFrame>): seq<Component> {
    if pending == [] then []
    else
      var frame := pending[|pending| - 1];
      [frame.component] + Below(frame.component, frame.depth) + Rest(pending[..|pending| - 1])
  }

  ghost function StackSize(pending: seq<ComponentFrame>): nat {
    if pending == [] then 0
    else NodeSize(pending[|pending| - 1].component) + StackSize(pending[..|pending| - 1])
  }

  /** Some pending subtree reaches past the depth bound. */
  ghost predicate Overflows(pending: seq<ComponentFrame>) {
    pending != [] &&
    var frame := pending[|pending| - 1];
    (frame.depth + Under(frame.component) > MAX_COMPONENT_DEPTH || Overflows(pending[..|pending| - 1]))
  }

  ghost predicate DepthsBounded(pending: seq<ComponentFrame>) {
    forall i :: 0 <= i < |pending| ==> pending[i].depth <= MAX_COMPONENT_DEPTH
  }

  lemma PushOne(pending: seq<ComponentFrame>, frame: ComponentFrame)
    ensures var pushed := pending + [frame];
            && Rest(pushed) == [frame.component] + Below(frame.component, frame.depth) + Rest(pending)
            && StackSize(pushed) == NodeSize(frame.component) + StackSize(pending)
            && (Overflows(pushed) <==> frame.depth + Under(frame.component) > MAX_COMPONENT_DEPTH || Overflows(pending))
  {
    assert (pending + [frame])[..|pending|] == pending;
  }

  lemma ForestFrom(cs: seq<Component>, i: nat, depth: nat)
    requires i < |cs|
    ensures PreOrder(cs[i..], depth) == [cs[i]] + Below(cs[i], depth) + PreOrder(cs[i + 1..], depth)
    ensures Size(cs[i..]) == NodeSize(cs[i]) + Size(cs[i + 1..])
    ensures Height(cs[i..]) == Max(1 + Under(cs[i]), Height(cs[i + 1..]))
  {
    assert cs[i..][1..] == cs[i + 1..];
  }

  /** The stack `pushed` is `pending` with the roots of this forest on top, first root uppermost. */
  ghost predicate OnTop(pushed: seq<ComponentFrame>, pending: seq<ComponentFrame>, cs: seq<Component>, depth: nat) {
    && Rest(pushed) == PreOrder(cs, depth) + Rest(pending)
    && StackSize(pushed) == Size(cs) + StackSize(pending)
    && (Overflows(pushed) <==> Overflows(pending) || depth + Height(cs) > MAX_COMPONENT_DEPTH + 1)
  }

  lemma PushStep(
      pushed: seq<ComponentFrame>, pending: seq<ComponentFrame>, cs: seq<Component>, i: nat, depth: nat)
    requires i < |cs| && depth <= MAX_COMPONENT_DEPTH && OnTop(pushed, pending, cs[i + 1..], depth)
    ensures OnTop(pushed + [ComponentFrame(cs[i], depth)], pending, cs[i..], depth)
  {
    PushOne(pushed, ComponentFrame(cs[i], depth));
    ForestFrom(cs, i, depth);
    Regroup(cs[i], Below(cs[i], depth), PreOrder(cs[i + 1..], depth), Rest(pending));
  }

  lemma Regroup(c: Component, below: seq<Component>, siblings: seq<Component>, rest: seq<Component>)
    ensures [c] + below + (siblings + rest) == ([c] + below + siblings) + rest
  {
  }

  method PushChildren(pending: seq<ComponentFrame>, components: seq<Component>, depth: nat)
    returns (pushed: seq<ComponentFrame>)
    requires depth <= MAX_COMPONENT_DEPTH && DepthsBounded(pending)
    ensures OnTop(pushed, pending, components, depth) && DepthsBounded(pushed)
  {
    pushed := pending;
    for i := |components| downto 0
      invariant OnTop(pushed, pending, components[i..], depth)
      invariant DepthsBounded(pushed)
    {
      PushStep(pushed, pending, components, i, depth);
      pushed := pushed + [ComponentFrame(components[i], depth)];
    }
    assert components[0..] == components;
  }

  method WalkComponents(top: seq<Component>) returns (found: seq<Component>, truncated: bool)
    ensures found == PreOrder(top, 1)
    ensures exists paths :: AreFirstLevels(found, top, paths)
    ensures truncated <==> Height(top) > MAX_COMPONENT_DEPTH
    ensures truncated <==> ReachesLevel(top, 0, 1001)
  {
    found := [];
    var pending := PushChildren([], top, 1);
    truncated := false;
    while |pending| > 0
      invariant found + Rest(pending) == PreOrder(top, 1)
      invariant truncated || Overflows(pending) <==> Height(top) > MAX_COMPONENT_DEPTH
      invariant DepthsBounded(pending)
      decreases StackSize(pending)
    {
      var frame := pending[|pending| - 1];
      pending := pending[..|pending| - 1];
      ghost var rest := Rest(pending);
      assert found + ([frame.component] + Below(frame.component, frame.depth) + rest)
          == (found + [frame.component]) + (Below(frame.component, frame.depth) + rest);
      found := found + [frame.component];
      NodeUnfolds(frame.component);
      if frame.depth >= MAX_COMPONENT_DEPTH {
        if |frame.component.components| > 0 {
          truncated := true;
        }
      } else {
        pending := PushChildren(pending, frame.component.components, frame.depth + 1);
      }
    }
    ghost var paths := PreOrderIsDocumentOrder(top);
    HeightExactly(top, 0, 1001);
  }

  lemma NodeUnfolds(c: Component)
    ensures NodeSize(c) == 1 + Size(c.components)
    ensures Under(c) == Height(c.components)
    ensures Under(c) > 0 <==> |c.components| > 0
  {
  }

  /**
    * The walk returns the whole document exactly when nothing nests past the bound; otherwise it
    * returns strictly less.
    */
  lemma {:induction false} CutVersusFull(cs: seq<Component>, depth: nat)
    requires 1 <= depth <= MAX_COMPONENT_DEPTH
    ensures depth + Height(cs) <= MAX_COMPONENT_DEPTH + 1 ==> PreOrder(cs, depth) == FullPreOrder(cs)
    ensures depth + Height(cs) > MAX_COMPONENT_DEPTH + 1 ==> |PreOrder(cs, depth)| < |FullPreOrder(cs)|
    decreases Size(cs)
  {
    if cs != [] {
      SizeSplits(cs);
      CutVersusFull(cs[1..], depth);
      var below := cs[0].components;
      assert Under(cs[0]) == Height(below) && Nested(cs[0]) == FullPreOrder(below);
      if depth < MAX_COMPONENT_DEPTH {
        CutVersusFull(below, depth + 1);
      } else if below != [] {
        assert Height(below) >= 1 && |FullPreOrder(below)| >= 1;
      }
    }
  }

  // ---------- the traversal, by paths ----------

  /** Where a component sits: its index among its siblings on each level, top level first. */
  type Path = seq<int>

  /** `c` sits at this path of a forest whose first root has the index `from`. */
  ghost predicate SitsFrom(cs: seq<Component>, from: int, path: Path, c: Component)
    decreases |path|
  {
    && path != [] && from <= path[0] < from + |cs|
    && if |path| == 1 then cs[path[0] - from] == c else SitsFrom(cs[path[0] - from].components, 0, path[1..], c)
  }

  ghost predicate SitsAt(cs: seq<Component>, path: Path, c: Component) { SitsFrom(cs, 0, path, c) }

  /** Document order: a component before its subtree, and that before the next sibling. */
  ghost predicate Before(p: Path, q: Path) {
    p < q || exists k :: 0 <= k < |p| && k < |q| && p[..k] == q[..k] && p[k] < q[k]
  }

  datatype Visit = Visit(path: Path, component: Component)

  /** The cut traversal, with the path of each component. */
  ghost function Visits(cs: seq<Component>, depth: nat, from: int): seq<Visit>
    decreases cs, 0
  {
    if cs == [] then []
    else [Visit([from], cs[0])] + Prefixed(from, VisitsBelow(cs[0], depth)) + Visits(cs[1..], depth, from + 1)
  }

  ghost function VisitsBelow(c: Component, depth: nat): seq<Visit>
    decreases c, 1
  {
    if depth >= MAX_COMPONENT_DEPTH then [] else Visits(c.components, depth + 1, 0)
  }

  ghost function Prefixed(k: int, vs: seq<Visit>): seq<Visit> {
    seq(|vs|, i requires 0 <= i < |vs| => Visit([k] + vs[i].path, vs[i].component))
  }

  ghost predicate SameComponents(vs: seq<Visit>, cs: seq<Component>) {
    |vs| == |cs| && forall i :: 0 <= i < |vs| ==> vs[i].component == cs[i]
  }

  lemma {:induction false} VisitsArePreOrder(cs: seq<Component>, depth: nat, from: int)
    ensures SameComponents(Visits(cs, depth, from), PreOrder(cs, depth))
    decreases Size(cs)
  {
    if cs != [] {
      SizeSplits(cs);
      if depth < MAX_COMPONENT_DEPTH {
        VisitsArePreOrder(cs[0].components, depth + 1, 0);
      }
      assert SameComponents(Prefixed(from, VisitsBelow(cs[0], depth)), Below(cs[0], depth));
      VisitsArePreOrder(cs[1..], depth, from + 1);
    }
  }

  lemma PrefixedExactly(k: int, vs: seq<Visit>, v: Visit)
    ensures v in Prefixed(k, vs) <==> v.path != [] && v.path[0] == k && Visit(v.path[1..], v.component) in vs
  {
    if v.path != [] && v.path[0] == k && Visit(v.path[1..], v.component) in vs {
      var i :| 0 <= i < |vs| && vs[i] == Visit(v.path[1..], v.component);
      assert v.path == [k] + v.path[1..];
      assert Prefixed(k, vs)[i] == v;
    }
  }

  /** Visited is exactly what sits at a path within the depth bound. */
  lemma {:induction false} VisitsExactly(cs: seq<Component>, depth: nat, from: int, v: Visit)
    requires 1 <= depth <= MAX_COMPONENT_DEPTH
    ensures v in Visits(cs, depth, from) <==>
            SitsFrom(cs, from, v.path, v.component) && |v.path| <= MAX_COMPONENT_DEPTH + 1 - depth
    decreases Size(cs)
  {
    if cs != [] {
      SizeSplits(cs);
      var below := VisitsBelow(cs[0], depth);
      PrefixedExactly(from, below, v);
      VisitsExactly(cs[1..], depth, from + 1, v);
      FirstOrLater(cs, from, v);
      if v.path != [] && depth < MAX_COMPONENT_DEPTH {
        VisitsExactly(cs[0].components, depth + 1, 0, Visit(v.path[1..], v.component));
      }
      assert v in Visits(cs, depth, from) <==>
             v == Visit([from], cs[0]) || v in Prefixed(from, below) || v in Visits(cs[1..], depth, from + 1);
    }
  }

  /** What sits in a forest is its first root, sits below that, or sits in the rest. */
  lemma FirstOrLater(cs: seq<Component>, from: int, v: Visit)
    requires cs != []
    ensures SitsFrom(cs, from, v.path, v.component) <==>
            || v == Visit([from], cs[0])
            || (v.path != [] && v.path[0] == from && SitsFrom(cs[0].components, 0, v.path[1..], v.component))
            || SitsFrom(cs[1..], from + 1, v.path, v.component)
  {
    if v.path != [] {
      assert |v.path| == 1 ==> v.path == [v.path[0]];
      assert from + 1 <= v.path[0] < from + |cs| ==> cs[1..][v.path[0] - from - 1] == cs[v.path[0] - from];
    }
  }

  ghost predicate InOrder(vs: seq<Visit>) {
    forall i, j :: 0 <= i < j < |vs| ==> Before(vs[i].path, vs[j].path)
  }

  lemma PrefixedInOrder(k: int, vs: seq<Visit>)
    requires InOrder(vs)
    ensures InOrder(Prefixed(k, vs))
  {
    forall i, j | 0 <= i < j < |vs|
      ensures Before([k] + vs[i].path, [k] + vs[j].path)
    {
      var p, q := vs[i].path, vs[j].path;
      assert Before(p, q);
      if !(p < q) {
        var m :| 0 <= m < |p| && m < |q| && p[..m] == q[..m] && p[m] < q[m];
        assert ([k] + p)[..m + 1] == [k] + p[..m] && ([k] + q)[..m + 1] == [k] + q[..m];
        assert ([k] + p)[m + 1] < ([k] + q)[m + 1];
      }
    }
  }

  lemma {:induction false} VisitsInOrder(cs: seq<Component>, depth: nat, from: int)
    requires 1 <= depth <= MAX_COMPONENT_DEPTH
    ensures InOrder(Visits(cs, depth, from))
    ensures forall v :: v in Visits(cs, depth, from) ==> v.path != [] && v.path[0] >= from
    decreases Size(cs)
  {
    if cs != [] {
      SizeSplits(cs);
      var below, rest := VisitsBelow(cs[0], depth), Visits(cs[1..], depth, from + 1);
      if depth < MAX_COMPONENT_DEPTH {
        VisitsInOrder(cs[0].components, depth + 1, 0);
      }
      PrefixedInOrder(from, below);
      VisitsInOrder(cs[1..], depth, from + 1);
      forall v | v in Prefixed(from, below)
        ensures v.path != [] && v.path[0] == from && |v.path| > 1
      {
        PrefixedExactly(from, below, v);
      }
      JoinInOrder(from, Visit([from], cs[0]), Prefixed(from, below), rest);
    }
  }

  lemma JoinInOrder(from: int, root: Visit, below: seq<Visit>, rest: seq<Visit>)
    requires root.path == [from] && InOrder(below) && InOrder(rest)
    requires forall v :: v in below ==> v.path != [] && v.path[0] == from && |v.path| > 1
    requires forall v :: v in rest ==> v.path != [] && v.path[0] > from
    ensures InOrder([root] + below + rest)
  {
    var all := [root] + below + rest;
    forall i, j | 0 <= i < j < |all|
      ensures Before(all[i].path, all[j].path)
    {
      var p, q := all[i].path, all[j].path;
      if j > |below| {
        assert all[j] == rest[j - 1 - |below|] && all[j] in rest;
        if i <= |below| {
          assert i > 0 ==> all[i] == below[i - 1] && all[i] in below;
          assert p[..0] == q[..0] && p[0] < q[0];
        } else {
          assert all[i] == rest[i - 1 - |below|];
        }
      } else {
        assert all[j] == below[j - 1] && all[j] in below;
        if i == 0 {
          assert p < q;
        } else {
          assert all[i] == below[i - 1];
        }
      }
    }
  }

  /** These components are, in document order and each once, what sits on the first 1000 levels, at these paths. */
  ghost predicate AreFirstLevels(found: seq<Component>, top: seq<Component>, paths: seq<Path>) {
    && |paths| == |found|
    && (forall i :: 0 <= i < |paths| ==> SitsAt(top, paths[i], found[i]) && |paths[i]| <= 1000)
    && (forall i, j :: 0 <= i < j < |paths| ==> Before(paths[i], paths[j]))
    && (forall path, c :: SitsAt(top, path, c) && |path| <= 1000 ==> path in paths)
  }

  /** The recursive traversal is the document order of the first 1000 levels. */
  lemma PreOrderIsDocumentOrder(top: seq<Component>) returns (paths: seq<Path>)
    ensures AreFirstLevels(PreOrder(top, 1), top, paths)
  {
    var visits := Visits(top, 1, 0);
    paths := seq(|visits|, i requires 0 <= i < |visits| => visits[i].path);
    VisitsArePreOrder(top, 1, 0);
    VisitsInOrder(top, 1, 0);
    forall i | 0 <= i < |paths|
      ensures SitsAt(top, paths[i], PreOrder(top, 1)[i]) && |paths[i]| <= 1000
    {
      VisitsExactly(top, 1, 0, visits[i]);
    }
    forall path, c | SitsAt(top, path, c) && |path| <= 1000
      ensures path in paths
    {
      VisitsExactly(top, 1, 0, Visit(path, c));
      var i :| 0 <= i < |visits| && visits[i] == Visit(path, c);
      assert paths[i] == path;
    }
  }

  /** Some component sits on level n of the forest. */
  ghost predicate ReachesLevel(cs: seq<Component>, from: int, n: nat) {
    exists path, c :: SitsFrom(cs, from, path, c) && |path| == n
  }

  /** The height is the level of the deepest component. */
  lemma {:induction false} HeightExactly(cs: seq<Component>, from: int, n: nat)
    requires n >= 1
    ensures Height(cs) >= n <==> ReachesLevel(cs, from, n)
    decreases Size(cs)
  {
    if cs != [] {
      SizeSplits(cs);
      HeightExactly(cs[1..], from + 1, n);
      if n > 1 {
        HeightExactly(cs[0].components, 0, n - 1);
      }
      NodeUnfolds(cs[0]);
      LevelSplits(cs, from, n);
    }
  }

  lemma LevelSplits(cs: seq<Component>, from: int, n: nat)
    requires cs != [] && n >= 1
    ensures ReachesLevel(cs, from, n) <==>
            n == 1 || ReachesLevel(cs[0].components, 0, n - 1) || ReachesLevel(cs[1..], from + 1, n)
  {
    if path, c :| SitsFrom(cs, from, path, c) && |path| == n {
      FirstOrLater(cs, from, Visit(path, c));
    }
    if n == 1 {
      FirstOrLater(cs, from, Visit([from], cs[0]));
      assert SitsFrom(cs, from, [from], cs[0]);
    } else if path, c :| SitsFrom(cs[0].components, 0, path, c) && |path| == n - 1 {
      FirstOrLater(cs, from, Visit([from] + path, c));
      assert SitsFrom(cs, from, [from] + path, c) && |[from] + path| == n;
    }
    var rest, next := cs[1..], from + 1;
    if path, c :| SitsFrom(rest, next, path, c) && |path| == n {
      FirstOrLater(cs, from, Visit(path, c));
    }
  }

  // ---------- statistics ----------

  datatype CryptoStats = CryptoStats(total: int, algorithms: int, certificates: int, protocols: int, related: int) {
    function Get(c: Counter): int {
      match c
      case Total => total
      case Typed(Algorithm) => algorithms
      case Typed(Certificate) => certificates
      case Typed(Protocol) => protocols
      case Typed(RelatedCryptoMaterial) => related
      case Typed(OtherAsset) => 0
    }
  }

  /** The fields of CryptoStats; there is none for OtherAsset. */
  datatype Counter = Total | Typed(assetType: AssetType)

  const ZERO := CryptoStats(0, 0, 0, 0, 0)

  /** What one component adds to a counter. */
  function Adds(c: Component, counter: Counter): int {
    if !c.isCryptoAsset || c.crypto.None? then 0
    else match counter
      case Total => 1
      case Typed(t) => if t != OtherAsset && c.crypto.value == t then 1 else 0
  }

  /** The recursive sum over the first `levels` levels of a forest. */
  function ForestCount(cs: seq<Component>, levels: nat, counter: Counter): int
    decreases cs, 0
  {
    if cs == [] || levels == 0 then 0
    else Adds(cs[0], counter) + NestedCount(cs[0], levels - 1, counter) + ForestCount(cs[1..], levels, counter)
  }

  function NestedCount(c: Component, levels: nat, counter: Counter): int
    decreases c, 1
  {
    ForestCount(c.components, levels, counter)
  }

  function Tally(cs: seq<Component>, counter: Counter): int {
    if cs == [] then 0 else Tally(cs[..|cs| - 1], counter) + Adds(cs[|cs| - 1], counter)
  }

  lemma {:induction false} TallyConcat(a: seq<Component>, b: seq<Component>, counter: Counter)
    ensures Tally(a + b, counter) == Tally(a, counter) + Tally(b, counter)
  {
    if b == [] {
      assert a + b == a;
    } else {
      assert (a + b)[..|a + b| - 1] == a + b[..|b| - 1];
      TallyConcat(a, b[..|b| - 1], counter);
    }
  }

  lemma TallyNode(c: Component, below: seq<Component>, rest: seq<Component>, counter: Counter)
    ensures Tally([c] + below + rest, counter) == Adds(c, counter) + Tally(below, counter) + Tally(rest, counter)
  {
    TallyConcat([c] + below, rest, counter);
    TallyConcat([c], below, counter);
    assert [c][..0] == [];
  }

  /** Counting along the cut traversal is the recursive sum over the levels it keeps. */
  lemma {:induction false} TallyOfPreOrder(cs: seq<Component>, depth: nat, counter: Counter)
    requires 1 <= depth <= MAX_COMPONENT_DEPTH
    ensures Tally(PreOrder(cs, depth), counter) == ForestCount(cs, MAX_COMPONENT_DEPTH + 1 - depth, counter)
    decreases Size(cs)
  {
    if cs != [] {
      SizeSplits(cs);
      TallyNode(cs[0], Below(cs[0], depth), PreOrder(cs[1..], depth), counter);
      TallyOfPreOrder(cs[1..], depth, counter);
      var levels := MAX_COMPONENT_DEPTH - depth;
      assert Tally(Below(cs[0], depth), counter) == NestedCount(cs[0], levels, counter) by {
        if levels > 0 {
          TallyOfPreOrder(cs[0].components, depth + 1, counter);
        }
      }
    }
  }

  /** The indices of the components this test accepts. */
  ghost function Where(cs: seq<Component>, accepts: Component -> bool): set<int> {
    set i | 0 <= i < |cs| && accepts(cs[i])
  }

  lemma WhereOneMore(cs: seq<Component>, accepts: Component -> bool)
    requires cs != []
    ensures |Where(cs, accepts)| == |Where(cs[..|cs| - 1], accepts)| + (if accepts(cs[|cs| - 1]) then 1 else 0)
  {
    var front, n := cs[..|cs| - 1], |cs| - 1;
    assert Where(cs, accepts) == Where(front, accepts) + (if accepts(cs[n]) then {n} else {});
  }

  /** Where the crypto assets of this type stand. */
  ghost function AssetsOf(cs: seq<Component>, t: AssetType): set<int> {
    Where(cs, (c: Component) => c.isCryptoAsset && c.crypto == Some(t))
  }

  /** Where the crypto assets of any type stand, those without properties excepted. */
  ghost function Assets(cs: seq<Component>): set<int> {
    Where(cs, (c: Component) => c.isCryptoAsset && c.crypto.Some?)
  }

  /** A tally of what a test accepts is the number of places it accepts. */
  lemma {:induction false} TallyIsCount(cs: seq<Component>, counter: Counter, accepts: Component -> bool)
    requires forall c :: Adds(c, counter) == if accepts(c) then 1 else 0
    ensures Tally(cs, counter) == |Where(cs, accepts)|
  {
    if cs != [] {
      TallyIsCount(cs[..|cs| - 1], counter, accepts);
      WhereOneMore(cs, accepts);
    }
  }

  lemma TypeIsCount(cs: seq<Component>, t: AssetType)
    requires t != OtherAsset
    ensures Tally(cs, Typed(t)) == |AssetsOf(cs, t)|
  {
    TallyIsCount(cs, Typed(t), (c: Component) => c.isCryptoAsset && c.crypto == Some(t));
  }

  /** Field by field, the number of crypto assets of each type among these components. */
  ghost predicate CountsByName(stats: CryptoStats, cs: seq<Component>) {
    && stats.total == |Assets(cs)|
    && stats.algorithms == |AssetsOf(cs, Algorithm)|
    && stats.certificates == |AssetsOf(cs, Certificate)|
    && stats.protocols == |AssetsOf(cs, Protocol)|
    && stats.related == |AssetsOf(cs, RelatedCryptoMaterial)|
  }

  lemma CountsAreByName(stats: CryptoStats, cs: seq<Component>)
    requires Counts(stats, cs)
    ensures CountsByName(stats, cs)
  {
    TallyIsCount(cs, Total, (c: Component) => c.isCryptoAsset && c.crypto.Some?);
    TypeIsCount(cs, Algorithm);
    TypeIsCount(cs, Certificate);
    TypeIsCount(cs, Protocol);
    TypeIsCount(cs, RelatedCryptoMaterial);
    assert stats.Get(Total) == Tally(cs, Total);
    assert stats.Get(Typed(Algorithm)) == Tally(cs, Typed(Algorithm));
    assert stats.Get(Typed(Certificate)) == Tally(cs, Typed(Certificate));
    assert stats.Get(Typed(Protocol)) == Tally(cs, Typed(Protocol));
    assert stats.Get(Typed(RelatedCryptoMaterial)) == Tally(cs, Typed(RelatedCryptoMaterial));
  }

  ghost predicate Counts(stats: CryptoStats, cs: seq<Component>) {
    forall counter :: stats.Get(counter) == Tally(cs, counter)
  }

  /** The loop of CountCryptoStats. */
  method CountAssets(walked: seq<Component>) returns (stats: CryptoStats)
    ensures Counts(stats, walked)
  {
    stats := ZERO;
    for i := 0 to |walked|
      invariant Counts(stats, walked[..i])
    {
      var component := walked[i];
      assert walked[..i + 1][..i] == walked[..i];
      if !component.isCryptoAsset {
        continue;
      }
      if component.crypto.None? {
        continue;
      }
      stats := stats.(total := stats.total + 1);
      match component.crypto.value {
        case Algorithm => stats := stats.(algorithms := stats.algorithms + 1);
        case Certificate => stats := stats.(certificates := stats.certificates + 1);
        case Protocol => stats := stats.(protocols := stats.protocols + 1);
        case RelatedCryptoMaterial => stats := stats.(related := stats.related + 1);
        case OtherAsset =>
      }
    }
    assert walked[..|walked|] == walked;
  }

  method CountCryptoStats(components: Option<seq<Component>>) returns (stats: CryptoStats, truncated: bool)
    ensures components.None? ==> stats == CryptoStats(0, 0, 0, 0, 0) && !truncated
    ensures components.Some? ==>
              && (forall counter :: stats.Get(counter) == ForestCount(components.value, MAX_COMPONENT_DEPTH, counter))
              && CountsByName(stats, PreOrder(components.value, 1))
              && (truncated <==> Height(components.value) > MAX_COMPONENT_DEPTH)
  {
    if components.None? {
      return ZERO, false;
    }
    var walked;
    walked, truncated := WalkComponents(components.value);
    stats := CountAssets(walked);
    CountsAreByName(stats, walked);
    forall counter
      ensures stats.Get(counter) == ForestCount(components.value, MAX_COMPONENT_DEPTH, counter)
    {
      TallyOfPreOrder(components.value, 1, counter);
    }
  }

  /** Statistics that are the recursive sums count the crypto assets of the first 1000 levels by name. */
  lemma SumsAreByName(stats: CryptoStats, cs: seq<Component>)
    requires forall counter :: stats.Get(counter) == ForestCount(cs, MAX_COMPONENT_DEPTH, counter)
    ensures CountsByName(stats, PreOrder(cs, 1))
  {
    forall counter
      ensures stats.Get(counter) == Tally(PreOrder(cs, 1), counter)
    {
      TallyOfPreOrder(cs, 1, counter);
    }
    CountsAreByName(stats, PreOrder(cs, 1));
  }

  /** More levels never lower a count, and levels beyond the height add nothing. */
  lemma {:induction false} CountIsLowerBound(cs: seq<Component>, levels: nat, more: nat, counter: Counter)
    requires levels <= more
    ensures 0 <= ForestCount(cs, levels, counter) <= ForestCount(cs, more, counter)
    ensures Height(cs) <= levels ==> ForestCount(cs, levels, counter) == ForestCount(cs, more, counter)
    decreases Size(cs)
  {
    if cs != [] && more > 0 {
      SizeSplits(cs);
      CountIsLowerBound(cs[0].components, if levels > 0 then levels - 1 else 0, more - 1, counter);
      CountIsLowerBound(cs[1..], levels, more, counter);
      NodeUnfolds(cs[0]);
    }
  }

  /** What an upload records is a lower bound on the whole document, exact when it is not marked truncated. */
  lemma RecordedCountIsLowerBound(cs: seq<Component>, counter: Counter)
    ensures ForestCount(cs, MAX_COMPONENT_DEPTH, counter) <= Tally(FullPreOrder(cs), counter)
    ensures Height(cs) <= MAX_COMPONENT_DEPTH
            ==> ForestCount(cs, MAX_COMPONENT_DEPTH, counter) == Tally(FullPreOrder(cs), counter)
  {
    var levels := Max(Height(cs), MAX_COMPONENT_DEPTH);
    FullCount(cs, levels, counter);
    CountIsLowerBound(cs, MAX_COMPONENT_DEPTH, levels, counter);
  }

  lemma {:induction false} FullCount(cs: seq<Component>, levels: nat, counter: Counter)
    requires Height(cs) <= levels
    ensures ForestCount(cs, levels, counter) == Tally(FullPreOrder(cs), counter)
    decreases Size(cs)
  {
    if cs != [] {
      SizeSplits(cs);
      NodeUnfolds(cs[0]);
      FullCount(cs[0].components, levels - 1, counter);
      FullCount(cs[1..], levels, counter);
      TallyNode(cs[0], Nested(cs[0]), FullPreOrder(cs[1..]), counter);
    }
  }

  /** Crypto assets whose type has no field of its own. */
  function Untyped(cs: seq<Component>): nat {
    if cs == [] then 0
    else Untyped(cs[..|cs| - 1])
         + (if cs[|cs| - 1].isCryptoAsset && cs[|cs| - 1].crypto == Some(OtherAsset) then 1 else 0)
  }

  /** The total exceeds the four buckets by exactly the visited assets outside the four types. */
  lemma TotalIsBucketsPlusUntyped(stats: CryptoStats, cs: seq<Component>)
    requires forall counter :: stats.Get(counter) == ForestCount(cs, MAX_COMPONENT_DEPTH, counter)
    ensures stats.total
         == stats.algorithms + stats.certificates + stats.protocols + stats.related + Untyped(PreOrder(cs, 1))
  {
    forall counter
      ensures stats.Get(counter) == Tally(PreOrder(cs, 1), counter)
    {
      TallyOfPreOrder(cs, 1, counter);
    }
    BucketsOfStats(stats, PreOrder(cs, 1));
  }

  lemma BucketsOfStats(stats: CryptoStats, visited: seq<Component>)
    requires Counts(stats, visited)
    ensures stats.total
         == stats.algorithms + stats.certificates + stats.protocols + stats.related + Untyped(visited)
  {
    assert stats.Get(Total) == Tally(visited, Total);
    assert stats.Get(Typed(Algorithm)) == Tally(visited, Typed(Algorithm));
    assert stats.Get(Typed(Certificate)) == Tally(visited, Typed(Certificate));
    assert stats.Get(Typed(Protocol)) == Tally(visited, Typed(Protocol));
    assert stats.Get(Typed(RelatedCryptoMaterial)) == Tally(visited, Typed(RelatedCryptoMaterial));
    BucketsOfTally(visited);
  }

  lemma {:induction false} BucketsOfTally(cs: seq<Component>)
    ensures Tally(cs, Total) == Tally(cs, Typed(Algorithm)) + Tally(cs, Typed(Certificate))
                                + Tally(cs, Typed(Protocol)) + Tally(cs, Typed(RelatedCryptoMaterial)) + Untyped(cs)
  {
    if cs != [] {
      BucketsOfTally(cs[..|cs| - 1]);
    }
  }
}
