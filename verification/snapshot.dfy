/** From the browser's flat list of accessibility nodes to the tree that is rendered. */
module Snapshot {
  import opened Wrappers
  import opened Strings
  import opened Json
  import opened Accessibility

  // ---- the nodes ---------------------------------------------------------------------------

  datatype AxValue = AxValue(value: Option<Json>)

  datatype CdpNode = CdpNode(
    nodeId: string, ignored: bool, role: Option<AxValue>, name: Option<AxValue>,
    backendDomNodeId: Option<int>, parentId: Option<string>, childIds: Option<seq<string>>)

  type NodeMap = map<string, CdpNode>

  const MAX_TREE_DEPTH := 80
  const MAX_NODES := 5000

  function ValueText(v: Option<AxValue>, default: string): string {
    match v
    case Some(AxValue(Some(String(text)))) => text
    case _ => default
  }

  /** The cast of an `i64` to `u64`. */
  function AsU64(i: int): nat {
    i % 0x1_0000_0000_0000_0000
  }

  function BackendId(cdp: CdpNode): nat {
    match cdp.backendDomNodeId
    case Some(id) => AsU64(id)
    case None => 0
  }

  function Children(cdp: CdpNode): seq<string> {
    match cdp.childIds
    case Some(ids) => ids
    case None => []
  }

  /** The nodes by id, later ones winning. */
  function Indexed(nodes: seq<CdpNode>): NodeMap {
    if nodes == [] then map[]
    else
      var last := nodes[|nodes| - 1];
      Indexed(nodes[..|nodes| - 1])[last.nodeId := last]
  }

  // ---- the tree ------------------------------------------------------------------------------

  function BuildTree(nodeId: string, m: NodeMap, depth: nat): Option<AXNode>
    decreases MAX_TREE_DEPTH + 1 - depth, 0, 1
  {
    if depth > MAX_TREE_DEPTH || nodeId !in m || m[nodeId].ignored then None
    else
      var cdp := m[nodeId];
      var children := BuildAll(Children(cdp), m, depth + 1);
      Some(AXNode(BackendId(cdp), ValueText(cdp.role, "unknown"), ValueText(cdp.name, ""), children))
  }

  /** The trees of the ids that have one. */
  function BuildAll(ids: seq<string>, m: NodeMap, depth: nat): seq<AXNode>
    decreases MAX_TREE_DEPTH + 1 - depth, 1, |ids|
  {
    if ids == [] then []
    else
      (match BuildTree(ids[0], m, depth) case Some(tree) => [tree] case None => [])
      + BuildAll(ids[1..], m, depth)
  }

  predicate IsRoot(n: CdpNode, m: NodeMap) {
    !n.ignored && (n.parentId.Some? ==> n.parentId.value !in m)
  }

  function RootIds(nodes: seq<CdpNode>, m: NodeMap): seq<string> {
    if nodes == [] then []
    else (if IsRoot(nodes[0], m) then [nodes[0].nodeId] else []) + RootIds(nodes[1..], m)
  }

  function Roots(nodes: seq<CdpNode>): seq<AXNode> {
    BuildAll(RootIds(nodes, Indexed(nodes)), Indexed(nodes), 0)
  }

  method StepSnapshot(cdpNodes: seq<CdpNode>) returns (text: string, refs: map<string, nat>)
    ensures var lines := Take(Flat(Roots(cdpNodes), 0), 5000);
            && text == LineTexts(lines)
                       + (if 5000 <= |Flat(Roots(cdpNodes), 0)| then
                            "\n[accessibility tree truncated at " + Decimal(5000)
                            + " nodes — increase max_snapshot_nodes if needed]"
                          else "")
            && refs == RefsOf(lines)
  {
    var nodeMap: NodeMap := map[];
    for i := 0 to |cdpNodes|
      invariant nodeMap == Indexed(cdpNodes[..i])
    {
      assert cdpNodes[..i + 1][..i] == cdpNodes[..i];
      nodeMap := nodeMap[cdpNodes[i].nodeId := cdpNodes[i]];
    }
    assert cdpNodes[..|cdpNodes|] == cdpNodes;
    var roots := BuildAll(RootIds(cdpNodes, nodeMap), nodeMap, 0);
    text, refs := RenderAxTree(roots, MAX_NODES);
  }

  // ---- which nodes are shown -----------------------------------------------------------------

  /** A node that is met while building, at its depth. */
  datatype Visit = Visit(id: string, depth: nat)

  function VisitOne(id: string, m: NodeMap, depth: nat): seq<Visit>
    decreases MAX_TREE_DEPTH + 1 - depth, 0, 1
  {
    if depth > MAX_TREE_DEPTH || id !in m || m[id].ignored then []
    else [Visit(id, depth)] + VisitAll(Children(m[id]), m, depth + 1)
  }

  function VisitAll(ids: seq<string>, m: NodeMap, depth: nat): seq<Visit>
    decreases MAX_TREE_DEPTH + 1 - depth, 1, |ids|
  {
    if ids == [] then [] else VisitOne(ids[0], m, depth) + VisitAll(ids[1..], m, depth)
  }

  predicate Known(visits: seq<Visit>, m: NodeMap) {
    forall i :: 0 <= i < |visits| ==> visits[i].id in m
  }

  function VisitLine(v: Visit, m: NodeMap): Line
    requires v.id in m
  {
    Line(v.depth, BackendId(m[v.id]), ValueText(m[v.id].role, "unknown"), ValueText(m[v.id].name, ""))
  }

  function VisitLines(visits: seq<Visit>, m: NodeMap): (lines: seq<Line>)
    requires Known(visits, m)
    ensures |lines| == |visits|
  {
    seq(|visits|, i requires 0 <= i < |visits| => VisitLine(visits[i], m))
  }

  lemma VisitLinesAppend(a: seq<Visit>, b: seq<Visit>, m: NodeMap)
    requires Known(a, m) && Known(b, m)
    ensures Known(a + b, m) && VisitLines(a + b, m) == VisitLines(a, m) + VisitLines(b, m)
  {
  }

  lemma FlatAppend(a: seq<AXNode>, b: seq<AXNode>, depth: nat)
    ensures Flat(a + b, depth) == Flat(a, depth) + Flat(b, depth)
    decreases |a|
  {
    if a == [] {
      assert a + b == b;
    } else {
      assert (a + b)[1..] == a[1..] + b;
      FlatAppend(a[1..], b, depth);
      Regroup4([Line(depth, a[0].backendNodeId, a[0].role, a[0].name)],
               Flat(a[0].children, depth + 1), Flat(a[1..], depth), Flat(b, depth));
    }
  }

  lemma Regroup4<T>(a: seq<T>, b: seq<T>, c: seq<T>, d: seq<T>)
    ensures a + (b + (c + d)) == (a + (b + c)) + d
  {
  }

  /** The rendered lines are those of the visited nodes, in the order of the visits. */
  lemma {:induction false} TreeLines(id: string, m: NodeMap, depth: nat)
    ensures Known(VisitOne(id, m, depth), m)
    ensures var lines := VisitLines(VisitOne(id, m, depth), m);
            match BuildTree(id, m, depth)
            case None => lines == []
            case Some(tree) => lines == Flat([tree], depth)
    decreases MAX_TREE_DEPTH + 1 - depth, 0, 1
  {
    if depth <= MAX_TREE_DEPTH && id in m && !m[id].ignored {
      var children := Children(m[id]);
      var here, below := [Visit(id, depth)], VisitAll(children, m, depth + 1);
      ForestLines(children, m, depth + 1);
      assert Known(here, m) && VisitLines(here, m) == [VisitLine(here[0], m)];
      VisitLinesAppend(here, below, m);
      var tree := BuildTree(id, m, depth).value;
      assert [tree][1..] == [] && Flat([tree][1..], depth) == [];
      assert Flat(tree.children, depth + 1) + [] == Flat(tree.children, depth + 1);
    }
  }

  lemma {:induction false} ForestLines(ids: seq<string>, m: NodeMap, depth: nat)
    ensures Known(VisitAll(ids, m, depth), m)
    ensures VisitLines(VisitAll(ids, m, depth), m) == Flat(BuildAll(ids, m, depth), depth)
    decreases MAX_TREE_DEPTH + 1 - depth, 1, |ids|
  {
    if ids == [] {
    } else {
      var rest := BuildAll(ids[1..], m, depth);
      TreeLines(ids[0], m, depth);
      ForestLines(ids[1..], m, depth);
      VisitLinesAppend(VisitOne(ids[0], m, depth), VisitAll(ids[1..], m, depth), m);
      match BuildTree(ids[0], m, depth)
      case None => assert [] + rest == rest;
      case Some(tree) => FlatAppend([tree], rest, depth);
    }
  }

  /** What is shown of a visited node: its texts or the defaults, and its number as 64 bits without sign. */
  lemma VisitLineMeans(v: Visit, m: NodeMap)
    requires v.id in m
    ensures var line, node := VisitLine(v, m), m[v.id];
            && line.depth == v.depth
            && (node.role == Some(AxValue(Some(String(line.role))))
                || (line.role == "unknown" && forall t :: node.role != Some(AxValue(Some(String(t))))))
            && (node.name == Some(AxValue(Some(String(line.name))))
                || (line.name == "" && forall t :: node.name != Some(AxValue(Some(String(t))))))
            && (node.backendDomNodeId == None ==> line.id == 0)
            && (node.backendDomNodeId.Some? && -0x8000_0000_0000_0000 <= node.backendDomNodeId.value ==>
                  node.backendDomNodeId.value < 0x8000_0000_0000_0000 ==>
                  line.id == node.backendDomNodeId.value
                             + if node.backendDomNodeId.value < 0 then 0x1_0000_0000_0000_0000 else 0)
  {
  }

  /** Trees stand in the order of their ids. */
  lemma {:induction false} TreesInOrder(a: seq<string>, b: seq<string>, m: NodeMap, depth: nat)
    ensures BuildAll(a + b, m, depth) == BuildAll(a, m, depth) + BuildAll(b, m, depth)
    decreases |a|
  {
    hide BuildTree;
    if a == [] {
      assert a + b == b;
    } else {
      assert (a + b)[1..] == a[1..] + b;
      TreesInOrder(a[1..], b, m, depth);
    }
  }

  /** A node has a tree unless it is too deep, unknown or ignored; its children are those that it names. */
  lemma TreeOfNode(id: string, m: NodeMap, depth: nat)
    ensures var trees := BuildAll([id], m, depth);
            if depth <= 80 && id in m && !m[id].ignored
            then |trees| == 1 && trees[0].children
                 == if m[id].childIds.Some? then BuildAll(m[id].childIds.value, m, depth + 1) else []
            else trees == []
  {
    var tree := BuildTree(id, m, depth);
    assert [id][1..] == [] && BuildAll([], m, depth) == [];
    assert BuildAll([id], m, depth) == if tree.Some? then [tree.value] else [];
    if depth <= 80 && id in m && !m[id].ignored {
      assert tree.value.children == BuildAll(Children(m[id]), m, depth + 1);
    }
  }

  // ---- well-formed forests ---------------------------------------------------------------------

  ghost predicate Distinct(ids: seq<string>) {
    forall i, j :: 0 <= i < j < |ids| ==> ids[i] != ids[j]
  }

  ghost predicate HasParent(m: NodeMap, id: string)
    requires id in m
  {
    m[id].parentId.Some? && m[id].parentId.value in m
  }

  /**
   * Parents and children name each other, no child twice, and every node has the level of its
   * parent plus one.
   */
  ghost predicate Forest(m: NodeMap, level: map<string, nat>) {
    level.Keys == m.Keys && forall id {:trigger Linked(m, level, id)} :: id in m ==> Linked(m, level, id)
  }

  ghost predicate Linked(m: NodeMap, level: map<string, nat>, id: string)
    requires level.Keys == m.Keys && id in m
  {
    && (if HasParent(m, id)
        then id in Children(m[m[id].parentId.value]) && level[id] == level[m[id].parentId.value] + 1
        else level[id] == 0)
    && Distinct(Children(m[id]))
    && forall c :: c in Children(m[id]) && c in m ==> m[c].parentId == Some(id)
  }

  /** The ancestor of `x` at level `l`. */
  ghost function Ancestor(m: NodeMap, level: map<string, nat>, x: string, l: nat): (a: string)
    requires Forest(m, level) && x in m && l <= level[x]
    ensures a in m && level[a] == l
    decreases level[x]
  {
    assert Linked(m, level, x);
    if l == level[x] then x else Ancestor(m, level, m[x].parentId.value, l)
  }

  /** Neither `x` nor an ancestor of it from level `l` on is ignored. */
  ghost predicate Clear(m: NodeMap, level: map<string, nat>, x: string, l: nat)
    requires Forest(m, level) && x in m && l <= level[x]
    decreases level[x]
  {
    assert Linked(m, level, x);
    !m[x].ignored && (l < level[x] ==> Clear(m, level, m[x].parentId.value, l))
  }

  /** No deeper than the limit, and not behind an ignored node from level `l` on. */
  ghost predicate Shown(m: NodeMap, level: map<string, nat>, x: string, l: nat)
    requires Forest(m, level)
  {
    x in m && l <= level[x] <= 80 && Clear(m, level, x, l)
  }

  /** One level up, both ways. */
  lemma {:induction false} StepUp(m: NodeMap, level: map<string, nat>, x: string, l: nat)
    requires Forest(m, level) && x in m && l < level[x]
    ensures var a := Ancestor(m, level, x, l + 1);
            && HasParent(m, a) && m[a].parentId.value == Ancestor(m, level, x, l)
            && (Clear(m, level, x, l)
                <==> Clear(m, level, x, l + 1) && !m[Ancestor(m, level, x, l)].ignored)
    decreases level[x]
  {
    assert Linked(m, level, x);
    if l + 1 < level[x] { StepUp(m, level, m[x].parentId.value, l); }
  }

  ghost function Count(visits: seq<Visit>, x: string): nat {
    if visits == [] then 0 else (if visits[0].id == x then 1 else 0) + Count(visits[1..], x)
  }

  lemma {:induction false} CountAppend(a: seq<Visit>, b: seq<Visit>, x: string)
    ensures Count(a + b, x) == Count(a, x) + Count(b, x)
    decreases |a|
  {
    if a == [] {
      assert a + b == b;
    } else {
      assert (a + b)[1..] == a[1..] + b;
      CountAppend(a[1..], b, x);
    }
  }

  /** Below one node, every shown descendant is visited once, and nothing else. */
  lemma {:induction false} CountOne(m: NodeMap, level: map<string, nat>, id: string, depth: nat, x: string)
    requires Forest(m, level) && (id in m ==> level[id] == depth)
    ensures Count(VisitOne(id, m, depth), x)
            == if Shown(m, level, x, depth) && Ancestor(m, level, x, depth) == id then 1 else 0
    decreases MAX_TREE_DEPTH + 1 - depth, 0, 1
  {
    if depth <= MAX_TREE_DEPTH && id in m && !m[id].ignored {
      hide Shown, Ancestor, Clear, Children;
      var children := Children(m[id]);
      ChildLevels(m, level, id);
      CountAll(m, level, children, depth + 1, x);
      CountVisit(Visit(id, depth), VisitAll(children, m, depth + 1), x);
      ShownBelow(m, level, id, x);
    } else {
      NotShown(m, level, id, depth, x);
    }
  }

  lemma CountVisit(v: Visit, rest: seq<Visit>, x: string)
    ensures Count([v] + rest, x) == (if v.id == x then 1 else 0) + Count(rest, x)
  {
    assert ([v] + rest)[1..] == rest;
  }

  lemma ChildLevels(m: NodeMap, level: map<string, nat>, id: string)
    requires Forest(m, level) && id in m
    ensures Distinct(Children(m[id]))
    ensures forall c :: c in Children(m[id]) && c in m ==> level[c] == level[id] + 1
  {
    assert Linked(m, level, id);
    forall c | c in Children(m[id]) && c in m ensures level[c] == level[id] + 1 {
      assert Linked(m, level, c) && HasParent(m, c);
    }
  }

  /** What is shown below a node: itself, and what is shown below its children. */
  lemma ShownBelow(m: NodeMap, level: map<string, nat>, id: string, x: string)
    requires Forest(m, level) && id in m && !m[id].ignored && level[id] <= MAX_TREE_DEPTH
    ensures var l := level[id];
            && (Shown(m, level, x, l) && Ancestor(m, level, x, l) == id
                <==> x == id || (Shown(m, level, x, l + 1) && Ancestor(m, level, x, l + 1) in Children(m[id])))
            && (x == id ==> !Shown(m, level, x, l + 1))
  {
    var l := level[id];
    if x in m && l < level[x] {
      StepUp(m, level, x, l);
      var a := Ancestor(m, level, x, l + 1);
      assert Linked(m, level, a) && Linked(m, level, id);
      assert a in Children(m[id]) <==> m[a].parentId.value == id;
    }
  }

  lemma NotShown(m: NodeMap, level: map<string, nat>, id: string, depth: nat, x: string)
    requires Forest(m, level) && (depth > MAX_TREE_DEPTH || id !in m || m[id].ignored)
    ensures !(Shown(m, level, x, depth) && Ancestor(m, level, x, depth) == id)
  {
    if Shown(m, level, x, depth) && depth < level[x] { StepUp(m, level, x, depth); }
  }

  lemma {:induction false} CountAll(
      m: NodeMap, level: map<string, nat>, ids: seq<string>, depth: nat, x: string)
    requires Forest(m, level) && Distinct(ids)
    requires forall id :: id in ids && id in m ==> level[id] == depth
    ensures Count(VisitAll(ids, m, depth), x)
            == if Shown(m, level, x, depth) && Ancestor(m, level, x, depth) in ids then 1 else 0
    decreases MAX_TREE_DEPTH + 1 - depth, 1, |ids|
  {
    if ids == [] {
    } else {
      CountOne(m, level, ids[0], depth, x);
      CountAll(m, level, ids[1..], depth, x);
      CountAppend(VisitOne(ids[0], m, depth), VisitAll(ids[1..], m, depth), x);
      assert ids[0] !in ids[1..];
      assert ids == [ids[0]] + ids[1..];
    }
  }

  // ---- the whole snapshot ------------------------------------------------------------------------

  ghost predicate DistinctIds(nodes: seq<CdpNode>) {
    forall i, j :: 0 <= i < j < |nodes| ==> nodes[i].nodeId != nodes[j].nodeId
  }

  /** Of several nodes with one id the last is kept. */
  lemma {:induction false} IndexedHas(nodes: seq<CdpNode>, id: string)
    ensures id in Indexed(nodes) <==> exists i :: 0 <= i < |nodes| && nodes[i].nodeId == id
    ensures forall i :: 0 <= i < |nodes| && (forall j :: i < j < |nodes| ==> nodes[j].nodeId != nodes[i].nodeId) ==>
              nodes[i].nodeId in Indexed(nodes) && Indexed(nodes)[nodes[i].nodeId] == nodes[i]
    decreases |nodes|
  {
    if nodes == [] {
    } else {
      var front, last := nodes[..|nodes| - 1], nodes[|nodes| - 1];
      IndexedHas(front, id);
      assert forall i :: 0 <= i < |front| ==> front[i] == nodes[i];
      if id in Indexed(nodes) && id != last.nodeId {
        var i :| 0 <= i < |front| && front[i].nodeId == id;
        assert nodes[i].nodeId == id;
      }
    }
  }

  lemma DistinctCons(id: string, ids: seq<string>)
    requires Distinct(ids) && id !in ids
    ensures Distinct([id] + ids)
  {
  }

  lemma {:induction false} RootIdsAre(nodes: seq<CdpNode>, m: NodeMap)
    requires DistinctIds(nodes)
    ensures Distinct(RootIds(nodes, m))
    ensures forall id :: id in RootIds(nodes, m)
              <==> exists i :: 0 <= i < |nodes| && nodes[i].nodeId == id && IsRoot(nodes[i], m)
    decreases |nodes|
  {
    if nodes == [] {
    } else {
      var rest := nodes[1..];
      RootIdsAre(rest, m);
      assert forall i :: 0 <= i < |rest| ==> rest[i] == nodes[i + 1];
      assert nodes[0].nodeId !in RootIds(rest, m);
      DistinctCons(nodes[0].nodeId, RootIds(rest, m));
      forall id ensures id in RootIds(nodes, m)
          <==> exists i :: 0 <= i < |nodes| && nodes[i].nodeId == id && IsRoot(nodes[i], m) {
        if id in RootIds(rest, m) {
          var i :| 0 <= i < |rest| && rest[i].nodeId == id && IsRoot(rest[i], m);
          assert nodes[i + 1].nodeId == id && IsRoot(nodes[i + 1], m);
        }
      }
    }
  }

  /** Roots stand in the order of the nodes. */
  lemma {:induction false} RootsInOrder(a: seq<CdpNode>, b: seq<CdpNode>, m: NodeMap)
    ensures RootIds(a + b, m) == RootIds(a, m) + RootIds(b, m)
    decreases |a|
  {
    if a == [] {
      assert a + b == b;
    } else {
      assert (a + b)[1..] == a[1..] + b;
      RootsInOrder(a[1..], b, m);
    }
  }

  /** The visits of a snapshot. */
  function Visits(nodes: seq<CdpNode>): seq<Visit> {
    VisitAll(RootIds(nodes, Indexed(nodes)), Indexed(nodes), 0)
  }

  /** The snapshot renders the visited nodes, in the order of the visits, each at its depth. */
  lemma SnapshotLines(nodes: seq<CdpNode>)
    ensures Known(Visits(nodes), Indexed(nodes))
    ensures Flat(Roots(nodes), 0) == VisitLines(Visits(nodes), Indexed(nodes))
  {
    ForestLines(RootIds(nodes, Indexed(nodes)), Indexed(nodes), 0);
  }

  /**
   * Nothing lost and nothing twice: in a forest every node that is no deeper than the limit and has no
   * ignored ancestor-or-self is visited exactly once, and no other node is.
   */
  lemma SnapshotConserves(nodes: seq<CdpNode>, level: map<string, nat>, x: string)
    requires DistinctIds(nodes) && Forest(Indexed(nodes), level)
    ensures Count(Visits(nodes), x) == if Shown(Indexed(nodes), level, x, 0) then 1 else 0
  {
    var m := Indexed(nodes);
    var roots := RootIds(nodes, m);
    RootIdsAre(nodes, m);
    IndexedHas(nodes, x);
    forall id | id in roots && id in m ensures level[id] == 0 {
      var i :| 0 <= i < |nodes| && nodes[i].nodeId == id && IsRoot(nodes[i], m);
      assert Linked(m, level, id) && !HasParent(m, id);
    }
    CountAll(m, level, roots, 0, x);
    if Shown(m, level, x, 0) {
      var a := Ancestor(m, level, x, 0);
      ClearAtTop(m, level, x, 0);
      IndexedHas(nodes, a);
      var i :| 0 <= i < |nodes| && nodes[i].nodeId == a;
      assert Linked(m, level, a);
      assert m[a] == nodes[i] && !HasParent(m, a);
      assert IsRoot(nodes[i], m);
    }
  }

  lemma {:induction false} ClearAtTop(m: NodeMap, level: map<string, nat>, x: string, l: nat)
    requires Forest(m, level) && x in m && l <= level[x] && Clear(m, level, x, l)
    ensures !m[Ancestor(m, level, x, l)].ignored
    decreases level[x]
  {
    assert Linked(m, level, x);
    if l < level[x] { ClearAtTop(m, level, m[x].parentId.value, l); }
  }

  /** Every visit is at the level of its node. */
  lemma {:induction false} VisitDepths(m: NodeMap, level: map<string, nat>, ids: seq<string>, depth: nat)
    requires Forest(m, level) && forall id :: id in ids && id in m ==> level[id] == depth
    ensures forall v :: v in VisitAll(ids, m, depth) ==> v.id in m && v.depth == level[v.id]
    decreases MAX_TREE_DEPTH + 1 - depth, |ids|
  {
    if ids == [] {
    } else {
      VisitDepths(m, level, ids[1..], depth);
      if depth <= MAX_TREE_DEPTH && ids[0] in m {
        ChildLevels(m, level, ids[0]);
        VisitDepths(m, level, Children(m[ids[0]]), depth + 1);
      }
    }
  }
}
