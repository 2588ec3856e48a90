/** Rendering an accessibility tree as text with element references. */
module Accessibility {
  import opened Strings

  datatype AXNode = AXNode(backendNodeId: nat, role: string, name: string, children: seq<AXNode>)

  // ---- what is rendered ------------------------------------------------------------------

  /** One node, at its depth in the tree. */
  datatype Line = Line(depth: nat, id: nat, role: string, name: string)

  /** The nodes in pre-order. */
  function Flat(nodes: seq<AXNode>, depth: nat): seq<Line> {
    if nodes == [] then []
    else
      var node := nodes[0];
      [Line(depth, node.backendNodeId, node.role, node.name)]
      + (Flat(node.children, depth + 1) + Flat(nodes[1..], depth))
  }

  function Indent(depth: nat): string {
    if depth == 0 then "" else "  " + Indent(depth - 1)
  }

  function RefId(id: nat): string { "e" + Decimal(id) }

  function LineText(line: Line): string {
    Indent(line.depth) + "- " + line.role + " \"" + line.name + "\" [ref=" + RefId(line.id) + "]\n"
  }

  function LineTexts(lines: seq<Line>): string {
    if lines == [] then "" else LineText(lines[0]) + LineTexts(lines[1..])
  }

  /** The ids behind the references that are handed out. */
  function RefsOf(lines: seq<Line>): map<string, nat> {
    if lines == [] then map[]
    else
      var last := lines[|lines| - 1];
      RefsOf(lines[..|lines| - 1])[RefId(last.id) := last.id]
  }

  function Take<T>(s: seq<T>, n: nat): seq<T> {
    if n < |s| then s[..n] else s
  }

  function Notice(max: nat): string {
    "\n[accessibility tree truncated at " + Decimal(max)
    + " nodes — increase max_snapshot_nodes if needed]"
  }

  // ---- the renderer -------------------------------------------------------------------------

  datatype State = State(count: nat, buf: string, refs: map<string, nat>)

  function EmitLine(st: State, line: Line): State {
    State(st.count + 1, st.buf + LineText(line), st.refs[RefId(line.id) := line.id])
  }

  function Emit(st: State, lines: seq<Line>): (r: State)
    ensures r.count == st.count + |lines|
    decreases |lines|
  {
    if lines == [] then st else Emit(EmitLine(st, lines[0]), lines[1..])
  }

  function Room(max: nat, count: nat): nat {
    if count < max then max - count else 0
  }

  /** What is rendered of `lines` behind what is there already. */
  function EmitRoom(st: State, lines: seq<Line>, max: nat): State {
    Emit(st, Take(lines, Room(max, st.count)))
  }

  lemma {:induction false} EmitAppend(st: State, a: seq<Line>, b: seq<Line>)
    ensures Emit(st, a + b) == Emit(Emit(st, a), b)
    decreases |a|
  {
    if a == [] {
      assert a + b == b;
    } else {
      assert (a + b)[1..] == a[1..] + b;
      EmitAppend(EmitLine(st, a[0]), a[1..], b);
    }
  }

  /** Rendering in two pieces is rendering the whole. */
  lemma EmitRoomAppend(st: State, a: seq<Line>, b: seq<Line>, max: nat)
    ensures EmitRoom(st, a + b, max) == EmitRoom(EmitRoom(st, a, max), b, max)
  {
    var room := Room(max, st.count);
    if |a| <= room {
      assert Take(a + b, room) == a + Take(b, room - |a|);
      EmitAppend(st, a, Take(b, room - |a|));
    } else {
      assert Take(a + b, room) == Take(a, room);
      assert Take(b, 0) == [];
    }
  }

  lemma EmitRoomFull(st: State, lines: seq<Line>, max: nat)
    requires max <= st.count
    ensures EmitRoom(st, lines, max) == st
  {
    assert Take(lines, 0) == [];
  }

  lemma EmitRoomOne(st: State, line: Line, rest: seq<Line>, max: nat)
    requires st.count < max
    ensures EmitRoom(st, [line] + rest, max) == EmitRoom(EmitLine(st, line), rest, max)
  {
    EmitRoomAppend(st, [line], rest, max);
    assert Take([line], Room(max, st.count)) == [line];
    assert [line][1..] == [];
    assert Emit(st, [line]) == EmitLine(st, line);
  }

  lemma EmitRoomNothing(st: State, max: nat)
    ensures EmitRoom(st, [], max) == st
  {
    var nothing: seq<Line> := [];
    assert Take(nothing, Room(max, st.count)) == [];
  }

  lemma EmittedLine(st: State, line: Line)
    ensures EmitLine(st, line) == State(st.count + 1, st.buf + LineText(line), st.refs[RefId(line.id) := line.id])
  {
  }

  class Renderer {
    var count: nat
    var buf: string
    var refs: map<string, nat>

    constructor ()
      ensures View() == State(0, "", map[])
    {
      count, buf, refs := 0, "", map[];
    }

    function View(): State
      reads this
    {
      State(count, buf, refs)
    }

    method RenderNodes(nodes: seq<AXNode>, depth: nat, max: nat)
      modifies this
      ensures View() == EmitRoom(old(View()), Flat(nodes, depth), max)
      decreases nodes
    {
      hide Emit, EmitLine, EmitRoom;
      var indent := Indent(depth);
      for i := 0 to |nodes|
        invariant EmitRoom(View(), Flat(nodes[i..], depth), max) == EmitRoom(old(View()), Flat(nodes, depth), max)
      {
        if count >= max {
          EmitRoomFull(View(), Flat(nodes[i..], depth), max);
          return;
        }
        var node := nodes[i];
        ghost var st := View();
        ghost var line, below, later :=
          Line(depth, node.backendNodeId, node.role, node.name),
          Flat(node.children, depth + 1), Flat(nodes[i + 1..], depth);
        assert nodes[i..][1..] == nodes[i + 1..];
        EmitRoomOne(st, line, below + later, max);
        EmitRoomAppend(EmitLine(st, line), below, later, max);
        var refId := "e" + Decimal(node.backendNodeId);
        refs := refs[refId := node.backendNodeId];
        buf := buf + (indent + "- " + node.role + " \"" + node.name + "\" [ref=" + refId + "]\n");
        count := count + 1;
        EmittedLine(st, line);
        if |node.children| != 0 {
          RenderNodes(node.children, depth + 1, max);
        } else {
          EmitRoomNothing(View(), max);
        }
      }
      EmitRoomNothing(View(), max);
      assert Flat(nodes[|nodes|..], depth) == [];
    }
  }

  /** The rendered text and its references. */
  method RenderAxTree(nodes: seq<AXNode>, max: nat) returns (text: string, refs: map<string, nat>)
    ensures var lines := Take(Flat(nodes, 0), max);
            && text == LineTexts(lines)
                       + (if max <= |Flat(nodes, 0)| then
                            "\n[accessibility tree truncated at " + Decimal(max)
                            + " nodes — increase max_snapshot_nodes if needed]"
                          else "")
            && refs == RefsOf(lines)
  {
    var renderer := new Renderer();
    renderer.RenderNodes(nodes, 0, max);
    ghost var lines := Take(Flat(nodes, 0), max);
    EmittedFromStart(lines);
    text, refs := renderer.buf, renderer.refs;
    if renderer.count >= max {
      text := text + Notice(max);
    }
  }

  // ---- the lines tell the tree --------------------------------------------------------------

  /** How many lines in front are deeper than `depth`. */
  function Deeper(lines: seq<Line>, depth: nat): (n: nat)
    ensures n <= |lines|
  {
    if lines == [] || lines[0].depth <= depth then 0 else 1 + Deeper(lines[1..], depth)
  }

  /** The trees that the lines describe: the deeper lines behind a line are its children. */
  function Forest(lines: seq<Line>, depth: nat): seq<AXNode>
    decreases |lines|
  {
    if lines == [] then []
    else
      var line, n := lines[0], Deeper(lines[1..], depth);
      [AXNode(line.id, line.role, line.name, Forest(lines[1..][..n], depth + 1))] + Forest(lines[1..][n..], depth)
  }

  lemma {:induction false} FlatIsDeep(nodes: seq<AXNode>, depth: nat)
    ensures forall i :: 0 <= i < |Flat(nodes, depth)| ==> Flat(nodes, depth)[i].depth >= depth
    ensures nodes != [] ==> Flat(nodes, depth) != [] && Flat(nodes, depth)[0].depth == depth
    decreases nodes
  {
    if nodes == [] {
    } else {
      FlatIsDeep(nodes[0].children, depth + 1);
      FlatIsDeep(nodes[1..], depth);
    }
  }

  lemma {:induction false} DeeperSplit(below: seq<Line>, rest: seq<Line>, depth: nat)
    requires forall i :: 0 <= i < |below| ==> below[i].depth > depth
    requires rest != [] ==> rest[0].depth <= depth
    ensures Deeper(below + rest, depth) == |below|
    decreases |below|
  {
    if below == [] {
      assert below + rest == rest;
    } else {
      assert (below + rest)[1..] == below[1..] + rest;
      DeeperSplit(below[1..], rest, depth);
    }
  }

  lemma ForestOfCons(line: Line, below: seq<Line>, rest: seq<Line>, depth: nat)
    requires Deeper(below + rest, depth) == |below|
    ensures Forest([line] + (below + rest), depth)
            == [AXNode(line.id, line.role, line.name, Forest(below, depth + 1))] + Forest(rest, depth)
  {
    hide Deeper;
    var lines := [line] + (below + rest);
    assert lines[1..] == below + rest;
    assert (below + rest)[..|below|] == below && (below + rest)[|below|..] == rest;
  }

  /** From lines and depths alone the trees come back. */
  lemma {:induction false} LinesTellTrees(nodes: seq<AXNode>, depth: nat)
    ensures Forest(Flat(nodes, depth), depth) == nodes
    decreases nodes
  {
    hide Forest, Deeper;
    if nodes == [] {
      NoLines(depth);
    } else {
      var node, below, rest := nodes[0], Flat(nodes[0].children, depth + 1), Flat(nodes[1..], depth);
      FlatIsDeep(node.children, depth + 1);
      FlatIsDeep(nodes[1..], depth);
      DeeperSplit(below, rest, depth);
      ForestOfCons(Line(depth, node.backendNodeId, node.role, node.name), below, rest, depth);
      LinesTellTrees(node.children, depth + 1);
      LinesTellTrees(nodes[1..], depth);
      assert nodes == [node] + nodes[1..];
    }
  }

  lemma NoLines(depth: nat)
    ensures Forest([], depth) == []
  {
  }

  predicate OneLine(line: Line) { '\n' !in line.role && '\n' !in line.name }

  lemma {:induction false} IndentIs(depth: nat)
    ensures |Indent(depth)| == 2 * depth && forall i :: 0 <= i < 2 * depth ==> Indent(depth)[i] == ' '
  {
    if depth > 0 { IndentIs(depth - 1); }
  }

  lemma NoBreakInLine(line: Line) returns (text: string)
    requires OneLine(line)
    ensures LineText(line) == text + "\n" && '\n' !in text
    ensures |text| >= 2 * line.depth && (forall k :: 0 <= k < 2 * line.depth ==> text[k] == ' ')
    ensures text[2 * line.depth..]
            == "- " + line.role + " \"" + line.name + "\" [ref=e" + Decimal(line.id) + "]"
  {
    var indent, d := Indent(line.depth), Decimal(line.id);
    var tail := "- " + line.role + " \"" + line.name + "\" [ref=e" + d + "]";
    IndentIs(line.depth);
    text := indent + tail;
    forall c | c in d ensures IsDigit(c) { }
    assert '\n' !in tail;
    assert LineText(line) == text + "\n";
  }

  lemma {:induction false} SplitFirst(text: string, rest: string)
    requires '\n' !in text
    ensures Split(text + "\n" + rest, '\n') == [text] + Split(rest, '\n')
  {
    FindFirst(text, '\n', rest);
    var s := text + ['\n'] + rest;
    assert s[..|text|] == text && s[|text| + 1..] == rest;
  }

  /** What stands on line `i` of the rendered text: two spaces a level, then role, name and reference. */
  lemma {:induction false} RenderedLine(lines: seq<Line>, i: nat)
    requires i < |lines| && forall k :: 0 <= k < |lines| ==> OneLine(lines[k])
    ensures var texts, line := Split(LineTexts(lines), '\n'), lines[i];
            && i < |texts| && |texts[i]| >= 2 * line.depth
            && (forall k :: 0 <= k < 2 * line.depth ==> texts[i][k] == ' ')
            && texts[i][2 * line.depth..]
               == "- " + line.role + " \"" + line.name + "\" [ref=e" + Decimal(line.id) + "]"
    decreases |lines|
  {
    hide LineText, Split;
    var first := NoBreakInLine(lines[0]);
    var rest := LineTexts(lines[1..]);
    SplitFirst(first, rest);
    if i > 0 {
      RenderedLine(lines[1..], i - 1);
    }
  }

  // ---- properties of the rendering --------------------------------------------------------

  lemma {:induction false} LineTextsSnoc(lines: seq<Line>, line: Line)
    ensures LineTexts(lines + [line]) == LineTexts(lines) + LineText(line)
    decreases |lines|
  {
    if lines == [] {
      assert [] + [line] == [line] && [line][1..] == [];
    } else {
      assert (lines + [line])[1..] == lines[1..] + [line];
      LineTextsSnoc(lines[1..], line);
    }
  }

  /** From the start, the emitted text and references are those of the lines. */
  lemma {:induction false} EmittedFromStart(lines: seq<Line>)
    ensures Emit(State(0, "", map[]), lines) == State(|lines|, LineTexts(lines), RefsOf(lines))
    decreases |lines|
  {
    if lines == [] {
    } else {
      var front, last := lines[..|lines| - 1], lines[|lines| - 1];
      assert lines == front + [last] && [last][1..] == [];
      EmittedFromStart(front);
      EmitAppend(State(0, "", map[]), front, [last]);
      LineTextsSnoc(front, last);
    }
  }

  lemma RefIdInjective(a: nat, b: nat)
    requires RefId(a) == RefId(b)
    ensures a == b
  {
    assert RefId(a)[1..] == Decimal(a) && RefId(b)[1..] == Decimal(b);
    DecimalValue(a);
    DecimalValue(b);
  }

  /** Exactly the rendered nodes have references, and each reference leads to its own node. */
  lemma {:induction false} RefsResolve(lines: seq<Line>, id: nat)
    ensures "e" + Decimal(id) in RefsOf(lines) <==> exists i :: 0 <= i < |lines| && lines[i].id == id
    ensures "e" + Decimal(id) in RefsOf(lines) ==> RefsOf(lines)["e" + Decimal(id)] == id
    ensures forall r :: r in RefsOf(lines) ==> r == "e" + Decimal(RefsOf(lines)[r])
    decreases |lines|
  {
    if lines == [] {
    } else {
      var front, last := lines[..|lines| - 1], lines[|lines| - 1];
      RefsResolve(front, id);
      if RefId(last.id) == RefId(id) { RefIdInjective(last.id, id); }
      assert forall i :: 0 <= i < |front| ==> front[i] == lines[i];
      assert (exists i :: 0 <= i < |lines| && lines[i].id == id)
             <==> (exists i :: 0 <= i < |front| && front[i].id == id) || last.id == id;
    }
  }

  /** The notice of a truncation that did not happen appears exactly at the limit. */
  lemma NoticeIsFalseIff(nodes: seq<AXNode>, max: nat)
    ensures max <= |Flat(nodes, 0)| && Take(Flat(nodes, 0), max) == Flat(nodes, 0) <==> |Flat(nodes, 0)| == max
  {
  }
}
