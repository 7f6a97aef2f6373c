/**
 render_accessibility_tree of native/computer-use-linux/runtime.py without tab compaction: the capped,
 eliding walk refines a plain recursive preorder of the whole tree.
 */
module AccessibilityTree {
  import opened Options
  import opened AccessibilityNode

  const MAX_NODES: nat := 1200
  const MAX_DEPTH: nat := 64

  type Path = seq<nat>

  datatype Record = Record(index: nat, path: Path, info: Info)

  // A line of text is its tab indent, the element number and the rest.  A marker stands for omitted tabs.
  datatype Line = Element(indent: nat, index: nat, text: string) | Marker(indent: nat, omitted: nat)

  // ---------- decisions about one node ----------

  function Summary(node: Node): Option<string> {
    if RoleKey(node.info) in GENERIC_ROLES && node.info.name == "" && node.info.value == "" then
      var texts := Snippets(node, 8, 4);
      if |texts| >= 2 && IsPlainTextSubtree(node) then Some(Join(texts, " ")) else None
    else None
  }

  function PresentFrom(slots: seq<Slot>): nat {
    if slots == [] then 0 else (if slots[0].Present? then 1 else 0) + PresentFrom(slots[1..])
  }

  function ChildCount(node: Node): nat { if Suppressed(node.info) then 0 else PresentFrom(node.slots) }

  predicate Elided(node: Node) {
    RoleKey(node.info) in GENERIC_ROLES && node.info.name == "" && node.info.automationId == "" && node.info.value == ""
    && MeaningfulActions(node.info.actions) == [] && Summary(node).None? && ChildCount(node) <= 1
  }

  // Its children are rendered, below it or in its place
  predicate Opens(node: Node) { !Suppressed(node.info) && Summary(node).None? }

  // One of the first `n` slots holds a child
  predicate AnyChild(node: Node, n: nat) { exists i :: 0 <= i < n && i < |node.slots| && node.slots[i].Present? }

  function FormattedValue(info: Info): string {
    var clean := Sanitize(info.value);
    if clean == "" || clean == Title(info) then ""
    else if RoleKey(info) in {"label", "static", "static text", "text", "entry", "text entry"} then " " + clean
    else ", Value: " + clean
  }

  function SummaryText(node: Node): string {
    if Summary(node).Some? && Summary(node).value != Title(node.info) then ", Text: " + Sanitize(Summary(node).value)
    else if RoleKey(node.info) in {"row", "table row", "list item"} then
      var row := Join(Snippets(node, 6, 3), " ");
      if row != "" && row != Title(node.info) then ", Text: " + Sanitize(row) else ""
    else ""
  }

  function DisplayActions(actions: seq<string>): seq<string> {
    seq(|actions|, i requires 0 <= i < |actions| =>
      Sanitize(seq(|actions[i]|, k requires 0 <= k < |actions[i]| => if actions[i][k] == '_' then ' ' else actions[i][k])))
  }

  function LineText(node: Node): string {
    var actions := MeaningfulActions(node.info.actions);
    StripRight(node.info.role + " " + Sanitize(Title(node.info))) + FormattedValue(node.info) + SummaryText(node)
    + if actions == [] then "" else ", Secondary Actions: " + Join(DisplayActions(actions), ", ")
  }

  // The decisions a walk takes at a node.  Everything below holds for any rules; RUNTIME are the source's.
  datatype Rules = Rules(elided: Node -> bool, opens: Node -> bool, text: Node -> string)

  const RUNTIME: Rules := Rules(node => Elided(node), node => Opens(node), node => LineText(node))

  // ---------- the uncapped preorder ----------

  predicate HasOpenChild(rules: Rules, node: Node) { rules.opens(node) && AnyChild(node, |node.slots|) }

  datatype Visit = Visit(node: Node, depth: nat, path: Path, elided: bool, openChild: bool, text: string)

  function VisitOf(rules: Rules, node: Node, depth: nat, path: Path): Visit {
    Visit(node, depth, path, rules.elided(node), HasOpenChild(rules, node), rules.text(node))
  }

  // Every node reached, in preorder; an elided node hands its own depth to its child.
  function Visits(rules: Rules, node: Node, depth: nat, path: Path): seq<Visit>
    decreases node, |node.slots| + 1
  {
    [VisitOf(rules, node, depth, path)] + (if rules.opens(node) then VisitsFrom(rules, node, 0, ChildDepth(rules, node, depth), path) else [])
  }

  function VisitsFrom(rules: Rules, node: Node, from: nat, depth: nat, path: Path): seq<Visit>
    requires from <= |node.slots|
    decreases node, |node.slots| - from
  {
    if from == |node.slots| then []
    else (if node.slots[from].Present? then Visits(rules, node.slots[from].node, depth, path + [from]) else []) + VisitsFrom(rules, node, from + 1, depth, path)
  }

  function ChildDepth(rules: Rules, node: Node, depth: nat): nat { if rules.elided(node) then depth else depth + 1 }

  // The visits that get a line: not elided and not too deep
  function Shown(vs: seq<Visit>): seq<Visit> {
    if vs == [] then []
    else (if !vs[0].elided && vs[0].depth <= MAX_DEPTH then [vs[0]] else []) + Shown(vs[1..])
  }

  // Some visit is too deep, or comes when `n` earlier lines and those before it fill the cap
  predicate Cut(vs: seq<Visit>, n: nat) {
    vs != [] && (n >= MAX_NODES || vs[0].depth > MAX_DEPTH || Cut(vs[1..], if vs[0].elided then n else n + 1))
  }

  // ---------- the capped walk as a fold over visits ----------

  datatype Rendering = Rendering(records: seq<Record>, lines: seq<Line>, truncated: bool, deep: bool)

  function Show(st: Rendering, v: Visit): Rendering {
    if |st.records| >= MAX_NODES || v.depth > MAX_DEPTH then st.(truncated := true)
    else if v.elided then st
    else Rendering(st.records + [Record(|st.records|, v.path, v.node.info)],
                   st.lines + [Element(v.depth, |st.records|, v.text)],
                   st.truncated, st.deep || (v.depth == MAX_DEPTH && v.openChild))
  }

  function ShowAll(st: Rendering, vs: seq<Visit>): Rendering
    decreases |vs|
  {
    if vs == [] then st else ShowAll(Show(st, vs[0]), vs[1..])
  }

  lemma {:induction false} ShowAllConcat(st: Rendering, a: seq<Visit>, b: seq<Visit>)
    ensures ShowAll(st, a + b) == ShowAll(ShowAll(st, a), b)
    decreases |a|
  {
    if a == [] {
      assert a + b == b;
    } else {
      assert (a + b)[1..] == a[1..] + b;
      ShowAllConcat(Show(st, a[0]), a[1..], b);
    }
  }

  function Deepen(st: Rendering, deep: bool): Rendering { st.(deep := st.deep || deep) }

  lemma {:induction false} ShowAllDeepened(st: Rendering, vs: seq<Visit>, deep: bool)
    ensures ShowAll(Deepen(st, deep), vs) == Deepen(ShowAll(st, vs), deep)
    decreases |vs|
  {
    if vs != [] {
      ShowAllDeepened(Show(st, vs[0]), vs[1..], deep);
    }
  }

  // A walk that is refused at a node also drops everything below it.
  lemma {:induction false} RefusedSubtree(rules: Rules, st: Rendering, node: Node, depth: nat, path: Path)
    requires |st.records| >= MAX_NODES || depth > MAX_DEPTH
    ensures ShowAll(st, Visits(rules, node, depth, path)) == st.(truncated := true)
    decreases node, |node.slots| + 1
  {
    var st' := st.(truncated := true);
    var rest := if rules.opens(node) then VisitsFrom(rules, node, 0, ChildDepth(rules, node, depth), path) else [];
    assert Visits(rules, node, depth, path)[1..] == rest;
    if rules.opens(node) {
      RefusedSubtrees(rules, st', node, 0, ChildDepth(rules, node, depth), path);
    }
  }

  lemma {:induction false} RefusedSubtrees(rules: Rules, st: Rendering, node: Node, from: nat, depth: nat, path: Path)
    requires |st.records| >= MAX_NODES || depth > MAX_DEPTH
    requires from <= |node.slots| && st.truncated
    ensures ShowAll(st, VisitsFrom(rules, node, from, depth, path)) == st
    decreases node, |node.slots| - from
  {
    if from < |node.slots| {
      var first := if node.slots[from].Present? then Visits(rules, node.slots[from].node, depth, path + [from]) else [];
      ShowAllConcat(st, first, VisitsFrom(rules, node, from + 1, depth, path));
      if node.slots[from].Present? {
        RefusedSubtree(rules, st, node.slots[from].node, depth, path + [from]);
      }
      RefusedSubtrees(rules, st, node, from + 1, depth, path);
    }
  }

  // ---------- closed form of the fold ----------

  function Min(a: nat, b: nat): nat { if a <= b then a else b }

  function Records(vs: seq<Visit>): seq<Record> {
    seq(|vs|, i requires 0 <= i < |vs| => Record(i, vs[i].path, vs[i].node.info))
  }

  function Lines(vs: seq<Visit>): seq<Line> {
    seq(|vs|, i requires 0 <= i < |vs| => Element(vs[i].depth, i, vs[i].text))
  }

  // A line at the deepest level has children that were not rendered
  predicate Reached(vs: seq<Visit>) { exists i :: 0 <= i < |vs| && vs[i].depth == MAX_DEPTH && vs[i].openChild }

  // The rendering that shows exactly the visits `vs`
  function Showing(vs: seq<Visit>, truncated: bool): Rendering { Rendering(Records(vs), Lines(vs), truncated, Reached(vs)) }

  lemma ShowNext(done: seq<Visit>, v: Visit, truncated: bool)
    requires |done| < MAX_NODES && v.depth <= MAX_DEPTH && !v.elided
    ensures Show(Showing(done, truncated), v) == Showing(done + [v], truncated)
  {
    var next := done + [v];
    assert next[|done|] == v && forall i :: 0 <= i < |done| ==> next[i] == done[i];
    assert Reached(next) == (Reached(done) || (v.depth == MAX_DEPTH && v.openChild));
  }

  // The first shown visits that still fit after `n` lines
  function Fitting(vs: seq<Visit>, n: nat): seq<Visit>
    requires n <= MAX_NODES
  {
    Shown(vs)[..Min(|Shown(vs)|, MAX_NODES - n)]
  }

  lemma FittingNext(done: seq<Visit>, vs: seq<Visit>)
    requires |done| < MAX_NODES && vs != [] && vs[0].depth <= MAX_DEPTH && !vs[0].elided
    ensures done + Fitting(vs, |done|) == (done + [vs[0]]) + Fitting(vs[1..], |done| + 1)
  {
    assert Shown(vs) == [vs[0]] + Shown(vs[1..]);
  }

  lemma {:induction false} ShowAllClosed(done: seq<Visit>, vs: seq<Visit>, truncated: bool)
    requires |done| <= MAX_NODES
    ensures ShowAll(Showing(done, truncated), vs) == Showing(done + Fitting(vs, |done|), truncated || Cut(vs, |done|))
    decreases |vs|
  {
    if vs == [] {
      assert done + Fitting(vs, |done|) == done;
    } else if |done| == MAX_NODES || vs[0].depth > MAX_DEPTH {
      ShowAllClosed(done, vs[1..], true);
      assert Fitting(vs, |done|) == Fitting(vs[1..], |done|);
    } else if vs[0].elided {
      ShowAllClosed(done, vs[1..], truncated);
      assert Fitting(vs, |done|) == Fitting(vs[1..], |done|);
    } else {
      ShowNext(done, vs[0], truncated);
      ShowAllClosed(done + [vs[0]], vs[1..], truncated);
      FittingNext(done, vs);
    }
  }
}
