/**
 What a rendered accessibility tree promises: which nodes it shows, how they are numbered and indented,
 what `truncated` means, and that every element it lists can be found again by its path.
 */
module RenderedTree {
  import opened Options
  import opened Sequences
  import Strings
  import opened AccessibilityNode
  import opened AccessibilityTree
  import opened AccessibilityPaths
  import opened TabCompaction
  import opened TreeRenderer

  function Rendered(rules: Rules, compact: bool, root: Node, rootPath: Path): Rendering {
    Walked(rules, compact, NOTHING, root, 0, rootPath)
  }

  // Without compaction the render is the first MAX_NODES shown visits of the uncapped preorder, one
  // record and one line each, numbered in order; `truncated` is set exactly when a visit was refused, and
  // `maxDepthReached` exactly when a line at the deepest level had children to render.
  lemma RenderIsPreorderPrefix(rules: Rules, root: Node, rootPath: Path)
    ensures var vs := Visits(rules, root, 0, rootPath);
            Rendered(rules, false, root, rootPath) == Showing(Fitting(vs, 0), Cut(vs, 0))
  {
    var vs := Visits(rules, root, 0, rootPath);
    WalkedPlain(rules, NOTHING, root, 0, rootPath);
    assert NOTHING == Showing([], false);
    ShowAllClosed([], vs, false);
    assert [] + Fitting(vs, 0) == Fitting(vs, 0);
  }

  // When nothing is reported truncated, every visited node that is not elided has its line.
  lemma {:induction false} NothingDropped(vs: seq<Visit>, n: nat)
    requires !Cut(vs, n) && n <= MAX_NODES
    ensures n + |Shown(vs)| <= MAX_NODES && Fitting(vs, n) == Shown(vs)
    ensures forall v :: v in vs ==> (v.elided || v in Shown(vs))
    decreases |vs|
  {
    if vs != [] {
      NothingDropped(vs[1..], if vs[0].elided then n else n + 1);
    }
  }

  // Later visits of a preorder lie above none of the earlier ones.
  lemma NoneLaterAbove(all: seq<Visit>, n: nat, i: nat)
    requires i < n <= |all| && Preorder(all)
    ensures forall w :: w in all[n..] ==> !(w.path < all[i].path)
  {
    forall w | w in all[n..]
      ensures !(w.path < all[i].path)
    {
      var k :| 0 <= k < |all[n..]| && all[n..][k] == w;
      assert all[n + k] == w;
    }
  }

  lemma AboveOfPrefix(all: seq<Visit>, shown: seq<Visit>, i: nat)
    requires Preorder(all) && shown <= all && i < |shown|
    ensures Above(all, shown[i].path) == Above(shown, shown[i].path)
  {
    var rest := all[|shown|..];
    assert all == shown + rest && all[i] == shown[i];
    NoneLaterAbove(all, |shown|, i);
    AboveConcat(shown, rest, shown[i].path);
    NoneAbove(rest, shown[i].path);
  }

  lemma FittingDepth(rules: Rules, root: Node, rootPath: Path, i: nat)
    requires i < |Fitting(Visits(rules, root, 0, rootPath), 0)|
    ensures var shown := Fitting(Visits(rules, root, 0, rootPath), 0);
            shown[i].depth == Above(shown, shown[i].path)
  {
    var vs := Visits(rules, root, 0, rootPath);
    var all, shown := Shown(vs), Fitting(vs, 0);
    FittingIsPrefix(vs);
    assert shown[i] in all by { assert all[i] == shown[i]; }
    VisitsPreorder(rules, root, 0, rootPath);
    ShownPreorder(vs);
    AboveOfPrefix(all, shown, i);
    DepthCountsAncestors(rules, root, 0, rootPath, shown[i]);
  }

  lemma FittingIsPrefix(vs: seq<Visit>)
    ensures Fitting(vs, 0) <= Shown(vs)
  {
  }

  // A line is indented by the number of listed elements it lies inside.
  lemma IndentCountsAncestors(rules: Rules, root: Node, rootPath: Path, i: nat)
    requires i < |Rendered(rules, false, root, rootPath).lines|
    ensures var out := Rendered(rules, false, root, rootPath);
            && |out.records| == |out.lines|
            && out.lines[i].Element?
            && out.lines[i].indent == |set j | 0 <= j < |out.records| && out.records[j].path < out.records[i].path|
  {
    var shown := Fitting(Visits(rules, root, 0, rootPath), 0);
    RenderIsPreorderPrefix(rules, root, rootPath);
    FittingDepth(rules, root, rootPath, i);
    AboveIsCount(shown, shown[i].path);
    var out := Rendered(rules, false, root, rootPath);
    assert (set j | 0 <= j < |out.records| && out.records[j].path < out.records[i].path)
        == (set j | 0 <= j < |shown| && shown[j].path < shown[i].path);
  }

  lemma {:induction false} AboveIsCount(vs: seq<Visit>, q: Path)
    ensures Above(vs, q) == |set j | 0 <= j < |vs| && vs[j].path < q|
    decreases |vs|
  {
    if vs != [] {
      var last := |vs| - 1;
      AboveIsCount(vs[..last], q);
      AboveConcat(vs[..last], [vs[last]], q);
      assert vs == vs[..last] + [vs[last]];
      var fewer := set j | 0 <= j < last && vs[..last][j].path < q;
      var all := set j | 0 <= j < |vs| && vs[j].path < q;
      assert all == if vs[last].path < q then fewer + {last} else fewer;
    }
  }

  // Every element in the list, elided parents and compacted tabs notwithstanding, is found again on an
  // unchanged tree: its path leads to the very node it was made from, and no other element shares it.
  lemma PathRoundTrip(rules: Rules, compact: bool, app: Node, window: Node, rootPath: Path, i: nat)
    requires Resolve(app, rootPath) == Some(window)
    requires i < |Rendered(rules, compact, window, rootPath).records|
    ensures var rs := Rendered(rules, compact, window, rootPath).records;
            && (exists v :: v in Visits(rules, window, 0, rootPath) && rs[i].path == v.path && rs[i].info == v.node.info && !v.elided
                  && Resolve(app, rs[i].path) == Some(v.node) && SameSignature(v.node.info, rs[i]))
            && (forall j :: 0 <= j < |rs| && rs[j].path == rs[i].path ==> j == i)
  {
    var rs := Rendered(rules, compact, window, rootPath).records;
    WalkedTracked(rules, compact, NOTHING, window, 0, rootPath);
    assert rs[i] in rs;
    var v :| v in Visits(rules, window, 0, rootPath) && rs[i].path == v.path && rs[i].info == v.node.info && !v.elided;
    VisitsWithin(rules, window, 0, rootPath, v);
    ResolveConcat(app, rootPath, v.path[|rootPath|..]);
    assert rootPath + v.path[|rootPath|..] == v.path;
  }

  // ---------- numbering ----------

  ghost predicate DistinctNumbers(records: seq<Record>) {
    forall i, j :: 0 <= i < j < |records| ==> records[i].index != records[j].index
  }

  function TabInfo(selected: bool): Info { Info("tab", "", "", "", [], selected) }

  function Tab(selected: bool): Node { Node(TabInfo(selected), []) }

  // Ten tabs, the second one selected
  ghost predicate IsStrip(n: Node) {
    n.info == TabInfo(false) && |n.slots| == 10 && forall i :: 0 <= i < 10 ==> n.slots[i] == Present(Tab(i == 1))
  }

  // Two panes, the first a strip of ten tabs: the second pane gets the number of the selected tab.
  function TwoPanes(strip: Node): Node { Node(TabInfo(false), [Present(strip), Present(Tab(false))]) }

  // Rules that show a tab, by the text "tab", and open it
  predicate ShowsTab(rules: Rules, n: Node) { rules.text(n) == "tab" && !rules.elided(n) && rules.opens(n) }

  ghost predicate ShowsTabs(rules: Rules, strip: Node) {
    ShowsTab(rules, Tab(false)) && ShowsTab(rules, Tab(true)) && ShowsTab(rules, strip) && ShowsTab(rules, TwoPanes(strip))
  }

  lemma TabRole(info: Info, selected: bool)
    requires info == TabInfo(selected)
    ensures RoleKey(info) == "tab" && info.name == "" && info.value == "" && info.automationId == "" && info.actions == []
  {
  }

  lemma TabStaysOpen(n: Node, selected: bool)
    requires n.info == TabInfo(selected)
    ensures !Elided(n) && Opens(n)
  {
    TabRole(n.info, selected);
    assert "tab" !in GENERIC_ROLES;
    assert Words("", []) == [];
    assert Sanitize(n.info.value) == "";
  }

  lemma TabTitle()
    ensures StripRight("tab" + " " + "") == "tab"
  {
    assert ("tab" + " " + "")[..3] == "tab" && !IsSpace('b');
  }

  lemma TabText(n: Node, selected: bool)
    requires n.info == TabInfo(selected)
    ensures LineText(n) == "tab"
  {
    TabRole(n.info, selected);
    TabTitle();
    assert "tab" !in GENERIC_ROLES && "tab" !in {"row", "table row", "list item"};
    assert Words("", []) == [];
    assert Sanitize("") == "";
    assert MeaningfulActions(n.info.actions) == [];
    assert FormattedValue(n.info) == "" && SummaryText(n) == "";
  }

  lemma RuntimeRules(n: Node)
    ensures RUNTIME.elided(n) == Elided(n) && RUNTIME.opens(n) == Opens(n) && RUNTIME.text(n) == LineText(n)
  {
  }

  lemma RuntimeShowsTab(n: Node, selected: bool)
    requires n.info == TabInfo(selected)
    ensures ShowsTab(RUNTIME, n)
  {
    RuntimeRules(n);
    TabStaysOpen(n, selected);
    TabText(n, selected);
  }

  lemma TabLines(l: Line, depth: nat)
    requires l.Element? && l.text == "tab"
    ensures Tabs(depth)(l) == (l.indent == depth)
  {
    assert "tab"[..3] == "tab" && Strings.Lower("tab") == "tab";
  }

  // A tab without children adds its record and its line, and nothing is compacted.
  lemma LeafWalked(rules: Rules, st: Rendering, selected: bool, depth: nat, path: Path)
    requires ShowsTab(rules, Tab(selected)) && |st.records| < MAX_NODES && depth <= MAX_DEPTH
    ensures Walked(rules, true, st, Tab(selected), depth, path)
         == Rendering(st.records + [Record(|st.records|, path, TabInfo(selected))],
                      st.lines + [Element(depth, |st.records|, "tab")], st.truncated, st.deep)
  {
    var mid := Appended(rules, st, Tab(selected), depth, path);
    assert WalkedFrom(rules, true, mid, Tab(selected), 0, depth + 1, path) == mid;
    assert TabPositions(mid.lines, |mid.lines|, Tabs(depth + 1)) == [];
  }

  // What the tabs from `from` on add to the two lists
  function StripRecords(first: nat, from: nat): seq<Record>
    requires from <= 10
    decreases 10 - from
  {
    if from == 10 then [] else [Record(first, [0, from], TabInfo(from == 1))] + StripRecords(first + 1, from + 1)
  }

  function StripLines(first: nat, from: nat): seq<Line>
    requires from <= 10
    decreases 10 - from
  {
    if from == 10 then [] else [Element(2, first, "tab")] + StripLines(first + 1, from + 1)
  }

  // The rendering with tab `from` of the strip added
  function WithTab(st: Rendering, from: nat): Rendering {
    Rendering(st.records + [Record(|st.records|, [0, from], TabInfo(from == 1))], st.lines + [Element(2, |st.records|, "tab")], st.truncated, st.deep)
  }

  // `walk` goes over the tabs one at a time.
  ghost predicate TurnOf(walk: (Rendering, nat) -> Rendering, st: Rendering, from: nat) {
    |st.records| + 10 <= MAX_NODES + from && from <= 10 ==> walk(st, from) == if from == 10 then st else walk(WithTab(st, from), from + 1)
  }

  ghost predicate TabByTab(walk: (Rendering, nat) -> Rendering) { forall st, from :: TurnOf(walk, st, from) }

  function StripWalk(rules: Rules, strip: Node): (Rendering, nat) -> Rendering {
    (st: Rendering, from: nat) => if from <= |strip.slots| then WalkedFrom(rules, true, st, strip, from, 2, [0]) else st
  }

  lemma TabWalked(rules: Rules, st: Rendering, strip: Node, from: nat)
    requires ShowsTabs(rules, strip) && IsStrip(strip) && from < 10 && |st.records| < MAX_NODES
    ensures WalkedFrom(rules, true, st, strip, from, 2, [0]) == WalkedFrom(rules, true, WithTab(st, from), strip, from + 1, 2, [0])
  {
    assert [0] + [from] == [0, from];
    assert strip.slots[from] == Present(Tab(from == 1));
    LeafWalked(rules, st, from == 1, 2, [0, from]);
  }

  lemma StripWalkTurns(rules: Rules, strip: Node)
    requires ShowsTabs(rules, strip) && IsStrip(strip)
    ensures TabByTab(StripWalk(rules, strip))
  {
    forall st, from: nat
      ensures TurnOf(StripWalk(rules, strip), st, from)
    {
      StripTurn(rules, strip, st, from);
    }
  }

  lemma StripTurn(rules: Rules, strip: Node, st: Rendering, from: nat)
    requires ShowsTabs(rules, strip) && IsStrip(strip)
    ensures TurnOf(StripWalk(rules, strip), st, from)
  {
    if |st.records| + 10 <= MAX_NODES + from && from < 10 {
      TabWalked(rules, st, strip, from);
    }
  }

  lemma StripFirst(first: nat, from: nat)
    requires from < 10
    ensures StripRecords(first, from) == [Record(first, [0, from], TabInfo(from == 1))] + StripRecords(first + 1, from + 1)
    ensures StripLines(first, from) == [Element(2, first, "tab")] + StripLines(first + 1, from + 1)
  {
  }

  // What the tabs from `from` on make of a rendering
  function WithTabs(st: Rendering, from: nat): Rendering
    requires from <= 10
  {
    var n := |st.records|;
    Rendering(st.records + StripRecords(n, from), st.lines + StripLines(n, from), st.truncated, st.deep)
  }

  lemma NoTabs(st: Rendering)
    ensures WithTabs(st, 10) == st
  {
  }

  lemma OneTabMore(st: Rendering, from: nat)
    requires from < 10
    ensures WithTabs(WithTab(st, from), from + 1) == WithTabs(st, from)
  {
    var n := |st.records|;
    var record, line := Record(n, [0, from], TabInfo(from == 1)), Element(2, n, "tab");
    StripFirst(n, from);
    assert |WithTab(st, from).records| == n + 1;
    ConcatAssociates(st.records, [record], StripRecords(n + 1, from + 1));
    ConcatAssociates(st.lines, [line], StripLines(n + 1, from + 1));
  }

  lemma {:induction false} TabsAdded(walk: (Rendering, nat) -> Rendering, st: Rendering, from: nat)
    requires TabByTab(walk) && from <= 10 && |st.records| + 10 - from <= MAX_NODES
    ensures walk(st, from) == WithTabs(st, from)
    decreases 10 - from
  {
    assert TurnOf(walk, st, from);
    if from < 10 {
      TabsAdded(walk, WithTab(st, from), from + 1);
      OneTabMore(st, from);
    } else {
      NoTabs(st);
    }
  }

  lemma StripWalked(rules: Rules, st: Rendering, strip: Node)
    requires ShowsTabs(rules, strip) && IsStrip(strip) && |st.records| + 10 <= MAX_NODES
    ensures WalkedFrom(rules, true, st, strip, 0, 2, [0]) == WithTabs(st, 0)
  {
    StripWalkTurns(rules, strip);
    TabsAdded(StripWalk(rules, strip), st, 0);
    assert StripWalk(rules, strip)(st, 0) == WalkedFrom(rules, true, st, strip, 0, 2, [0]);
  }

  lemma {:induction false} StripShape(first: nat, from: nat)
    requires from <= 10
    ensures |StripRecords(first, from)| == |StripLines(first, from)| == 10 - from
    ensures forall k :: 0 <= k < 10 - from ==> StripLines(first, from)[k] == Element(2, first + k, "tab")
    ensures forall k :: 0 <= k < 10 - from ==> StripRecords(first, from)[k] == Record(first + k, [0, from + k], TabInfo(from + k == 1))
    decreases 10 - from
  {
    if from < 10 {
      StripShape(first + 1, from + 1);
    }
  }

  lemma {:induction false} LookupNumbered(records: seq<Record>, base: nat, i: nat)
    requires forall k :: 0 <= k < |records| ==> records[k].index == base + k
    ensures Lookup(records, base + i) == if i < |records| then Some(records[i]) else None
    ensures forall n: nat :: n < base ==> Lookup(records, n) == None
    decreases |records|
  {
    if records != [] {
      if i > 0 {
        LookupNumbered(records[1..], base + 1, i - 1);
      } else {
        LookupNumbered(records[1..], base + 1, 0);
      }
    }
  }

  lemma {:induction false} KeptSplit(a: seq<Record>, b: seq<Record>, omitted: set<nat>)
    ensures KeptRecords(a + b, omitted) == KeptRecords(a, omitted) + KeptRecords(b, omitted)
    decreases |a|
  {
    if a == [] {
      assert a + b == b;
    } else {
      assert (a + b)[1..] == a[1..] + b;
      KeptSplit(a[1..], b, omitted);
    }
  }

  lemma {:induction false} KeptNone(a: seq<Record>, omitted: set<nat>)
    requires forall k :: 0 <= k < |a| ==> a[k].index in omitted
    ensures KeptRecords(a, omitted) == []
    decreases |a|
  {
    if a != [] {
      KeptNone(a[1..], omitted);
    }
  }

  lemma {:induction false} AllTabs(lines: seq<Line>, start: nat, tab: Line -> bool)
    requires start <= |lines| && forall i :: start <= i < |lines| ==> tab(lines[i])
    ensures |TabPositions(lines, start, tab)| == |lines| - start
    ensures start < |lines| ==> FirstTab(lines, start, tab) == start
    decreases |lines| - start
  {
    if start < |lines| {
      AllTabs(lines, start + 1, tab);
    }
  }

  // A line "tab" is active exactly when its record is selected.
  lemma TabActive(l: Line, records: seq<Record>, r: Record, selected: bool)
    requires l.Element? && l.text == "tab" && Lookup(records, l.index) == Some(r) && r.info == TabInfo(selected)
    ensures Active(l, records) <==> selected
  {
    assert Sanitize("") == "";
    assert !Contains("tab", "(selected");
  }

  lemma TabDropped(l: Line, depth: nat, records: seq<Record>)
    requires Tabs(depth)(l)
    ensures Drops(depth, records)(l) <==> !Active(l, records)
  {
  }

  // Records numbered as they stand
  ghost predicate Numbered(records: seq<Record>) { forall i :: 0 <= i < |records| ==> records[i].index == i }

  // Of ten tab lines numbered from `first` all but the second, selected one are dropped.
  lemma StripDrops(first: nat, records: seq<Record>, k: nat)
    requires |records| == first + 10 && Numbered(records)
    requires forall i :: first <= i < first + 10 ==> records[i].info == TabInfo(i == first + 1)
    requires k < 10
    ensures Drops(2, records)(StripLines(first, 0)[k]) <==> k != 1
    ensures Tabs(2)(StripLines(first, 0)[k]) && (k == 1 ==> Active(StripLines(first, 0)[k], records))
  {
    StripShape(first, 0);
    var l := StripLines(first, 0)[k];
    TabLines(l, 2);
    LookupNumbered(records, 0, first + k);
    TabActive(l, records, records[first + k], k == 1);
    TabDropped(l, 2, records);
  }

  lemma StripOmits(first: nat, drop: Line -> bool, n: nat)
    requires forall k :: 0 <= k < |StripLines(first, 0)| ==> (drop(StripLines(first, 0)[k]) <==> k != 1)
    ensures n in OmittedIndexes(StripLines(first, 0), drop) <==> first <= n < first + 10 && n != first + 1
  {
    StripShape(first, 0);
    OmittedIndexesExact(StripLines(first, 0), drop, n);
    if first <= n < first + 10 {
      assert Number(StripLines(first, 0)[n - first]) == n;
    }
  }

  lemma {:induction false} KeptAll(a: seq<Record>, omitted: set<nat>)
    requires forall k :: 0 <= k < |a| ==> a[k].index !in omitted
    ensures KeptRecords(a, omitted) == a
    decreases |a|
  {
    if a != [] {
      KeptAll(a[1..], omitted);
    }
  }

  lemma StripKeeps(first: nat, before: seq<Record>, omitted: set<nat>)
    requires |before| == first && Numbered(before)
    requires forall n: nat :: n in omitted <==> first <= n < first + 10 && n != first + 1
    ensures KeptRecords(before + StripRecords(first, 0), omitted) == before + [Record(first + 1, [0, 1], TabInfo(true))]
  {
    StripShape(first, 0);
    var tabs := StripRecords(first, 0);
    assert before + tabs == (before + [tabs[0]]) + ([tabs[1]] + tabs[2..]);
    KeptSplit(before + [tabs[0]], [tabs[1]] + tabs[2..], omitted);
    KeptSplit(before, [tabs[0]], omitted);
    KeptSplit([tabs[1]], tabs[2..], omitted);
    KeptAll(before, omitted);
    KeptAll([tabs[1]], omitted);
    KeptNone(tabs[2..], omitted);
    KeptNone([tabs[0]], omitted);
  }

  // After `first` records and as many lines, ten tab lines with the second tab selected: one record more is
  // left, numbered one higher than its place.
  lemma StripCompacted(first: nat, st: Rendering)
    requires |st.records| == |st.lines| == first && Numbered(st.records)
    ensures var below := Rendering(st.records + StripRecords(first, 0), st.lines + StripLines(first, 0), st.truncated, st.deep);
            && CompactedBelow(below, first, 2).records == st.records + [Record(first + 1, [0, 1], TabInfo(true))]
            && |CompactedBelow(below, first, 2).lines| == first + 2
  {
    var records, strip := st.records + StripRecords(first, 0), StripLines(first, 0);
    var drop := Drops(2, records);
    StripCompacts(first, st);
    assert (st.lines + strip)[first..] == strip;
    CompactedFrom(Rendering(records, st.lines + strip, st.truncated, st.deep), first, 2, strip);
    StripDropsAll(first, st.records, drop);
    StripOmitsAll(first, drop);
    StripKeeps(first, st.records, OmittedIndexes(strip, drop));
    StripLinesKept(first, drop);
  }

  // Compaction that starts at its first tab
  lemma CompactedFrom(below: Rendering, start: nat, depth: nat, strip: seq<Line>)
    requires start <= |below.lines| && below.lines[start..] == strip
    requires Compacts(below.records, below.lines, start, depth) && FirstTab(below.lines, start, Tabs(depth)) == start
    ensures var t, drop := CompactedBelow(below, start, depth), Drops(depth, below.records);
            t.records == KeptRecords(below.records, OmittedIndexes(strip, drop)) && |t.lines| == start + 1 + |KeptLines(strip, drop)|
  {
  }

  lemma StripDropsAll(first: nat, before: seq<Record>, drop: Line -> bool)
    requires |before| == first && Numbered(before) && drop == Drops(2, before + StripRecords(first, 0))
    ensures forall k :: 0 <= k < |StripLines(first, 0)| ==> (drop(StripLines(first, 0)[k]) <==> k != 1)
  {
    StripShape(first, 0);
    forall k | 0 <= k < |StripLines(first, 0)|
      ensures drop(StripLines(first, 0)[k]) <==> k != 1
    {
      StripDrops(first, before + StripRecords(first, 0), k);
    }
  }

  lemma StripOmitsAll(first: nat, drop: Line -> bool)
    requires forall k :: 0 <= k < |StripLines(first, 0)| ==> (drop(StripLines(first, 0)[k]) <==> k != 1)
    ensures forall n: nat :: n in OmittedIndexes(StripLines(first, 0), drop) <==> first <= n < first + 10 && n != first + 1
  {
    forall n: nat
      ensures n in OmittedIndexes(StripLines(first, 0), drop) <==> first <= n < first + 10 && n != first + 1
    {
      StripOmits(first, drop, n);
    }
  }

  // The strip is compacted from its first line on.
  lemma StripCompacts(first: nat, st: Rendering)
    requires |st.records| == |st.lines| == first && Numbered(st.records)
    ensures var records, lines := st.records + StripRecords(first, 0), st.lines + StripLines(first, 0);
            |lines| == first + 10 && Compacts(records, lines, first, 2) && FirstTab(lines, first, Tabs(2)) == first
  {
    StripShape(first, 0);
    var records, lines := st.records + StripRecords(first, 0), st.lines + StripLines(first, 0);
    var tab, drop := Tabs(2), Drops(2, records);
    forall i | first <= i < |lines|
      ensures tab(lines[i])
    {
      StripDrops(first, records, i - first);
      assert lines[i] == StripLines(first, 0)[i - first];
    }
    AllTabs(lines, first, tab);
    StripDrops(first, records, 0);
    StripDrops(first, records, 1);
    assert drop(lines[first]) && tab(lines[first + 1]) && Active(lines[first + 1], records);
  }

  lemma {:induction false} KeptLinesNone(lines: seq<Line>, drop: Line -> bool)
    requires forall k :: 0 <= k < |lines| ==> drop(lines[k])
    ensures KeptLines(lines, drop) == []
    decreases |lines|
  {
    if lines != [] {
      KeptLinesNone(lines[1..], drop);
    }
  }

  lemma StripLinesKept(first: nat, drop: Line -> bool)
    requires forall k :: 0 <= k < |StripLines(first, 0)| ==> (drop(StripLines(first, 0)[k]) <==> k != 1)
    ensures |KeptLines(StripLines(first, 0), drop)| == 1
  {
    StripShape(first, 0);
    var strip := StripLines(first, 0);
    KeptLinesNone(strip[2..], drop);
    assert strip[1..][1..] == strip[2..] && strip[1..][0] == strip[1];
  }

  lemma StripPane(rules: Rules, top: Rendering, strip: Node)
    requires ShowsTabs(rules, strip) && IsStrip(strip)
    requires |top.records| == |top.lines| == 1 && top.records[0].index == 0
    ensures var first := Walked(rules, true, top, strip, 1, [0]);
            |first.records| == 3 && first.records[2].index == 3 && |first.lines| == 4
  {
    var pane := Appended(rules, top, strip, 1, [0]);
    StripWalked(rules, pane, strip);
    StripCompacted(|pane.records|, pane);
  }

  lemma TwoPanesWalked(rules: Rules, top: Rendering, strip: Node)
    requires ShowsTabs(rules, strip) && IsStrip(strip)
    requires |top.records| == |top.lines| == 1 && top.records[0].index == 0
    ensures var second := WalkedFrom(rules, true, top, TwoPanes(strip), 0, 1, []);
            |second.records| == 4 && second.records[2].index == second.records[3].index == 3 && |second.lines| == 5
  {
    var root := TwoPanes(strip);
    assert [] + [0] == [0] && [] + [1] == [1];
    StripPane(rules, top, strip);
    var first := Walked(rules, true, top, strip, 1, [0]);
    LeafWalked(rules, first, false, 1, [1]);
    var second := Walked(rules, true, first, Tab(false), 1, [1]);
    assert WalkedFrom(rules, true, second, root, 2, 1, []) == second;
    assert WalkedFrom(rules, true, first, root, 1, 1, []) == second;
  }

  lemma CompactionRepeatsNumbers(rules: Rules, strip: Node)
    requires ShowsTabs(rules, strip) && IsStrip(strip)
    ensures !DistinctNumbers(Rendered(rules, true, TwoPanes(strip), []).records)
  {
    var top := Appended(rules, NOTHING, TwoPanes(strip), 0, []);
    TwoPanesWalked(rules, top, strip);
    var second := WalkedFrom(rules, true, top, TwoPanes(strip), 0, 1, []);
    FewTabs(second.lines, 1, Tabs(1));
    assert CompactedBelow(second, 1, 1) == second;
  }

  lemma {:induction false} FewTabs(lines: seq<Line>, start: nat, tab: Line -> bool)
    ensures |TabPositions(lines, start, tab)| <= if start < |lines| then |lines| - start else 0
    decreases |lines| - start
  {
    if start < |lines| {
      FewTabs(lines, start + 1, tab);
    }
  }

  // Numbers identify elements in every tree exactly when tabs are not compacted.
  lemma NumbersDistinctIffNotCompacting(compact: bool)
    ensures (forall root, path :: DistinctNumbers(Rendered(RUNTIME, compact, root, path).records)) <==> !compact
  {
    if compact {
      var strip := Node(TabInfo(false), seq(10, i => Present(Tab(i == 1))));
      RuntimeShowsTab(Tab(false), false);
      RuntimeShowsTab(Tab(true), true);
      RuntimeShowsTab(strip, false);
      RuntimeShowsTab(TwoPanes(strip), false);
      assert IsStrip(strip);
      CompactionRepeatsNumbers(RUNTIME, strip);
    } else {
      forall root, path
        ensures DistinctNumbers(Rendered(RUNTIME, false, root, path).records)
      {
        RenderIsPreorderPrefix(RUNTIME, root, path);
      }
    }
  }
}
