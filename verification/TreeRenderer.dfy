/**
 The renderer of native/computer-use-linux/runtime.py in its own form: `walk` appending to the record
 and line lists, and the compactor deleting from them in place.
 */
module TreeRenderer {
  import opened AccessibilityNode
  import opened AccessibilityTree
  import opened AccessibilityPaths
  import opened TabCompaction

  // ---------- the walk as a function ----------

  function Appended(rules: Rules, st: Rendering, node: Node, depth: nat, path: Path): Rendering {
    Rendering(st.records + [Record(|st.records|, path, node.info)],
              st.lines + [Element(depth, |st.records|, rules.text(node))], st.truncated, st.deep)
  }

  function CompactedBelow(st: Rendering, start: nat, depth: nat): Rendering {
    var s := Compacted(Screen(st.records, st.lines), start, depth);
    st.(records := s.records, lines := s.lines)
  }

  function Walked(rules: Rules, compact: bool, st: Rendering, node: Node, depth: nat, path: Path): Rendering
    decreases node, |node.slots| + 1
  {
    if |st.records| >= MAX_NODES || depth > MAX_DEPTH then Deepen(st.(truncated := true), depth > MAX_DEPTH)
    else if rules.elided(node) then
      (if rules.opens(node) then WalkedFrom(rules, compact, st, node, 0, depth, path) else st)
    else
      var mid := Appended(rules, st, node, depth, path);
      if !rules.opens(node) then mid
      else
        var below := WalkedFrom(rules, compact, mid, node, 0, depth + 1, path);
        if compact then CompactedBelow(below, |mid.lines|, depth + 1) else below
  }

  function WalkedFrom(rules: Rules, compact: bool, st: Rendering, node: Node, from: nat, depth: nat, path: Path): Rendering
    requires from <= |node.slots|
    decreases node, |node.slots| - from
  {
    if from == |node.slots| then st
    else WalkedFrom(rules, compact,
                    if node.slots[from].Present? then Walked(rules, compact, st, node.slots[from].node, depth, path + [from]) else st,
                    node, from + 1, depth, path)
  }

  const NOTHING: Rendering := Rendering([], [], false, false)

  // ---------- recorded paths ----------

  ghost predicate DistinctPaths(records: seq<Record>) {
    forall i, j :: 0 <= i < j < |records| ==> records[i].path != records[j].path
  }

  // No record lies at or below child `from`, or a later child, of `path`
  ghost predicate ClearFrom(records: seq<Record>, path: Path, from: nat) {
    forall r, j: nat :: r in records && j >= from ==> !(path + [j] <= r.path)
  }

  ghost predicate Clear(records: seq<Record>, path: Path) {
    forall r :: r in records ==> !(path <= r.path)
  }

  ghost predicate MadeFrom(r: Record, vs: seq<Visit>) {
    exists v :: v in vs && r.path == v.path && r.info == v.node.info && !v.elided
  }

  // Every record is an old one or was made from one of `vs`
  ghost predicate MadeFromThese(records: seq<Record>, before: seq<Record>, vs: seq<Visit>) {
    forall r :: r in records ==> r in before || MadeFrom(r, vs)
  }

  lemma {:induction false} KeptRecordsDistinct(records: seq<Record>, omitted: set<nat>)
    requires DistinctPaths(records)
    ensures DistinctPaths(KeptRecords(records, omitted))
    ensures forall r :: r in KeptRecords(records, omitted) ==> r in records
    decreases |records|
  {
    if records != [] {
      KeptRecordsDistinct(records[1..], omitted);
      var rest := KeptRecords(records[1..], omitted);
      if records[0].index in omitted {
        assert KeptRecords(records, omitted) == rest;
      } else {
        forall j | 0 <= j < |rest|
          ensures rest[j].path != records[0].path
        {
          assert rest[j] in records[1..];
          var k :| 0 <= k < |records[1..]| && records[1..][k] == rest[j];
          assert records[k + 1] == rest[j];
        }
      }
    }
  }

  // ---------- the renderer ----------

  class Renderer {
    const rules: Rules
    const compact: bool
    var records: seq<Record>
    var lines: seq<Line>
    var truncated: bool
    var maxDepthReached: bool

    constructor (rules: Rules, compact: bool)
      ensures this.rules == rules && this.compact == compact && State() == Rendering([], [], false, false)
    {
      this.rules, this.compact := rules, compact;
      records, lines, truncated, maxDepthReached := [], [], false, false;
    }

    ghost function State(): Rendering
      reads this
    {
      Rendering(records, lines, truncated, maxDepthReached)
    }

    // The reverse loop: deletes every tab that is not active
    method DeleteInactive(tabs: seq<nat>, active: set<nat>, ghost start: nat, ghost tab: Line -> bool, ghost drop: Line -> bool)
        returns (omitted: set<nat>, omittedCount: nat)
      requires start <= |lines| && tabs == TabPositions(lines, start, tab) && tabs != []
      requires forall l :: drop(l) ==> tab(l)
      requires forall i :: i in tabs && i < |lines| ==> (i in active <==> !drop(lines[i]))
      modifies this`lines
      ensures tabs[0] < |old(lines)| && Deletion(lines, omitted) == DeletedFrom(old(lines), tabs[0], drop)
      ensures omittedCount == |old(lines)| - |lines|
    {
      ghost var before := lines;
      omitted, omittedCount := {}, 0;
      var k := |tabs|;
      ghost var at := |before|;
      assert before[..at] == before;
      while k > 0
        invariant 0 <= k <= |tabs| && at == (if k < |tabs| then tabs[k] else |before|) && at <= |before|
        invariant k < |tabs| ==> at < |before|
        invariant Deletion(lines, omitted) == DeletedFrom(before, at, drop)
        invariant omittedCount == |before| - |lines|
      {
        k := k - 1;
        DeletionStep(before, tabs, k, start, tab, drop);
        var t := tabs[k];
        if t !in active {
          omitted := omitted + {Number(lines[t])};
          lines := lines[..t] + lines[t + 1..];
          omittedCount := omittedCount + 1;
        }
        at := t;
      }
    }

    method CompactRenderedBrowserTabs(startLine: nat, depth: nat)
      modifies this`records, this`lines
      ensures Screen(records, lines) == Compacted(old(Screen(records, lines)), startLine, depth)
    {
      ghost var before := Screen(records, lines);
      var tabs := TabPositions(lines, startLine, Tabs(depth));
      if |tabs| < MIN_TABS {
        TooFewTabs(before, startLine, depth);
        return;
      }
      var active := ActiveTabs(Screen(records, lines), startLine, depth);
      if active == {} {
        NoActiveTab(before, startLine, depth);
        return;
      }
      var insertion := tabs[0];
      ReadyToDelete(before, startLine, depth);
      ghost var deletion := DeletedFrom(lines, insertion, Drops(depth, records));
      SomeActiveTab(before, startLine, depth, insertion, deletion);
      var omitted, omittedCount := DeleteInactive(tabs, active, startLine, Tabs(depth), Drops(depth, records));
      if omittedCount <= 0 {
        return;
      }
      records := KeptRecords(records, omitted);
      lines := lines[..insertion] + [Marker(depth, omittedCount)] + lines[insertion..];
    }

    method Walk(node: Node, depth: nat, path: Path)
      modifies this
      ensures State() == Walked(rules, compact, old(State()), node, depth, path)
      decreases node, 1
    {
      if |records| >= MAX_NODES || depth > MAX_DEPTH {
        truncated := true;
        if depth > MAX_DEPTH {
          maxDepthReached := true;
        }
        return;
      }
      if rules.elided(node) {
        if rules.opens(node) {
          WalkChildren(node, depth, path);
        }
        return;
      }
      lines := lines + [Element(depth, |records|, rules.text(node))];
      records := records + [Record(|records|, path, node.info)];
      if !rules.opens(node) {
        return;
      }
      var childLineStart := |lines|;
      WalkChildren(node, depth + 1, path);
      if compact {
        CompactRenderedBrowserTabs(childLineStart, depth + 1);
      }
    }

    // The loop over the children of a node
    method WalkChildren(node: Node, depth: nat, path: Path)
      modifies this
      ensures State() == WalkedFrom(rules, compact, old(State()), node, 0, depth, path)
      decreases node, 0
    {
      for i := 0 to |node.slots|
        invariant WalkedFrom(rules, compact, State(), node, i, depth, path) == WalkedFrom(rules, compact, old(State()), node, 0, depth, path)
      {
        if node.slots[i].Present? {
          Walk(node.slots[i].node, depth, path + [i]);
        }
      }
    }
  }

  method RenderAccessibilityTree(rules: Rules, root: Node, rootPath: Path, compact: bool) returns (out: Rendering)
    ensures out == Walked(rules, compact, NOTHING, root, 0, rootPath)
  {
    var renderer := new Renderer(rules, compact);
    renderer.Walk(root, 0, rootPath);
    out := Rendering(renderer.records, renderer.lines, renderer.truncated, renderer.maxDepthReached);
  }

  // ---------- the paths of a walk, with or without compaction ----------

  // What a walk below `path` keeps: distinct paths, new records only from the visits, lines only added
  ghost predicate Tracked(before: Rendering, after: Rendering, vs: seq<Visit>) {
    DistinctPaths(after.records) && MadeFromThese(after.records, before.records, vs) && before.lines <= after.lines
  }

  // A record made of one of the later visits is made of one of all of them.
  lemma TrackedMore(before: Rendering, after: Rendering, self: Visit, rest: seq<Visit>)
    requires Tracked(before, after, rest)
    ensures Tracked(before, after, [self] + rest)
  {
    MadeFromMore([self], rest);
  }

  // The node's own record and line, and then what is below it
  lemma TrackedBelow(st: Rendering, mid: Rendering, after: Rendering, node: Node, path: Path, self: Visit, rest: seq<Visit>)
    requires self.path == path && self.node == node && !self.elided && mid.records == st.records + [Record(|st.records|, path, node.info)] && st.lines <= mid.lines
    requires Tracked(mid, after, rest)
    ensures Tracked(st, after, [self] + rest)
  {
    MadeFromMore([self], rest);
    assert self in [self];
    forall r | r in after.records
      ensures r in st.records || MadeFrom(r, [self] + rest)
    {
      if r in mid.records && r !in st.records {
        assert MadeFrom(r, [self]);
      }
    }
  }

  lemma {:induction false} WalkedTracked(rules: Rules, compact: bool, st: Rendering, node: Node, depth: nat, path: Path)
    requires DistinctPaths(st.records) && Clear(st.records, path)
    ensures Tracked(st, Walked(rules, compact, st, node, depth, path), Visits(rules, node, depth, path))
    decreases node, |node.slots| + 1
  {
    if |st.records| < MAX_NODES && depth <= MAX_DEPTH {
      ClearBelow(st.records, path);
      if rules.elided(node) {
        if rules.opens(node) {
          WalkedFromTracked(rules, compact, st, node, 0, depth, path);
          TrackedMore(st, WalkedFrom(rules, compact, st, node, 0, depth, path), VisitOf(rules, node, depth, path), VisitsFrom(rules, node, 0, depth, path));
        }
      } else {
        var mid := Appended(rules, st, node, depth, path);
        OwnRecord(st.records, mid.records, node, path);
        if rules.opens(node) {
          WalkedFromTracked(rules, compact, mid, node, 0, depth + 1, path);
          ListedTracked(rules, compact, st, mid, WalkedFrom(rules, compact, mid, node, 0, depth + 1, path), node, depth, path,
                        VisitsFrom(rules, node, 0, depth + 1, path));
        } else {
          TrackedBelow(st, mid, mid, node, path, VisitOf(rules, node, depth, path), []);
        }
      }
    }
  }

  // A listed node whose children were walked
  lemma ListedTracked(rules: Rules, compact: bool, st: Rendering, mid: Rendering, below: Rendering, node: Node, depth: nat, path: Path, rest: seq<Visit>)
    requires |st.records| < MAX_NODES && depth <= MAX_DEPTH && !rules.elided(node) && rules.opens(node) && mid == Appended(rules, st, node, depth, path)
    requires below == WalkedFrom(rules, compact, mid, node, 0, depth + 1, path) && rest == VisitsFrom(rules, node, 0, depth + 1, path)
    requires Tracked(mid, below, rest)
    ensures Tracked(st, Walked(rules, compact, st, node, depth, path), Visits(rules, node, depth, path))
  {
    OpenTracked(compact, st, mid, below, node, depth + 1, path, VisitOf(rules, node, depth, path), rest);
  }

  lemma OpenTracked(compact: bool, st: Rendering, mid: Rendering, below: Rendering, node: Node, depth: nat, path: Path, self: Visit, rest: seq<Visit>)
    requires self.path == path && self.node == node && !self.elided && mid.records == st.records + [Record(|st.records|, path, node.info)] && st.lines <= mid.lines
    requires Tracked(mid, below, rest)
    ensures Tracked(st, if compact then CompactedBelow(below, |mid.lines|, depth) else below, [self] + rest)
  {
    CompactedTracked(mid, below, rest, depth);
    TrackedBelow(st, mid, if compact then CompactedBelow(below, |mid.lines|, depth) else below, node, path, self, rest);
  }

  lemma CompactedTracked(mid: Rendering, below: Rendering, vs: seq<Visit>, depth: nat)
    requires Tracked(mid, below, vs)
    ensures Tracked(mid, CompactedBelow(below, |mid.lines|, depth), vs)
  {
    CompactedKeeps(Screen(below.records, below.lines), |mid.lines|, depth);
    assert mid.lines == below.lines[..|mid.lines|];
  }

  lemma {:induction false} WalkedFromTracked(rules: Rules, compact: bool, st: Rendering, node: Node, from: nat, depth: nat, path: Path)
    requires from <= |node.slots| && DistinctPaths(st.records) && ClearFrom(st.records, path, from)
    ensures Tracked(st, WalkedFrom(rules, compact, st, node, from, depth, path), VisitsFrom(rules, node, from, depth, path))
    decreases node, |node.slots| - from
  {
    if from < |node.slots| {
      var rest := VisitsFrom(rules, node, from + 1, depth, path);
      if node.slots[from].Present? {
        var vs := Visits(rules, node.slots[from].node, depth, path + [from]);
        var mid := Walked(rules, compact, st, node.slots[from].node, depth, path + [from]);
        WalkedTracked(rules, compact, st, node.slots[from].node, depth, path + [from]);
        ClearNext(rules, mid.records, st.records, node.slots[from].node, depth, path, from);
        WalkedFromTracked(rules, compact, mid, node, from + 1, depth, path);
        MadeFromMore(vs, rest);
      } else {
        WalkedFromTracked(rules, compact, st, node, from + 1, depth, path);
        assert [] + rest == rest;
      }
    }
  }

  // ---------- steps of the walk ----------

  lemma ClearBelow(records: seq<Record>, path: Path)
    requires Clear(records, path)
    ensures ClearFrom(records, path, 0)
  {
    forall r, j: nat | r in records
      ensures !(path + [j] <= r.path)
    {
      assert path <= path + [j];
    }
  }

  lemma OwnRecord(before: seq<Record>, more: seq<Record>, node: Node, path: Path)
    requires DistinctPaths(before) && Clear(before, path) && more == before + [Record(|before|, path, node.info)]
    ensures DistinctPaths(more) && ClearFrom(more, path, 0)
  {
    ClearBelow(before, path);
    forall i, j | 0 <= i < j < |more|
      ensures more[i].path != more[j].path
    {
      if j == |before| {
        assert more[i] in before;
      }
    }
  }

  lemma ClearNext(rules: Rules, records: seq<Record>, before: seq<Record>, child: Node, depth: nat, path: Path, i: nat)
    requires ClearFrom(before, path, i) && MadeFromThese(records, before, Visits(rules, child, depth, path + [i]))
    ensures ClearFrom(records, path, i + 1)
  {
    forall r, j: nat | r in records && j >= i + 1
      ensures !(path + [j] <= r.path)
    {
      if r !in before {
        var v :| v in Visits(rules, child, depth, path + [i]) && r.path == v.path && r.info == v.node.info;
        VisitsWithin(rules, child, depth, path + [i], v);
        if path + [j] <= r.path {
          Diverge(path, i, j, r.path, r.path);
        }
      }
    }
  }

  lemma MadeFromMore(vs: seq<Visit>, more: seq<Visit>)
    ensures forall r :: MadeFrom(r, vs) || MadeFrom(r, more) ==> MadeFrom(r, vs + more)
  {
  }

  lemma CompactedKeeps(s: Screen, start: nat, depth: nat)
    requires start <= |s.lines| && DistinctPaths(s.records)
    ensures var t := Compacted(s, start, depth);
            && DistinctPaths(t.records) && (forall r :: r in t.records ==> r in s.records)
            && start <= |t.lines| && t.lines[..start] == s.lines[..start]
  {
    if Compacts(s.records, s.lines, start, depth) {
      var first := FirstTab(s.lines, start, Tabs(depth));
      KeptRecordsDistinct(s.records, OmittedIndexes(s.lines[first..], Drops(depth, s.records)));
    }
  }

  // ---------- without compaction: the first lines of the uncapped preorder ----------

  // The capped, eliding walk is the fold over the uncapped visits.
  lemma {:induction false} WalkedPlain(rules: Rules, st: Rendering, node: Node, depth: nat, path: Path)
    ensures Walked(rules, false, st, node, depth, path) == Deepen(ShowAll(st, Visits(rules, node, depth, path)), depth > MAX_DEPTH)
    decreases node, |node.slots| + 1
  {
    if |st.records| >= MAX_NODES || depth > MAX_DEPTH {
      RefusedSubtree(rules, st, node, depth, path);
    } else {
      var self := VisitOf(rules, node, depth, path);
      var rest := if rules.opens(node) then VisitsFrom(rules, node, 0, ChildDepth(rules, node, depth), path) else [];
      var mid := if rules.elided(node) then st else Appended(rules, st, node, depth, path);
      var deep := !rules.elided(node) && depth == MAX_DEPTH && HasOpenChild(rules, node);
      assert Show(st, self) == Deepen(mid, deep);
      assert ([self] + rest)[1..] == rest;
      ShowAllDeepened(mid, rest, deep);
      if rules.opens(node) {
        WalkedFromPlain(rules, mid, node, 0, ChildDepth(rules, node, depth), path);
      }
    }
  }

  // A slot from `from` on holds a child
  predicate AnyChildFrom(node: Node, from: nat) { exists i :: from <= i < |node.slots| && node.slots[i].Present? }

  lemma {:induction false} WalkedFromPlain(rules: Rules, st: Rendering, node: Node, from: nat, depth: nat, path: Path)
    requires from <= |node.slots|
    ensures WalkedFrom(rules, false, st, node, from, depth, path)
         == Deepen(ShowAll(st, VisitsFrom(rules, node, from, depth, path)), depth > MAX_DEPTH && AnyChildFrom(node, from))
    decreases node, |node.slots| - from
  {
    if from < |node.slots| {
      var rest := VisitsFrom(rules, node, from + 1, depth, path);
      if node.slots[from].Present? {
        var vs := Visits(rules, node.slots[from].node, depth, path + [from]);
        var mid := Deepen(ShowAll(st, vs), depth > MAX_DEPTH);
        WalkedPlain(rules, st, node.slots[from].node, depth, path + [from]);
        WalkedFromPlain(rules, mid, node, from + 1, depth, path);
        ShowAllConcat(st, vs, rest);
        ShowAllDeepened(ShowAll(st, vs), rest, depth > MAX_DEPTH);
      } else {
        WalkedFromPlain(rules, st, node, from + 1, depth, path);
        assert [] + rest == rest;
      }
    }
  }

  // The lines and omitted numbers once every dropped line from `at` on is deleted
  datatype Deletion = Deletion(lines: seq<Line>, omitted: set<nat>)

  ghost function DeletedFrom(before: seq<Line>, at: nat, drop: Line -> bool): Deletion
    requires at <= |before|
  {
    Deletion(before[..at] + KeptLines(before[at..], drop), OmittedIndexes(before[at..], drop))
  }

  // The tab lines that are active
  function ActiveTabs(s: Screen, start: nat, depth: nat): set<nat> {
    set i | i in TabPositions(s.lines, start, Tabs(depth)) && i < |s.lines| && Active(s.lines[i], s.records)
  }

  // Fewer than ten tabs, or none of them active: the source returns before touching anything.
  lemma TooFewTabs(s: Screen, start: nat, depth: nat)
    requires |TabPositions(s.lines, start, Tabs(depth))| < MIN_TABS
    ensures Compacted(s, start, depth) == s
  {
  }

  lemma NoActiveTab(s: Screen, start: nat, depth: nat)
    requires start <= |s.lines| && ActiveTabs(s, start, depth) == {}
    ensures Compacted(s, start, depth) == s
  {
    TabPositionsExact(s.lines, start, Tabs(depth));
    assert forall i :: start <= i < |s.lines| && Tabs(depth)(s.lines[i]) && Active(s.lines[i], s.records) ==> i in ActiveTabs(s, start, depth);
  }

  // What the reverse loop asks for: the first tab is a line, and the tabs to delete are those not active.
  lemma ReadyToDelete(s: Screen, start: nat, depth: nat)
    requires TabPositions(s.lines, start, Tabs(depth)) != []
    ensures start <= |s.lines| && TabPositions(s.lines, start, Tabs(depth))[0] < |s.lines|
    ensures forall l :: Drops(depth, s.records)(l) ==> Tabs(depth)(l)
    ensures forall i :: i in TabPositions(s.lines, start, Tabs(depth)) && i < |s.lines| ==>
                          (i in ActiveTabs(s, start, depth) <==> !Drops(depth, s.records)(s.lines[i]))
  {
    if start <= |s.lines| {
      TabPositionsExact(s.lines, start, Tabs(depth));
      assert TabPositions(s.lines, start, Tabs(depth))[0] in TabPositions(s.lines, start, Tabs(depth));
    }
  }

  // With an active tab at `i`, compaction happens exactly when the deletion deletes something.
  lemma CompactsIfDeleted(s: Screen, start: nat, depth: nat, i: nat, first: nat, d: Deletion)
    requires start <= i < |s.lines| && Tabs(depth)(s.lines[i]) && Active(s.lines[i], s.records)
    requires |TabPositions(s.lines, start, Tabs(depth))| >= MIN_TABS
    requires first == FirstTab(s.lines, start, Tabs(depth)) <= |s.lines| && d == DeletedFrom(s.lines, first, Drops(depth, s.records))
    ensures Compacts(s.records, s.lines, start, depth) <==> |d.lines| != |s.lines|
    ensures |d.lines| == |s.lines| ==> Compacted(s, start, depth) == s
  {
    CompactsIff(s, start, depth, i);
    InactiveAreTabs(depth, s.records);
    DropsNothing(s.lines, start, Tabs(depth), Drops(depth, s.records));
  }

  lemma ActivePosition(s: Screen, start: nat, depth: nat) returns (i: nat)
    requires start <= |s.lines| && ActiveTabs(s, start, depth) != {}
    ensures start <= i < |s.lines| && Tabs(depth)(s.lines[i]) && Active(s.lines[i], s.records)
    ensures TabPositions(s.lines, start, Tabs(depth))[0] == FirstTab(s.lines, start, Tabs(depth))
  {
    TabPositionsExact(s.lines, start, Tabs(depth));
    i :| i in ActiveTabs(s, start, depth);
  }

  lemma SomeActiveTab(s: Screen, start: nat, depth: nat, first: nat, d: Deletion)
    requires start <= |s.lines| && |TabPositions(s.lines, start, Tabs(depth))| >= MIN_TABS && ActiveTabs(s, start, depth) != {}
    requires first == TabPositions(s.lines, start, Tabs(depth))[0] <= |s.lines| && d == DeletedFrom(s.lines, first, Drops(depth, s.records))
    ensures first <= |d.lines| <= |s.lines|
    ensures |d.lines| == |s.lines| ==> d.lines == s.lines && Compacted(s, start, depth) == s
    ensures |d.lines| < |s.lines| ==>
              Compacted(s, start, depth)
              == Screen(KeptRecords(s.records, d.omitted), d.lines[..first] + [Marker(depth, |s.lines| - |d.lines|)] + d.lines[first..])
  {
    var i := ActivePosition(s, start, depth);
    CompactsIfDeleted(s, start, depth, i, first, d);
    CompactedByDeletion(s, start, depth);
  }

  lemma InactiveAreTabs(depth: nat, records: seq<Record>)
    ensures forall l :: Drops(depth, records)(l) ==> Tabs(depth)(l)
  {
  }

  // With enough tabs and an active one, compaction happens if and only if some tab is inactive.
  lemma CompactsIff(s: Screen, start: nat, depth: nat, i: nat)
    requires start <= i < |s.lines| && Tabs(depth)(s.lines[i]) && Active(s.lines[i], s.records)
    requires |TabPositions(s.lines, start, Tabs(depth))| >= MIN_TABS
    ensures Compacts(s.records, s.lines, start, depth) <==> exists j :: start <= j < |s.lines| && Drops(depth, s.records)(s.lines[j])
    ensures !Compacts(s.records, s.lines, start, depth) ==> Compacted(s, start, depth) == s
  {
  }

  lemma CompactedByDeletion(s: Screen, start: nat, depth: nat)
    requires start <= |s.lines|
    ensures var first := FirstTab(s.lines, start, Tabs(depth));
            var d := DeletedFrom(s.lines, first, Drops(depth, s.records));
            && first <= |d.lines| <= |s.lines|
            && (|d.lines| == |s.lines| ==> d.lines == s.lines)
            && (Compacts(s.records, s.lines, start, depth) ==>
                  Compacted(s, start, depth) ==
                    Screen(KeptRecords(s.records, d.omitted), d.lines[..first] + [Marker(depth, |s.lines| - |d.lines|)] + d.lines[first..]))
  {
    DeletionParts(s.lines, FirstTab(s.lines, start, Tabs(depth)), Drops(depth, s.records));
  }

  lemma DeletionParts(lines: seq<Line>, first: nat, drop: Line -> bool)
    requires first <= |lines|
    ensures var d, kept := DeletedFrom(lines, first, drop), KeptLines(lines[first..], drop);
            && |d.lines| == first + |kept| <= |lines| && d.lines[..first] == lines[..first] && d.lines[first..] == kept
            && (|d.lines| == |lines| ==> d.lines == lines)
  {
    KeptAll(lines[first..], drop);
    assert lines == lines[..first] + lines[first..];
  }

  // Nothing is deleted exactly when there is no inactive tab.
  lemma DropsNothing(lines: seq<Line>, start: nat, tab: Line -> bool, drop: Line -> bool)
    requires start <= |lines| && forall l :: drop(l) ==> tab(l)
    ensures var first := FirstTab(lines, start, tab);
            |KeptLines(lines[first..], drop)| == |lines| - first <==> !exists i :: start <= i < |lines| && drop(lines[i])
  {
    var first := FirstTab(lines, start, tab);
    KeptAll(lines[first..], drop);
    DroppedBehind(lines, start, first, drop);
  }

  lemma DroppedBehind(lines: seq<Line>, start: nat, first: nat, drop: Line -> bool)
    requires start <= first <= |lines| && forall i :: start <= i < first ==> !drop(lines[i])
    ensures (forall k :: 0 <= k < |lines[first..]| ==> !drop(lines[first..][k])) <==> !exists i :: start <= i < |lines| && drop(lines[i])
  {
    forall i | first <= i < |lines|
      ensures lines[i] == lines[first..][i - first]
    {
    }
  }

  lemma {:induction false} KeptAll(lines: seq<Line>, drop: Line -> bool)
    ensures |KeptLines(lines, drop)| == |lines| <==> forall i :: 0 <= i < |lines| ==> !drop(lines[i])
    ensures |KeptLines(lines, drop)| == |lines| ==> KeptLines(lines, drop) == lines
    decreases |lines|
  {
    if lines != [] {
      KeptAll(lines[1..], drop);
      assert forall i :: 0 < i < |lines| ==> lines[i] == lines[1..][i - 1];
    }
  }

  // Going back from one tab to the one before: the lines between them all stay.
  lemma DeletionStep(before: seq<Line>, tabs: seq<nat>, k: nat, start: nat, tab: Line -> bool, drop: Line -> bool)
    requires start <= |before| && tabs == TabPositions(before, start, tab) && k < |tabs|
    requires forall l :: drop(l) ==> tab(l)
    ensures var at := if k + 1 < |tabs| then tabs[k + 1] else |before|;
            var t := tabs[k];
            && t in tabs && start <= t < at <= |before|
            && var d := DeletedFrom(before, at, drop);
            && t < |d.lines| && d.lines[t] == before[t]
            && DeletedFrom(before, t, drop) ==
                 if drop(before[t]) then Deletion(d.lines[..t] + d.lines[t + 1..], d.omitted + {Number(before[t])}) else d
  {
    TabPositionsExact(before, start, tab);
    var t := tabs[k];
    assert t in tabs;
    var at := if k + 1 < |tabs| then tabs[k + 1] else |before|;
    if k + 1 < |tabs| {
      assert at in tabs && t < at;
    }
    forall i | t < i < at
      ensures !tab(before[i])
    {
      NotBetween(tabs, k, i);
    }
    DeletionSplit(before, t, at, drop);
  }

  lemma DeletionSplit(before: seq<Line>, t: nat, at: nat, drop: Line -> bool)
    requires t < at <= |before| && forall i :: t < i < at ==> !drop(before[i])
    ensures var d := DeletedFrom(before, at, drop);
            && t < |d.lines| && d.lines[t] == before[t]
            && DeletedFrom(before, t, drop) ==
                 if drop(before[t]) then Deletion(d.lines[..t] + d.lines[t + 1..], d.omitted + {Number(before[t])}) else d
  {
    var kept, mid := KeptLines(before[at..], drop), before[t + 1..at];
    KeepStretch(mid, before[at..], drop);
    assert before[t + 1..] == mid + before[at..];
    assert before[t..][1..] == before[t + 1..];
    assert KeptLines(before[t..], drop) == if drop(before[t]) then mid + kept else [before[t]] + (mid + kept);
    Split(before, before[..at] + kept, t, at, kept);
  }

  lemma Split(before: seq<Line>, lines: seq<Line>, t: nat, at: nat, kept: seq<Line>)
    requires t < at <= |before| && lines == before[..at] + kept
    ensures t < |lines| && lines[t] == before[t]
    ensures lines == before[..t] + ([before[t]] + (before[t + 1..at] + kept))
    ensures lines[..t] + lines[t + 1..] == before[..t] + (before[t + 1..at] + kept)
  {
    assert lines[t + 1..] == before[t + 1..at] + kept;
    assert lines[..t] == before[..t];
  }

  lemma NotBetween(tabs: seq<nat>, k: nat, i: nat)
    requires Ascending(tabs) && k < |tabs| && tabs[k] < i && (k + 1 < |tabs| ==> i < tabs[k + 1])
    ensures i !in tabs
  {
  }
}
