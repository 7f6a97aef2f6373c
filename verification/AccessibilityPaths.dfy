/**
 The paths recorded by the renderer: find_by_path and find_element of
 native/computer-use-linux/runtime.py lead back from a path to the node it was recorded for.
 */
module AccessibilityPaths {
  import opened Options
  import opened AccessibilityNode
  import opened AccessibilityTree

  // ---------- finding a node again ----------

  function Resolve(node: Node, path: Path): Option<Node> {
    if path == [] then Some(node)
    else if path[0] < |node.slots| && node.slots[path[0]].Present? then Resolve(node.slots[path[0]].node, path[1..])
    else None
  }

  lemma {:induction false} ResolveConcat(node: Node, a: Path, b: Path)
    ensures Resolve(node, a + b) == if Resolve(node, a).Some? then Resolve(Resolve(node, a).value, b) else None
    decreases |a|
  {
    if a == [] {
      assert a + b == b;
    } else {
      assert (a + b)[1..] == a[1..] + b;
      if a[0] < |node.slots| && node.slots[a[0]].Present? {
        ResolveConcat(node.slots[a[0]].node, a[1..], b);
      }
    }
  }

  method FindByPath(app: Node, path: Path) returns (found: Option<Node>)
    ensures found == Resolve(app, path)
  {
    var node := app;
    for i := 0 to |path|
      invariant Resolve(app, path) == Resolve(node, path[i..])
    {
      if path[i] >= |node.slots| || node.slots[path[i]].Absent? {
        return None;
      }
      node := node.slots[path[i]].node;
    }
    return Some(node);
  }

  predicate SameSignature(info: Info, saved: Record) {
    info.role == saved.info.role && info.name == saved.info.name && info.automationId == saved.info.automationId
    && info.actions == saved.info.actions
  }

  // A saved element is found only at its path, and only while the node there still looks the same.
  method FindElement(app: Node, saved: Option<Record>) returns (found: Option<Node>)
    ensures found.Some? <==>
              && saved.Some? && Resolve(app, saved.value.path).Some?
              && var present, earlier := Resolve(app, saved.value.path).value.info, saved.value.info;
                 (present.role, present.name, present.automationId, present.actions) == (earlier.role, earlier.name, earlier.automationId, earlier.actions)
    ensures found.Some? ==> found == Resolve(app, saved.value.path)
  {
    if saved.None? {
      return None;
    }
    var byPath := FindByPath(app, saved.value.path);
    if byPath.Some? && SameSignature(byPath.value.info, saved.value) {
      return byPath;
    }
    return None;
  }

  // ---------- where visits lie ----------

  // A visit of the subtree of `node`, entered at `depth` and `path`
  ghost predicate Within(rules: Rules, v: Visit, node: Node, depth: nat, path: Path) {
    path <= v.path && v.depth >= depth && Resolve(node, v.path[|path|..]) == Some(v.node)
    && v == VisitOf(rules, v.node, v.depth, v.path)
  }

  lemma {:induction false} VisitsWithin(rules: Rules, node: Node, depth: nat, path: Path, v: Visit)
    requires v in Visits(rules, node, depth, path)
    ensures Within(rules, v, node, depth, path)
    decreases node, |node.slots| + 1
  {
    if v != VisitOf(rules, node, depth, path) {
      var j := VisitsFromWithin(rules, node, 0, ChildDepth(rules, node, depth), path, v);
      ChildPath(node, path, j, v);
    }
  }

  lemma ChildPath(node: Node, path: Path, j: nat, v: Visit)
    requires j < |node.slots| && node.slots[j].Present?
    requires path + [j] <= v.path && Resolve(node.slots[j].node, v.path[|path| + 1..]) == Some(v.node)
    ensures path < v.path && Resolve(node, v.path[|path|..]) == Some(v.node)
  {
    var q := v.path[|path|..];
    assert v.path[|path|] == (path + [j])[|path|] == j;
    assert q[0] == j && q[1..] == v.path[|path| + 1..];
    assert path == (path + [j])[..|path|];
  }

  lemma {:induction false} VisitsFromWithin(rules: Rules, node: Node, from: nat, depth: nat, path: Path, v: Visit) returns (j: nat)
    requires from <= |node.slots| && v in VisitsFrom(rules, node, from, depth, path)
    ensures from <= j < |node.slots| && node.slots[j].Present? && v in Visits(rules, node.slots[j].node, depth, path + [j])
    ensures Within(rules, v, node.slots[j].node, depth, path + [j])
    decreases node, |node.slots| - from
  {
    if node.slots[from].Present? && v in Visits(rules, node.slots[from].node, depth, path + [from]) {
      VisitsWithin(rules, node.slots[from].node, depth, path + [from], v);
      j := from;
    } else {
      j := VisitsFromWithin(rules, node, from + 1, depth, path, v);
    }
  }

  // Paths that leave `path` by different children do not meet.
  lemma Diverge(path: Path, i: nat, j: nat, p: Path, q: Path)
    requires i != j && path + [i] <= p && path + [j] <= q
    ensures !(p <= q) && !(q <= p)
  {
    assert p[|path|] == (path + [i])[|path|] == i;
    assert q[|path|] == (path + [j])[|path|] == j;
  }

  // ---------- no path twice, no ancestor late ----------

  ghost predicate Preorder(vs: seq<Visit>) {
    forall i, j :: 0 <= i < j < |vs| ==> !(vs[j].path <= vs[i].path)
  }

  lemma PreorderConcat(a: seq<Visit>, b: seq<Visit>)
    requires Preorder(a) && Preorder(b)
    requires forall v, w :: v in a && w in b ==> !(w.path <= v.path)
    ensures Preorder(a + b)
  {
    var c := a + b;
    forall i, j | 0 <= i < j < |c|
      ensures !(c[j].path <= c[i].path)
    {
      if i < |a| && j >= |a| {
        assert c[i] in a && c[j] in b;
      }
    }
  }

  lemma {:induction false} VisitsPreorder(rules: Rules, node: Node, depth: nat, path: Path)
    ensures Preorder(Visits(rules, node, depth, path))
    decreases node, |node.slots| + 1
  {
    if rules.opens(node) {
      var rest := VisitsFrom(rules, node, 0, ChildDepth(rules, node, depth), path);
      VisitsFromPreorder(rules, node, 0, ChildDepth(rules, node, depth), path);
      forall w | w in rest
        ensures !(w.path <= path)
      {
        var j := VisitsFromWithin(rules, node, 0, ChildDepth(rules, node, depth), path, w);
        ChildPath(node, path, j, w);
      }
      PreorderConcat([VisitOf(rules, node, depth, path)], rest);
    }
  }

  lemma {:induction false} VisitsFromPreorder(rules: Rules, node: Node, from: nat, depth: nat, path: Path)
    requires from <= |node.slots|
    ensures Preorder(VisitsFrom(rules, node, from, depth, path))
    decreases node, |node.slots| - from
  {
    if from < |node.slots| {
      VisitsFromPreorder(rules, node, from + 1, depth, path);
      if node.slots[from].Present? {
        var first := Visits(rules, node.slots[from].node, depth, path + [from]);
        var rest := VisitsFrom(rules, node, from + 1, depth, path);
        VisitsPreorder(rules, node.slots[from].node, depth, path + [from]);
        forall v, w | v in first && w in rest
          ensures !(w.path <= v.path)
        {
          VisitsWithin(rules, node.slots[from].node, depth, path + [from], v);
          var j := VisitsFromWithin(rules, node, from + 1, depth, path, w);
          Diverge(path, from, j, v.path, w.path);
        }
        PreorderConcat(first, rest);
      }
    }
  }

  lemma {:induction false} ShownSubset(vs: seq<Visit>, v: Visit)
    ensures v in Shown(vs) <==> v in vs && !v.elided && v.depth <= MAX_DEPTH
    decreases |vs|
  {
    if vs != [] {
      ShownSubset(vs[1..], v);
      assert v in vs <==> v == vs[0] || v in vs[1..];
    }
  }

  lemma {:induction false} ShownPreorder(vs: seq<Visit>)
    requires Preorder(vs)
    ensures Preorder(Shown(vs))
    decreases |vs|
  {
    if vs != [] {
      ShownPreorder(vs[1..]);
      forall w | w in Shown(vs[1..])
        ensures !(w.path <= vs[0].path)
      {
        ShownSubset(vs[1..], w);
        var k :| 0 <= k < |vs[1..]| && vs[1..][k] == w;
        assert vs[k + 1] == w;
      }
      PreorderConcat([vs[0]], Shown(vs[1..]));
    }
  }

  lemma {:induction false} ShownConcat(a: seq<Visit>, b: seq<Visit>)
    ensures Shown(a + b) == Shown(a) + Shown(b)
    decreases |a|
  {
    if a == [] {
      assert a + b == b;
    } else {
      assert (a + b)[1..] == a[1..] + b;
      ShownConcat(a[1..], b);
    }
  }

  // ---------- depth counts shown ancestors ----------

  // How many of `vs` lie strictly above the path `q`
  function Above(vs: seq<Visit>, q: Path): nat {
    if vs == [] then 0 else (if vs[0].path < q then 1 else 0) + Above(vs[1..], q)
  }

  lemma {:induction false} AboveConcat(a: seq<Visit>, b: seq<Visit>, q: Path)
    ensures Above(a + b, q) == Above(a, q) + Above(b, q)
    decreases |a|
  {
    if a == [] {
      assert a + b == b;
    } else {
      assert (a + b)[1..] == a[1..] + b;
      AboveConcat(a[1..], b, q);
    }
  }

  lemma {:induction false} NoneAbove(vs: seq<Visit>, q: Path)
    requires forall v :: v in vs ==> !(v.path < q)
    ensures Above(vs, q) == 0
    decreases |vs|
  {
    if vs != [] {
      NoneAbove(vs[1..], q);
    }
  }

  // A node counts as an ancestor of everything below it unless it is elided, and not of itself.
  lemma RootAbove(self: Visit, rest: seq<Visit>, v: Visit)
    requires forall w :: w in rest ==> self.path < w.path
    requires v in Shown([self] + rest)
    ensures v in Shown(rest) && self.depth <= MAX_DEPTH ==>
              Above(Shown([self] + rest), v.path) == (if self.elided then 0 else 1) + Above(Shown(rest), v.path)
    ensures v !in Shown(rest) ==> v == self && !self.elided && Above(Shown([self] + rest), v.path) == 0
  {
    ShownConcat([self], rest);
    AboveConcat(Shown([self]), Shown(rest), v.path);
    forall w | w in Shown(rest)
      ensures w in rest
    {
      ShownSubset(rest, w);
    }
    if v !in Shown(rest) {
      NoneAbove(Shown(rest), v.path);
    }
  }

  lemma {:induction false} DepthCountsAncestors(rules: Rules, node: Node, depth: nat, path: Path, v: Visit)
    requires v in Shown(Visits(rules, node, depth, path))
    ensures v.depth == depth + Above(Shown(Visits(rules, node, depth, path)), v.path)
    decreases node, |node.slots| + 1
  {
    var self := VisitOf(rules, node, depth, path);
    var rest := if rules.opens(node) then VisitsFrom(rules, node, 0, ChildDepth(rules, node, depth), path) else [];
    forall w | w in rest
      ensures path < w.path && w.depth >= ChildDepth(rules, node, depth)
    {
      var j := VisitsFromWithin(rules, node, 0, ChildDepth(rules, node, depth), path, w);
      ChildPath(node, path, j, w);
    }
    RootAbove(self, rest, v);
    if v in Shown(rest) {
      ShownSubset(rest, v);
      DepthCountsAncestorsFrom(rules, node, 0, ChildDepth(rules, node, depth), path, v);
    }
  }

  lemma {:induction false} DepthCountsAncestorsFrom(rules: Rules, node: Node, from: nat, depth: nat, path: Path, v: Visit)
    requires from <= |node.slots| && v in Shown(VisitsFrom(rules, node, from, depth, path))
    ensures v.depth == depth + Above(Shown(VisitsFrom(rules, node, from, depth, path)), v.path)
    decreases node, |node.slots| - from
  {
    var first := if node.slots[from].Present? then Visits(rules, node.slots[from].node, depth, path + [from]) else [];
    var rest := VisitsFrom(rules, node, from + 1, depth, path);
    ShownConcat(first, rest);
    AboveConcat(Shown(first), Shown(rest), v.path);
    if v in Shown(first) {
      DepthCountsAncestors(rules, node.slots[from].node, depth, path + [from], v);
      ShownSubset(first, v);
      VisitsWithin(rules, node.slots[from].node, depth, path + [from], v);
      forall w | w in Shown(rest)
        ensures !(w.path < v.path)
      {
        ShownSubset(rest, w);
        var j := VisitsFromWithin(rules, node, from + 1, depth, path, w);
        Diverge(path, from, j, v.path, w.path);
      }
      NoneAbove(Shown(rest), v.path);
    } else {
      DepthCountsAncestorsFrom(rules, node, from + 1, depth, path, v);
      ShownSubset(rest, v);
      var j := VisitsFromWithin(rules, node, from + 1, depth, path, v);
      forall w | w in Shown(first)
        ensures !(w.path < v.path)
      {
        ShownSubset(first, w);
        VisitsWithin(rules, node.slots[from].node, depth, path + [from], w);
        Diverge(path, from, j, w.path, v.path);
      }
      NoneAbove(Shown(first), v.path);
    }
  }
}
