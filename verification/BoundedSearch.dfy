/**
 first_descendant of native/computer-use-linux/runtime.py: a depth-first search with an explicit stack,
 a set of seen nodes and caps on nodes and depth, over any accessibility graph, cyclic ones included.
 */
module BoundedSearch {
  import opened Options
  import opened Sequences

  type Id = nat

  // The children of a node, in order; an unknown node has none
  function Kids(g: map<Id, seq<Id>>, n: Id): seq<Id> { if n in g then g[n] else [] }

  // ---------- trees ----------

  datatype Tree = Tree(id: Id, kids: seq<Tree>)

  function Ids(ts: seq<Tree>): seq<Id> { seq(|ts|, i requires 0 <= i < |ts| => ts[i].id) }

  // The graph looks like the tree `t` from its root
  ghost predicate Shows(g: map<Id, seq<Id>>, t: Tree) {
    Kids(g, t.id) == Ids(t.kids) && forall k :: k in t.kids ==> Shows(g, k)
  }

  // Recursive preorder down to `levels` levels below the root
  function Preorder(t: Tree, levels: int): seq<Id>
    decreases t, 1, 0
  {
    [t.id] + if levels <= 0 then [] else PreorderAll(t, 0, levels - 1)
  }

  function PreorderAll(t: Tree, from: nat, levels: int): seq<Id>
    requires from <= |t.kids|
    decreases t, 0, |t.kids| - from
  {
    if from == |t.kids| then [] else Preorder(t.kids[from], levels) + PreorderAll(t, from + 1, levels)
  }

  function FirstMatch(s: seq<Id>, matches: Id -> bool): Option<Id> {
    if s == [] then None else if matches(s[0]) then Some(s[0]) else FirstMatch(s[1..], matches)
  }

  // ---------- the stack ----------

  datatype Entry = Entry(node: Id, depth: nat)

  // A stack entry seen as a subtree still to be searched
  datatype Pending = Pending(tree: Tree, depth: nat)

  function PreorderStack(stack: seq<Pending>, maxDepth: nat): seq<Id> {
    if stack == [] then []
    else Preorder(stack[|stack| - 1].tree, maxDepth - stack[|stack| - 1].depth) + PreorderStack(stack[..|stack| - 1], maxDepth)
  }

  function PushedEntries(kids: seq<Id>, depth: nat): seq<Entry> {
    seq(|kids|, j requires 0 <= j < |kids| => Entry(kids[|kids| - 1 - j], depth))
  }

  // The children from `from` on, last child first
  function PushedPending(t: Tree, from: nat, depth: nat): seq<Pending>
    requires from <= |t.kids|
    decreases |t.kids| - from
  {
    if from == |t.kids| then [] else PushedPending(t, from + 1, depth) + [Pending(t.kids[from], depth)]
  }

  method PushChildren(stack: seq<Entry>, kids: seq<Id>, depth: nat) returns (pushed: seq<Entry>)
    ensures pushed == stack + PushedEntries(kids, depth)
  {
    pushed := stack;
    for i := |kids| downto 0
      invariant pushed == stack + PushedEntries(kids, depth)[..|kids| - i]
    {
      pushed := pushed + [Entry(kids[i], depth)];
    }
  }

  ghost predicate Mirrors(g: map<Id, seq<Id>>, stack: seq<Entry>, pending: seq<Pending>) {
    |stack| == |pending|
    && forall i :: 0 <= i < |stack| ==> stack[i] == Entry(pending[i].tree.id, pending[i].depth) && Shows(g, pending[i].tree)
  }

  lemma {:induction false} PushedPendingShape(t: Tree, from: nat, depth: nat)
    requires from <= |t.kids|
    ensures |PushedPending(t, from, depth)| == |t.kids| - from
    ensures forall j :: 0 <= j < |t.kids| - from ==> PushedPending(t, from, depth)[j] == Pending(t.kids[|t.kids| - 1 - j], depth)
    decreases |t.kids| - from
  {
    if from < |t.kids| {
      PushedPendingShape(t, from + 1, depth);
    }
  }

  // Popping the pushed children one by one searches them in order.
  lemma {:induction false} PreorderPushed(rest: seq<Pending>, t: Tree, from: nat, depth: nat, maxDepth: nat)
    requires from <= |t.kids|
    ensures PreorderStack(rest + PushedPending(t, from, depth), maxDepth) == PreorderAll(t, from, maxDepth - depth) + PreorderStack(rest, maxDepth)
    decreases |t.kids| - from
  {
    if from == |t.kids| {
      assert rest + [] == rest;
    } else {
      PreorderPushed(rest, t, from + 1, depth, maxDepth);
      var below := rest + PushedPending(t, from + 1, depth);
      var stack := rest + PushedPending(t, from, depth);
      assert stack == below + [Pending(t.kids[from], depth)];
      assert stack[..|stack| - 1] == below;
      ConcatAssociates(Preorder(t.kids[from], maxDepth - depth), PreorderAll(t, from + 1, maxDepth - depth), PreorderStack(rest, maxDepth));
    }
  }

  lemma {:induction false} FirstMatchAfter(misses: seq<Id>, rest: seq<Id>, matches: Id -> bool)
    requires forall n :: n in misses ==> !matches(n)
    ensures FirstMatch(misses + rest, matches) == FirstMatch(rest, matches)
    decreases |misses|
  {
    if misses == [] {
      assert misses + rest == rest;
    } else {
      assert (misses + rest)[1..] == misses[1..] + rest;
      FirstMatchAfter(misses[1..], rest, matches);
    }
  }

  // The stack once its top has been tested without a match
  ghost function Grown(g: map<Id, seq<Id>>, stack: seq<Entry>, maxDepth: nat): seq<Entry>
    requires stack != []
  {
    var top, below := stack[|stack| - 1], stack[..|stack| - 1];
    if top.depth >= maxDepth then below else below + PushedEntries(Kids(g, top.node), top.depth + 1)
  }

  // What is still to be tested in a tree, in order
  ghost predicate Ahead(g: map<Id, seq<Id>>, stack: seq<Entry>, pending: seq<Pending>, maxDepth: nat, tested: seq<Id>, all: seq<Id>) {
    Mirrors(g, stack, pending) && tested + PreorderStack(pending, maxDepth) == all
  }

  // The stack once its top has been visited, in a tree
  ghost function UnfoldedTop(below: seq<Pending>, top: Pending, maxDepth: nat): seq<Pending> {
    if top.depth >= maxDepth then below else below + PushedPending(top.tree, 0, top.depth + 1)
  }

  ghost function Unfolded(pending: seq<Pending>, maxDepth: nat): seq<Pending>
    requires pending != []
  {
    UnfoldedTop(pending[..|pending| - 1], pending[|pending| - 1], maxDepth)
  }

  // The preorder below a node
  function Descendants(t: Tree, levels: int): seq<Id> { if levels <= 0 then [] else PreorderAll(t, 0, levels - 1) }

  lemma PreorderTop(t: Tree, levels: int)
    ensures Preorder(t, levels) == [t.id] + Descendants(t, levels)
  {
  }

  lemma StackTop(pending: seq<Pending>, maxDepth: nat)
    requires pending != []
    ensures var top := pending[|pending| - 1];
            PreorderStack(pending, maxDepth) == Preorder(top.tree, maxDepth - top.depth) + PreorderStack(pending[..|pending| - 1], maxDepth)
  {
  }

  lemma UnfoldedOrder(below: seq<Pending>, top: Pending, maxDepth: nat)
    ensures PreorderStack(UnfoldedTop(below, top, maxDepth), maxDepth)
         == Descendants(top.tree, maxDepth - top.depth) + PreorderStack(below, maxDepth)
  {
    if top.depth < maxDepth {
      UnfoldedDeep(below, top, maxDepth);
    } else {
      NoDescendants(top.tree, maxDepth - top.depth, PreorderStack(below, maxDepth));
    }
  }

  lemma UnfoldedDeep(below: seq<Pending>, top: Pending, maxDepth: nat)
    requires top.depth < maxDepth
    ensures PreorderStack(below + PushedPending(top.tree, 0, top.depth + 1), maxDepth)
         == Descendants(top.tree, maxDepth - top.depth) + PreorderStack(below, maxDepth)
  {
    var pushed := below + PushedPending(top.tree, 0, top.depth + 1);
    var levels := maxDepth - (top.depth + 1);
    PreorderPushed(below, top.tree, 0, top.depth + 1, maxDepth);
    assert PreorderStack(pushed, maxDepth) == PreorderAll(top.tree, 0, levels) + PreorderStack(below, maxDepth);
    DescendantsBelow(top.tree, levels + 1);
  }

  lemma DescendantsBelow(t: Tree, levels: int)
    requires levels > 0
    ensures Descendants(t, levels) == PreorderAll(t, 0, levels - 1)
  {
  }

  lemma NoDescendants(t: Tree, levels: int, rest: seq<Id>)
    requires levels <= 0
    ensures Descendants(t, levels) + rest == rest
  {
  }

  // The top comes first in the order, then what its visit leaves.
  lemma PreorderUnfolds(pending: seq<Pending>, maxDepth: nat)
    requires pending != []
    ensures PreorderStack(pending, maxDepth) == [pending[|pending| - 1].tree.id] + PreorderStack(Unfolded(pending, maxDepth), maxDepth)
  {
    var top, below := pending[|pending| - 1], pending[..|pending| - 1];
    StackTop(pending, maxDepth);
    PreorderTop(top.tree, maxDepth - top.depth);
    UnfoldedOrder(below, top, maxDepth);
    ConcatAssociates([top.tree.id], Descendants(top.tree, maxDepth - top.depth), PreorderStack(below, maxDepth));
  }

  lemma MirrorsTop(g: map<Id, seq<Id>>, stack: seq<Entry>, pending: seq<Pending>)
    requires Mirrors(g, stack, pending) && stack != []
    ensures var top := pending[|pending| - 1];
            && stack[|stack| - 1] == Entry(top.tree.id, top.depth) && Shows(g, top.tree)
            && Mirrors(g, stack[..|stack| - 1], pending[..|pending| - 1])
  {
  }

  lemma MirrorsUnfolded(g: map<Id, seq<Id>>, stack: seq<Entry>, pending: seq<Pending>, maxDepth: nat)
    requires Mirrors(g, stack, pending) && stack != []
    ensures Mirrors(g, Grown(g, stack, maxDepth), Unfolded(pending, maxDepth))
  {
    var top, below := pending[|pending| - 1], pending[..|pending| - 1];
    MirrorsTop(g, stack, pending);
    GrownAt(g, stack, maxDepth, top.tree.id, top.depth);
    MirrorsOneUp(g, stack[..|stack| - 1], below, top, maxDepth);
  }

  lemma MirrorsOneUp(g: map<Id, seq<Id>>, stack: seq<Entry>, below: seq<Pending>, top: Pending, maxDepth: nat)
    requires Mirrors(g, stack, below) && Shows(g, top.tree)
    ensures top.depth < maxDepth ==>
              Mirrors(g, stack + PushedEntries(Kids(g, top.tree.id), top.depth + 1), below + PushedPending(top.tree, 0, top.depth + 1))
  {
    if top.depth < maxDepth {
      MirrorsPushed(g, stack, below, top.tree, top.depth + 1);
    }
  }

  lemma GrownAt(g: map<Id, seq<Id>>, stack: seq<Entry>, maxDepth: nat, node: Id, depth: nat)
    requires stack != [] && stack[|stack| - 1] == Entry(node, depth)
    ensures var below := stack[..|stack| - 1];
            Grown(g, stack, maxDepth) == if depth >= maxDepth then below else below + PushedEntries(Kids(g, node), depth + 1)
  {
  }

  // Visiting the top of the stack in a tree
  lemma Visit(g: map<Id, seq<Id>>, stack: seq<Entry>, pending: seq<Pending>, maxDepth: nat, tested: seq<Id>, all: seq<Id>) returns (next: seq<Pending>)
    requires Ahead(g, stack, pending, maxDepth, tested, all) && stack != [] && Distinct(all)
    ensures var top := stack[|stack| - 1];
            && top.node !in tested && tested + [top.node] <= all
            && Ahead(g, Grown(g, stack, maxDepth), next, maxDepth, tested + [top.node], all)
  {
    var id := pending[|pending| - 1].tree.id;
    assert stack[|stack| - 1].node == id;
    next := Unfolded(pending, maxDepth);
    PreorderUnfolds(pending, maxDepth);
    MirrorsUnfolded(g, stack, pending, maxDepth);
    ConcatAssociates(tested, [id], PreorderStack(next, maxDepth));
    NewInDistinct(tested, id, PreorderStack(next, maxDepth));
  }

  lemma NewInDistinct(tested: seq<Id>, n: Id, rest: seq<Id>)
    requires Distinct((tested + [n]) + rest)
    ensures n !in tested
  {
    var all := (tested + [n]) + rest;
    assert all[|tested|] == n && forall i :: 0 <= i < |tested| ==> all[i] == tested[i];
  }

  lemma MirrorsPushed(g: map<Id, seq<Id>>, stack: seq<Entry>, pending: seq<Pending>, t: Tree, depth: nat)
    requires Mirrors(g, stack, pending) && Shows(g, t)
    ensures Mirrors(g, stack + PushedEntries(Kids(g, t.id), depth), pending + PushedPending(t, 0, depth))
  {
    PushedPendingShape(t, 0, depth);
  }

  lemma {:induction false} MatchAt(s: seq<Id>, k: nat, matches: Id -> bool)
    requires k < |s| && matches(s[k]) && forall i :: 0 <= i < k ==> !matches(s[i])
    ensures FirstMatch(s, matches) == Some(s[k])
  {
    if k > 0 {
      assert !matches(s[0]);
      MatchAt(s[1..], k - 1, matches);
    }
  }

  // The first match among the nodes to be tested, once it or the cap or the end is reached
  lemma FoundInOrder(tested: seq<Id>, n: Id, all: seq<Id>, maxNodes: nat, matches: Id -> bool)
    requires tested + [n] <= all && |tested| < maxNodes && matches(n) && forall m :: m in tested ==> !matches(m)
    ensures FirstMatch(tested + [n], matches) == Some(n) == FirstMatch(Take(all, maxNodes), matches)
  {
    var first := Take(all, maxNodes);
    forall i | 0 <= i <= |tested|
      ensures first[i] == (tested + [n])[i] && (i < |tested| ==> !matches(first[i]))
    {
      assert all[i] == (tested + [n])[i];
    }
    MatchAt(tested + [n], |tested|, matches);
    MatchAt(first, |tested|, matches);
  }

  lemma NoneInOrder(tested: seq<Id>, matches: Id -> bool)
    requires forall m :: m in tested ==> !matches(m)
    ensures FirstMatch(tested, matches) == None
  {
    FirstMatchAfter(tested, [], matches);
    assert tested + [] == tested;
  }

  // ---------- the search ----------

  // The nodes the predicate was put to, in order, and the depth at which each was reached
  datatype Trace = Trace(tested: seq<Id>, depths: map<Id, nat>)

  ghost function Extended(t: Trace, e: Entry): Trace { Trace(t.tested + [e.node], t.depths[e.node := e.depth]) }

  // The loop as a function: what has been tested once it ends
  ghost function Searched(g: map<Id, seq<Id>>, matches: Id -> bool, maxNodes: nat, maxDepth: nat, stack: seq<Entry>, t: Trace): Trace
    decreases maxNodes - |t.tested|, |stack|
  {
    if stack == [] || |t.tested| >= maxNodes then t
    else
      var top := stack[|stack| - 1];
      if top.node in t.tested then Searched(g, matches, maxNodes, maxDepth, stack[..|stack| - 1], t)
      else if matches(top.node) then Extended(t, top)
      else Searched(g, matches, maxNodes, maxDepth, Grown(g, stack, maxDepth), Extended(t, top))
  }

  ghost function SearchFrom(g: map<Id, seq<Id>>, root: Id, matches: Id -> bool, maxNodes: nat, maxDepth: nat): Trace {
    Searched(g, matches, maxNodes, maxDepth, [Entry(root, 0)], Trace([], map[]))
  }

  // `n`, reached at depth `d`, is a child of the j-th tested node, one level deeper and within the depth cap.
  ghost predicate ChildOf(g: map<Id, seq<Id>>, t: Trace, j: nat, n: Id, d: nat, maxDepth: nat) {
    j < |t.tested| && t.tested[j] in t.depths && n in Kids(g, t.tested[j]) && d == t.depths[t.tested[j]] + 1 <= maxDepth
  }

  // The first tested node is the root at depth 0; every other is a child of an earlier one.
  ghost predicate PlacedAt(g: map<Id, seq<Id>>, root: Id, t: Trace, i: nat, maxDepth: nat)
    requires i < |t.tested|
  {
    t.tested[i] in t.depths
    && if i == 0 then t.tested[0] == root && t.depths[root] == 0
       else exists j :: 0 <= j < i && ChildOf(g, t, j, t.tested[i], t.depths[t.tested[i]], maxDepth)
  }

  ghost predicate Placed(g: map<Id, seq<Id>>, root: Id, t: Trace, maxDepth: nat) {
    && (forall n :: n in t.depths <==> n in t.tested)
    && (forall i :: 0 <= i < |t.tested| ==> PlacedAt(g, root, t, i, maxDepth))
  }

  // What waits is the root, before anything is tested, or a child of a tested node.
  ghost predicate WaitsRightly(g: map<Id, seq<Id>>, root: Id, t: Trace, e: Entry, maxDepth: nat) {
    (t.tested == [] && e == Entry(root, 0)) || exists j :: ChildOf(g, t, j, e.node, e.depth, maxDepth)
  }

  // The edge from `n` to `k` lies beyond the depth cap, or `k` has been tested or waits
  ghost predicate Reached(n: Id, k: Id, t: Trace, stack: seq<Entry>, maxDepth: nat) {
    n in t.depths && (t.depths[n] >= maxDepth || k in t.tested || Entry(k, t.depths[n] + 1) in stack)
  }

  // The root, and every child of a tested node above the depth cap, has been tested or waits on the stack.
  ghost predicate Covers(g: map<Id, seq<Id>>, root: Id, t: Trace, stack: seq<Entry>, maxDepth: nat) {
    (root in t.tested || Entry(root, 0) in stack)
    && forall n, k :: n in t.tested && k in Kids(g, n) ==> Reached(n, k, t, stack, maxDepth)
  }

  ghost predicate NoneMatch(t: Trace, matches: Id -> bool) { forall n :: n in t.tested ==> !matches(n) }

  // What the loop keeps on every graph
  ghost predicate Searching(g: map<Id, seq<Id>>, root: Id, maxDepth: nat, stack: seq<Entry>, t: Trace) {
    && Distinct(t.tested) && Placed(g, root, t, maxDepth) && Covers(g, root, t, stack, maxDepth)
    && forall e :: e in stack ==> WaitsRightly(g, root, t, e, maxDepth)
  }

  // ---------- one turn ----------

  lemma PoppedOrBelow(stack: seq<Entry>)
    requires stack != []
    ensures forall e :: e in stack ==> e == stack[|stack| - 1] || e in stack[..|stack| - 1]
  {
  }

  lemma PushedAll(kids: seq<Id>, depth: nat)
    ensures forall k :: k in kids ==> Entry(k, depth) in PushedEntries(kids, depth)
    ensures forall e :: e in PushedEntries(kids, depth) ==> e.node in kids && e.depth == depth
  {
    forall k | k in kids
      ensures Entry(k, depth) in PushedEntries(kids, depth)
    {
      var i :| 0 <= i < |kids| && kids[i] == k;
      assert PushedEntries(kids, depth)[|kids| - 1 - i] == Entry(k, depth);
    }
  }

  // Taking a node off the stack that was already tested
  lemma SeenAgain(g: map<Id, seq<Id>>, root: Id, maxDepth: nat, stack: seq<Entry>, t: Trace)
    requires stack != [] && stack[|stack| - 1].node in t.tested && Searching(g, root, maxDepth, stack, t)
    ensures Searching(g, root, maxDepth, stack[..|stack| - 1], t)
  {
    PoppedOrBelow(stack);
    forall n, k | n in t.tested && k in Kids(g, n)
      ensures Reached(n, k, t, stack[..|stack| - 1], maxDepth)
    {
      assert Reached(n, k, t, stack, maxDepth);
    }
  }

  // Testing a new node keeps every earlier node where it was.
  lemma ChildStays(g: map<Id, seq<Id>>, t: Trace, e: Entry, j: nat, n: Id, d: nat, maxDepth: nat)
    requires e.node !in t.tested && ChildOf(g, t, j, n, d, maxDepth)
    ensures ChildOf(g, Extended(t, e), j, n, d, maxDepth)
  {
  }

  lemma PlacedNext(g: map<Id, seq<Id>>, root: Id, maxDepth: nat, t: Trace, e: Entry)
    requires Placed(g, root, t, maxDepth) && e.node !in t.tested && WaitsRightly(g, root, t, e, maxDepth)
    ensures Placed(g, root, Extended(t, e), maxDepth)
  {
    var u := Extended(t, e);
    forall i | 0 <= i < |u.tested|
      ensures PlacedAt(g, root, u, i, maxDepth)
    {
      if i < |t.tested| {
        assert PlacedAt(g, root, t, i, maxDepth) && u.tested[i] == t.tested[i] && t.tested[i] in t.tested;
        if i > 0 {
          var j :| 0 <= j < i && ChildOf(g, t, j, t.tested[i], t.depths[t.tested[i]], maxDepth);
          ChildStays(g, t, e, j, t.tested[i], t.depths[t.tested[i]], maxDepth);
        }
      } else if t.tested != [] {
        var j :| ChildOf(g, t, j, e.node, e.depth, maxDepth);
        ChildStays(g, t, e, j, e.node, e.depth, maxDepth);
      }
    }
  }

  lemma CoversNext(g: map<Id, seq<Id>>, root: Id, maxDepth: nat, stack: seq<Entry>, t: Trace)
    requires stack != [] && Covers(g, root, t, stack, maxDepth) && stack[|stack| - 1].node !in t.tested
    ensures Covers(g, root, Extended(t, stack[|stack| - 1]), Grown(g, stack, maxDepth), maxDepth)
  {
    var top := stack[|stack| - 1];
    var u, next := Extended(t, top), Grown(g, stack, maxDepth);
    PoppedOrBelow(stack);
    PushedAll(Kids(g, top.node), top.depth + 1);
    forall n, k | n in u.tested && k in Kids(g, n)
      ensures Reached(n, k, u, next, maxDepth)
    {
      if n != top.node {
        assert n in t.tested && Reached(n, k, t, stack, maxDepth);
      }
    }
  }

  lemma WaitingNext(g: map<Id, seq<Id>>, root: Id, maxDepth: nat, stack: seq<Entry>, t: Trace)
    requires stack != [] && stack[|stack| - 1].node !in t.tested && forall e :: e in stack ==> WaitsRightly(g, root, t, e, maxDepth)
    requires t.tested == [] ==> stack == [Entry(root, 0)]
    ensures forall e :: e in Grown(g, stack, maxDepth) ==> WaitsRightly(g, root, Extended(t, stack[|stack| - 1]), e, maxDepth)
  {
    var top, below := stack[|stack| - 1], stack[..|stack| - 1];
    var u := Extended(t, top);
    PushedAll(Kids(g, top.node), top.depth + 1);
    forall e | e in Grown(g, stack, maxDepth)
      ensures WaitsRightly(g, root, u, e, maxDepth)
    {
      if e in below {
        assert e in stack && t.tested != [];
        var j :| ChildOf(g, t, j, e.node, e.depth, maxDepth);
        ChildStays(g, t, top, j, e.node, e.depth, maxDepth);
      } else {
        assert u.tested[|t.tested|] == top.node;
        assert ChildOf(g, u, |t.tested|, e.node, e.depth, maxDepth);
      }
    }
  }

  lemma DistinctGrows(tested: seq<Id>, n: Id)
    requires Distinct(tested) && n !in tested
    ensures Distinct(tested + [n])
  {
  }

  // Until something is tested only the root waits.
  ghost predicate Fresh(root: Id, stack: seq<Entry>, t: Trace) { t.tested == [] ==> stack == [Entry(root, 0)] }

  lemma TestedTurn(g: map<Id, seq<Id>>, root: Id, maxDepth: nat, stack: seq<Entry>, t: Trace)
    requires Searching(g, root, maxDepth, stack, t) && Fresh(root, stack, t) && stack != [] && stack[|stack| - 1].node !in t.tested
    ensures Searching(g, root, maxDepth, Grown(g, stack, maxDepth), Extended(t, stack[|stack| - 1]))
  {
    var top := stack[|stack| - 1];
    DistinctGrows(t.tested, top.node);
    PlacedNext(g, root, maxDepth, t, top);
    CoversNext(g, root, maxDepth, stack, t);
    WaitingNext(g, root, maxDepth, stack, t);
  }

  // ---------- every graph ----------

  // What is known of a search once it has ended
  ghost predicate Ended(g: map<Id, seq<Id>>, root: Id, matches: Id -> bool, maxNodes: nat, maxDepth: nat, u: Trace) {
    && Distinct(u.tested) && |u.tested| <= maxNodes && Placed(g, root, u, maxDepth)
    && (NoneMatch(u, matches) && |u.tested| < maxNodes ==> Covers(g, root, u, [], maxDepth))
  }

  lemma {:induction false} SearchedEnds(g: map<Id, seq<Id>>, root: Id, matches: Id -> bool, maxNodes: nat, maxDepth: nat,
      stack: seq<Entry>, t: Trace)
    requires Searching(g, root, maxDepth, stack, t) && Fresh(root, stack, t) && |t.tested| <= maxNodes
    ensures Ended(g, root, matches, maxNodes, maxDepth, Searched(g, matches, maxNodes, maxDepth, stack, t))
    decreases maxNodes - |t.tested|, |stack|
  {
    if stack != [] && |t.tested| < maxNodes {
      var top := stack[|stack| - 1];
      if top.node in t.tested {
        SeenAgain(g, root, maxDepth, stack, t);
        SearchedEnds(g, root, matches, maxNodes, maxDepth, stack[..|stack| - 1], t);
      } else {
        TestedTurn(g, root, maxDepth, stack, t);
        if !matches(top.node) {
          SearchedEnds(g, root, matches, maxNodes, maxDepth, Grown(g, stack, maxDepth), Extended(t, top));
        } else {
          assert top.node in Extended(t, top).tested;
        }
      }
    }
  }

  // A walk along edges of the graph
  ghost predicate Walk(g: map<Id, seq<Id>>, p: seq<Id>) {
    forall i :: 0 <= i < |p| - 1 ==> p[i + 1] in Kids(g, p[i])
  }

  // A walk over at most `count` nodes leads from the root to `n`.
  ghost predicate Near(g: map<Id, seq<Id>>, root: Id, n: Id, count: nat) {
    exists p :: p != [] && |p| <= count && p[0] == root && p[|p| - 1] == n && Walk(g, p)
  }

  ghost predicate WalkedTo(g: map<Id, seq<Id>>, root: Id, n: Id) { exists count :: Near(g, root, n, count) }

  lemma NearNext(g: map<Id, seq<Id>>, root: Id, n: Id, k: Id, count: nat)
    requires Near(g, root, n, count) && k in Kids(g, n)
    ensures Near(g, root, k, count + 1)
  {
    var p :| p != [] && |p| <= count && p[0] == root && p[|p| - 1] == n && Walk(g, p);
    var q := p + [k];
    forall i | 0 <= i < |q| - 1
      ensures q[i + 1] in Kids(g, q[i])
    {
      assert i < |p| - 1 ==> p[i + 1] in Kids(g, p[i]);
    }
    assert Walk(g, q) && q[|q| - 1] == k;
  }

  // A tested node can be walked to in as many steps as its depth, which is no more than its place in the order.
  lemma {:induction false} DepthIsAWalk(g: map<Id, seq<Id>>, root: Id, t: Trace, maxDepth: nat, i: nat)
    requires Placed(g, root, t, maxDepth) && i < |t.tested|
    ensures t.tested[i] in t.depths && t.depths[t.tested[i]] <= i && t.depths[t.tested[i]] <= maxDepth
    ensures Near(g, root, t.tested[i], t.depths[t.tested[i]] + 1)
    decreases i
  {
    assert PlacedAt(g, root, t, i, maxDepth);
    if i == 0 {
      assert [root][|[root]| - 1] == root && Walk(g, [root]);
    } else {
      var j :| 0 <= j < i && ChildOf(g, t, j, t.tested[i], t.depths[t.tested[i]], maxDepth);
      DepthIsAWalk(g, root, t, maxDepth, j);
      NearNext(g, root, t.tested[j], t.tested[i], t.depths[t.tested[j]] + 1);
    }
  }

  // Every child of a node that was tested at the depth cap, although it can be walked to over `count` nodes,
  // was tested all the same.
  ghost predicate CapHidesNothing(g: map<Id, seq<Id>>, root: Id, t: Trace, maxDepth: nat, count: nat) {
    forall n, k :: n in t.tested && k in Kids(g, n) && n in t.depths && t.depths[n] >= maxDepth && Near(g, root, n, count) ==> k in t.tested
  }

  lemma {:induction false} WalkTested(g: map<Id, seq<Id>>, root: Id, t: Trace, maxDepth: nat, count: nat, p: seq<Id>)
    requires Covers(g, root, t, [], maxDepth) && CapHidesNothing(g, root, t, maxDepth, count)
    requires p != [] && |p| <= count + 1 && p[0] == root && Walk(g, p)
    ensures p[|p| - 1] in t.tested
    decreases |p|
  {
    if |p| > 1 {
      var q := p[..|p| - 1];
      forall i | 0 <= i < |q| - 1
        ensures q[i + 1] in Kids(g, q[i])
      {
        assert p[i + 1] in Kids(g, p[i]);
      }
      WalkTested(g, root, t, maxDepth, count, q);
      var n, k := q[|q| - 1], p[|p| - 1];
      assert p[|p| - 2 + 1] in Kids(g, p[|p| - 2]);
      assert Near(g, root, n, count);
      assert Reached(n, k, t, [], maxDepth);
    }
  }

  // With fewer nodes tested than either cap allows, nothing was cut off: everything that can be walked to
  // from the root was tested.
  lemma UncappedSearchIsExhaustive(g: map<Id, seq<Id>>, root: Id, matches: Id -> bool, maxNodes: nat, maxDepth: nat, n: Id)
    ensures var u := SearchFrom(g, root, matches, maxNodes, maxDepth);
            FirstMatch(u.tested, matches).None? && |u.tested| < maxNodes && |u.tested| <= maxDepth && WalkedTo(g, root, n)
            ==> n in u.tested && !matches(n)
  {
    var u := SearchFrom(g, root, matches, maxNodes, maxDepth);
    SearchEnded(g, root, matches, maxNodes, maxDepth);
    if FirstMatch(u.tested, matches).None? && |u.tested| < maxNodes && |u.tested| <= maxDepth && WalkedTo(g, root, n) {
      NoMatchInside(u.tested, matches);
      var count :| Near(g, root, n, count);
      var p :| p != [] && |p| <= count && p[0] == root && p[|p| - 1] == n && Walk(g, p);
      forall m | m in u.tested && m in u.depths
        ensures u.depths[m] < maxDepth
      {
        var i :| 0 <= i < |u.tested| && u.tested[i] == m;
        DepthIsAWalk(g, root, u, maxDepth, i);
      }
      WalkTested(g, root, u, maxDepth, count, p);
    }
  }

  // The depth cap counts the steps the search took, not the fewest: a search that found nothing has tested
  // every node within the cap if and only if no child of a node it met at the cap, although that node is
  // nearer to the root, was left out.
  lemma WithinCapTestedIff(g: map<Id, seq<Id>>, root: Id, matches: Id -> bool, maxNodes: nat, maxDepth: nat)
    ensures var u := SearchFrom(g, root, matches, maxNodes, maxDepth);
            FirstMatch(u.tested, matches).None? && |u.tested| < maxNodes ==>
              ((forall n :: Near(g, root, n, maxDepth + 1) ==> n in u.tested) <==> CapHidesNothing(g, root, u, maxDepth, maxDepth))
  {
    var u := SearchFrom(g, root, matches, maxNodes, maxDepth);
    SearchEnded(g, root, matches, maxNodes, maxDepth);
    if FirstMatch(u.tested, matches).None? && |u.tested| < maxNodes {
      NoMatchInside(u.tested, matches);
      if CapHidesNothing(g, root, u, maxDepth, maxDepth) {
        forall n | Near(g, root, n, maxDepth + 1)
          ensures n in u.tested
        {
          var p :| p != [] && |p| <= maxDepth + 1 && p[0] == root && p[|p| - 1] == n && Walk(g, p);
          WalkTested(g, root, u, maxDepth, maxDepth, p);
        }
      }
      if forall n :: Near(g, root, n, maxDepth + 1) ==> n in u.tested {
        forall n, k | n in u.tested && k in Kids(g, n) && Near(g, root, n, maxDepth)
          ensures k in u.tested
        {
          NearNext(g, root, n, k, maxDepth);
        }
      }
    }
  }

  // Node 3 is two steps from the root, the cap is two, and it is never tested: node 2 was met at the cap first.
  lemma NearNodeMissed()
    ensures var g := map[0 := [1, 2], 1 := [2], 2 := [3]];
            Near(g, 0, 3, 3) && 3 !in SearchFrom(g, 0, n => false, 10, 2).tested
  {
    var g: map<Id, seq<Id>> := map[0 := [1, 2], 1 := [2], 2 := [3]];
    var none: Id -> bool := n => false;
    assert Walk(g, [0, 2, 3]) && [0, 2, 3][2] == 3;
    MissedRun(g, none);
  }

  lemma MissedRun(g: map<Id, seq<Id>>, none: Id -> bool)
    requires Kids(g, 0) == [1, 2] && Kids(g, 1) == [2] && !none(0) && !none(1) && !none(2)
    ensures SearchFrom(g, 0, none, 10, 2).tested == [0, 1, 2]
  {
    var t0 := Trace([], map[]);
    var t1 := Extended(t0, Entry(0, 0));
    var t2 := Extended(t1, Entry(1, 1));
    var t3 := Extended(t2, Entry(2, 2));
    assert PushedEntries([1, 2], 1) == [Entry(2, 1), Entry(1, 1)] && PushedEntries([2], 2) == [Entry(2, 2)];
    assert Grown(g, [Entry(0, 0)], 2) == [Entry(2, 1), Entry(1, 1)];
    assert Grown(g, [Entry(2, 1), Entry(1, 1)], 2) == [Entry(2, 1), Entry(2, 2)];
    assert Grown(g, [Entry(2, 1), Entry(2, 2)], 2) == [Entry(2, 1)];
    assert [Entry(2, 1)][..0] == [];
    assert t1.tested == [0] && t2.tested == [0, 1] && t3.tested == [0, 1, 2];
    assert Searched(g, none, 10, 2, [Entry(2, 1)], t3) == Searched(g, none, 10, 2, [], t3) == t3;
    assert Searched(g, none, 10, 2, [Entry(2, 1), Entry(2, 2)], t2) == t3;
    assert Searched(g, none, 10, 2, [Entry(2, 1), Entry(1, 1)], t1) == t3;
  }

  lemma {:induction false} NoMatchInside(s: seq<Id>, matches: Id -> bool)
    ensures FirstMatch(s, matches).None? <==> forall n :: n in s ==> !matches(n)
    decreases |s|
  {
    if s != [] {
      NoMatchInside(s[1..], matches);
    }
  }

  lemma SearchEnded(g: map<Id, seq<Id>>, root: Id, matches: Id -> bool, maxNodes: nat, maxDepth: nat)
    ensures Ended(g, root, matches, maxNodes, maxDepth, SearchFrom(g, root, matches, maxNodes, maxDepth))
  {
    SearchedEnds(g, root, matches, maxNodes, maxDepth, [Entry(root, 0)], Trace([], map[]));
  }

  // ---------- trees ----------

  ghost predicate IsTree(g: map<Id, seq<Id>>, root: Id, maxDepth: nat, tree: Tree) {
    tree.id == root && Shows(g, tree) && Distinct(Preorder(tree, maxDepth))
  }

  // Once the stack is empty or the cap is reached, the tested nodes are what the cap allows of all.
  lemma SearchEnds(g: map<Id, seq<Id>>, stack: seq<Entry>, pending: seq<Pending>, maxDepth: nat, tested: seq<Id>, all: seq<Id>, maxNodes: nat)
    requires Ahead(g, stack, pending, maxDepth, tested, all) && |tested| <= maxNodes && (stack == [] || |tested| == maxNodes)
    ensures Take(all, maxNodes) == tested
  {
  }

  lemma {:induction false} SearchedInTree(g: map<Id, seq<Id>>, matches: Id -> bool, maxNodes: nat, maxDepth: nat,
      stack: seq<Entry>, t: Trace, pending: seq<Pending>, all: seq<Id>)
    requires Ahead(g, stack, pending, maxDepth, t.tested, all) && Distinct(all) && |t.tested| <= maxNodes && NoneMatch(t, matches)
    ensures FirstMatch(Searched(g, matches, maxNodes, maxDepth, stack, t).tested, matches) == FirstMatch(Take(all, maxNodes), matches)
    decreases maxNodes - |t.tested|, |stack|
  {
    if stack == [] || |t.tested| >= maxNodes {
      SearchEnds(g, stack, pending, maxDepth, t.tested, all, maxNodes);
    } else {
      var top := stack[|stack| - 1];
      var next := Visit(g, stack, pending, maxDepth, t.tested, all);
      if matches(top.node) {
        FoundInOrder(t.tested, top.node, all, maxNodes, matches);
      } else {
        SearchedInTree(g, matches, maxNodes, maxDepth, Grown(g, stack, maxDepth), Extended(t, top), next, all);
      }
    }
  }

  // On a tree the search finds the first match among the first `maxNodes` nodes of the depth-limited preorder.
  lemma SearchInTree(g: map<Id, seq<Id>>, root: Id, matches: Id -> bool, maxNodes: nat, maxDepth: nat, tree: Tree)
    requires IsTree(g, root, maxDepth, tree)
    ensures FirstMatch(SearchFrom(g, root, matches, maxNodes, maxDepth).tested, matches)
         == FirstMatch(Take(Preorder(tree, maxDepth), maxNodes), matches)
  {
    var pending, all := [Pending(tree, 0)], Preorder(tree, maxDepth);
    assert PreorderStack(pending, maxDepth) == all + [] == [] + all;
    SearchedInTree(g, matches, maxNodes, maxDepth, [Entry(root, 0)], Trace([], map[]), pending, all);
  }

  // ---------- the loop ----------

  method FirstDescendant(g: map<Id, seq<Id>>, root: Id, matches: Id -> bool, maxNodes: nat, maxDepth: nat)
      returns (found: Option<Id>, ghost t: Trace)
    ensures t == SearchFrom(g, root, matches, maxNodes, maxDepth) && found == FirstMatch(t.tested, matches)
    // On every graph: no node twice, never more than the cap, each node a child of an earlier one
    ensures Distinct(t.tested) && |t.tested| <= maxNodes && Placed(g, root, t, maxDepth)
    // A search that found nothing and was not stopped by the node cap left no child of a node above the depth cap out
    ensures found.None? && |t.tested| < maxNodes ==> Covers(g, root, t, [], maxDepth)
    // ... and with fewer nodes than the depth cap allows levels, nothing that can be walked to
    ensures found.None? && |t.tested| < maxNodes && |t.tested| <= maxDepth ==>
              forall n :: WalkedTo(g, root, n) ==> n in t.tested && !matches(n)
    ensures found.Some? ==> WalkedTo(g, root, found.value) && matches(found.value)
    // On a tree: the first match among the first `maxNodes` nodes of the depth-limited preorder
    ensures forall tree :: IsTree(g, root, maxDepth, tree) ==> found == FirstMatch(Take(Preorder(tree, maxDepth), maxNodes), matches)
  {
    found, t := SearchLoop(g, root, matches, maxNodes, maxDepth);
    SearchEnded(g, root, matches, maxNodes, maxDepth);
    NoMatchInside(t.tested, matches);
    forall n | WalkedTo(g, root, n)
      ensures found.None? && |t.tested| < maxNodes && |t.tested| <= maxDepth ==> n in t.tested && !matches(n)
    {
      UncappedSearchIsExhaustive(g, root, matches, maxNodes, maxDepth, n);
    }
    if found.Some? {
      FirstMatchInside(t.tested, matches);
      ghost var i :| 0 <= i < |t.tested| && t.tested[i] == found.value;
      DepthIsAWalk(g, root, t, maxDepth, i);
    }
    forall tree | IsTree(g, root, maxDepth, tree)
      ensures found == FirstMatch(Take(Preorder(tree, maxDepth), maxNodes), matches)
    {
      SearchInTree(g, root, matches, maxNodes, maxDepth, tree);
    }
  }

  lemma {:induction false} FirstMatchInside(s: seq<Id>, matches: Id -> bool)
    ensures FirstMatch(s, matches).Some? ==> FirstMatch(s, matches).value in s && matches(FirstMatch(s, matches).value)
    decreases |s|
  {
    if s != [] {
      FirstMatchInside(s[1..], matches);
    }
  }

  // What one turn of the loop makes of what is still to come
  lemma SearchTurn(g: map<Id, seq<Id>>, matches: Id -> bool, maxNodes: nat, maxDepth: nat, stack: seq<Entry>, t: Trace)
    requires stack != [] && |t.tested| < maxNodes
    ensures var top := stack[|stack| - 1];
            Searched(g, matches, maxNodes, maxDepth, stack, t) ==
              if top.node in t.tested then Searched(g, matches, maxNodes, maxDepth, stack[..|stack| - 1], t)
              else if matches(top.node) then Extended(t, top)
              else Searched(g, matches, maxNodes, maxDepth, Grown(g, stack, maxDepth), Extended(t, top))
  {
  }

  lemma FoundLast(t: Trace, e: Entry, matches: Id -> bool)
    requires NoneMatch(t, matches) && matches(e.node)
    ensures FirstMatch(Extended(t, e).tested, matches) == Some(e.node)
  {
    FirstMatchAfter(t.tested, [e.node], matches);
  }

  method SearchLoop(g: map<Id, seq<Id>>, root: Id, matches: Id -> bool, maxNodes: nat, maxDepth: nat)
      returns (found: Option<Id>, ghost t: Trace)
    ensures t == SearchFrom(g, root, matches, maxNodes, maxDepth)
    ensures found == FirstMatch(SearchFrom(g, root, matches, maxNodes, maxDepth).tested, matches)
  {
    var visitedCount := 0;
    var stack := [Entry(root, 0)];
    var seen: set<Id> := {};
    t := Trace([], map[]);
    ghost var end := SearchFrom(g, root, matches, maxNodes, maxDepth);
    while stack != [] && visitedCount < maxNodes
      invariant visitedCount == |t.tested| <= maxNodes && NoneMatch(t, matches)
      invariant forall n :: n in seen <==> n in t.tested
      invariant Searched(g, matches, maxNodes, maxDepth, stack, t) == end
      decreases maxNodes - visitedCount, |stack|
    {
      SearchTurn(g, matches, maxNodes, maxDepth, stack, t);
      ghost var was := t;
      var top := stack[|stack| - 1];
      GrownAt(g, stack, maxDepth, top.node, top.depth);
      stack := stack[..|stack| - 1];
      if top.node in seen {
        continue;
      }
      seen := seen + {top.node};
      visitedCount := visitedCount + 1;
      t := Extended(t, top);
      if matches(top.node) {
        FoundLast(was, top, matches);
        return Some(top.node), t;
      }
      if top.depth >= maxDepth {
        continue;
      }
      stack := PushChildren(stack, Kids(g, top.node), top.depth + 1);
    }
    NoneInOrder(t.tested, matches);
    return None, t;
  }
}
