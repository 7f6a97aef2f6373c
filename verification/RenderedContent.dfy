/**
 Which elements of a tree render_accessibility_tree of native/computer-use-linux/runtime.py lists, and what
 their lines hold, said by the roles, texts and actions in the tree itself.
 */
module RenderedContent {
  import opened Options
  import opened Sequences
  import Strings
  import opened AccessibilityNode
  import opened AccessibilityTree
  import opened AccessibilityPaths
  import opened TreeRenderer
  import opened RenderedTree

  // ---------- what there is to see in a node ----------

  predicate Blank(s: string) { forall i :: 0 <= i < |s| ==> IsSpace(s[i]) }

  predicate HasRole(info: Info, roles: set<string>) { Strings.Lower(info.role) in roles }

  predicate IsLabel(info: Info) { HasRole(info, {"label", "static", "static text", "text", "link"}) }

  predicate IsGeneric(info: Info) { HasRole(info, {"panel", "filler", "unknown", "section"}) }

  // An action that says no more than that the element is there
  predicate IsNoise(action: string) {
    Strings.Lower(StripLeft(StripRight(action))) in
      {"click", "press", "show default ui", "show alternate ui", "show menu", "scroll to visible", "raise"}
  }

  predicate Quiet(info: Info) { forall a :: a in info.actions ==> IsNoise(a) }

  // A label at `q` below the node says `t`.
  predicate Says(node: Node, q: Path, t: string) {
    var found := Resolve(node, q);
    found.Some? && IsLabel(found.value.info) && t != "" && (t == Sanitize(found.value.info.name) || t == Sanitize(found.value.info.value))
  }

  predicate IsPlain(info: Info) { (IsGeneric(info) || IsLabel(info) || HasRole(info, {"image"})) && Quiet(info) }

  // Plain elements only, none deeper than `levels`
  ghost predicate PlainBelow(node: Node, levels: int) {
    forall q :: Resolve(node, q).Some? ==> |q| <= levels && IsPlain(Resolve(node, q).value.info)
  }

  // Labels within `levels` say two different things.
  ghost predicate SaysTwo(node: Node, levels: int) {
    exists q, t, r, u :: |q| <= levels && |r| <= levels && Says(node, q, t) && Says(node, r, u) && t != u
  }

  // An unnamed panel of plain text
  ghost predicate Summarised(node: Node) {
    IsGeneric(node.info) && node.info.name == "" && node.info.value == "" && SaysTwo(node, 4) && PlainBelow(node, 4)
  }

  predicate CompactTitled(info: Info) {
    && HasRole(info, {"button", "check box", "checkbox", "combo box", "heading", "link", "menu item", "page tab", "push button", "radio button"})
    && (info.name != "" || info.automationId != "" || !Blank(info.value))
  }

  // Nothing below is listed.
  ghost predicate Closed(node: Node) { CompactTitled(node.info) || Summarised(node) }

  // A panel that only wraps, listed by its child if at all
  ghost predicate Wrapper(node: Node) {
    && IsGeneric(node.info) && node.info.name == "" && node.info.automationId == "" && node.info.value == ""
    && Quiet(node.info) && !Summarised(node)
    && forall i, j :: 0 <= i < |node.slots| && 0 <= j < |node.slots| && node.slots[i].Present? && node.slots[j].Present? ==> i == j
  }

  // ---------- blank text ----------

  lemma {:induction false} NoWords(s: string, word: string)
    ensures Words(s, word) == [] <==> word == [] && Blank(s)
    ensures forall w :: w in Words(s, word) ==> w != ""
    decreases |s|
  {
    if s != [] {
      NoWords(s[1..], []);
      NoWords(s[1..], word + [s[0]]);
      assert Blank(s) <==> IsSpace(s[0]) && Blank(s[1..]) by {
        assert forall i :: 0 <= i < |s[1..]| ==> s[1..][i] == s[i + 1];
        assert Blank(s) ==> IsSpace(s[0]);
      }
    }
  }

  lemma JoinEmpty(ws: seq<string>)
    requires forall w :: w in ws ==> w != ""
    ensures Join(ws, " ") == "" <==> ws == []
  {
    if ws != [] {
      assert ws[0] in ws;
    }
  }

  lemma SanitizeBlank(s: string)
    ensures Sanitize(s) == "" <==> Blank(s)
  {
    NoWords(s, []);
    JoinEmpty(Words(s, []));
  }

  lemma AllAndFirst(all: seq<string>, p: string -> bool)
    requires all != []
    ensures (forall a :: a in all ==> p(a)) <==> p(all[0]) && forall a :: a in all[1..] ==> p(a)
  {
    assert forall a :: a in all <==> a == all[0] || a in all[1..];
  }

  lemma NoisyIff(action: string)
    ensures IsNoisy(action) <==> IsNoise(action)
  {
  }

  lemma {:induction false} NoMeaningfulActions(actions: seq<string>, noise: string -> bool)
    requires forall a :: noise(a) == IsNoisy(a)
    ensures MeaningfulActions(actions) == [] <==> forall a :: a in actions ==> noise(a)
    decreases |actions|
  {
    if actions != [] {
      NoMeaningfulActions(actions[1..], noise);
      AllAndFirst(actions, noise);
      assert noise(actions[0]) == IsNoisy(actions[0]);
    }
  }

  lemma QuietIff(info: Info)
    ensures MeaningfulActions(info.actions) == [] <==> Quiet(info)
  {
    NoMeaningfulActions(info.actions, a => IsNoisy(a));
    forall a
      ensures IsNoisy(a) <==> IsNoise(a)
    {
      NoisyIff(a);
    }
  }

  lemma SuppressedIff(info: Info)
    ensures Suppressed(info) <==> CompactTitled(info)
  {
    SanitizeBlank(info.value);
  }

  // ---------- paths below a node ----------

  // The children come first on the way down.
  lemma ResolveDown(node: Node, q: Path)
    requires q != []
    ensures Resolve(node, q).Some? <==> q[0] < |node.slots| && node.slots[q[0]].Present? && Resolve(node.slots[q[0]].node, q[1..]).Some?
    ensures Resolve(node, q).Some? ==> Resolve(node, q) == Resolve(node.slots[q[0]].node, q[1..])
  {
  }

  lemma ResolveChild(node: Node, i: nat, q: Path)
    requires i < |node.slots| && node.slots[i].Present?
    ensures Resolve(node, [i] + q) == Resolve(node.slots[i].node, q)
  {
    assert ([i] + q)[1..] == q;
  }

  lemma PlainDown(node: Node, levels: nat)
    requires IsPlain(node.info) && forall i :: 0 <= i < |node.slots| && node.slots[i].Present? ==> levels > 0 && PlainBelow(node.slots[i].node, levels - 1)
    ensures PlainBelow(node, levels)
  {
    forall q | Resolve(node, q).Some?
      ensures |q| <= levels && IsPlain(Resolve(node, q).value.info)
    {
      if q != [] {
        ResolveDown(node, q);
      }
    }
  }

  lemma PlainUp(node: Node, levels: nat, i: nat)
    requires PlainBelow(node, levels) && i < |node.slots| && node.slots[i].Present?
    ensures levels > 0 && PlainBelow(node.slots[i].node, levels - 1)
  {
    var child := node.slots[i].node;
    ResolveChild(node, i, []);
    assert Resolve(node, [i] + []).Some?;
    forall q | Resolve(child, q).Some?
      ensures |q| <= levels - 1 && IsPlain(Resolve(child, q).value.info)
    {
      ResolveChild(node, i, q);
    }
  }

  lemma PlainRole(info: Info)
    ensures RoleKey(info) in PLAIN_ROLES && MeaningfulActions(info.actions) == [] <==> IsPlain(info)
  {
    QuietIff(info);
  }

  lemma {:induction false} PlainIff(node: Node, levels: nat)
    ensures AllPlain(node, levels) <==> PlainBelow(node, levels)
    decreases node
  {
    PlainRole(node.info);
    forall i | 0 <= i < |node.slots| && node.slots[i].Present? && levels > 0
      ensures AllPlain(node.slots[i].node, levels - 1) <==> PlainBelow(node.slots[i].node, levels - 1)
    {
      PlainIff(node.slots[i].node, levels - 1);
    }
    if AllPlain(node, levels) {
      PlainDown(node, levels);
    }
    if PlainBelow(node, levels) {
      assert Resolve(node, []) == Some(node);
      forall i | 0 <= i < |node.slots| && node.slots[i].Present?
        ensures levels > 0 && PlainBelow(node.slots[i].node, levels - 1)
      {
        PlainUp(node, levels, i);
      }
    }
  }

  // ---------- label texts in order ----------

  // Where a text stands: in the name or in the value of the element at `path`
  datatype Place = Place(path: Path, inValue: bool)

  function TextAt(info: Info, inValue: bool): string { Sanitize(if inValue then info.value else info.name) }

  predicate Speaks(node: Node, p: Place, t: string) {
    var found := Resolve(node, p.path);
    found.Some? && IsLabel(found.value.info) && t != "" && t == TextAt(found.value.info, p.inValue)
  }

  // Parents before children, children in order, names before values
  predicate PathBefore(p: Path, q: Path) { q != [] && (p == [] || p[0] < q[0] || (p[0] == q[0] && PathBefore(p[1..], q[1..]))) }

  predicate Earlier(p: Place, q: Place) { PathBefore(p.path, q.path) || (p.path == q.path && !p.inValue && q.inValue) }

  // `ts` are the texts at `ps`, which are all places of text within `levels` from child `from` on, in order.
  ghost predicate Told(node: Node, from: nat, levels: int, ps: seq<Place>, ts: seq<string>) {
    && |ps| == |ts|
    && (forall i :: 0 <= i < |ps| ==> InPart(ps[i].path, from) && |ps[i].path| <= levels && Speaks(node, ps[i], ts[i]))
    && (forall i, j :: 0 <= i < j < |ps| ==> Earlier(ps[i], ps[j]))
    && (forall p: Place, t :: InPart(p.path, from) && |p.path| <= levels && Speaks(node, p, t) ==> p in ps)
  }

  // Below a child from `from` on
  predicate InPart(path: Path, from: nat) { path != [] && path[0] >= from }

  // The same with the node itself
  ghost predicate ToldAll(node: Node, levels: int, ps: seq<Place>, ts: seq<string>) {
    && |ps| == |ts|
    && (forall i :: 0 <= i < |ps| ==> |ps[i].path| <= levels && Speaks(node, ps[i], ts[i]))
    && (forall i, j :: 0 <= i < j < |ps| ==> Earlier(ps[i], ps[j]))
    && (forall p: Place, t :: |p.path| <= levels && Speaks(node, p, t) ==> p in ps)
  }

  function Below(i: nat, ps: seq<Place>): seq<Place> { seq(|ps|, k requires 0 <= k < |ps| => Place([i] + ps[k].path, ps[k].inValue)) }

  lemma PathBeforeBelow(i: nat, p: Path, q: Path)
    ensures PathBefore([i] + p, [i] + q) <==> PathBefore(p, q)
  {
    assert ([i] + p)[1..] == p && ([i] + q)[1..] == q;
  }

  lemma SpeaksBelow(node: Node, i: nat, p: Place, t: string)
    requires i < |node.slots| && node.slots[i].Present?
    ensures Speaks(node, Place([i] + p.path, p.inValue), t) <==> Speaks(node.slots[i].node, p, t)
  {
    ResolveChild(node, i, p.path);
  }

  // What a child tells, and then the children after it
  lemma ToldNext(node: Node, i: nat, levels: int, ps: seq<Place>, ts: seq<string>, qs: seq<Place>, us: seq<string>)
    requires i < |node.slots| && node.slots[i].Present?
    requires ToldAll(node.slots[i].node, levels - 1, ps, ts) && Told(node, i + 1, levels, qs, us)
    ensures Told(node, i, levels, Below(i, ps) + qs, ts + us)
  {
    var bs, all := Below(i, ps), Below(i, ps) + qs;
    forall k | 0 <= k < |all|
      ensures InPart(all[k].path, i) && |all[k].path| <= levels && Speaks(node, all[k], (ts + us)[k])
    {
      if k < |bs| {
        SpeaksBelow(node, i, ps[k], ts[k]);
      }
    }
    forall k, l | 0 <= k < l < |all|
      ensures Earlier(all[k], all[l])
    {
      if l < |bs| {
        PathBeforeBelow(i, ps[k].path, ps[l].path);
      }
    }
    forall p: Place, t | InPart(p.path, i) && |p.path| <= levels && Speaks(node, p, t)
      ensures p in all
    {
      if p.path[0] == i {
        ToldBelow(node, i, levels, ps, ts, p, t);
      } else {
        assert InPart(p.path, i + 1);
      }
    }
  }

  // A text of the child is among those it tells.
  lemma ToldBelow(node: Node, i: nat, levels: int, ps: seq<Place>, ts: seq<string>, p: Place, t: string)
    requires i < |node.slots| && node.slots[i].Present? && ToldAll(node.slots[i].node, levels - 1, ps, ts)
    requires p.path != [] && p.path[0] == i && |p.path| <= levels && Speaks(node, p, t)
    ensures p in Below(i, ps)
  {
    var q := Place(p.path[1..], p.inValue);
    assert [i] + q.path == p.path;
    SpeaksBelow(node, i, q, t);
    var k :| 0 <= k < |ps| && ps[k] == q;
    assert Below(i, ps)[k] == p;
  }

  lemma ToldWithout(node: Node, i: nat, levels: int, qs: seq<Place>, us: seq<string>)
    requires i < |node.slots| && node.slots[i].Absent? && Told(node, i + 1, levels, qs, us)
    ensures Told(node, i, levels, qs, us)
  {
    forall p: Place, t | InPart(p.path, i) && |p.path| <= levels && Speaks(node, p, t)
      ensures p in qs
    {
      ResolveDown(node, p.path);
      assert InPart(p.path, i + 1);
    }
  }

  // The texts of the node itself
  ghost predicate ToldHere(node: Node, ps: seq<Place>, ts: seq<string>) {
    && |ps| == |ts|
    && (forall i :: 0 <= i < |ps| ==> ps[i].path == [] && Speaks(node, ps[i], ts[i]))
    && (forall i, j :: 0 <= i < j < |ps| ==> Earlier(ps[i], ps[j]))
    && (forall p: Place, t :: p.path == [] && Speaks(node, p, t) ==> p in ps)
  }

  lemma OwnTextsIff(info: Info)
    ensures OwnTexts(info) == if IsLabel(info) then NonEmpty(TextAt(info, false)) + NonEmpty(TextAt(info, true)) else []
  {
  }

  lemma ToldOfOwn(node: Node, name: string, value: string) returns (ps: seq<Place>)
    requires IsLabel(node.info) && name == TextAt(node.info, false) && value == TextAt(node.info, true)
    ensures ToldHere(node, ps, NonEmpty(name) + NonEmpty(value))
  {
    assert Resolve(node, []) == Some(node);
    ps := (if name == "" then [] else [Place([], false)]) + (if value == "" then [] else [Place([], true)]);
  }

  lemma OwnTold(node: Node) returns (ps: seq<Place>)
    ensures ToldHere(node, ps, OwnTexts(node.info))
  {
    OwnTextsIff(node.info);
    if IsLabel(node.info) {
      ps := ToldOfOwn(node, TextAt(node.info, false), TextAt(node.info, true));
    } else {
      ps := [];
      assert Resolve(node, []) == Some(node);
    }
  }

  // ... and then those below it
  lemma ToldDown(node: Node, levels: int, ps: seq<Place>, ts: seq<string>, qs: seq<Place>, us: seq<string>)
    requires levels >= 0 && ToldHere(node, ps, ts) && Told(node, 0, levels, qs, us)
    ensures ToldAll(node, levels, ps + qs, ts + us)
  {
    var all, texts := ps + qs, ts + us;
    forall k | 0 <= k < |all|
      ensures |all[k].path| <= levels && Speaks(node, all[k], texts[k])
    {
      if k < |ps| {
        assert all[k] == ps[k] && texts[k] == ts[k];
      } else {
        assert all[k] == qs[k - |ps|] && texts[k] == us[k - |ps|];
      }
    }
    forall k, l | 0 <= k < l < |all|
      ensures Earlier(all[k], all[l])
    {
      OrderedDown(ps, qs, k, l);
    }
    forall p: Place, t | |p.path| <= levels && Speaks(node, p, t)
      ensures p in all
    {
      assert p.path != [] ==> InPart(p.path, 0);
    }
  }

  lemma OrderedDown(ps: seq<Place>, qs: seq<Place>, k: nat, l: nat)
    requires k < l < |ps + qs|
    requires forall i :: 0 <= i < |ps| ==> ps[i].path == []
    requires forall i, j :: 0 <= i < j < |ps| ==> Earlier(ps[i], ps[j])
    requires forall i :: 0 <= i < |qs| ==> qs[i].path != []
    requires forall i, j :: 0 <= i < j < |qs| ==> Earlier(qs[i], qs[j])
    ensures Earlier((ps + qs)[k], (ps + qs)[l])
  {
  }

  // The label texts are those of the names and values of all labels down to a level: parents before
  // children, children in order, names before values.
  lemma {:induction false} LabelTextsTold(node: Node, levels: int) returns (ps: seq<Place>)
    ensures ToldAll(node, levels, ps, LabelTexts(node, levels))
    decreases node, |node.slots| + 1
  {
    if levels < 0 {
      ps := [];
    } else {
      var qs := LabelTextsFromTold(node, 0, levels - 1);
      ps := OwnTold(node);
      ToldDown(node, levels, ps, OwnTexts(node.info), qs, LabelTextsFrom(node, 0, levels - 1));
      ps := ps + qs;
    }
  }

  lemma {:induction false} LabelTextsFromTold(node: Node, from: nat, levels: int) returns (ps: seq<Place>)
    requires from <= |node.slots|
    ensures Told(node, from, levels + 1, ps, LabelTextsFrom(node, from, levels))
    decreases node, |node.slots| - from
  {
    if from == |node.slots| {
      ps := [];
      forall p: Place, t | InPart(p.path, from) && Speaks(node, p, t)
        ensures false
      {
        ResolveDown(node, p.path);
      }
    } else {
      var qs := LabelTextsFromTold(node, from + 1, levels);
      var us := LabelTextsFrom(node, from + 1, levels);
      if node.slots[from].Present? {
        ps := LabelTextsTold(node.slots[from].node, levels);
        ToldNext(node, from, levels + 1, ps, LabelTexts(node.slots[from].node, levels), qs, us);
        ps := Below(from, ps) + qs;
      } else {
        ToldWithout(node, from, levels + 1, qs, us);
        assert LabelTextsFrom(node, from, levels) == [] + us == us;
        ps := qs;
      }
    }
  }

  // ---------- which panels are summarised ----------

  lemma {:induction false} FreshExact(ts: seq<string>, seen: set<string>)
    ensures forall t :: t in Fresh(ts, seen) <==> t in ts && t !in seen
    ensures Distinct(Fresh(ts, seen))
    decreases |ts|
  {
    if ts != [] {
      FreshExact(ts[1..], seen);
      FreshExact(ts[1..], seen + {ts[0]});
      assert forall t :: t in ts <==> t == ts[0] || t in ts[1..];
      if ts[0] !in seen {
        DistinctBehind(ts[0], Fresh(ts[1..], seen + {ts[0]}));
      }
    }
  }

  lemma DistinctBehind(t: string, rest: seq<string>)
    requires Distinct(rest) && t !in rest
    ensures Distinct([t] + rest)
  {
    var all := [t] + rest;
    forall i, j | 0 <= i < j < |all|
      ensures all[i] != all[j]
    {
      assert all[j] == rest[j - 1];
    }
  }

  ghost predicate TwoTexts(ts: seq<string>) { exists t, u :: t in ts && u in ts && t != u }

  lemma TwoFresh(ts: seq<string>)
    ensures |Fresh(ts, {})| >= 2 <==> TwoTexts(ts)
  {
    var all := Fresh(ts, {});
    FreshExact(ts, {});
    if |all| >= 2 {
      assert all[0] in all && all[1] in all && all[0] != all[1];
    }
    if t, u :| t in ts && u in ts && t != u {
      assert t in all && u in all;
    }
  }

  lemma SpeaksSays(node: Node, p: Place, t: string)
    requires Speaks(node, p, t)
    ensures Says(node, p.path, t)
  {
  }

  lemma SaysSpeaks(node: Node, q: Path, t: string) returns (p: Place)
    requires Says(node, q, t)
    ensures p.path == q && Speaks(node, p, t)
  {
    p := Place(q, t != TextAt(Resolve(node, q).value.info, false));
  }

  lemma ToldText(node: Node, levels: int, ps: seq<Place>, ts: seq<string>, p: Place, t: string)
    requires ToldAll(node, levels, ps, ts) && |p.path| <= levels && Speaks(node, p, t)
    ensures t in ts
  {
    var k :| 0 <= k < |ps| && ps[k] == p;
    assert ts[k] == t;
  }

  lemma SaidTwo(node: Node, levels: int, ps: seq<Place>, ts: seq<string>)
    requires ToldAll(node, levels, ps, ts) && SaysTwo(node, levels)
    ensures TwoTexts(ts)
  {
    var q, t, r, u :| |q| <= levels && |r| <= levels && Says(node, q, t) && Says(node, r, u) && t != u;
    var at := SaysSpeaks(node, q, t);
    var bt := SaysSpeaks(node, r, u);
    ToldText(node, levels, ps, ts, at, t);
    ToldText(node, levels, ps, ts, bt, u);
  }

  lemma ToldSays(node: Node, levels: int, ps: seq<Place>, ts: seq<string>, t: string) returns (q: Path)
    requires ToldAll(node, levels, ps, ts) && t in ts
    ensures |q| <= levels && Says(node, q, t)
  {
    var i :| 0 <= i < |ts| && ts[i] == t;
    SpeaksSays(node, ps[i], t);
    q := ps[i].path;
  }

  lemma TwoSaid(node: Node, levels: int)
    ensures SaysTwo(node, levels) <==> TwoTexts(LabelTexts(node, levels))
  {
    var ts := LabelTexts(node, levels);
    var ps := LabelTextsTold(node, levels);
    if SaysTwo(node, levels) {
      SaidTwo(node, levels, ps, ts);
    }
    if TwoTexts(ts) {
      var t, u :| t in ts && u in ts && t != u;
      var q := ToldSays(node, levels, ps, ts, t);
      var r := ToldSays(node, levels, ps, ts, u);
    }
  }

  lemma {:induction false} LabelFound(node: Node, q: Path)
    requires Resolve(node, q).Some? && IsLabel(Resolve(node, q).value.info)
    ensures HasLabel(node)
    decreases |q|
  {
    if q != [] {
      ResolveDown(node, q);
      LabelFound(node.slots[q[0]].node, q[1..]);
    }
  }

  lemma SaysLabel(node: Node, levels: int)
    requires SaysTwo(node, levels)
    ensures HasLabel(node)
  {
    var q, t, r, u :| |q| <= levels && |r| <= levels && Says(node, q, t) && Says(node, r, u) && t != u;
    LabelFound(node, q);
  }

  lemma EnoughTexts(node: Node)
    ensures |Snippets(node, 8, 4)| >= 2 <==> SaysTwo(node, 4)
  {
    TwoSaid(node, 4);
    TwoFresh(LabelTexts(node, 4));
  }

  lemma SummaryIff(node: Node)
    ensures Summary(node).Some? <==> Summarised(node)
    ensures Summary(node).Some? ==> Summary(node).value == Join(Snippets(node, 8, 4), " ")
  {
    EnoughTexts(node);
    PlainIff(node, 4);
    if SaysTwo(node, 4) {
      SaysLabel(node, 4);
    }
  }

  // ---------- which nodes are listed ----------

  lemma {:induction false} PresentCount(slots: seq<Slot>)
    ensures PresentFrom(slots) == 0 <==> forall i :: 0 <= i < |slots| ==> slots[i].Absent?
    ensures PresentFrom(slots) <= 1 <==> forall i, j :: 0 <= i < |slots| && 0 <= j < |slots| && slots[i].Present? && slots[j].Present? ==> i == j
    decreases |slots|
  {
    if slots != [] {
      var rest := slots[1..];
      PresentCount(rest);
      assert forall i :: 0 <= i < |rest| ==> rest[i] == slots[i + 1];
      if slots[0].Present? {
        if PresentFrom(rest) > 0 {
          var i :| 0 <= i < |rest| && rest[i].Present?;
          assert slots[i + 1].Present?;
        }
      } else if PresentFrom(rest) > 1 {
        var i, j :| 0 <= i < |rest| && 0 <= j < |rest| && rest[i].Present? && rest[j].Present? && i != j;
        assert slots[i + 1].Present? && slots[j + 1].Present?;
      }
    }
  }

  lemma OpensIff(node: Node)
    ensures Opens(node) <==> !Closed(node)
  {
    SuppressedIff(node.info);
    SummaryIff(node);
  }

  lemma GenericNotCompact(info: Info)
    ensures IsGeneric(info) ==> !CompactTitled(info)
  {
  }

  lemma ElidedIff(node: Node)
    ensures Elided(node) <==> Wrapper(node)
  {
    QuietIff(node.info);
    SummaryIff(node);
    PresentCount(node.slots);
    SuppressedIff(node.info);
    GenericNotCompact(node.info);
  }

  // `q` leads from the node down through nodes that are opened.
  predicate OpenTo(rules: Rules, node: Node, q: Path) {
    q == [] || (q[0] < |node.slots| && node.slots[q[0]].Present? && rules.opens(node) && OpenTo(rules, node.slots[q[0]].node, q[1..]))
  }

  lemma OpenToChild(rules: Rules, node: Node, i: nat, q: Path)
    requires i < |node.slots| && node.slots[i].Present?
    ensures OpenTo(rules, node, [i] + q) <==> rules.opens(node) && OpenTo(rules, node.slots[i].node, q)
  {
    assert ([i] + q)[1..] == q;
  }

  lemma {:induction false} OpenToIff(rules: Rules, node: Node, q: Path)
    ensures OpenTo(rules, node, q) <==>
              Resolve(node, q).Some? && forall k :: 0 <= k < |q| ==> Resolve(node, q[..k]).Some? && rules.opens(Resolve(node, q[..k]).value)
    decreases |q|
  {
    if q != [] {
      ResolveDown(node, q);
      if q[0] < |node.slots| && node.slots[q[0]].Present? {
        var child, rest := node.slots[q[0]].node, q[1..];
        OpenToIff(rules, child, rest);
        forall k | 0 <= k < |rest|
          ensures Resolve(node, q[..k + 1]) == Resolve(child, rest[..k])
        {
          assert q[..k + 1] == [q[0]] + rest[..k];
          ResolveChild(node, q[0], rest[..k]);
        }
        OpensOnTheWay(rules, node, child, q, rest);
      }
    }
  }

  lemma OpensOnTheWay(rules: Rules, node: Node, child: Node, q: Path, rest: Path)
    requires q != [] && rest == q[1..] && forall k :: 0 <= k < |rest| ==> Resolve(node, q[..k + 1]) == Resolve(child, rest[..k])
    ensures (forall k :: 0 <= k < |q| ==> Resolve(node, q[..k]).Some? && rules.opens(Resolve(node, q[..k]).value))
            <==> rules.opens(node) && forall k :: 0 <= k < |rest| ==> Resolve(child, rest[..k]).Some? && rules.opens(Resolve(child, rest[..k]).value)
  {
    assert q[..0] == [] && Resolve(node, []) == Some(node);
    if forall k :: 0 <= k < |q| ==> Resolve(node, q[..k]).Some? && rules.opens(Resolve(node, q[..k]).value) {
      assert rules.opens(Resolve(node, q[..0]).value);
      forall k | 0 <= k < |rest|
        ensures Resolve(child, rest[..k]).Some? && rules.opens(Resolve(child, rest[..k]).value)
      {
        assert Resolve(node, q[..k + 1]) == Resolve(child, rest[..k]);
      }
    }
    if rules.opens(node) && forall k :: 0 <= k < |rest| ==> Resolve(child, rest[..k]).Some? && rules.opens(Resolve(child, rest[..k]).value) {
      forall k | 0 <= k < |q|
        ensures Resolve(node, q[..k]).Some? && rules.opens(Resolve(node, q[..k]).value)
      {
        if k > 0 {
          assert Resolve(node, q[..(k - 1) + 1]) == Resolve(child, rest[..k - 1]);
        }
      }
    }
  }

  // A walk visits exactly the paths that lead through opened nodes.
  lemma {:induction false} VisitOpenTo(rules: Rules, node: Node, depth: nat, path: Path, v: Visit)
    requires v in Visits(rules, node, depth, path)
    ensures path <= v.path && OpenTo(rules, node, v.path[|path|..]) && Resolve(node, v.path[|path|..]) == Some(v.node)
    decreases node
  {
    VisitsWithin(rules, node, depth, path, v);
    if v == VisitOf(rules, node, depth, path) {
      assert v.path[|path|..] == [];
    } else {
      var j := VisitBelow(rules, node, depth, path, v);
      var below := path + [j];
      VisitOpenTo(rules, node.slots[j].node, ChildDepth(rules, node, depth), below, v);
      FirstStep(path, j, below, v.path);
      OpenToChild(rules, node, j, v.path[|below|..]);
    }
  }

  lemma VisitBelow(rules: Rules, node: Node, depth: nat, path: Path, v: Visit) returns (j: nat)
    requires v in Visits(rules, node, depth, path) && v != VisitOf(rules, node, depth, path)
    ensures rules.opens(node) && j < |node.slots| && node.slots[j].Present?
    ensures v in Visits(rules, node.slots[j].node, ChildDepth(rules, node, depth), path + [j])
  {
    j := VisitsFromWithin(rules, node, 0, ChildDepth(rules, node, depth), path, v);
  }

  lemma FirstStep(path: Path, j: nat, below: Path, all: Path)
    requires below == path + [j] && below <= all
    ensures path <= all && all[|path|..] == [j] + all[|below|..]
  {
    assert all[|path|] == below[|path|] == j;
  }

  lemma {:induction false} InVisitsFrom(rules: Rules, node: Node, from: nat, j: nat, depth: nat, path: Path, v: Visit)
    requires from <= j < |node.slots| && node.slots[j].Present? && v in Visits(rules, node.slots[j].node, depth, path + [j])
    ensures v in VisitsFrom(rules, node, from, depth, path)
    decreases j - from
  {
    if from < j {
      InVisitsFrom(rules, node, from + 1, j, depth, path, v);
    }
  }

  lemma BelowIsVisited(rules: Rules, node: Node, depth: nat, path: Path, j: nat, v: Visit)
    requires rules.opens(node) && j < |node.slots| && node.slots[j].Present?
    requires v in Visits(rules, node.slots[j].node, ChildDepth(rules, node, depth), path + [j])
    ensures v in Visits(rules, node, depth, path)
  {
    InVisitsFrom(rules, node, 0, j, ChildDepth(rules, node, depth), path, v);
  }

  lemma SelfVisited(rules: Rules, node: Node, depth: nat, path: Path)
    ensures VisitOf(rules, node, depth, path) in Visits(rules, node, depth, path)
  {
  }

  lemma PathOneDown(path: Path, q: Path, all: Path)
    requires q != [] && all == path + q
    ensures all == (path + [q[0]]) + q[1..]
  {
  }

  lemma {:induction false} OpenToVisit(rules: Rules, node: Node, depth: nat, path: Path, q: Path, all: Path) returns (v: Visit)
    requires OpenTo(rules, node, q) && all == path + q
    ensures v in Visits(rules, node, depth, path) && v.path == all
    decreases |q|
  {
    if q == [] {
      v := VisitOf(rules, node, depth, path);
      SelfVisited(rules, node, depth, path);
    } else {
      PathOneDown(path, q, all);
      v := OpenToVisit(rules, node.slots[q[0]].node, ChildDepth(rules, node, depth), path + [q[0]], q[1..], all);
      BelowIsVisited(rules, node, depth, path, q[0], v);
    }
  }

  // The element at `q` is to be listed: it does not merely wrap, and nothing above it is closed.
  ghost predicate ToList(root: Node, q: Path) {
    var found := Resolve(root, q);
    found.Some? && !Wrapper(found.value) && forall k :: 0 <= k < |q| ==> Resolve(root, q[..k]).Some? && !Closed(Resolve(root, q[..k]).value)
  }

  lemma ToListIff(root: Node, q: Path)
    ensures ToList(root, q) <==> OpenTo(RUNTIME, root, q) && Resolve(root, q).Some? && !RUNTIME.elided(Resolve(root, q).value)
  {
    OpenToIff(RUNTIME, root, q);
    if Resolve(root, q).Some? {
      RuntimeRules(Resolve(root, q).value);
      ElidedIff(Resolve(root, q).value);
      forall k | 0 <= k < |q| && Resolve(root, q[..k]).Some?
        ensures RUNTIME.opens(Resolve(root, q[..k]).value) <==> !Closed(Resolve(root, q[..k]).value)
      {
        RuntimeRules(Resolve(root, q[..k]).value);
        OpensIff(Resolve(root, q[..k]).value);
      }
    }
  }

  // Whatever the caps and compaction leave out, only elements that are to be listed are listed, each with
  // its own attributes: nothing below a titled compact element or a summarised panel, and no wrapper.
  lemma ListedOnly(compact: bool, root: Node, rootPath: Path, i: nat)
    requires i < |Rendered(RUNTIME, compact, root, rootPath).records|
    ensures var r := Rendered(RUNTIME, compact, root, rootPath).records[i];
            rootPath <= r.path && ToList(root, r.path[|rootPath|..]) && r.info == Resolve(root, r.path[|rootPath|..]).value.info
  {
    var rs := Rendered(RUNTIME, compact, root, rootPath).records;
    WalkedTracked(RUNTIME, compact, NOTHING, root, 0, rootPath);
    assert rs[i] in rs;
    var v :| v in Visits(RUNTIME, root, 0, rootPath) && rs[i].path == v.path && rs[i].info == v.node.info && !v.elided;
    VisitsWithin(RUNTIME, root, 0, rootPath, v);
    VisitOpenTo(RUNTIME, root, 0, rootPath, v);
    ToListIff(root, v.path[|rootPath|..]);
  }

  // Below a titled compact element or a summarised panel nothing is listed: no path extends its own.
  lemma NothingBelow(compact: bool, root: Node, rootPath: Path, i: nat, j: nat)
    requires i < |Rendered(RUNTIME, compact, root, rootPath).records| && j < |Rendered(RUNTIME, compact, root, rootPath).records|
    ensures var p, q := Rendered(RUNTIME, compact, root, rootPath).records[i].path, Rendered(RUNTIME, compact, root, rootPath).records[j].path;
            rootPath <= p && Resolve(root, p[|rootPath|..]).Some? && (Closed(Resolve(root, p[|rootPath|..]).value) ==> !(p < q))
  {
    ListedOnly(compact, root, rootPath, i);
    ListedOnly(compact, root, rootPath, j);
    var p, q := Rendered(RUNTIME, compact, root, rootPath).records[i].path, Rendered(RUNTIME, compact, root, rootPath).records[j].path;
    if p < q {
      assert q[|rootPath|..][..|p| - |rootPath|] == p[|rootPath|..];
    }
  }

  // When nothing is reported truncated, they are all listed.
  lemma ListedAll(root: Node, rootPath: Path, q: Path)
    requires ToList(root, q) && !Rendered(RUNTIME, false, root, rootPath).truncated
    ensures exists i :: 0 <= i < |Rendered(RUNTIME, false, root, rootPath).records| && Rendered(RUNTIME, false, root, rootPath).records[i].path == rootPath + q
  {
    var vs := Visits(RUNTIME, root, 0, rootPath);
    ToListIff(root, q);
    var v := OpenToVisit(RUNTIME, root, 0, rootPath, q, rootPath + q);
    VisitsWithin(RUNTIME, root, 0, rootPath, v);
    assert (rootPath + q)[|rootPath|..] == q;
    RenderIsPreorderPrefix(RUNTIME, root, rootPath);
    NothingDropped(vs, 0);
    var i :| 0 <= i < |Shown(vs)| && Shown(vs)[i] == v;
    assert Rendered(RUNTIME, false, root, rootPath).records[i].path == v.path;
  }

  // So in a render that is not truncated the listed paths are exactly those to be listed.
  lemma ListedIff(root: Node, rootPath: Path, q: Path)
    requires !Rendered(RUNTIME, false, root, rootPath).truncated
    ensures var rs := Rendered(RUNTIME, false, root, rootPath).records;
            ToList(root, q) <==> exists i :: 0 <= i < |rs| && rs[i].path == rootPath + q
  {
    var rs := Rendered(RUNTIME, false, root, rootPath).records;
    if ToList(root, q) {
      ListedAll(root, rootPath, q);
    }
    if i :| 0 <= i < |rs| && rs[i].path == rootPath + q {
      ListedOnly(false, root, rootPath, i);
      assert (rootPath + q)[|rootPath|..] == q;
    }
  }

  // A visit is refused when it is more than 64 levels deep or 1200 elements are listed before it.
  lemma {:induction false} CutIff(vs: seq<Visit>, n: nat)
    ensures Cut(vs, n) <==> exists k :: 0 <= k < |vs| && (vs[k].depth > 64 || n + |Shown(vs[..k])| >= 1200)
    decreases |vs|
  {
    if vs != [] {
      var rest, m := vs[1..], if vs[0].elided then n else n + 1;
      CutIff(rest, m);
      assert Shown(vs[..0]) == [];
      forall k | 0 <= k < |rest| && vs[0].depth <= 64
        ensures n + |Shown(vs[..k + 1])| == m + |Shown(rest[..k])|
      {
        assert vs[..k + 1][0] == vs[0] && vs[..k + 1][1..] == rest[..k];
      }
      if vs[0].depth <= 64 && n < 1200 {
        if k :| 0 <= k < |vs| && (vs[k].depth > 64 || n + |Shown(vs[..k])| >= 1200) {
          assert k > 0 && rest[k - 1] == vs[k];
        }
        if k :| 0 <= k < |rest| && (rest[k].depth > 64 || m + |Shown(rest[..k])| >= 1200) {
          assert vs[k + 1] == rest[k];
        }
      } else {
        assert vs[0].depth > 64 || n + |Shown(vs[..0])| >= 1200;
      }
    }
  }

  lemma TruncatedIff(root: Node, rootPath: Path)
    ensures var vs := Visits(RUNTIME, root, 0, rootPath);
            Rendered(RUNTIME, false, root, rootPath).truncated <==> exists k :: 0 <= k < |vs| && (vs[k].depth > 64 || |Shown(vs[..k])| >= 1200)
  {
    RenderIsPreorderPrefix(RUNTIME, root, rootPath);
    CutIff(Visits(RUNTIME, root, 0, rootPath), 0);
  }
}
