/**
 What the lines of a rendered accessibility tree say of their elements
 (native/computer-use-linux/runtime.py, lines 246-262 and 421-433).
 */
module RenderedLines {
  import opened Options
  import opened Sequences
  import Strings
  import opened AccessibilityNode
  import opened AccessibilityTree
  import opened AccessibilityPaths
  import opened TreeRenderer
  import opened RenderedTree
  import opened RenderedContent

  // ---------- text inside text ----------

  lemma ContainsInside(a: string, t: string, b: string)
    ensures Contains(a + t + b, t)
  {
    assert (a + t + b)[|a|..|a| + |t|] == t;
    assert OccursAt(a + t + b, t, |a|);
  }

  lemma ContainsWithin(a: string, s: string, b: string, t: string)
    requires Contains(s, t)
    ensures Contains(a + s + b, t)
  {
    var i :| 0 <= i <= |s| - |t| && OccursAt(s, t, i);
    assert s == s[..i] + t + s[i + |t|..];
    assert a + s + b == (a + s[..i]) + t + (s[i + |t|..] + b);
    ContainsInside(a + s[..i], t, s[i + |t|..] + b);
  }

  lemma {:induction false} JoinContains(ws: seq<string>, separator: string, i: nat)
    requires i < |ws|
    ensures Contains(Join(ws, separator), ws[i])
    decreases |ws|
  {
    var all := Join(ws, separator);
    if |ws| == 1 {
      assert "" + all + "" == all;
      ContainsInside("", ws[0], "");
    } else if i == 0 {
      assert "" + ws[0] + (separator + Join(ws[1..], separator)) == all;
      ContainsInside("", ws[0], separator + Join(ws[1..], separator));
    } else {
      JoinContains(ws[1..], separator, i - 1);
      assert (ws[0] + separator) + Join(ws[1..], separator) + "" == all;
      ContainsWithin(ws[0] + separator, Join(ws[1..], separator), "", ws[i]);
    }
  }

  // ---------- words ----------

  predicate IsOneWord(w: string) { w != "" && forall i :: 0 <= i < |w| ==> !IsSpace(w[i]) }

  lemma {:induction false} WordsApart(a: string, b: string, word: string)
    ensures Words(a + " " + b, word) == Words(a, word) + Words(b, "")
    decreases |a|
  {
    var s := a + " " + b;
    if a == "" {
      assert s == " " + b && s[1..] == b && IsSpace(' ');
    } else {
      assert s[0] == a[0] && s[1..] == a[1..] + " " + b;
      WordsApart(a[1..], b, if IsSpace(a[0]) then "" else word + [a[0]]);
    }
  }

  lemma {:induction false} OneWord(w: string, word: string)
    requires word + w != "" && forall i :: 0 <= i < |w| ==> !IsSpace(w[i])
    ensures Words(w, word) == [word + w]
    decreases |w|
  {
    if w == "" {
      assert word + w == word;
    } else {
      assert (word + [w[0]]) + w[1..] == word + w;
      OneWord(w[1..], word + [w[0]]);
    }
  }

  lemma {:induction false} WordsAreWords(s: string, word: string)
    requires forall i :: 0 <= i < |word| ==> !IsSpace(word[i])
    ensures forall w :: w in Words(s, word) ==> IsOneWord(w)
    decreases |s|
  {
    if s != [] {
      WordsAreWords(s[1..], []);
      if !IsSpace(s[0]) {
        WordsAreWords(s[1..], word + [s[0]]);
      }
    }
  }

  // The words of all texts
  function AllWords(ts: seq<string>): seq<string> { if ts == [] then [] else Words(ts[0], "") + AllWords(ts[1..]) }

  lemma {:induction false} WordsOfJoin(ts: seq<string>)
    ensures Words(Join(ts, " "), "") == AllWords(ts)
    decreases |ts|
  {
    if |ts| == 1 {
      assert AllWords(ts) == Words(ts[0], "") + [];
    } else if |ts| > 1 {
      WordsApart(ts[0], Join(ts[1..], " "), "");
      WordsOfJoin(ts[1..]);
    }
  }

  lemma {:induction false} WordsOfWords(ws: seq<string>)
    requires forall w :: w in ws ==> IsOneWord(w)
    ensures AllWords(ws) == ws
    decreases |ws|
  {
    if ws != [] {
      WordsOfWords(ws[1..]);
      assert ws[0] in ws && "" + ws[0] == ws[0];
      OneWord(ws[0], "");
    }
  }

  // Cleaning a clean text changes nothing.
  lemma SanitizeTwice(s: string)
    ensures Sanitize(Sanitize(s)) == Sanitize(s)
  {
    WordsAreWords(s, "");
    WordsOfJoin(Words(s, ""));
    WordsOfWords(Words(s, ""));
  }

  lemma {:induction false} JoinSplit(a: seq<string>, b: seq<string>)
    requires a != [] && b != []
    ensures Join(a + b, " ") == Join(a, " ") + " " + Join(b, " ")
    decreases |a|
  {
    if |a| == 1 {
      assert (a + b)[1..] == b && (a + b)[0] == a[0];
    } else {
      assert (a + b)[1..] == a[1..] + b && (a + b)[0] == a[0];
      JoinSplit(a[1..], b);
      assert (a[0] + " " + Join(a[1..], " ")) + " " + Join(b, " ") == a[0] + " " + (Join(a[1..], " ") + " " + Join(b, " "));
    }
  }

  lemma JoinHead(m: seq<string>, b: seq<string>) returns (behind: string)
    requires m != []
    ensures Join(m + b, " ") == Join(m, " ") + behind
  {
    if b == [] {
      behind := "";
      assert m + b == m && Join(m, " ") + "" == Join(m, " ");
    } else {
      behind := " " + Join(b, " ");
      JoinSplit(m, b);
    }
  }

  lemma JoinTail(a: seq<string>, m: seq<string>) returns (before: string)
    requires m != []
    ensures Join(a + m, " ") == before + Join(m, " ")
  {
    if a == [] {
      before := "";
      assert a + m == m && "" + Join(m, " ") == Join(m, " ");
    } else {
      before := Join(a, " ") + " ";
      JoinSplit(a, m);
    }
  }

  lemma JoinHolds(a: seq<string>, m: seq<string>, b: seq<string>)
    ensures Contains(Join(a + m + b, " "), Join(m, " "))
  {
    if m == [] {
      assert OccursAt(Join(a + m + b, " "), "", 0);
    } else {
      var behind := JoinHead(m, b);
      var before := JoinTail(a, m + b);
      ConcatAssociates(a, m, b);
      ConcatAssociates(before, Join(m, " "), behind);
      ContainsInside(before, Join(m, " "), behind);
    }
  }

  lemma {:induction false} AllWordsSplit(ts: seq<string>, i: nat) returns (a: seq<string>, b: seq<string>)
    requires i < |ts|
    ensures AllWords(ts) == a + Words(ts[i], "") + b
    decreases i
  {
    if i == 0 {
      a, b := [], AllWords(ts[1..]);
      assert [] + Words(ts[0], "") + b == Words(ts[0], "") + b;
    } else {
      var rest;
      rest, b := AllWordsSplit(ts[1..], i - 1);
      a := Words(ts[0], "") + rest;
      assert a + Words(ts[i], "") + b == Words(ts[0], "") + (rest + Words(ts[i], "") + b);
    }
  }

  // A cleaned list of texts holds each of them, cleaned.
  lemma CleanJoinHolds(ts: seq<string>, i: nat)
    requires i < |ts|
    ensures Contains(Sanitize(Join(ts, " ")), Sanitize(ts[i]))
  {
    WordsOfJoin(ts);
    var a, b := AllWordsSplit(ts, i);
    JoinHolds(a, Words(ts[i], ""), b);
  }

  // ---------- one line ----------

  // The four parts of a line
  function RolePart(info: Info): string { StripRight(info.role + " " + Sanitize(Title(info))) }

  function ActionPart(info: Info): string {
    var actions := MeaningfulActions(info.actions);
    if actions == [] then "" else ", Secondary Actions: " + Join(DisplayActions(actions), ", ")
  }

  lemma LineParts(node: Node)
    ensures LineText(node) == RolePart(node.info) + FormattedValue(node.info) + SummaryText(node) + ActionPart(node.info)
  {
  }

  lemma PartsHold(a: string, b: string, c: string, d: string, t: string)
    ensures Contains(a, t) || Contains(b, t) || Contains(c, t) || Contains(d, t) ==> Contains(a + b + c + d, t)
  {
    if Contains(a, t) {
      ContainsWithin("", a, b + c + d, t);
      assert "" + a + (b + c + d) == a + b + c + d;
    }
    if Contains(b, t) {
      ContainsWithin(a, b, c + d, t);
      assert a + b + (c + d) == a + b + c + d;
    }
    if Contains(c, t) {
      ContainsWithin(a + b, c, d, t);
    }
    if Contains(d, t) {
      ContainsWithin(a + b + c, d, "", t);
      assert a + b + c + d + "" == a + b + c + d;
    }
  }

  lemma {:induction false} JoinEnds(ws: seq<string>)
    requires ws != [] && forall w :: w in ws ==> IsOneWord(w)
    ensures var all := Join(ws, " "); all != "" && !IsSpace(all[|all| - 1])
    decreases |ws|
  {
    assert ws[0] in ws && IsOneWord(ws[0]);
    if |ws| > 1 {
      JoinEnds(ws[1..]);
    }
  }

  // A cleaned text does not end in white space.
  lemma CleanEnds(s: string)
    requires !Blank(s)
    ensures var clean := Sanitize(s); clean != "" && !IsSpace(clean[|clean| - 1])
  {
    SanitizeBlank(s);
    WordsAreWords(s, "");
    NoWords(s, "");
    JoinEnds(Words(s, ""));
  }

  // The line begins with the role and, if there is one, the title.
  lemma RoleFirst(info: Info)
    ensures !Blank(Title(info)) ==> RolePart(info) == info.role + " " + Sanitize(Title(info))
    ensures Blank(Title(info)) ==> RolePart(info) == StripRight(info.role)
  {
    SanitizeBlank(Title(info));
    var text := info.role + " " + Sanitize(Title(info));
    if Blank(Title(info)) {
      assert text[..|text| - 1] == info.role && text[|text| - 1] == ' ' && IsSpace(' ');
    } else {
      CleanEnds(Title(info));
      assert text[|text| - 1] == Sanitize(Title(info))[|Sanitize(Title(info))| - 1];
    }
  }

  lemma TitleHeld(info: Info)
    requires !Blank(Title(info))
    ensures Contains(RolePart(info), Sanitize(Title(info)))
  {
    RoleFirst(info);
    ContainsInside(info.role + " ", Sanitize(Title(info)), "");
    assert info.role + " " + Sanitize(Title(info)) + "" == info.role + " " + Sanitize(Title(info));
  }

  lemma ContainsEnd(a: string, t: string)
    ensures Contains(a + t, t)
  {
    ContainsInside(a, t, "");
    assert a + t + "" == a + t;
  }

  // A value is in the title or behind it.
  lemma ValueHeld(info: Info)
    requires !Blank(info.value)
    ensures Contains(RolePart(info), Sanitize(info.value)) || Contains(FormattedValue(info), Sanitize(info.value))
  {
    var clean := Sanitize(info.value);
    SanitizeBlank(info.value);
    if clean == Title(info) {
      SanitizeTwice(info.value);
      SanitizeBlank(Title(info));
      TitleHeld(info);
    } else {
      ContainsEnd(" ", clean);
      ContainsEnd(", Value: ", clean);
    }
  }

  lemma TextHeld(info: Info, whole: string, part: string, text: string)
    requires Contains(Sanitize(whole), part) && part != ""
    requires whole != Title(info) ==> text == ", Text: " + Sanitize(whole)
    ensures Contains(RolePart(info), part) || Contains(text, part)
  {
    if whole == Title(info) {
      SanitizeBlank(whole);
      assert Sanitize(whole) != "";
      TitleHeld(info);
      ContainsThrough(RolePart(info), Sanitize(whole), part);
    } else {
      ContainsEnd(", Text: ", Sanitize(whole));
      ContainsThrough(text, Sanitize(whole), part);
    }
  }

  lemma ContainsThrough(a: string, b: string, c: string)
    requires Contains(a, b) && Contains(b, c)
    ensures Contains(a, c)
  {
    var i :| 0 <= i <= |a| - |b| && OccursAt(a, b, i);
    assert a == a[..i] + b + a[i + |b|..];
    ContainsWithin(a[..i], b, a[i + |b|..], c);
  }

  // The first eight texts of a summarised panel are in its line.
  lemma SummaryHeld(node: Node, i: nat)
    requires Summarised(node) && i < |Snippets(node, 8, 4)| && !Blank(Snippets(node, 8, 4)[i])
    ensures Contains(RolePart(node.info), Sanitize(Snippets(node, 8, 4)[i])) || Contains(SummaryText(node), Sanitize(Snippets(node, 8, 4)[i]))
  {
    var texts := Snippets(node, 8, 4);
    var part := Sanitize(texts[i]);
    SummaryIff(node);
    SanitizeBlank(texts[i]);
    CleanJoinHolds(texts, i);
    TextHeld(node.info, Join(texts, " "), part, SummaryText(node));
  }

  predicate IsRow(info: Info) { HasRole(info, {"row", "table row", "list item"}) }

  // ... and the first six of a row in its own.
  lemma RowHeld(node: Node, i: nat)
    requires IsRow(node.info) && i < |Snippets(node, 6, 3)| && !Blank(Snippets(node, 6, 3)[i])
    ensures Contains(RolePart(node.info), Sanitize(Snippets(node, 6, 3)[i])) || Contains(SummaryText(node), Sanitize(Snippets(node, 6, 3)[i]))
  {
    var texts := Snippets(node, 6, 3);
    var part := Sanitize(texts[i]);
    RowNotGeneric(node.info);
    SanitizeBlank(texts[i]);
    CleanJoinHolds(texts, i);
    SanitizeBlank(Join(texts, " "));
    TextHeld(node.info, Join(texts, " "), part, SummaryText(node));
  }

  lemma RowNotGeneric(info: Info)
    ensures IsRow(info) ==> RoleKey(info) !in GENERIC_ROLES && RoleKey(info) in {"row", "table row", "list item"}
  {
  }

  // An action as it is displayed
  function Spaced(action: string): string { seq(|action|, k requires 0 <= k < |action| => if action[k] == '_' then ' ' else action[k]) }

  lemma {:induction false} MeaningfulExact(actions: seq<string>, a: string)
    ensures a in MeaningfulActions(actions) <==> a in actions && !IsNoisy(a)
    decreases |actions|
  {
    if actions != [] {
      MeaningfulExact(actions[1..], a);
      assert a in actions <==> a == actions[0] || a in actions[1..];
    }
  }

  lemma ActionHeld(info: Info, a: string)
    requires a in info.actions && !IsNoise(a)
    ensures Contains(ActionPart(info), Sanitize(Spaced(a)))
  {
    NoisyIff(a);
    MeaningfulExact(info.actions, a);
    var actions := MeaningfulActions(info.actions);
    var i :| 0 <= i < |actions| && actions[i] == a;
    var shown := DisplayActions(actions);
    assert shown[i] == Sanitize(Spaced(a));
    JoinContains(shown, ", ", i);
    ContainsEnd(", Secondary Actions: ", Join(shown, ", "));
    ContainsThrough(ActionPart(info), Join(shown, ", "), shown[i]);
  }

  // ---------- the lines of a render ----------

  lemma {:induction false} JoinStarts(ws: seq<string>)
    requires forall w :: w in ws ==> IsOneWord(w)
    ensures Join(ws, " ") == "" || !IsSpace(Join(ws, " ")[0])
  {
    if ws != [] {
      assert ws[0] in ws && IsOneWord(ws[0]);
    }
  }

  // No label text is blank, however short it is cut.
  lemma SnippetsSay(node: Node, limit: nat, levels: nat, i: nat)
    requires i < |Snippets(node, limit, levels)|
    ensures i < |Fresh(LabelTexts(node, levels), {})| && Snippets(node, limit, levels)[i] == Take(Fresh(LabelTexts(node, levels), {})[i], 80)
    ensures !Blank(Snippets(node, limit, levels)[i])
  {
    var ts := LabelTexts(node, levels);
    var ps := LabelTextsTold(node, levels);
    FreshExact(ts, {});
    var t := Fresh(ts, {})[i];
    assert t in Fresh(ts, {});
    var k :| 0 <= k < |ts| && ts[k] == t;
    var info := Resolve(node, ps[k].path).value.info;
    var raw := if ps[k].inValue then info.value else info.name;
    WordsAreWords(raw, "");
    JoinStarts(Words(raw, ""));
    assert Take(t, 80)[0] == t[0];
  }

  // The element of line `i`
  function ElementOf(root: Node, rootPath: Path, r: Record): Option<Node> {
    if rootPath <= r.path then Resolve(root, r.path[|rootPath|..]) else None
  }

  lemma LineOf(root: Node, rootPath: Path, i: nat)
    requires i < |Rendered(RUNTIME, false, root, rootPath).records|
    ensures var out := Rendered(RUNTIME, false, root, rootPath);
            && ElementOf(root, rootPath, out.records[i]).Some? && |out.lines| == |out.records| && out.records[i].index == i
            && out.records[i].info == ElementOf(root, rootPath, out.records[i]).value.info
            && out.lines[i].Element? && out.lines[i].index == i
            && out.lines[i].text == LineText(ElementOf(root, rootPath, out.records[i]).value)
  {
    var vs := Visits(RUNTIME, root, 0, rootPath);
    RenderIsPreorderPrefix(RUNTIME, root, rootPath);
    FittingIsPrefix(vs);
    var v := Fitting(vs, 0)[i];
    assert v == Shown(vs)[i] && v in Shown(vs);
    ShownSubset(vs, v);
    VisitsWithin(RUNTIME, root, 0, rootPath, v);
    RuntimeRules(v.node);
  }

  // What a line holds: it begins with the role and the title, and somewhere in it are the name, the value and
  // every action worth naming, of a summarised panel its first eight distinct label texts, and of a row the
  // first six; texts are cut to 80 characters.  Without any of these it is role and title alone.
  lemma LineHolds(root: Node, rootPath: Path, i: nat)
    requires i < |Rendered(RUNTIME, false, root, rootPath).records|
    ensures var out := Rendered(RUNTIME, false, root, rootPath);
            && ElementOf(root, rootPath, out.records[i]).Some? && |out.lines| == |out.records|
            && out.lines[i].Element? && out.lines[i].index == i && Holds(ElementOf(root, rootPath, out.records[i]).value, out.lines[i].text)
  {
    LineOf(root, rootPath, i);
    LineTextHolds(ElementOf(root, rootPath, Rendered(RUNTIME, false, root, rootPath).records[i]).value);
  }

  ghost predicate Holds(node: Node, text: string) {
    var info := node.info;
    var title := if info.name != "" then info.name else info.automationId;
    && Beginning(info.role, title) <= text
    && (!Blank(info.name) ==> Contains(text, Sanitize(info.name)))
    && (!Blank(info.value) ==> Contains(text, Sanitize(info.value)))
    && (forall a :: a in info.actions && !IsNoise(a) ==> Contains(text, Sanitize(Spaced(a))))
    && (Summarised(node) ==> HoldsTexts(node, 8, 4, text))
    && (IsRow(info) ==> HoldsTexts(node, 6, 3, text))
    && (Blank(info.value) && Quiet(info) && !Summarised(node) && !IsRow(info) ==> text == Beginning(info.role, title))
  }

  function Beginning(role: string, title: string): string { if Blank(title) then StripRight(role) else role + " " + Sanitize(title) }

  // The first `limit` distinct label texts within `levels` are in the line.
  ghost predicate HoldsTexts(node: Node, limit: nat, levels: nat, text: string) {
    forall k :: 0 <= k < limit && k < |Fresh(LabelTexts(node, levels), {})| ==> Contains(text, Sanitize(Take(Fresh(LabelTexts(node, levels), {})[k], 80)))
  }

  lemma PartInLine(node: Node, part: string)
    requires Contains(RolePart(node.info), part) || Contains(FormattedValue(node.info), part) || Contains(SummaryText(node), part)
             || Contains(ActionPart(node.info), part)
    ensures Contains(LineText(node), part)
  {
    LineParts(node);
    PartsHold(RolePart(node.info), FormattedValue(node.info), SummaryText(node), ActionPart(node.info), part);
  }

  lemma TextsInLine(node: Node, limit: nat, levels: nat)
    requires (Summarised(node) && limit == 8 && levels == 4) || (IsRow(node.info) && limit == 6 && levels == 3)
    ensures HoldsTexts(node, limit, levels, LineText(node))
  {
    var all := Fresh(LabelTexts(node, levels), {});
    forall k | 0 <= k < limit && k < |all|
      ensures Contains(LineText(node), Sanitize(Take(all[k], 80)))
    {
      SnippetsSay(node, limit, levels, k);
      if limit == 8 {
        SummaryHeld(node, k);
      } else {
        RowHeld(node, k);
      }
      PartInLine(node, Sanitize(Take(all[k], 80)));
    }
  }

  lemma BeginningInLine(node: Node)
    ensures Beginning(node.info.role, Title(node.info)) == RolePart(node.info) <= LineText(node)
    ensures !Blank(node.info.name) ==> Contains(LineText(node), Sanitize(node.info.name))
  {
    RoleFirst(node.info);
    LineParts(node);
    if !Blank(node.info.name) {
      TitleHeld(node.info);
      PartInLine(node, Sanitize(node.info.name));
    }
  }

  lemma BareLine(node: Node)
    requires Blank(node.info.value) && Quiet(node.info) && !Summarised(node) && !IsRow(node.info)
    ensures LineText(node) == RolePart(node.info)
  {
    SanitizeBlank(node.info.value);
    QuietIff(node.info);
    SummaryIff(node);
    LineParts(node);
    NoRow(node.info);
    assert FormattedValue(node.info) == "" && SummaryText(node) == "" && ActionPart(node.info) == "";
  }

  lemma NoRow(info: Info)
    ensures !IsRow(info) ==> RoleKey(info) !in {"row", "table row", "list item"}
  {
  }

  lemma LineTextHolds(node: Node)
    ensures Holds(node, LineText(node))
  {
    var info, text := node.info, LineText(node);
    BeginningInLine(node);
    if !Blank(info.value) {
      ValueHeld(info);
      PartInLine(node, Sanitize(info.value));
    }
    forall a | a in info.actions && !IsNoise(a)
      ensures Contains(text, Sanitize(Spaced(a)))
    {
      ActionHeld(info, a);
      PartInLine(node, Sanitize(Spaced(a)));
    }
    if Summarised(node) {
      TextsInLine(node, 8, 4);
    }
    if IsRow(info) {
      TextsInLine(node, 6, 3);
    }
    if Blank(info.value) && Quiet(info) && !Summarised(node) && !IsRow(info) {
      BareLine(node);
    }
  }
}
