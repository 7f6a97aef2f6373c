/**
 Which lines of a rendered accessibility tree are taken for browser tabs, and which tabs for active ones
 (native/computer-use-linux/runtime.py, lines 482-499): said of the elements, not of their lines.
 */
module RenderedTabs {
  import opened Options
  import Strings
  import opened AccessibilityNode
  import opened AccessibilityTree
  import opened AccessibilityPaths
  import opened TabCompaction
  import opened TreeRenderer
  import opened RenderedTree
  import opened RenderedContent
  import opened RenderedLines

  // In any case, the word stands first, and behind it nothing, a space, a parenthesis or a comma.
  predicate Opening(text: string, word: string) {
    && |word| <= |text| && (forall i :: 0 <= i < |word| ==> LowerChar(text[i]) == word[i])
    && (|text| == |word| || text[|word|] == ' ' || text[|word|] == '(' || text[|word|] == ',')
  }

  function LowerChar(c: char): char { Strings.LowerChar(c) }

  // What begins like a tab: a tab item does, and so does a list of tabs.
  predicate IsTab(text: string) { Opening(text, "page tab") || Opening(text, "tab") }

  lemma OpeningIff(text: string, word: string)
    ensures StartsWithWord(text, word) <==> Opening(text, word)
  {
    if |word| <= |text| {
      var head := Strings.Lower(text[..|word|]);
      assert |head| == |word| && forall i :: 0 <= i < |word| ==> head[i] == LowerChar(text[i]);
      assert head == word <==> forall i :: 0 <= i < |word| ==> head[i] == word[i];
    }
  }

  lemma ItemIsTab(text: string)
    ensures Opening(text, "tab item") ==> Opening(text, "tab")
  {
    if Opening(text, "tab item") {
      assert LowerChar(text[3]) == "tab item"[3] == ' ';
      assert forall i :: 0 <= i < 3 ==> "tab"[i] == "tab item"[i];
    }
  }

  lemma DirectIff(line: Line, depth: nat)
    ensures Direct(line, depth) <==> line.Element? && line.indent == depth && IsTab(line.text)
  {
    if line.Element? {
      OpeningIff(line.text, "page tab");
      OpeningIff(line.text, "tab item");
      OpeningIff(line.text, "tab");
      ItemIsTab(line.text);
    }
  }

  // ---------- what stands behind ----------

  // What stands behind a word does not matter if it is set off by a space or a comma.
  predicate SetOff(tail: string) { tail == "" || tail[0] == ' ' || tail[0] == ',' }

  lemma TabBehind(text: string, tail: string)
    requires SetOff(tail)
    ensures Opening(text + tail, "tab") <==> Opening(text, "tab")
  {
    var all, word := text + tail, "tab";
    assert forall i :: 0 <= i < |text| ==> all[i] == text[i];
    if |text| < 3 && tail != "" {
      assert all[|text|] == tail[0] && LowerChar(tail[0]) == tail[0] != word[|text|];
    }
  }

  predicate IsPage(text: string) { |text| == 4 && forall i :: 0 <= i < 4 ==> LowerChar(text[i]) == "page"[i] }

  lemma PageTabBehind(text: string, tail: string)
    requires SetOff(tail) && (IsPage(text) ==> tail == "" || tail[0] == ',')
    ensures Opening(text + tail, "page tab") <==> Opening(text, "page tab")
  {
    var all, word := text + tail, "page tab";
    assert forall i :: 0 <= i < |text| ==> all[i] == text[i];
    if |text| < 8 && tail != "" {
      assert all[|text|] == tail[0] && LowerChar(tail[0]) == tail[0];
      if Opening(all, word) {
        assert word[|text|] == tail[0];
        assert forall i :: 0 <= i < 4 ==> word[i] == "page"[i];
      }
    }
  }

  // The role of a page and a title make a tab of it if the title begins like one.
  lemma PageTitle(page: string, title: string)
    requires IsPage(page)
    ensures Opening(page + " " + title, "page tab") <==> Opening(title, "tab")
    ensures !Opening(page + " " + title, "tab")
  {
    var all := page + " " + title;
    assert all[0] == page[0] && LowerChar(all[0]) == "page"[0] && "tab"[0] == 't';
    assert forall i :: 0 <= i < 5 ==> LowerChar(all[i]) == "page tab"[i];
    assert forall i :: 0 <= i < |title| ==> all[5 + i] == title[i];
    assert forall i :: 0 <= i < 3 ==> "page tab"[5 + i] == "tab"[i];
    if Opening(all, "page tab") {
      forall i | 0 <= i < 3
        ensures LowerChar(title[i]) == "tab"[i]
      {
        assert LowerChar(all[5 + i]) == "page tab"[5 + i];
      }
    }
    if Opening(title, "tab") {
      forall i | 0 <= i < 8
        ensures LowerChar(all[i]) == "page tab"[i]
      {
        if i >= 5 {
          assert LowerChar(title[i - 5]) == "tab"[i - 5];
        }
      }
    }
  }

  // ---------- the line of an element ----------

  function Tail(node: Node): string { FormattedValue(node.info) + SummaryText(node) + ActionPart(node.info) }

  lemma {:induction false} StripStarts(s: string)
    ensures StripRight(s) <= s
    decreases |s|
  {
    if s != [] && IsSpace(s[|s| - 1]) {
      StripStarts(s[..|s| - 1]);
    }
  }

  lemma PageIsNoLabel(info: Info)
    ensures IsPage(StripRight(info.role)) ==> RoleKey(info) !in {"label", "static", "static text", "text", "entry", "text entry"}
  {
    StripStarts(info.role);
    if IsPage(StripRight(info.role)) {
      assert RoleKey(info)[0] == LowerChar(info.role[0]) == "page"[0] == 'p';
    }
  }

  lemma TailSetOff(node: Node, tail: string)
    requires tail == Tail(node)
    ensures SetOff(tail)
    ensures IsPage(StripRight(node.info.role)) ==> tail == "" || tail[0] == ','
  {
    PageIsNoLabel(node.info);
    var value, summary := FormattedValue(node.info), SummaryText(node);
    assert value != "" ==> tail[0] == value[0];
    assert value == "" && summary != "" ==> tail[0] == summary[0];
  }

  // A tab by its role or, for a page, by its title
  predicate IsTabElement(role: string, title: string) {
    if Blank(title) then IsTab(StripRight(role)) else IsTab(role) || (IsPage(role) && Opening(Sanitize(title), "tab"))
  }

  lemma PageIsNoTab(page: string)
    requires IsPage(page)
    ensures !IsTab(page)
  {
    assert LowerChar(page[0]) == "page"[0] != "tab"[0];
  }

  lemma TitledTab(role: string, title: string)
    ensures IsTab(role + " " + title) <==> IsTab(role) || (IsPage(role) && Opening(title, "tab"))
  {
    assert role + " " + title == role + (" " + title);
    if IsPage(role) {
      PageTitle(role, title);
      PageIsNoTab(role);
    } else {
      TabBehind(role, " " + title);
      PageTabBehind(role, " " + title);
    }
  }

  lemma TabBefore(text: string, tail: string)
    requires SetOff(tail) && (IsPage(text) ==> tail == "" || tail[0] == ',')
    ensures IsTab(text + tail) <==> IsTab(text)
  {
    TabBehind(text, tail);
    PageTabBehind(text, tail);
  }

  lemma TitledIsNoPage(role: string, title: string)
    ensures !IsPage(role + " " + title)
  {
    var text := role + " " + title;
    assert text[|role|] == ' ' && forall i :: 0 <= i < 4 ==> "page"[i] != LowerChar(' ');
  }

  lemma TabParts(role: string, title: string, clean: string, tail: string)
    requires SetOff(tail) && (IsPage(StripRight(role)) ==> tail == "" || tail[0] == ',') && clean == Sanitize(title)
    ensures IsTab((if Blank(title) then StripRight(role) else role + " " + clean) + tail) <==> IsTabElement(role, title)
  {
    if Blank(title) {
      TabBefore(StripRight(role), tail);
    } else {
      TitledIsNoPage(role, clean);
      TabBefore(role + " " + clean, tail);
      TitledTab(role, clean);
    }
  }

  lemma Joined(role: string, value: string, summary: string, actions: string)
    ensures role + value + summary + actions == role + (value + summary + actions)
  {
  }

  lemma LineFromTail(node: Node, head: string)
    requires head == Beginning(node.info.role, Title(node.info))
    ensures LineText(node) == head + Tail(node)
  {
    BeginningInLine(node);
    LineParts(node);
    Joined(RolePart(node.info), FormattedValue(node.info), SummaryText(node), ActionPart(node.info));
  }

  lemma TabTextIff(node: Node)
    ensures IsTab(LineText(node)) <==> IsTabElement(node.info.role, Title(node.info))
  {
    LineFromTail(node, Beginning(node.info.role, Title(node.info)));
    TailSetOff(node, Tail(node));
    TabParts(node.info.role, Title(node.info), Sanitize(Title(node.info)), Tail(node));
  }

  // A line of a rendered tree is taken for a tab at its own depth exactly if its element has the role of a tab,
  // of a tab item or of a tab list, or is a page with a title that begins like a tab.
  lemma TabLineIff(root: Node, rootPath: Path, i: nat, depth: nat)
    requires i < |Rendered(RUNTIME, false, root, rootPath).records|
    ensures var out := Rendered(RUNTIME, false, root, rootPath);
            && ElementOf(root, rootPath, out.records[i]).Some? && |out.lines| == |out.records|
            && var info := ElementOf(root, rootPath, out.records[i]).value.info;
               (Direct(out.lines[i], depth)
                <==> out.lines[i].indent == depth && IsTabElement(info.role, if info.name != "" then info.name else info.automationId))
  {
    LineOf(root, rootPath, i);
    var out := Rendered(RUNTIME, false, root, rootPath);
    DirectIff(out.lines[i], depth);
    TabTextIff(ElementOf(root, rootPath, out.records[i]).value);
  }

  // ---------- active tabs ----------

  lemma {:induction false} LookupExact(records: seq<Record>, i: nat)
    requires i < |records| && forall k :: 0 <= k < |records| && k != i ==> records[k].index != records[i].index
    ensures Lookup(records, records[i].index) == Some(records[i])
    decreases |records|
  {
    if i > 0 {
      assert forall k :: 0 <= k < |records[1..]| ==> records[1..][k] == records[k + 1];
      LookupExact(records[1..], i - 1);
    } else {
      LookupNone(records[1..], records[0].index);
    }
  }

  lemma {:induction false} LookupNone(records: seq<Record>, index: nat)
    requires forall k :: 0 <= k < |records| ==> records[k].index != index
    ensures Lookup(records, index) == None
    decreases |records|
  {
    if records != [] {
      assert forall k :: 0 <= k < |records[1..]| ==> records[1..][k] == records[k + 1];
      LookupNone(records[1..], index);
    }
  }

  lemma ActiveIff(line: Line, records: seq<Record>, i: nat)
    requires i < |records| && (forall k :: 0 <= k < |records| ==> records[k].index == k) && line.Element? && line.index == i
    ensures Active(line, records)
            <==> records[i].info.selected || Sanitize(records[i].info.value) == "1" || Contains(line.text, "(selected")
  {
    LookupExact(records, i);
  }

  // ... and is active exactly if the element is selected, has the value 1, or the line says so.
  lemma ActiveLineIff(root: Node, rootPath: Path, i: nat)
    requires i < |Rendered(RUNTIME, false, root, rootPath).records|
    ensures var out := Rendered(RUNTIME, false, root, rootPath);
            && ElementOf(root, rootPath, out.records[i]).Some? && |out.lines| == |out.records| && out.lines[i].Element?
            && var info := ElementOf(root, rootPath, out.records[i]).value.info;
               (Active(out.lines[i], out.records)
                <==> info.selected || Sanitize(info.value) == "1" || Contains(out.lines[i].text, "(selected"))
  {
    var out := Rendered(RUNTIME, false, root, rootPath);
    forall k | 0 <= k < |out.records|
      ensures out.records[k].index == k
    {
      LineOf(root, rootPath, k);
    }
    LineOf(root, rootPath, i);
    ActiveIff(out.lines[i], out.records, i);
  }

  // ---------- what compaction does to the lines ----------

  function Counted(lines: seq<Line>, from: nat, test: Line -> bool): set<nat> { set i: nat | from <= i < |lines| && test(lines[i]) }

  lemma CountedStep(lines: seq<Line>, from: nat, test: Line -> bool)
    requires from < |lines|
    ensures |Counted(lines, from, test)| == |Counted(lines, from + 1, test)| + if test(lines[from]) then 1 else 0
  {
    var rest := Counted(lines, from + 1, test);
    assert Counted(lines, from, test) == if test(lines[from]) then rest + {from} else rest;
  }

  lemma {:induction false} TabsCounted(lines: seq<Line>, from: nat, tab: Line -> bool)
    requires from <= |lines|
    ensures |TabPositions(lines, from, tab)| == |Counted(lines, from, tab)|
    decreases |lines| - from
  {
    if from < |lines| {
      CountedStep(lines, from, tab);
      TabsCounted(lines, from + 1, tab);
    } else {
      assert Counted(lines, from, tab) == {};
    }
  }

  // The kept lines stand in order, and exactly the dropped ones are missing.
  ghost predicate Remains(lines: seq<Line>, from: nat, drop: Line -> bool, kept: seq<Line>, at: seq<nat>) {
    && Ascending(at) && |at| == |kept| && (forall i :: i in at <==> from <= i < |lines| && !drop(lines[i]))
    && forall k :: 0 <= k < |at| ==> at[k] < |lines| && kept[k] == lines[at[k]]
  }

  lemma RemainsFirst(lines: seq<Line>, from: nat, drop: Line -> bool, kept: seq<Line>, at: seq<nat>)
    requires from < |lines| && Remains(lines, from + 1, drop, kept, at)
    ensures drop(lines[from]) ==> Remains(lines, from, drop, kept, at)
    ensures !drop(lines[from]) ==> Remains(lines, from, drop, [lines[from]] + kept, [from] + at)
  {
    assert forall k :: 0 <= k < |at| ==> at[k] in at;
    assert forall i :: i in [from] + at <==> i == from || i in at;
  }

  lemma {:induction false} KeptPositions(lines: seq<Line>, from: nat, drop: Line -> bool) returns (at: seq<nat>)
    requires from <= |lines|
    ensures Remains(lines, from, drop, KeptLines(lines[from..], drop), at)
    ensures |KeptLines(lines[from..], drop)| == |lines| - from - |Counted(lines, from, drop)|
    decreases |lines| - from
  {
    if from == |lines| {
      at := [];
      assert Counted(lines, from, drop) == {};
    } else {
      var rest := KeptPositions(lines, from + 1, drop);
      assert lines[from..][1..] == lines[from + 1..];
      CountedStep(lines, from, drop);
      RemainsFirst(lines, from, drop, KeptLines(lines[from + 1..], drop), rest);
      at := if drop(lines[from]) then rest else [from] + rest;
    }
  }

  // The tabs of a strip, and those of them that are not active
  function TabsFrom(s: Screen, start: nat, depth: nat): set<nat> { set i: nat | start <= i < |s.lines| && Direct(s.lines[i], depth) }

  function IdleFrom(s: Screen, start: nat, depth: nat): set<nat> {
    set i: nat | start <= i < |s.lines| && Direct(s.lines[i], depth) && !Active(s.lines[i], s.records)
  }

  lemma CompactsIff(s: Screen, start: nat, depth: nat, tabs: set<nat>, idle: set<nat>)
    requires start <= |s.lines| && tabs == TabsFrom(s, start, depth) && idle == IdleFrom(s, start, depth)
    ensures Compacts(s.records, s.lines, start, depth) <==> |tabs| >= 10 && idle != {} && idle != tabs
  {
    TabsCounted(s.lines, start, Tabs(depth));
    assert tabs == Counted(s.lines, start, Tabs(depth));
    if i :| start <= i < |s.lines| && Tabs(depth)(s.lines[i]) && Active(s.lines[i], s.records) {
      assert i in tabs && i !in idle;
    }
    if i :| start <= i < |s.lines| && Drops(depth, s.records)(s.lines[i]) {
      assert i in idle;
    }
    if idle != tabs {
      var i :| i in tabs && i !in idle;
      assert Tabs(depth)(s.lines[i]) && Active(s.lines[i], s.records);
    }
    if idle != {} {
      var i :| i in idle;
      assert Drops(depth, s.records)(s.lines[i]);
    }
  }

  lemma FirstOfTabs(s: Screen, start: nat, depth: nat, tabs: set<nat>) returns (first: nat)
    requires start <= |s.lines| && tabs == TabsFrom(s, start, depth) && tabs != {}
    ensures first == FirstTab(s.lines, start, Tabs(depth)) && first in tabs && forall i :: i in tabs ==> first <= i
  {
    first := FirstTab(s.lines, start, Tabs(depth));
    var i :| i in tabs;
    assert Tabs(depth)(s.lines[i]);
    forall j | j in tabs
      ensures first <= j
    {
      assert Tabs(depth)(s.lines[j]);
    }
  }

  lemma IdleDropped(s: Screen, start: nat, first: nat, depth: nat, idle: set<nat>)
    requires start <= first <= |s.lines| && idle == IdleFrom(s, start, depth) && first == FirstTab(s.lines, start, Tabs(depth))
    ensures idle == Counted(s.lines, first, Drops(depth, s.records))
  {
    assert forall i :: start <= i < first ==> !Tabs(depth)(s.lines[i]);
  }

  lemma RecordsLeft(records: seq<Record>, lines: seq<Line>, first: nat, drop: Line -> bool, idle: set<nat>, r: Record)
    requires first <= |lines| && idle == Counted(lines, first, drop)
    ensures r in KeptRecords(records, OmittedIndexes(lines[first..], drop)) <==> r in records && forall i :: i in idle ==> Number(lines[i]) != r.index
  {
    var omitted := OmittedIndexes(lines[first..], drop);
    KeptRecordsExact(records, omitted, r);
    OmittedIndexesExact(lines[first..], drop, r.index);
    if r.index in omitted {
      var i :| 0 <= i < |lines[first..]| && drop(lines[first..][i]) && Number(lines[first..][i]) == r.index;
      assert first + i in idle;
    }
    forall i | i in idle && Number(lines[i]) == r.index
      ensures r.index in omitted
    {
      assert lines[first..][i - first] == lines[i];
    }
  }

  // The screen `t` has the idle tabs removed, with the records of their numbers, and the line with their count
  // before the first tab; everything else stays in its order.
  ghost predicate Stripped(s: Screen, t: Screen, first: nat, idle: set<nat>, depth: nat, at: seq<nat>) {
    && first < |s.lines| && first < |t.lines|
    && t.lines[..first] == s.lines[..first] && t.lines[first] == Marker(depth, |idle|)
    && Ascending(at) && |at| == |t.lines| - first - 1 && (forall i :: i in at <==> first <= i < |s.lines| && i !in idle)
    && (forall k :: 0 <= k < |at| ==> at[k] < |s.lines| && t.lines[first + 1 + k] == s.lines[at[k]])
    && forall r :: r in t.records <==> r in s.records && forall i :: i in idle ==> i < |s.lines| && Number(s.lines[i]) != r.index
  }

  lemma StrippedBy(s: Screen, t: Screen, first: nat, idle: set<nat>, depth: nat, drop: Line -> bool, kept: seq<Line>) returns (at: seq<nat>)
    requires first < |s.lines| && idle == Counted(s.lines, first, drop) && kept == KeptLines(s.lines[first..], drop)
    requires t.records == KeptRecords(s.records, OmittedIndexes(s.lines[first..], drop))
    requires t.lines == s.lines[..first] + [Marker(depth, |s.lines| - first - |kept|)] + kept
    ensures Stripped(s, t, first, idle, depth, at)
  {
    at := KeptPositions(s.lines, first, drop);
    forall r
      ensures r in t.records <==> r in s.records && forall i :: i in idle ==> Number(s.lines[i]) != r.index
    {
      RecordsLeft(s.records, s.lines, first, drop, idle, r);
    }
  }

  // Compaction changes the lines from `start` on exactly if at least ten of them are tabs of this depth and
  // some but not all of these are idle.
  lemma CompactedExact(s: Screen, start: nat, depth: nat) returns (first: nat, at: seq<nat>)
    requires start <= |s.lines|
    ensures var t, tabs, idle := Compacted(s, start, depth), TabsFrom(s, start, depth), IdleFrom(s, start, depth);
            if |tabs| < 10 || idle == {} || idle == tabs then t == s
            else first in tabs && (forall i :: i in tabs ==> first <= i) && Stripped(s, t, first, idle, depth, at)
  {
    var t, tabs, idle := Compacted(s, start, depth), TabsFrom(s, start, depth), IdleFrom(s, start, depth);
    CompactsIff(s, start, depth, tabs, idle);
    first, at := 0, [];
    if |tabs| >= 10 && idle != {} && idle != tabs {
      first := FirstOfTabs(s, start, depth, tabs);
      IdleDropped(s, start, first, depth, idle);
      at := StrippedBy(s, t, first, idle, depth, Drops(depth, s.records), KeptLines(s.lines[first..], Drops(depth, s.records)));
    }
  }
}
