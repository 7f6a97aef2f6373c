/**
 compact_rendered_browser_tabs of native/computer-use-linux/runtime.py, as a filter: what the in-place
 reverse deletion of inactive browser tabs leaves behind, and why doing it twice changes nothing.
 */
module TabCompaction {
  import opened Options
  import opened Strings
  import opened AccessibilityNode
  import opened AccessibilityTree

  const MIN_TABS: nat := 10

  // ---------- tabs ----------

  predicate StartsWithWord(text: string, word: string) {
    |text| >= |word| && Lower(text[..|word|]) == word && (|text| == |word| || text[|word|] in {' ', '(', ','})
  }

  predicate Direct(line: Line, depth: nat) {
    line.Element? && line.indent == depth
    && (StartsWithWord(line.text, "page tab") || StartsWithWord(line.text, "tab item") || StartsWithWord(line.text, "tab"))
  }

  // The record an element number names; a later record wins, as in a dictionary
  function Lookup(records: seq<Record>, index: nat): Option<Record> {
    if records == [] then None
    else if Lookup(records[1..], index).Some? then Lookup(records[1..], index)
    else if records[0].index == index then Some(records[0]) else None
  }

  predicate Selected(r: Option<Record>) { r.Some? && (r.value.info.selected || Sanitize(r.value.info.value) == "1") }

  predicate Active(line: Line, records: seq<Record>) {
    line.Element? && (Contains(line.text, "(selected") || Selected(Lookup(records, line.index)))
  }

  predicate Inactive(line: Line, depth: nat, records: seq<Record>) { Direct(line, depth) && !Active(line, records) }

  // The two tests as values, so that the filters below need not look inside them
  function Tabs(depth: nat): Line -> bool { l => Direct(l, depth) }

  function Drops(depth: nat, records: seq<Record>): Line -> bool { l => Inactive(l, depth, records) }

  function Number(line: Line): nat { if line.Element? then line.index else 0 }

  // ---------- what compaction leaves ----------

  function KeptLines(lines: seq<Line>, drop: Line -> bool): (kept: seq<Line>)
    ensures |kept| <= |lines|
  {
    if lines == [] then []
    else (if drop(lines[0]) then [] else [lines[0]]) + KeptLines(lines[1..], drop)
  }

  function OmittedIndexes(lines: seq<Line>, drop: Line -> bool): set<nat> {
    if lines == [] then {}
    else (if drop(lines[0]) then {Number(lines[0])} else {}) + OmittedIndexes(lines[1..], drop)
  }

  function KeptRecords(records: seq<Record>, omitted: set<nat>): seq<Record> {
    if records == [] then []
    else (if records[0].index in omitted then [] else [records[0]]) + KeptRecords(records[1..], omitted)
  }

  function TabPositions(lines: seq<Line>, start: nat, tab: Line -> bool): seq<nat>
    decreases |lines| - start
  {
    if start >= |lines| then []
    else (if tab(lines[start]) then [start] else []) + TabPositions(lines, start + 1, tab)
  }

  // Enough tabs, at least one of them active and one not
  predicate Compacts(records: seq<Record>, lines: seq<Line>, start: nat, depth: nat)
    requires start <= |lines|
  {
    |TabPositions(lines, start, Tabs(depth))| >= MIN_TABS
    && (exists i :: start <= i < |lines| && Tabs(depth)(lines[i]) && Active(lines[i], records))
    && (exists i :: start <= i < |lines| && Drops(depth, records)(lines[i]))
  }

  function FirstTab(lines: seq<Line>, start: nat, tab: Line -> bool): (first: nat)
    requires start <= |lines|
    ensures start <= first <= |lines|
    ensures first < |lines| ==> tab(lines[first])
    ensures forall i :: start <= i < first ==> !tab(lines[i])
    decreases |lines| - start
  {
    if start == |lines| || tab(lines[start]) then start else FirstTab(lines, start + 1, tab)
  }

  datatype Screen = Screen(records: seq<Record>, lines: seq<Line>)

  function Compacted(s: Screen, start: nat, depth: nat): Screen {
    if start > |s.lines| || !Compacts(s.records, s.lines, start, depth) then s
    else
      var first := FirstTab(s.lines, start, Tabs(depth));
      var kept := KeptLines(s.lines[first..], Drops(depth, s.records));
      Screen(KeptRecords(s.records, OmittedIndexes(s.lines[first..], Drops(depth, s.records))),
             s.lines[..first] + [Marker(depth, |s.lines| - first - |kept|)] + kept)
  }

  // ---------- facts about the filters ----------

  lemma {:induction false} TabPositionsExact(lines: seq<Line>, start: nat, tab: Line -> bool)
    requires start <= |lines|
    ensures forall i :: i in TabPositions(lines, start, tab) ==> start <= i < |lines| && tab(lines[i])
    ensures forall i :: start <= i < |lines| && tab(lines[i]) ==> i in TabPositions(lines, start, tab)
    ensures Ascending(TabPositions(lines, start, tab))
    ensures TabPositions(lines, start, tab) != [] ==> TabPositions(lines, start, tab)[0] == FirstTab(lines, start, tab)
    decreases |lines| - start
  {
    if start < |lines| {
      TabPositionsExact(lines, start + 1, tab);
      var rest := TabPositions(lines, start + 1, tab);
      if tab(lines[start]) {
        assert TabPositions(lines, start, tab) == [start] + rest;
        assert forall b :: 0 <= b < |rest| ==> rest[b] in rest;
      } else {
        assert TabPositions(lines, start, tab) == rest;
      }
    }
  }

  ghost predicate Ascending(s: seq<nat>) { forall a, b :: 0 <= a < b < |s| ==> s[a] < s[b] }

  // A stretch in which nothing is dropped stays as it is.
  lemma {:induction false} KeepStretch(a: seq<Line>, b: seq<Line>, drop: Line -> bool)
    requires forall l :: l in a ==> !drop(l)
    ensures KeptLines(a + b, drop) == a + KeptLines(b, drop)
    ensures OmittedIndexes(a + b, drop) == OmittedIndexes(b, drop)
    decreases |a|
  {
    if a == [] {
      assert a + b == b;
    } else {
      assert (a + b)[1..] == a[1..] + b;
      KeepStretch(a[1..], b, drop);
    }
  }

  lemma {:induction false} KeptLinesExact(lines: seq<Line>, drop: Line -> bool, l: Line)
    ensures l in KeptLines(lines, drop) <==> l in lines && !drop(l)
    decreases |lines|
  {
    if lines != [] {
      KeptLinesExact(lines[1..], drop, l);
      assert l in lines <==> l == lines[0] || l in lines[1..];
    }
  }

  lemma {:induction false} OmittedIndexesExact(lines: seq<Line>, drop: Line -> bool, n: nat)
    ensures n in OmittedIndexes(lines, drop) <==> exists i :: 0 <= i < |lines| && drop(lines[i]) && Number(lines[i]) == n
    decreases |lines|
  {
    if lines != [] {
      OmittedIndexesExact(lines[1..], drop, n);
      assert forall i :: 0 < i < |lines| ==> lines[i] == lines[1..][i - 1];
    }
  }

  // Records are removed by number only: whatever is not omitted keeps its record.
  lemma {:induction false} LookupKept(records: seq<Record>, omitted: set<nat>, index: nat)
    ensures Lookup(KeptRecords(records, omitted), index) == if index in omitted then None else Lookup(records, index)
    decreases |records|
  {
    if records != [] {
      LookupKept(records[1..], omitted, index);
      var rest := KeptRecords(records[1..], omitted);
      if records[0].index !in omitted {
        assert KeptRecords(records, omitted) == [records[0]] + rest;
        assert ([records[0]] + rest)[1..] == rest;
      } else {
        assert KeptRecords(records, omitted) == rest;
      }
    }
  }

  lemma {:induction false} KeptRecordsExact(records: seq<Record>, omitted: set<nat>, r: Record)
    ensures r in KeptRecords(records, omitted) <==> r in records && r.index !in omitted
    decreases |records|
  {
    if records != [] {
      KeptRecordsExact(records[1..], omitted, r);
      assert r in records <==> r == records[0] || r in records[1..];
    }
  }

  // An active tab stays active: its record is never among the removed ones, even when numbers repeat.
  lemma ActiveStaysActive(lines: seq<Line>, depth: nat, records: seq<Record>, l: Line)
    requires Active(l, records)
    ensures Active(l, KeptRecords(records, OmittedIndexes(lines, Drops(depth, records))))
  {
    var omitted := OmittedIndexes(lines, Drops(depth, records));
    OmittedIndexesExact(lines, Drops(depth, records), l.index);
    LookupKept(records, omitted, l.index);
  }

  // Compacting twice is compacting once, whatever the records and lines.
  lemma CompactingIsIdempotent(s: Screen, start: nat, depth: nat)
    requires start <= |s.lines|
    ensures start <= |Compacted(s, start, depth).lines|
    ensures Compacted(Compacted(s, start, depth), start, depth) == Compacted(s, start, depth)
  {
    if Compacts(s.records, s.lines, start, depth) {
      var t := Compacted(s, start, depth);
      var first := FirstTab(s.lines, start, Tabs(depth));
      var drop := Drops(depth, s.records);
      var kept := KeptLines(s.lines[first..], drop);
      forall i | start <= i < |t.lines|
        ensures !Drops(depth, t.records)(t.lines[i])
      {
        if i > first {
          assert t.lines[i] == kept[i - first - 1];
          KeptLinesExact(s.lines[first..], drop, t.lines[i]);
          if Active(t.lines[i], s.records) {
            ActiveStaysActive(s.lines[first..], depth, s.records, t.lines[i]);
          }
        } else if i < first {
          assert !Tabs(depth)(s.lines[i]);
        }
      }
    }
  }
}
