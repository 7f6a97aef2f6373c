/**
 What the key scanner of config/scripts/call-site-option-keys.ts reads from any text between two braces,
 balanced or not: the text is cut where the scanner's own depth is zero, at the first colon of an entry and
 at the commas, and each entry's head is a key.
 */
module OptionKeyCutting {
  import opened Options
  import opened Sequences
  import opened Strings
  import opened OptionKeys
  import opened OptionKeyReading

  // ---------- entries ----------

  // What stands before the colon, and the value after it unless the entry is a shorthand or a spread
  datatype Entry = Entry(head: string, value: Option<string>)

  // At depth zero none of `chars` occurs in code
  predicate FreeOfFrom(s: string, l: Lex, chars: set<char>)
    decreases |s| - l.pos
  {
    l.pos >= |s| || (!(InCode(s, l) && l.depth == 0 && s[l.pos] in chars) && FreeOfFrom(s, Next(s, l), chars))
  }

  function PrintEntry(e: Entry): string { e.head + if e.value.Some? then ":" + e.value.value else "" }

  function Print(es: seq<Entry>): string
    requires es != []
  {
    if |es| == 1 then PrintEntry(es[0]) else PrintEntry(es[0]) + ("," + Print(es[1..]))
  }

  // The characters of code, strings and comments left out
  function CodeTextFrom(s: string, l: Lex): string
    decreases |s| - l.pos
  {
    if l.pos >= |s| then "" else (if InCode(s, l) then [s[l.pos]] else "") + CodeTextFrom(s, Next(s, l))
  }

  // What code text in front of a colon, a comma or the end counts as: itself trimmed, or nothing
  function KeyOf(code: string): seq<string> { if Trim(code) == "" then [] else [Trim(code)] }

  function EntryKey(e: Entry): seq<string> { KeyOf(CodeTextFrom(e.head, START)) }

  function EntryKeys(es: seq<Entry>): seq<string> {
    if es == [] then [] else EntryKey(es[0]) + EntryKeys(es[1..])
  }

  // ---------- cuts ----------

  // An entry that another one can follow: head and value each end in code at depth zero, and none of their
  // own characters separates.
  predicate Settled(e: Entry) {
    Closes(e.head) && FreeOfFrom(e.head, START, {',', ':'})
    && (e.value.Some? ==> Closes(e.value.value) && FreeOfFrom(e.value.value, START, {','}))
  }

  // An entry at the end: what comes last may be left open.
  predicate Loose(e: Entry) {
    FreeOfFrom(e.head, START, {',', ':'})
    && (e.value.Some? ==> Closes(e.head) && FreeOfFrom(e.value.value, START, {','}))
  }

  predicate Cut(es: seq<Entry>) {
    es != [] && if |es| == 1 then Loose(es[0]) else Settled(es[0]) && Cut(es[1..])
  }

  // The head of a last entry without a colon counts only if it ends at depth zero.
  function LastKey(e: Entry): seq<string> { if e.value.Some? || EndOf(e.head, START).depth == 0 then EntryKey(e) else [] }

  function CutKeys(es: seq<Entry>): seq<string>
    requires es != []
  {
    if |es| == 1 then LastKey(es[0]) else EntryKey(es[0]) + CutKeys(es[1..])
  }

  // ---------- scanning one segment ----------

  // `f` is what the key scanner returns from each state of a body: the loop's own equations, used one
  // turn at a time.
  ghost predicate TurnAt(body: string, f: KeyScan -> seq<string>, k: KeyScan) {
    f(k) == if k.lex.pos < |body| then f(KeyNext(body, k)) else if k.inValue then k.keys else Flushed(k.keys, k.token, k.lex.depth)
  }

  ghost predicate Scans(body: string, f: KeyScan -> seq<string>) { forall k :: TurnAt(body, f, k) }

  function Scanner(body: string): KeyScan -> seq<string> { k => KeysFrom(body, k) }

  lemma ScannerScans(body: string)
    ensures Scans(body, Scanner(body))
  {
    forall k
      ensures TurnAt(body, Scanner(body), k)
    {
      assert Scanner(body)(k) == KeysFrom(body, k);
    }
  }

  // At a fresh entry, or at a fresh value
  function AtHead(i: nat, keys: seq<string>): KeyScan { KeyScan(Lex(i, Code, 0), false, "", keys) }

  function AtValue(i: nat, keys: seq<string>): KeyScan { KeyScan(Lex(i, Code, 0), true, "", keys) }

  // One turn of the key loop inside a head
  lemma HeadStep(body: string, i: nat, s: string, l: Lex, token: string, keys: seq<string>)
    requires Sees(body, i, s, l) && l.pos < |s|
    requires !(InCode(s, l) && l.depth == 0 && s[l.pos] in {',', ':'})
    ensures At(l, i, 0).pos < |body|
    ensures KeyNext(body, KeyScan(At(l, i, 0), false, token, keys))
         == KeyScan(At(Next(s, l), i, 0), false, token + (if InCode(s, l) then [s[l.pos]] else ""), keys)
  {
    NextSeen(body, i, s, l, 0);
    assert token + "" == token;
  }

  lemma {:induction false} HeadScanned(body: string, f: KeyScan -> seq<string>, i: nat, s: string, l: Lex, token: string, keys: seq<string>)
    requires Scans(body, f) && Sees(body, i, s, l) && FreeOfFrom(s, l, {',', ':'})
    ensures f(KeyScan(At(l, i, 0), false, token, keys)) == f(KeyScan(At(EndOf(s, l), i, 0), false, token + CodeTextFrom(s, l), keys))
    decreases |s| - l.pos
  {
    if l.pos < |s| {
      HeadStep(body, i, s, l, token, keys);
      assert TurnAt(body, f, KeyScan(At(l, i, 0), false, token, keys));
      NextSeen(body, i, s, l, 0);
      var more := if InCode(s, l) then [s[l.pos]] else "";
      HeadScanned(body, f, i, s, Next(s, l), token + more, keys);
      ConcatAssociates(token, more, CodeTextFrom(s, Next(s, l)));
    } else {
      assert token + "" == token;
    }
  }

  lemma ValueStep(body: string, i: nat, s: string, l: Lex, keys: seq<string>)
    requires Sees(body, i, s, l) && l.pos < |s|
    requires !(InCode(s, l) && l.depth == 0 && s[l.pos] == ',')
    ensures At(l, i, 0).pos < |body|
    ensures KeyNext(body, KeyScan(At(l, i, 0), true, "", keys)) == KeyScan(At(Next(s, l), i, 0), true, "", keys)
  {
    NextSeen(body, i, s, l, 0);
  }

  lemma {:induction false} ValueScanned(body: string, f: KeyScan -> seq<string>, i: nat, s: string, l: Lex, keys: seq<string>)
    requires Scans(body, f) && Sees(body, i, s, l) && FreeOfFrom(s, l, {','})
    ensures f(KeyScan(At(l, i, 0), true, "", keys)) == f(KeyScan(At(EndOf(s, l), i, 0), true, "", keys))
    decreases |s| - l.pos
  {
    if l.pos < |s| {
      ValueStep(body, i, s, l, keys);
      assert TurnAt(body, f, KeyScan(At(l, i, 0), true, "", keys));
      NextSeen(body, i, s, l, 0);
      ValueScanned(body, f, i, s, Next(s, l), keys);
    }
  }

  // The turn at a colon and at a comma
  lemma AtSeparator(body: string, f: KeyScan -> seq<string>, i: nat, inValue: bool, token: string, keys: seq<string>)
    requires Scans(body, f) && i < |body| && (body[i] == ',' || (body[i] == ':' && !inValue))
    ensures var found := if inValue then keys else keys + KeyOf(token);
            f(KeyScan(Lex(i, Code, 0), inValue, token, keys)) == if body[i] == ':' then f(AtValue(i + 1, found)) else f(AtHead(i + 1, found))
  {
    assert TurnAt(body, f, KeyScan(Lex(i, Code, 0), inValue, token, keys));
    assert keys + [] == keys;
    NextPlain(body, Lex(i, Code, 0));
  }

  // The end of the body, wherever the scan was left
  lemma AtEnd(body: string, f: KeyScan -> seq<string>, l: Lex, inValue: bool, token: string, keys: seq<string>)
    requires Scans(body, f) && l.pos >= |body|
    ensures f(KeyScan(l, inValue, token, keys)) == if inValue then keys else keys + if l.depth == 0 then KeyOf(token) else []
  {
    assert TurnAt(body, f, KeyScan(l, inValue, token, keys));
    assert keys + [] == keys;
  }

  // A head up to its end
  lemma HeadReached(body: string, f: KeyScan -> seq<string>, i: nat, mid: nat, head: string, code: string, keys: seq<string>)
    requires Scans(body, f) && FreeOfFrom(head, START, {',', ':'}) && code == CodeTextFrom(head, START) && (Closes(head) || mid == |body|)
    requires mid == i + |head| <= |body| && body[i..mid] == head && (mid < |body| ==> body[mid] == ',' || body[mid] == ':')
    ensures f(AtHead(i, keys)) == f(KeyScan(At(EndOf(head, START), i, 0), false, code, keys))
  {
    assert At(START, i, 0) == Lex(i, Code, 0);
    HeadScanned(body, f, i, head, START, "", keys);
    assert "" + code == code;
  }

  // ... and over its separator
  lemma HeadRead(body: string, f: KeyScan -> seq<string>, i: nat, mid: nat, head: string, code: string, keys: seq<string>)
    requires Scans(body, f) && FreeOfFrom(head, START, {',', ':'}) && code == CodeTextFrom(head, START) && Closes(head)
    requires mid == i + |head| < |body| && body[i..mid] == head && (body[mid] == ',' || body[mid] == ':')
    ensures f(AtHead(i, keys)) == if body[mid] == ':' then f(AtValue(mid + 1, keys + KeyOf(code))) else f(AtHead(mid + 1, keys + KeyOf(code)))
  {
    HeadReached(body, f, i, mid, head, code, keys);
    assert At(EndOf(head, START), i, 0) == Lex(mid, Code, 0);
    AtSeparator(body, f, mid, false, code, keys);
  }

  // A value, up to a comma or the end of the body
  lemma ValueRead(body: string, f: KeyScan -> seq<string>, i: nat, end: nat, s: string, keys: seq<string>)
    requires Scans(body, f) && FreeOfFrom(s, START, {','}) && (Closes(s) || end == |body|)
    requires end == i + |s| <= |body| && body[i..end] == s && (end < |body| ==> body[end] == ',')
    ensures f(AtValue(i, keys)) == if end == |body| then keys else f(AtHead(end + 1, keys))
  {
    assert At(START, i, 0) == Lex(i, Code, 0);
    ValueScanned(body, f, i, s, START, keys);
    if end == |body| {
      AtEnd(body, f, At(EndOf(s, START), i, 0), true, "", keys);
    } else {
      assert At(EndOf(s, START), i, 0) == Lex(end, Code, 0);
      AtSeparator(body, f, end, true, "", keys);
    }
  }

  // A head and a value stand on both sides of a colon, up to a comma or the end of the body
  ghost predicate PairStands(body: string, i: nat, mid: nat, end: nat, head: string, value: string) {
    mid == i + |head| && end == mid + 1 + |value| <= |body| && body[i..mid] == head && body[mid] == ':' && body[mid + 1..end] == value
    && (end < |body| ==> body[end] == ',')
  }

  lemma PairRead(body: string, f: KeyScan -> seq<string>, i: nat, mid: nat, end: nat, e: Entry, keys: seq<string>)
    requires Scans(body, f) && e.value.Some? && PairStands(body, i, mid, end, e.head, e.value.value)
    requires Loose(e) && (end < |body| ==> Settled(e))
    ensures f(AtHead(i, keys)) == if end == |body| then keys + EntryKey(e) else f(AtHead(end + 1, keys + EntryKey(e)))
  {
    var code := CodeTextFrom(e.head, START);
    HeadRead(body, f, i, mid, e.head, code, keys);
    ValueRead(body, f, mid + 1, end, e.value.value, keys + KeyOf(code));
  }

  // An entry that a comma follows
  lemma SettledRead(body: string, f: KeyScan -> seq<string>, i: nat, end: nat, e: Entry, keys: seq<string>)
    requires Scans(body, f) && Settled(e) && EntryStands(body, i, end, e) && end < |body|
    ensures f(AtHead(i, keys)) == f(AtHead(end + 1, keys + EntryKey(e)))
  {
    if e.value.Some? {
      PairSplit(body, i, end, e.head, e.value.value);
      PairRead(body, f, i, i + |e.head|, end, e, keys);
    } else {
      HeadAlone(e);
      HeadRead(body, f, i, end, e.head, CodeTextFrom(e.head, START), keys);
    }
  }

  // The last entry
  lemma LastRead(body: string, f: KeyScan -> seq<string>, i: nat, e: Entry, keys: seq<string>)
    requires Scans(body, f) && Loose(e) && EntryStands(body, i, |body|, e)
    ensures f(AtHead(i, keys)) == keys + LastKey(e)
  {
    if e.value.Some? {
      PairSplit(body, i, |body|, e.head, e.value.value);
      PairRead(body, f, i, i + |e.head|, |body|, e, keys);
    } else {
      HeadAlone(e);
      HeadReached(body, f, i, |body|, e.head, CodeTextFrom(e.head, START), keys);
      AtEnd(body, f, At(EndOf(e.head, START), i, 0), false, CodeTextFrom(e.head, START), keys);
    }
  }

  // The entry stands there, up to a comma or the end of the body
  ghost predicate EntryStands(body: string, i: nat, end: nat, e: Entry) {
    end == i + |PrintEntry(e)| <= |body| && body[i..end] == PrintEntry(e) && (end < |body| ==> body[end] == ',')
  }

  lemma HeadAlone(e: Entry)
    requires e.value.None?
    ensures PrintEntry(e) == e.head
  {
  }

  lemma PairSplit(body: string, i: nat, end: nat, head: string, value: string)
    requires EntryStands(body, i, end, Entry(head, Some(value)))
    ensures PairStands(body, i, i + |head|, end, head, value)
  {
    var text := head + (":" + value);
    SubSlice(body, i, end, 0, |head|);
    SubSlice(body, i, end, |head| + 1, |text|);
    assert text[..|head|] == head && text[|head|] == ':' && text[|head| + 1..] == value;
    assert body[i + |head|] == body[i..end][|head|];
  }

  lemma LastStands(body: string, i: nat, es: seq<Entry>)
    requires |es| == 1 && i <= |body| && body[i..] == Print(es)
    ensures EntryStands(body, i, |body|, es[0])
  {
    assert body[i..|body|] == body[i..];
  }

  lemma FirstStands(body: string, i: nat, es: seq<Entry>)
    requires |es| > 1 && i <= |body| && body[i..] == Print(es)
    ensures var end := i + |PrintEntry(es[0])|;
            end < |body| && EntryStands(body, i, end, es[0]) && body[end] == ',' && body[end + 1..] == Print(es[1..])
  {
    SuffixSplit(body, i, PrintEntry(es[0]), Print(es[1..]));
  }

  lemma FirstRead(body: string, f: KeyScan -> seq<string>, i: nat, es: seq<Entry>, keys: seq<string>) returns (end: nat)
    requires Scans(body, f) && |es| > 1 && Settled(es[0]) && i <= |body| && body[i..] == Print(es)
    ensures end < |body| && body[end + 1..] == Print(es[1..]) && f(AtHead(i, keys)) == f(AtHead(end + 1, keys + EntryKey(es[0])))
  {
    FirstStands(body, i, es);
    end := i + |PrintEntry(es[0])|;
    SettledRead(body, f, i, end, es[0], keys);
  }

  lemma {:induction false} CutRead(body: string, f: KeyScan -> seq<string>, i: nat, es: seq<Entry>, keys: seq<string>)
    requires Scans(body, f) && Cut(es) && i <= |body| && body[i..] == Print(es)
    ensures f(AtHead(i, keys)) == keys + CutKeys(es)
    decreases |es|
  {
    if |es| == 1 {
      CutOne(es);
      LastStands(body, i, es);
      LastRead(body, f, i, es[0], keys);
    } else {
      CutFirst(es);
      var end := FirstRead(body, f, i, es, keys);
      CutRead(body, f, end + 1, es[1..], keys + EntryKey(es[0]));
      ConcatAssociates(keys, EntryKey(es[0]), CutKeys(es[1..]));
    }
  }

  lemma CutOne(es: seq<Entry>)
    requires Cut(es) && |es| == 1
    ensures Loose(es[0]) && CutKeys(es) == LastKey(es[0])
  {
  }

  lemma CutFirst(es: seq<Entry>)
    requires Cut(es) && |es| > 1
    ensures Settled(es[0]) && Cut(es[1..]) && CutKeys(es) == EntryKey(es[0]) + CutKeys(es[1..])
  {
  }

  lemma SuffixSplit(body: string, i: nat, first: string, rest: string)
    requires i <= |body| && body[i..] == first + ("," + rest)
    ensures var end := i + |first|;
            end < |body| && body[i..end] == first && body[end] == ',' && body[end + 1..] == rest
  {
    var end := i + |first|;
    assert body[i..][..|first|] == first && body[i..][|first|] == ',' && body[i..][|first| + 1..] == rest;
    assert body[i..end] == body[i..][..|first|] && body[end] == body[i..][|first|];
    assert body[end + 1..] == body[i..][|first| + 1..];
  }

  // From every cut text exactly these keys are read.
  lemma KeysOfCut(es: seq<Entry>)
    requires Cut(es)
    ensures KeysOf(Print(es)) == CutKeys(es)
  {
    var body := Print(es);
    ScannerScans(body);
    assert body[0..] == body;
    CutRead(body, Scanner(body), 0, es, []);
    assert Scanner(body)(AtHead(0, [])) == KeysFrom(body, AtHead(0, []));
    assert [] + CutKeys(es) == CutKeys(es);
  }

  // ---------- joining segments ----------

  lemma {:induction false} EndJoins(text: string, i: nat, s: string, l: Lex)
    requires Sees(text, i, s, l) && ClosesFrom(s, l)
    ensures EndOf(text, At(l, i, 0)) == EndOf(text, Lex(i + |s|, Code, 0))
    decreases |s| - l.pos
  {
    if l.pos < |s| {
      NextSeen(text, i, s, l, 0);
      EndJoins(text, i, s, Next(s, l));
    }
  }

  lemma {:induction false} FreeJoins(text: string, i: nat, s: string, l: Lex, chars: set<char>)
    requires Sees(text, i, s, l) && ClosesFrom(s, l)
    ensures FreeOfFrom(text, At(l, i, 0), chars) <==> FreeOfFrom(s, l, chars) && FreeOfFrom(text, Lex(i + |s|, Code, 0), chars)
    decreases |s| - l.pos
  {
    if l.pos < |s| {
      NextSeen(text, i, s, l, 0);
      FreeJoins(text, i, s, Next(s, l), chars);
    }
  }

  lemma {:induction false} CodeTextJoins(text: string, i: nat, s: string, l: Lex, up: int)
    requires Sees(text, i, s, l) && ClosesFrom(s, l)
    ensures CodeTextFrom(text, At(l, i, up)) == CodeTextFrom(s, l) + CodeTextFrom(text, Lex(i + |s|, Code, up))
    decreases |s| - l.pos
  {
    if l.pos < |s| {
      NextSeen(text, i, s, l, up);
      CodeTextJoins(text, i, s, Next(s, l), up);
    }
  }

  // What can stand between two separators
  predicate Segment(s: string, chars: set<char>) { Closes(s) && FreeOfFrom(s, START, chars) }

  // What follows does not turn the last slash of `a` into a comment.
  ghost predicate Joinable(a: string, b: string) { b == "" || b[0] !in {'/', '*'} || !LoneSlashFrom(a, START) }

  // One segment behind another, at its place in the joined text
  lemma SegmentAt(text: string, i: nat, s: string, chars: set<char>)
    requires Sees(text, i, s, START) && Segment(s, chars)
    ensures EndOf(text, Lex(i, Code, 0)) == EndOf(text, Lex(i + |s|, Code, 0))
    ensures FreeOfFrom(text, Lex(i, Code, 0), chars) <==> FreeOfFrom(text, Lex(i + |s|, Code, 0), chars)
    ensures CodeTextFrom(text, Lex(i, Code, 0)) == CodeTextFrom(s, START) + CodeTextFrom(text, Lex(i + |s|, Code, 0))
  {
    assert At(START, i, 0) == Lex(i, Code, 0);
    EndJoins(text, i, s, START);
    FreeJoins(text, i, s, START, chars);
    CodeTextJoins(text, i, s, START, 0);
  }

  lemma SegmentsJoin(a: string, b: string, chars: set<char>)
    requires Segment(a, chars) && Segment(b, chars) && Joinable(a, b)
    ensures Segment(a + b, chars) && CodeTextFrom(a + b, START) == CodeTextFrom(a, START) + CodeTextFrom(b, START)
  {
    var text, end := a + b, |a + b|;
    assert text[0..|a|] == a && text[|a|..end] == b && (b != "" ==> text[|a|] == b[0]);
    SegmentAt(text, 0, a, chars);
    SegmentAt(text, |a|, b, chars);
    assert CodeTextFrom(text, Lex(end, Code, 0)) == "";
  }

  // ---------- every text is cut ----------

  // Nested(i): well nested from position `i` on, entered in code at depth zero
  predicate Nested(text: string, i: nat) { WellNestedFrom(text, Lex(i, Code, 0)) }

  lemma NestedPlain(text: string, i: nat)
    requires i < |text| && Plain(text[i])
    ensures Nested(text, i) <==> Nested(text, i + 1)
  {
    NextPlain(text, Lex(i, Code, 0));
  }

  // The first position from `l` on where one of `stops` stands in code at depth zero, or past the end
  function StopFrom(s: string, l: Lex, stops: set<char>): (stop: nat)
    ensures l.pos <= stop
    decreases |s| - l.pos
  {
    if l.pos >= |s| || (InCode(s, l) && l.depth == 0 && s[l.pos] in stops) then l.pos else StopFrom(s, Next(s, l), stops)
  }

  // What is read up to the stop is free of the stopping characters; it closes if something stopped it, and
  // it is well nested if the whole text is.
  lemma {:induction false} StopSplits(s: string, i: nat, l: Lex, stops: set<char>, stop: nat)
    requires i <= l.pos && i <= |s| && stops <= {',', ':'}
    requires stop == if StopFrom(s, l, stops) < |s| then StopFrom(s, l, stops) else |s|
    ensures stop < |s| ==> s[stop] in stops
    ensures var t, m := s[i..stop], Lex(l.pos - i, l.state, l.depth);
            && FreeOfFrom(t, m, stops) && (stop < |s| ==> ClosesFrom(t, m))
            && (WellNestedFrom(s, l) ==> WellNestedFrom(t, m) && Nested(s, stop))
    decreases |s| - l.pos
  {
    if l.pos < stop {
      StopSplits(s, i, Next(s, l), stops, stop);
      NextOfPrefix(s, i, l, stop);
    }
  }

  // Up to a stop the prefix is scanned as the whole is.
  lemma NextOfPrefix(s: string, i: nat, l: Lex, stop: nat)
    requires i <= l.pos < stop <= |s| && (stop < |s| ==> s[stop] == ',' || s[stop] == ':')
    ensures var t, m := s[i..stop], Lex(l.pos - i, l.state, l.depth);
            && Next(t, m) == Lex(Next(s, l).pos - i, Next(s, l).state, Next(s, l).depth)
            && InCode(t, m) == InCode(s, l) && Substitutes(t, m) == Substitutes(s, l) && t[m.pos] == s[l.pos]
  {
    var t := s[i..stop];
    assert t[l.pos - i] == s[l.pos];
    if l.pos + 1 < stop {
      assert t[l.pos + 1 - i] == s[l.pos + 1];
    }
  }

  // The text up to the first stop
  lemma TakeSegment(body: string, i: nat, stops: set<char>) returns (stop: nat)
    requires i <= |body| && stops <= {',', ':'}
    ensures i <= stop <= |body| && (stop < |body| ==> body[stop] in stops && Closes(body[i..stop]))
    ensures FreeOfFrom(body[i..stop], START, stops)
    ensures Nested(body, i) ==> Nested(body, stop) && WellNested(body[i..stop])
  {
    var l := Lex(i, Code, 0);
    stop := if StopFrom(body, l, stops) < |body| then StopFrom(body, l, stops) else |body|;
    StopSplits(body, i, l, stops, stop);
    assert Lex(i - i, Code, 0) == START;
  }

  lemma SeparatorsPlain(c: char)
    requires c == ',' || c == ':'
    ensures Plain(c)
  {
  }

  predicate Legal(e: Entry) {
    WellNested(e.head) && FreeOfFrom(e.head, START, {',', ':'})
    && (e.value.Some? ==> WellNested(e.value.value) && FreeOfFrom(e.value.value, START, {','}))
  }

  lemma LegalSettles(e: Entry)
    requires Legal(e)
    ensures Settled(e)
  {
    WellNestedCloses(e.head, START);
    if e.value.Some? { WellNestedCloses(e.value.value, START); }
  }

  lemma SettledIsLoose(e: Entry)
    requires Settled(e)
    ensures Loose(e) && LastKey(e) == EntryKey(e)
  {
  }

  // Settled entries are cut as they stand, and each head is a key.
  lemma {:induction false} SettledIsCut(es: seq<Entry>)
    requires es != [] && forall e :: e in es ==> Settled(e)
    ensures Cut(es) && CutKeys(es) == EntryKeys(es)
    decreases |es|
  {
    assert es[0] in es;
    if |es| == 1 {
      SettledIsLoose(es[0]);
      assert EntryKeys(es) == EntryKey(es[0]) + EntryKeys(es[1..]);
      assert EntryKey(es[0]) + [] == EntryKey(es[0]);
    } else {
      SettledIsCut(es[1..]);
    }
  }

  lemma LegalIsCut(es: seq<Entry>)
    requires es != [] && forall e :: e in es ==> Legal(e)
    ensures Cut(es) && CutKeys(es) == EntryKeys(es)
  {
    forall e | e in es
      ensures Settled(e)
    {
      LegalSettles(e);
    }
    SettledIsCut(es);
  }

  // One entry off the front of the rest of a body
  lemma TakeEntry(body: string, i: nat) returns (e: Entry, end: nat)
    requires i <= |body|
    ensures i <= end <= |body| && body[i..end] == PrintEntry(e)
    ensures if end < |body| then body[end] == ',' && Settled(e) else Loose(e)
    ensures Nested(body, i) ==> Legal(e) && (end < |body| ==> Nested(body, end + 1))
  {
    var stop := TakeSegment(body, i, {',', ':'});
    if stop < |body| && body[stop] == ':' {
      SeparatorsPlain(':');
      NestedPlain(body, stop);
      end := TakeSegment(body, stop + 1, {','});
      e := Entry(body[i..stop], Some(body[stop + 1..end]));
      assert body[i..end] == body[i..stop] + (":" + body[stop + 1..end]);
    } else {
      end := stop;
      e := Entry(body[i..stop], None);
      assert PrintEntry(e) == body[i..stop] + "" == body[i..stop];
    }
    if end < |body| {
      SeparatorsPlain(',');
      NestedPlain(body, end);
    }
  }

  lemma {:induction false} CutBody(body: string, i: nat) returns (es: seq<Entry>)
    requires i <= |body|
    ensures Cut(es) && Print(es) == body[i..]
    ensures Nested(body, i) ==> forall e :: e in es ==> Legal(e)
    decreases |body| - i
  {
    var e, end := TakeEntry(body, i);
    if end == |body| {
      es := [e];
      assert body[i..end] == body[i..];
    } else {
      var rest := CutBody(body, end + 1);
      es := [e] + rest;
      assert es[1..] == rest;
      assert body[i..] == body[i..end] + ("," + body[end + 1..]);
    }
  }

  // On every body, balanced or not, the keys read are the trimmed code texts in front of the colons and
  // commas at which the scanner's own depth is zero, empty ones left out, and a last one left open.
  lemma KeysOfBody(body: string) returns (es: seq<Entry>)
    ensures Cut(es) && Print(es) == body && KeysOf(body) == CutKeys(es)
    ensures WellNested(body) ==> (forall e :: e in es ==> Legal(e)) && CutKeys(es) == EntryKeys(es)
  {
    es := CutBody(body, 0);
    assert body[0..] == body;
    KeysOfCut(es);
    if WellNested(body) { LegalIsCut(es); }
  }
}
