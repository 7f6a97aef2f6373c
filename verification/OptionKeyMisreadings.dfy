/**
 What config/scripts/call-site-option-keys.ts answers for arguments it does not understand.  Its comments
 promise that unreadable shapes are refused; here is exactly when a braced argument is, one object literal
 or not.
 */
module OptionKeyMisreadings {
  import opened Options
  import opened Sequences
  import opened Strings
  import opened OptionKeys
  import opened OptionKeyReading
  import opened OptionKeyCutting
  import opened OptionKeyRoundTrip

  // ---------- every braced argument ----------

  // What the entry at `i` of a cut contributes: its key, unless it comes last and is left open
  function KeyAt(es: seq<Entry>, i: nat): seq<string>
    requires i < |es|
  {
    if i == |es| - 1 then LastKey(es[i]) else EntryKey(es[i])
  }

  lemma {:induction false} CutKeysFrom(es: seq<Entry>)
    requires es != []
    ensures forall k :: k in CutKeys(es) <==> exists i :: 0 <= i < |es| && KeyAt(es, i) == [k]
    decreases |es|
  {
    if |es| == 1 {
      assert KeyAt(es, 0) == CutKeys(es);
    } else {
      var rest := es[1..];
      CutKeysFrom(rest);
      assert KeyAt(es, 0) == EntryKey(es[0]);
      assert forall i :: 0 <= i < |rest| ==> KeyAt(es, i + 1) == KeyAt(rest, i);
      forall k
        ensures k in CutKeys(es) <==> exists i :: 0 <= i < |es| && KeyAt(es, i) == [k]
      {
        if k in CutKeys(rest) {
          var i :| 0 <= i < |rest| && KeyAt(rest, i) == [k];
          assert KeyAt(es, i + 1) == [k];
        }
        if i :| 0 <= i < |es| && KeyAt(es, i) == [k] && i > 0 {
          assert KeyAt(rest, i - 1) == [k];
        }
      }
    }
  }

  lemma BracedRead(text: string, at: nat, args: string, body: string)
    requires BalancedText(text, at) == Some(args) && Trim(args) == "{" + body + "}"
    ensures ReadOptions(text, at) == Verdict(KeysOf(body))
  {
    var trimmed := Trim(args);
    assert trimmed[0] == '{' && trimmed[|trimmed| - 1] == '}' && trimmed[1..|trimmed| - 1] == body;
  }

  lemma CutReadable(es: seq<Entry>, keys: seq<string>)
    requires es != [] && keys == CutKeys(es)
    ensures Verdict(keys).Readable? <==> forall i :: 0 <= i < |es| ==> KeyAt(es, i) == [] || IsIdentifier(KeyAt(es, i)[0])
  {
    IdentifiersReadable(keys);
    CutKeysFrom(es);
    forall i | 0 <= i < |es|
      ensures KeyAt(es, i) == [] || (KeyAt(es, i) == [KeyAt(es, i)[0]] && KeyAt(es, i)[0] in keys)
    {
    }
  }

  // Every braced argument, balanced or not, is answered from its cut, and as readable exactly when each
  // head of the cut is blank or an identifier.
  lemma BracedAnswer(text: string, at: nat, args: string, es: seq<Entry>)
    requires Cut(es) && BalancedText(text, at) == Some(args) && Trim(args) == "{" + Print(es) + "}"
    ensures ReadOptions(text, at) == Verdict(CutKeys(es))
    ensures ReadOptions(text, at).Readable? <==> forall i :: 0 <= i < |es| ==> KeyAt(es, i) == [] || IsIdentifier(KeyAt(es, i)[0])
  {
    BracedRead(text, at, args, Print(es));
    KeysOfCut(es);
    CutReadable(es, CutKeys(es));
  }

  // An argument that begins and ends with braces but is not one object literal is refused if and only if
  // a head of its cut is neither blank nor an identifier.  Every such argument has a cut.
  lemma NotOneObjectRefusedIff(text: string, at: nat, args: string, body: string) returns (es: seq<Entry>)
    requires BalancedText(text, at) == Some(args) && Trim(args) == "{" + body + "}" && BalancedText(Trim(args), 0) != Some(body)
    ensures Cut(es) && Print(es) == body && !WellNested(body)
    ensures ReadOptions(text, at).UnreadableKey? <==> exists i :: 0 <= i < |es| && KeyAt(es, i) != [] && !IsIdentifier(KeyAt(es, i)[0])
    ensures !ReadOptions(text, at).UnreadableKey? ==> ReadOptions(text, at) == Readable(CutKeys(es))
  {
    SoleObjectIffWellNested(body);
    es := KeysOfBody(body);
    BracedAnswer(text, at, args, es);
  }

  // ---------- two objects ----------

  // What stands between the bodies of two objects: braces, and between them neither brackets, quotes nor slashes
  function Joint(mid: string): string { "}" + (mid + "{") }

  ghost predicate AllPlain(s: string) { forall k :: 0 <= k < |s| ==> Plain(s[k]) }

  // Below depth zero no separator counts.
  lemma BelowZeroTurn(s: string, i: nat, l: Lex, after: Lex, chars: set<char>)
    requires l == Lex(i, Code, -1) && after == Lex(i + 1, Code, -1) && i < |s| && Plain(s[i])
    ensures EndOf(s, l) == EndOf(s, after) && FreeOfFrom(s, l, chars) == FreeOfFrom(s, after, chars)
    ensures CodeTextFrom(s, l) == [s[i]] + CodeTextFrom(s, after)
  {
    NextPlain(s, l);
  }

  lemma {:induction false} BelowZero(s: string, i: nat, j: nat, l: Lex, after: Lex, chars: set<char>)
    requires i <= j <= |s| && (forall k :: i <= k < j ==> Plain(s[k])) && l == Lex(i, Code, -1) && after == Lex(j, Code, -1)
    ensures EndOf(s, l) == EndOf(s, after) && FreeOfFrom(s, l, chars) == FreeOfFrom(s, after, chars)
    ensures CodeTextFrom(s, l) == s[i..j] + CodeTextFrom(s, after)
    decreases j - i
  {
    if i < j {
      var next := Lex(i + 1, Code, -1);
      BelowZeroTurn(s, i, l, next, chars);
      BelowZero(s, i + 1, j, next, after, chars);
      CharacterFirst(s, i, j, CodeTextFrom(s, after));
    }
  }

  lemma CharacterFirst(s: string, i: nat, j: nat, rest: string)
    requires i < j <= |s|
    ensures [s[i]] + (s[i + 1..j] + rest) == s[i..j] + rest
  {
    assert [s[i]] + s[i + 1..j] == s[i..j];
  }

  lemma JointEnds(s: string, i: nat)
    requires i + 1 == |s| && s[i] == '{'
    ensures EndOf(s, Lex(i, Code, -1)) == Lex(|s|, Code, 0) && FreeOfFrom(s, Lex(i, Code, -1), {',', ':'})
    ensures CodeTextFrom(s, Lex(i, Code, -1)) == "{"
  {
    BracketTurn(s, Lex(i, Code, -1));
    assert EndOf(s, Lex(|s|, Code, 0)) == Lex(|s|, Code, 0) && CodeTextFrom(s, Lex(|s|, Code, 0)) == "";
  }

  lemma JointOpens(s: string)
    requires s != "" && s[0] == '}'
    ensures EndOf(s, START) == EndOf(s, Lex(1, Code, -1)) && FreeOfFrom(s, START, {',', ':'}) == FreeOfFrom(s, Lex(1, Code, -1), {',', ':'})
    ensures CodeTextFrom(s, START) == "}" + CodeTextFrom(s, Lex(1, Code, -1))
  {
    assert Next(s, START) == Lex(1, Code, -1);
  }

  // To the key scanner the joint is one segment, commas and colons in it included.
  lemma JointSegment(mid: string)
    requires AllPlain(mid)
    ensures Segment(Joint(mid), {',', ':'}) && CodeTextFrom(Joint(mid), START) == Joint(mid)
  {
    var s := Joint(mid);
    var end := 1 + |mid|;
    assert s[1..end] == mid && s[end] == '{';
    JointOpens(s);
    BelowZero(s, 1, end, Lex(1, Code, -1), Lex(end, Code, -1), {',', ':'});
    JointEnds(s, end);
  }

  // The two entries that meet at the joint are one to the key scanner.
  function Join(x: Entry, mid: string, y: Entry): Entry {
    if x.value.Some? then Entry(x.head, Some(x.value.value + (Joint(mid) + PrintEntry(y))))
    else Entry(x.head + (Joint(mid) + y.head), y.value)
  }

  function Merge(es: seq<Entry>, mid: string, fs: seq<Entry>): seq<Entry>
    requires es != [] && fs != []
  {
    if |es| == 1 then [Join(es[0], mid, fs[0])] + fs[1..] else [es[0]] + Merge(es[1..], mid, fs)
  }

  lemma JoinPrinted(x: Entry, mid: string, y: Entry)
    ensures PrintEntry(Join(x, mid, y)) == PrintEntry(x) + (Joint(mid) + PrintEntry(y))
  {
    if x.value.Some? {
      assert x.head + (":" + (x.value.value + (Joint(mid) + PrintEntry(y)))) == (x.head + (":" + x.value.value)) + (Joint(mid) + PrintEntry(y));
    } else {
      assert PrintEntry(x) == x.head;
      var rest := if y.value.Some? then ":" + y.value.value else "";
      assert (x.head + (Joint(mid) + y.head)) + rest == x.head + (Joint(mid) + (y.head + rest));
    }
  }

  lemma PrintFirst(e: Entry, rest: seq<Entry>)
    ensures Print([e] + rest) == PrintEntry(e) + if rest == [] then "" else "," + Print(rest)
  {
    assert ([e] + rest)[1..] == rest;
  }

  lemma {:induction false} MergePrinted(es: seq<Entry>, mid: string, fs: seq<Entry>)
    requires es != [] && fs != []
    ensures Print(Merge(es, mid, fs)) == Print(es) + (Joint(mid) + Print(fs))
    decreases |es|
  {
    if |es| == 1 {
      var tail := if fs[1..] == [] then "" else "," + Print(fs[1..]);
      assert fs == [fs[0]] + fs[1..];
      PrintFirst(fs[0], fs[1..]);
      PrintFirst(Join(es[0], mid, fs[0]), fs[1..]);
      JoinPrinted(es[0], mid, fs[0]);
      assert (PrintEntry(es[0]) + (Joint(mid) + PrintEntry(fs[0]))) + tail == PrintEntry(es[0]) + (Joint(mid) + (PrintEntry(fs[0]) + tail));
    } else {
      MergePrinted(es[1..], mid, fs);
      PrintFirst(es[0], Merge(es[1..], mid, fs));
      assert PrintEntry(es[0]) + ("," + (Print(es[1..]) + (Joint(mid) + Print(fs)))) == (PrintEntry(es[0]) + ("," + Print(es[1..]))) + (Joint(mid) + Print(fs));
    }
  }

  // A segment behind the joint
  lemma BehindJoint(a: string, mid: string, b: string, chars: set<char>)
    requires Segment(a, chars) && Segment(b, chars) && Segment(Joint(mid), chars)
    ensures Segment(a + (Joint(mid) + b), chars)
    ensures CodeTextFrom(a + (Joint(mid) + b), START) == CodeTextFrom(a, START) + (CodeTextFrom(Joint(mid), START) + CodeTextFrom(b, START))
  {
    JointUnslashed(Joint(mid));
    SegmentsJoin(Joint(mid), b, chars);
    assert (Joint(mid) + b)[0] == '}';
    SegmentsJoin(a, Joint(mid) + b, chars);
  }

  lemma JointUnslashed(s: string)
    requires s != "" && s[|s| - 1] == '{'
    ensures !LoneSlashFrom(s, START)
  {
    NoLoneSlash(s, START);
  }

  lemma {:induction false} FreeOfFewer(s: string, l: Lex)
    requires FreeOfFrom(s, l, {',', ':'})
    ensures FreeOfFrom(s, l, {','})
    decreases |s| - l.pos
  {
    if l.pos < |s| {
      FreeOfFewer(s, Next(s, l));
    }
  }

  lemma ColonSegment(s: string)
    requires s == ":"
    ensures Segment(s, {','}) && !LoneSlashFrom(s, START)
  {
    NextPlain(s, START);
    assert EndOf(s, Lex(1, Code, 0)) == Lex(1, Code, 0);
    NoLoneSlash(s, START);
  }

  // A legal entry, printed, is a segment of a value.
  lemma EntrySegment(e: Entry)
    requires Legal(e)
    ensures Segment(PrintEntry(e), {','})
  {
    LegalSettles(e);
    FreeOfFewer(e.head, START);
    if e.value.Some? {
      ColonSegment(":");
      SegmentsJoin(":", e.value.value, {','});
      SegmentsJoin(e.head, ":" + e.value.value, {','});
    } else {
      HeadAlone(e);
    }
  }

  lemma JoinSettled(x: Entry, mid: string, y: Entry)
    requires Legal(x) && Legal(y) && AllPlain(mid)
    ensures Settled(Join(x, mid, y))
    ensures x.value.Some? ==> EntryKey(Join(x, mid, y)) == EntryKey(x)
    ensures x.value.None? ==> CodeTextFrom(Join(x, mid, y).head, START) == CodeTextFrom(x.head, START) + (Joint(mid) + CodeTextFrom(y.head, START))
  {
    LegalSettles(x);
    LegalSettles(y);
    JointSegment(mid);
    if x.value.Some? {
      FreeOfFewer(Joint(mid), START);
      EntrySegment(y);
      BehindJoint(x.value.value, mid, PrintEntry(y), {','});
    } else {
      BehindJoint(x.head, mid, y.head, {',', ':'});
    }
  }

  // A key that swallowed the joint is no identifier.
  lemma BraceIsNoKey(before: string, mid: string, after: string)
    ensures var key := KeyOf(before + (Joint(mid) + after)); |key| == 1 && !IsIdentifier(key[0])
  {
    var code := before + (Joint(mid) + after);
    var left, right := TrimSplit(code);
    assert code[|before|] == '}' && !IsSpace('}') && !IsWord('}');
    assert '}' in left || '}' in Trim(code) || '}' in right;
  }

  // What is read where the two objects meet
  lemma JoinKey(x: Entry, mid: string, y: Entry)
    requires Legal(x) && Legal(y) && AllPlain(mid)
    ensures var key := EntryKey(Join(x, mid, y));
            if x.value.Some? then key == EntryKey(x) else |key| == 1 && !IsIdentifier(key[0])
  {
    JoinSettled(x, mid, y);
    if x.value.None? {
      BraceIsNoKey(CodeTextFrom(x.head, START), mid, CodeTextFrom(y.head, START));
    }
  }

  lemma KeysFirst(e: Entry, rest: seq<Entry>)
    ensures EntryKeys([e] + rest) == EntryKey(e) + EntryKeys(rest)
  {
    assert ([e] + rest)[1..] == rest;
  }

  lemma {:induction false} MergeCut(es: seq<Entry>, mid: string, fs: seq<Entry>)
    requires es != [] && fs != [] && (forall e :: e in es ==> Legal(e)) && (forall e :: e in fs ==> Legal(e)) && AllPlain(mid)
    ensures forall e :: e in Merge(es, mid, fs) ==> Settled(e)
    decreases |es|
  {
    assert es[0] in es && fs[0] in fs;
    forall e | e in es || e in fs
      ensures Settled(e)
    {
      LegalSettles(e);
    }
    if |es| == 1 {
      JoinSettled(es[0], mid, fs[0]);
    } else {
      MergeCut(es[1..], mid, fs);
    }
  }

  lemma MergeOne(x: Entry, mid: string, fs: seq<Entry>) returns (met: seq<string>)
    requires fs != [] && Legal(x) && Legal(fs[0]) && AllPlain(mid)
    ensures EntryKeys([Join(x, mid, fs[0])] + fs[1..]) == met + EntryKeys(fs[1..])
    ensures if x.value.Some? then met == EntryKey(x) else |met| == 1 && !IsIdentifier(met[0])
  {
    JoinKey(x, mid, fs[0]);
    met := EntryKey(Join(x, mid, fs[0]));
    KeysFirst(Join(x, mid, fs[0]), fs[1..]);
  }

  // One entry more in front
  lemma KeysInFront(e: Entry, all: seq<Entry>, before: seq<Entry>, more: seq<string>)
    requires EntryKeys(all) == EntryKeys(before) + more
    ensures EntryKeys([e] + all) == EntryKeys([e] + before) + more
  {
    KeysFirst(e, all);
    KeysFirst(e, before);
    ConcatAssociates(EntryKey(e), EntryKeys(before), more);
  }

  lemma ButLast(es: seq<Entry>)
    requires |es| > 1
    ensures es[..|es| - 1] == [es[0]] + es[1..][..|es[1..]| - 1] && es[1..][|es[1..]| - 1] == es[|es| - 1]
  {
  }

  // The keys read: those of the first object, and those of the second but its first.
  lemma {:induction false} MergeKeys(es: seq<Entry>, mid: string, fs: seq<Entry>) returns (met: seq<string>)
    requires es != [] && fs != [] && (forall e :: e in es ==> Legal(e)) && (forall e :: e in fs ==> Legal(e)) && AllPlain(mid)
    ensures EntryKeys(Merge(es, mid, fs)) == EntryKeys(es[..|es| - 1]) + (met + EntryKeys(fs[1..]))
    ensures if es[|es| - 1].value.Some? then met == EntryKey(es[|es| - 1]) else |met| == 1 && !IsIdentifier(met[0])
    decreases |es|
  {
    if |es| == 1 {
      met := MergeOne(es[0], mid, fs);
      assert EntryKeys(es[..0]) == [];
      assert [] + (met + EntryKeys(fs[1..])) == met + EntryKeys(fs[1..]);
    } else {
      met := MergeKeys(es[1..], mid, fs);
      ButLast(es);
      KeysInFront(es[0], Merge(es[1..], mid, fs), es[1..][..|es[1..]| - 1], met + EntryKeys(fs[1..]));
    }
  }

  lemma {:induction false} KeysLast(es: seq<Entry>, n: nat)
    requires |es| == n + 1
    ensures EntryKeys(es) == EntryKeys(es[..n]) + EntryKey(es[n])
    decreases n
  {
    if n == 0 {
      assert es == [es[0]] + [] && es[..0] == [];
      KeysFirst(es[0], []);
    } else {
      KeysLast(es[1..], n - 1);
      assert es == [es[0]] + es[1..] && es[..n] == [es[0]] + es[1..][..n - 1];
      KeysFirst(es[0], es[1..]);
      KeysFirst(es[0], es[1..][..n - 1]);
    }
  }

  // The body of the two objects is not well nested, and still the call closes at its own parenthesis.
  ghost predicate TwoBodies(text: string, i: nat, a: string, mid: string, b: string) {
    var up, down := i + |a|, i + |a| + |mid| + 2;
    && down + |b| <= |text| && text[i..up] == a && text[up] == '}' && text[up + 1..down - 1] == mid && text[down - 1] == '{'
    && text[down..down + |b|] == b && (down + |b| < |text| ==> text[down + |b|] == '}')
  }

  lemma PlainSkipped(text: string, i: nat, mid: string)
    requires AllPlain(mid) && i + |mid| <= |text| && text[i..i + |mid|] == mid
    ensures CloseFrom(text, Lex(i, Code, 1)) == CloseFrom(text, Lex(i + |mid|, Code, 1))
  {
    PlainWellNested(mid, 0);
    CloseSkipsFrom(text, i, mid, 1);
  }

  // From the brace that ends the first body to the one that begins the second
  lemma JointSkipped(text: string, up: nat, down: nat, mid: string)
    requires down == up + |mid| + 2 <= |text| && text[up] == '}' && text[up + 1..down - 1] == mid && text[down - 1] == '{' && AllPlain(mid)
    ensures CloseFrom(text, Lex(up, Code, 2)) == CloseFrom(text, Lex(down, Code, 2))
  {
    InnerBrace(text, up);
    PlainSkipped(text, up + 1, mid);
    OpenerSkipped(text, Lex(down - 1, Code, 1), Lex(down, Code, 2));
  }

  lemma TwoBodiesSkipped(text: string, i: nat, a: string, mid: string, b: string)
    requires TwoBodies(text, i, a, mid, b) && WellNested(a) && AllPlain(mid) && WellNested(b)
    ensures CloseFrom(text, Lex(i, Code, 2)) == CloseFrom(text, Lex(i + |a| + |mid| + 2 + |b|, Code, 2))
  {
    var up, down := i + |a|, i + |a| + |mid| + 2;
    CloseSkipsFrom(text, i, a, 2);
    JointSkipped(text, up, down, mid);
    CloseSkipsFrom(text, down, b, 2);
  }

  lemma ClosingUnnested(text: string, i: nat)
    requires i < |text| && text[i] == '}'
    ensures !Nested(text, i)
  {
    assert Next(text, Lex(i, Code, 0)) == Lex(i + 1, Code, -1) && !WellNestedFrom(text, Lex(i + 1, Code, -1));
  }

  lemma TwoBodiesUnnested(text: string, a: string, mid: string, b: string)
    requires TwoBodies(text, 0, a, mid, b) && WellNested(a)
    ensures !WellNested(text)
  {
    NestedSkips(text, 0, a);
    ClosingUnnested(text, |a|);
  }

  function TwoObjects(a: string, mid: string, b: string): string { a + (Joint(mid) + b) }

  lemma TwoObjectsPieces(all: string, a: string, mid: string, b: string, up: nat, down: nat)
    requires all == TwoObjects(a, mid, b) && up == |a| && down == up + |mid| + 2
    ensures |all| == down + |b|
    ensures all[..up] == a && all[up] == '}' && all[up + 1..down - 1] == mid && all[down - 1] == '{' && all[down..] == b
  {
    var joint := Joint(mid);
    assert joint[0] == '}' && joint[1..|mid| + 1] == mid && joint[|mid| + 1] == '{';
    assert all[..up] == a && all[up..][..|joint|] == joint && all[down..] == b;
    SubSlice(all, up, down, 1, |mid| + 1);
    assert all[up..down] == joint;
  }

  lemma TwoBodiesStand(text: string, i: nat, a: string, mid: string, b: string)
    requires var end := i + |TwoObjects(a, mid, b)|; end <= |text| && text[i..end] == TwoObjects(a, mid, b) && (end < |text| ==> text[end] == '}')
    ensures TwoBodies(text, i, a, mid, b)
  {
    var all := TwoObjects(a, mid, b);
    var up, down := |a|, |a| + |mid| + 2;
    TwoObjectsPieces(all, a, mid, b, up, down);
    PiecesStand(text, i, all, a, mid, b, up, down);
  }

  lemma PiecesStand(text: string, i: nat, all: string, a: string, mid: string, b: string, up: nat, down: nat)
    requires up == |a| && down == up + |mid| + 2 && |all| == down + |b|
    requires all[..up] == a && all[up] == '}' && all[up + 1..down - 1] == mid && all[down - 1] == '{' && all[down..] == b
    requires i + |all| <= |text| && text[i..i + |all|] == all && (i + |all| < |text| ==> text[i + |all|] == '}')
    ensures TwoBodies(text, i, a, mid, b)
  {
    SubSlice(text, i, i + |all|, 0, up);
    SubSlice(text, i, i + |all|, up + 1, down - 1);
    SubSlice(text, i, i + |all|, down, |all|);
    assert all[0..up] == a && all[down..|all|] == b;
    assert text[i + up] == all[up] && text[i + down - 1] == all[down - 1];
  }

  lemma TwoObjectsSkipped(text: string, i: nat, end: nat, body: string, a: string, mid: string, b: string)
    requires body == TwoObjects(a, mid, b) && WellNested(a) && AllPlain(mid) && WellNested(b)
    requires end == i + |body| < |text| && text[i..end] == body && text[end] == '}'
    ensures CloseFrom(text, Lex(i, Code, 2)) == CloseFrom(text, Lex(end, Code, 2))
  {
    TwoBodiesStand(text, i, a, mid, b);
    TwoBodiesSkipped(text, i, a, mid, b);
  }

  lemma TwoObjectsCall(text: string, at: nat, left: string, body: string, a: string, mid: string, b: string, right: string)
    requires Holds(text, at, left, body, right) && AllSpaces(left) && AllSpaces(right)
    requires body == TwoObjects(a, mid, b) && WellNested(a) && AllPlain(mid) && WellNested(b)
    ensures BalancedText(text, at) == Some(left + ("{" + body + "}") + right)
  {
    TwoObjectsSkipped(text, at + 2 + |left|, at + 2 + |left| + |body|, body, a, mid, b);
    CallCloses(text, at, left, body, right);
  }

  lemma TwoObjectsNotOne(a: string, mid: string, b: string)
    requires WellNested(a)
    ensures BalancedText("{" + TwoObjects(a, mid, b) + "}", 0) != Some(TwoObjects(a, mid, b))
  {
    var body := TwoObjects(a, mid, b);
    assert body[0..|body|] == body;
    TwoBodiesStand(body, 0, a, mid, b);
    TwoBodiesUnnested(body, a, mid, b);
    SoleObjectIffWellNested(body);
  }

  lemma TwoObjectsKeys(es: seq<Entry>, mid: string, fs: seq<Entry>) returns (met: seq<string>)
    requires es != [] && fs != [] && (forall e :: e in es ==> Legal(e)) && (forall e :: e in fs ==> Legal(e)) && AllPlain(mid)
    ensures KeysOf(TwoObjects(Print(es), mid, Print(fs))) == EntryKeys(es[..|es| - 1]) + (met + EntryKeys(fs[1..]))
    ensures if es[|es| - 1].value.Some? then met == EntryKey(es[|es| - 1]) else |met| == 1 && !IsIdentifier(met[0])
  {
    var all := Merge(es, mid, fs);
    MergePrinted(es, mid, fs);
    MergeCut(es, mid, fs);
    SettledIsCut(all);
    KeysOfCut(all);
    met := MergeKeys(es, mid, fs);
  }

  // A call with two objects for arguments, or with two objects joined by anything plain, is not refused as
  // such: it is answered as readable if and only if the last entry of the first object has a value and the
  // other heads, all but the first of the second object, are blank or identifiers.  That first is then lost.
  lemma TwoObjectsAnswer(pre: string, left: string, es: seq<Entry>, mid: string, fs: seq<Entry>, right: string, post: string)
    requires es != [] && fs != [] && (forall e :: e in es ==> Legal(e)) && (forall e :: e in fs ==> Legal(e))
    requires AllPlain(mid) && AllSpaces(left) && AllSpaces(right)
    ensures var body := TwoObjects(Print(es), mid, Print(fs));
            var answer := ReadOptions(pre + Call(left, body, right) + post, |pre|);
            && BalancedText("{" + body + "}", 0) != Some(body)
            && (answer.Readable? <==> es[|es| - 1].value.Some? && forall k :: k in EntryKeys(es) + EntryKeys(fs[1..]) ==> IsIdentifier(k))
            && (answer.Readable? ==> answer.keys == EntryKeys(es) + EntryKeys(fs[1..]))
  {
    PrintWellNested(es);
    PrintWellNested(fs);
    var a, b := Print(es), Print(fs);
    TwoObjectsNotOne(a, mid, b);
    CallHeld(pre, left, TwoObjects(a, mid, b), right, post);
    var text := pre + Call(left, TwoObjects(a, mid, b), right) + post;
    TwoObjectsCall(text, |pre|, left, TwoObjects(a, mid, b), a, mid, b, right);
    ReadBraced(text, |pre|, left, TwoObjects(a, mid, b), right);
    var met := TwoObjectsKeys(es, mid, fs);
    TwoObjectsVerdict(es, fs, met, KeysOf(TwoObjects(a, mid, b)));
  }

  lemma TwoObjectsVerdict(es: seq<Entry>, fs: seq<Entry>, met: seq<string>, keys: seq<string>)
    requires es != [] && fs != [] && keys == EntryKeys(es[..|es| - 1]) + (met + EntryKeys(fs[1..]))
    requires if es[|es| - 1].value.Some? then met == EntryKey(es[|es| - 1]) else |met| == 1 && !IsIdentifier(met[0])
    ensures Verdict(keys).Readable? <==> es[|es| - 1].value.Some? && forall k :: k in EntryKeys(es) + EntryKeys(fs[1..]) ==> IsIdentifier(k)
    ensures Verdict(keys).Readable? ==> Verdict(keys).keys == EntryKeys(es) + EntryKeys(fs[1..])
  {
    IdentifiersReadable(keys);
    KeysLast(es, |es| - 1);
    if es[|es| - 1].value.Some? {
      ConcatAssociates(EntryKeys(es[..|es| - 1]), met, EntryKeys(fs[1..]));
    } else {
      assert met[0] in keys;
    }
  }

  // The keys left of two lists
  lemma NamesLeft(ks: seq<Key>, ls: seq<Key>, es: seq<Entry>, fs: seq<Entry>, names: seq<string>)
    requires ks != [] && ls != [] && es == EntriesOf(ks, None) && fs == EntriesOf(ls, None) && names == Names(ks) + Names(ls[1..])
    requires (forall k :: k in ks ==> Written(k)) && (forall l :: l in ls ==> Written(l))
    ensures es != [] && fs != [] && (forall e :: e in es ==> Legal(e)) && (forall e :: e in fs ==> Legal(e))
    ensures EntryKeys(es) + EntryKeys(fs[1..]) == names && forall n :: n in names ==> IsIdentifier(n)
  {
    WrittenKeysRead(ks, None);
    WrittenKeysRead(ls, None);
    WrittenKeysRead(ls[1..], None);
    assert fs[1..] == EntriesOf(ls[1..], None);
    NamesReadable(ks);
    NamesReadable(ls[1..]);
    IdentifiersReadable(Names(ks));
    IdentifiersReadable(Names(ls[1..]));
  }

  // Keys of both objects, all of them identifiers: the first of the second object is lost without a word.
  lemma TwoObjectsLoseKey(pre: string, left: string, ks: seq<Key>, mid: string, ls: seq<Key>, right: string, post: string)
    requires (forall k :: k in ks ==> Written(k)) && (forall l :: l in ls ==> Written(l)) && AllPlain(mid) && AllSpaces(left) && AllSpaces(right)
    requires ks != [] && ls != [] && ks[|ks| - 1].value.Some?
    ensures EntriesOf(ks, None) != [] && EntriesOf(ls, None) != []
    ensures ReadOptions(pre + Call(left, TwoObjects(Print(EntriesOf(ks, None)), mid, Print(EntriesOf(ls, None))), right) + post, |pre|)
         == Readable(Names(ks) + Names(ls[1..]))
  {
    var es, fs := EntriesOf(ks, None), EntriesOf(ls, None);
    NamesLeft(ks, ls, es, fs, Names(ks) + Names(ls[1..]));
    LastEntry(ks);
    TwoObjectsAnswer(pre, left, es, mid, fs, right, post);
  }

  lemma {:induction false} LastEntry(ks: seq<Key>)
    requires ks != []
    ensures EntriesOf(ks, None) != [] && EntriesOf(ks, None)[|EntriesOf(ks, None)| - 1].value == ks[|ks| - 1].value
    decreases |ks|
  {
    if |ks| > 1 {
      LastEntry(ks[1..]);
    } else {
      assert EntriesOf(ks[1..], None) == [];
    }
  }

  lemma PlainValue(name: string, value: string)
    requires IsIdentifier(name) && value != "" && AllPlain(value) && ',' !in value
    ensures Written(Key("", name, "", Some(value))) && EntryOf(Key("", name, "", Some(value))) == Entry(name, Some(value))
  {
    PlainWellNested(value, 0);
    PlainCodeText(value, 0);
    CodeTextFree(value, START, {','});
  }

  lemma PrintedOne(k: Key)
    ensures EntriesOf([k], None) == [EntryOf(k)] && Print([EntryOf(k)]) == PrintEntry(EntryOf(k))
  {
    assert [k][1..] == [] && EntriesOf([k][1..], None) == [];
  }

  lemma PrintedTwo(k: Key, l: Key)
    ensures EntriesOf([k, l], None) == [EntryOf(k), EntryOf(l)]
    ensures Print([EntryOf(k), EntryOf(l)]) == PrintEntry(EntryOf(k)) + ("," + PrintEntry(EntryOf(l)))
  {
    assert [k, l][1..] == [l] && [EntryOf(k), EntryOf(l)][1..] == [EntryOf(l)];
    PrintedOne(l);
  }

  lemma TwoKeysRead(text: string, a: Key, b: Key, c: Key)
    requires text == "({a:1},{b:2,c:3})"
    requires EntryOf(a) == Entry("a", Some("1")) && EntryOf(b) == Entry("b", Some("2")) && EntryOf(c) == Entry("c", Some("3"))
    requires Written(a) && Written(b) && Written(c)
    ensures ReadOptions(text, 0) == Readable([a.name, c.name])
  {
    TwoObjectsSpelled(text, a, b, c);
    TwoObjectsLoseKey("", "", [a], ",", [b, c], "", "");
    assert [b, c][1..] == [c];
    assert Names([a]) + Names([c]) == [a.name, c.name];
  }

  lemma TwoObjectsSpelled(text: string, a: Key, b: Key, c: Key)
    requires text == "({a:1},{b:2,c:3})"
    requires EntryOf(a) == Entry("a", Some("1")) && EntryOf(b) == Entry("b", Some("2")) && EntryOf(c) == Entry("c", Some("3"))
    ensures EntriesOf([a], None) != [] && EntriesOf([b, c], None) != []
    ensures "" + Call("", TwoObjects(Print(EntriesOf([a], None)), ",", Print(EntriesOf([b, c], None))), "") + "" == text
  {
    PrintedOne(a);
    PrintedTwo(b, c);
    assert PrintEntry(EntryOf(a)) == "a:1" && PrintEntry(EntryOf(b)) + ("," + PrintEntry(EntryOf(c))) == "b:2,c:3";
    var call := Call("", TwoObjects("a:1", ",", "b:2,c:3"), "");
    assert call == text && "" + call + "" == call;
  }

  // Two objects for arguments: the call passes `b`, and the answer does not have it.
  lemma TwoObjectsRead(text: string)
    requires text == "({a:1},{b:2,c:3})"
    ensures ReadOptions(text, 0) == Readable(["a", "c"])
  {
    PlainValue("a", "1");
    PlainValue("b", "2");
    PlainValue("c", "3");
    TwoKeysRead(text, Key("", "a", "", Some("1")), Key("", "b", "", Some("2")), Key("", "c", "", Some("3")));
  }

  // ---------- heads without code ----------

  // Somewhere in code stands something other than white space
  predicate HasCodeFrom(s: string, l: Lex)
    decreases |s| - l.pos
  {
    l.pos < |s| && ((InCode(s, l) && !IsSpace(s[l.pos])) || HasCodeFrom(s, Next(s, l)))
  }

  predicate HasCode(s: string) { HasCodeFrom(s, START) }

  lemma {:induction false} CodeTextIffCode(s: string, l: Lex)
    ensures HasCodeFrom(s, l) <==> !AllSpaces(CodeTextFrom(s, l))
    decreases |s| - l.pos
  {
    if l.pos < |s| {
      CodeTextIffCode(s, Next(s, l));
      var here := if InCode(s, l) then [s[l.pos]] else "";
      SpacesMore(here, CodeTextFrom(s, Next(s, l)));
      assert InCode(s, l) ==> here[0] == s[l.pos] && (AllSpaces(here) <==> IsSpace(s[l.pos]));
    }
  }

  lemma SpacesMore(a: string, b: string)
    ensures AllSpaces(a + b) <==> AllSpaces(a) && AllSpaces(b)
  {
    assert forall k :: 0 <= k < |a| ==> (a + b)[k] == a[k];
    assert forall k :: 0 <= k < |b| ==> (a + b)[|a| + k] == b[k];
  }

  // A head counts for a key exactly when it has code.
  lemma KeyIffCode(head: string)
    ensures KeyOf(CodeTextFrom(head, START)) != [] <==> HasCode(head)
  {
    var code := CodeTextFrom(head, START);
    CodeTextIffCode(head, START);
    if AllSpaces(code) {
      AllSpacesTrim(code);
    } else {
      TrimsToNothing(code);
    }
  }

  lemma TrimsToNothing(s: string)
    ensures Trim(s) == "" ==> AllSpaces(s)
  {
    var left, right := TrimSplit(s);
    SpacesMore(left + Trim(s), right);
    SpacesMore(left, Trim(s));
  }

  function HeadsWithCode(es: seq<Entry>): nat {
    if es == [] then 0 else (if HasCode(es[0].head) then 1 else 0) + HeadsWithCode(es[1..])
  }

  lemma {:induction false} KeysCounted(es: seq<Entry>)
    ensures |EntryKeys(es)| == HeadsWithCode(es) <= |es|
    ensures HeadsWithCode(es) == |es| <==> forall e :: e in es ==> HasCode(e.head)
    decreases |es|
  {
    if es != [] {
      KeyIffCode(es[0].head);
      KeysCounted(es[1..]);
    }
  }

  // On one object literal every entry is reported if and only if each head has code: what stands in quotes
  // or comments only, as a quoted key does, is dropped.
  lemma EveryEntryReportedIff(body: string) returns (es: seq<Entry>)
    requires BalancedText("{" + body + "}", 0) == Some(body)
    ensures es != [] && (forall e :: e in es ==> Legal(e)) && Print(es) == body && KeysOf(body) == EntryKeys(es)
    ensures |KeysOf(body)| == HeadsWithCode(es) <= |es|
    ensures |KeysOf(body)| == |es| <==> forall e :: e in es ==> HasCode(e.head)
    ensures (forall e :: e in es && e.value.Some? ==> EntryKey(e) != []) <==> forall e :: e in es && e.value.Some? ==> HasCode(e.head)
  {
    es := KeysOfSoleObject(body);
    KeysCounted(es);
    forall e | e in es
      ensures EntryKey(e) != [] <==> HasCode(e.head)
    {
      KeyIffCode(e.head);
    }
  }

  // A key in single quotes, whatever it says
  function Quoted(name: string): string { "'" + name + "'" }

  ghost predicate Unescaped(name: string) { forall k :: 0 <= k < |name| ==> name[k] != '\'' && name[k] != '\\' }

  lemma {:induction false} QuotedFrom(head: string, name: string, i: nat)
    requires head == Quoted(name) && Unescaped(name) && 1 <= i < |head|
    ensures WellNestedFrom(head, Lex(i, Single, 0)) && FreeOfFrom(head, Lex(i, Single, 0), {',', ':'})
    ensures CodeTextFrom(head, Lex(i, Single, 0)) == ""
    decreases |head| - i
  {
    if i < |head| - 1 {
      assert head[i] == name[i - 1];
      QuotedFrom(head, name, i + 1);
    } else {
      assert head[i] == '\'';
      assert Next(head, Lex(i, Single, 0)) == Lex(|head|, Code, 0);
    }
  }

  // A quoted key leaves no code text, so the key it carries is read as absent.
  lemma QuotedKeyDropped(pre: string, name: string, value: string, post: string)
    requires Unescaped(name) && WellNested(value) && FreeOfFrom(value, START, {','})
    ensures ReadOptions(pre + Call("", Quoted(name) + (":" + value), "") + post, |pre|) == Readable([])
  {
    var e := Entry(Quoted(name), Some(value));
    assert e.head[0] == '\'' && Next(e.head, START) == Lex(1, Single, 0);
    QuotedFrom(e.head, name, 1);
    AllSpacesTrim("");
    EntryKeysOne(e);
    ReadPrintedCall(pre, "", [e], "", post);
  }

  lemma EntryKeysOne(e: Entry)
    ensures EntryKeys([e]) == EntryKey(e) && Print([e]) == PrintEntry(e)
  {
    assert EntryKeys([e]) == EntryKey(e) + [];
  }

  // An argument that merely begins and ends with braces is not refused.  When the last brace stands in a
  // comment, the call is reported readable with no keys, although it passes the key `a`.
  lemma BraceInComment(text: string)
    requires text == "({a}//}\n)"
    ensures ReadOptions(text, 0) == Readable([])
  {
    CommentedCall(text);
    var trimmed := text[1..7];
    CommentedArguments(text[1..8], trimmed);
    assert trimmed[0] == '{' && trimmed[5] == '}';
    CommentedBody(trimmed[1..5]);
  }

  lemma CommentedArguments(args: string, trimmed: string)
    requires |args| == 7 && trimmed == args[..6] && args[6] == '\n' && args[0] == '{' && args[5] == '}'
    ensures Trim(args) == trimmed
  {
    assert !IsSpace('{') && !IsSpace('}') && IsSpace('\n');
    assert "" + trimmed + args[6..] == args;
    TrimSpaces("", trimmed, args[6..]);
  }

  lemma CommentedCall(text: string)
    requires |text| == 9 && text[0] == '(' && text[1] == '{' && text[2] == 'a' && text[3] == '}' && text[4] == text[5] == '/'
    requires text[6] == '}' && text[7] == '\n' && text[8] == ')'
    ensures CloseFrom(text, Lex(0, Code, 0)) == Some(8)
  {
    OpenerSkipped(text, Lex(0, Code, 0), Lex(1, Code, 1));
    OpenerSkipped(text, Lex(1, Code, 1), Lex(2, Code, 2));
    assert CloseFrom(text, Lex(2, Code, 2)) == CloseFrom(text, Lex(3, Code, 2));
    InnerBrace(text, 3);
    CommentSkipped(text);
  }

  lemma CommentSkipped(text: string)
    requires |text| == 9 && text[4] == text[5] == '/' && text[6] == '}' && text[7] == '\n' && text[8] == ')'
    ensures CloseFrom(text, Lex(4, Code, 1)) == Some(8)
  {
    LastParenthesis(text, 8);
    assert CloseFrom(text, Lex(7, LineComment, 1)) == CloseFrom(text, Lex(8, Code, 1));
    assert CloseFrom(text, Lex(6, LineComment, 1)) == CloseFrom(text, Lex(7, LineComment, 1));
  }

  lemma CommentedBody(body: string)
    requires |body| == 4 && body[0] == 'a' && body[1] == '}' && body[2] == body[3] == '/'
    ensures KeysOf(body) == []
  {
    ScannerScans(body);
    var f := Scanner(body);
    var k0 := KeyScan(START, false, "", []);
    var k1, k2, k3 := KeyNext(body, k0), KeyNext(body, KeyNext(body, k0)), KeyScan(Lex(4, LineComment, -1), false, "a}", []);
    assert k1 == KeyScan(Lex(1, Code, 0), false, "a", []);
    assert k2 == KeyScan(Lex(2, Code, -1), false, "a}", []);
    assert KeyNext(body, k2) == k3;
    assert TurnAt(body, f, k0) && TurnAt(body, f, k1) && TurnAt(body, f, k2) && TurnAt(body, f, k3);
    assert f(k0) == KeysFrom(body, k0);
  }
}
