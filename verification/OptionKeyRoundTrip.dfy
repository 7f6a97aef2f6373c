/**
 Printing the entries of an object literal and reading them back with the scanners of
 config/scripts/call-site-option-keys.ts, and why every sole object literal is such a printing.
 */
module OptionKeyRoundTrip {
  import opened Options
  import opened Sequences
  import opened Strings
  import opened OptionKeys
  import opened OptionKeyReading
  import opened OptionKeyCutting

  // ---------- printed entries ----------

  // The key scanner reads from printed entries the trimmed code text of each head, empty ones left out.
  lemma KeysOfPrint(es: seq<Entry>)
    requires es != [] && forall e :: e in es ==> Legal(e)
    ensures KeysOf(Print(es)) == EntryKeys(es)
  {
    LegalIsCut(es);
    KeysOfCut(es);
  }

  lemma {:induction false} NestingSkips(text: string, i: nat, s: string, l: Lex, up: nat)
    requires Embeds(text, i, s, l) && WellNestedFrom(s, l)
    ensures WellNestedFrom(text, At(l, i, up)) <==> WellNestedFrom(text, Lex(i + |s|, Code, up))
    decreases |s| - l.pos
  {
    if l.pos < |s| {
      NextEmbedded(text, i, s, l, up);
      NestingSkips(text, i, s, Next(s, l), up);
    }
  }

  lemma NestedSkips(text: string, i: nat, s: string)
    requires Embeds(text, i, s, START) && WellNested(s)
    ensures Nested(text, i) <==> Nested(text, i + |s|)
  {
    assert At(START, i, 0) == Lex(i, Code, 0);
    NestingSkips(text, i, s, START, 0);
  }

  lemma PairNested(body: string, i: nat, mid: nat, end: nat, head: string, value: string)
    requires WellNested(head) && WellNested(value) && PairStands(body, i, mid, end, head, value)
    ensures Nested(body, i) <==> Nested(body, end)
  {
    NestedSkips(body, i, head);
    NestedPlain(body, mid);
    NestedSkips(body, mid + 1, value);
  }

  lemma EntryNested(body: string, i: nat, end: nat, e: Entry)
    requires Legal(e) && EntryStands(body, i, end, e)
    ensures Nested(body, i) <==> Nested(body, end)
  {
    if e.value.Some? {
      PairSplit(body, i, end, e.head, e.value.value);
      PairNested(body, i, i + |e.head|, end, e.head, e.value.value);
    } else {
      HeadAlone(e);
      NestedSkips(body, i, e.head);
    }
  }

  lemma {:induction false} PrintNested(body: string, i: nat, es: seq<Entry>)
    requires es != [] && (forall e :: e in es ==> Legal(e)) && i <= |body| && body[i..] == Print(es)
    ensures Nested(body, i)
    decreases |es|
  {
    if |es| == 1 {
      LastStands(body, i, es);
      EntryNested(body, i, |body|, es[0]);
      assert Nested(body, |body|);
    } else {
      FirstStands(body, i, es);
      var end := i + |PrintEntry(es[0])|;
      PrintNested(body, end + 1, es[1..]);
      NestedPlain(body, end);
      EntryNested(body, i, end, es[0]);
    }
  }

  lemma PrintWellNested(es: seq<Entry>)
    requires es != [] && forall e :: e in es ==> Legal(e)
    ensures WellNested(Print(es))
  {
    assert Print(es)[0..] == Print(es);
    PrintNested(Print(es), 0, es);
  }

  // On every sole object literal the keys read are exactly the trimmed code texts in front of the colons
  // and commas at its top level, empty ones left out.
  lemma KeysOfSoleObject(body: string) returns (es: seq<Entry>)
    requires BalancedText("{" + body + "}", 0) == Some(body)
    ensures es != [] && (forall e :: e in es ==> Legal(e)) && Print(es) == body
    ensures KeysOf(body) == EntryKeys(es)
  {
    SoleObjectIffWellNested(body);
    es := KeysOfBody(body);
  }

  // ---------- a whole call ----------

  function Call(left: string, body: string, right: string): string { "(" + (left + ("{" + (body + ("}" + (right + ")"))))) }

  ghost predicate AllSpaces(s: string) { forall k :: 0 <= k < |s| ==> IsSpace(s[k]) }

  // Where the pieces of a call stand in a text that holds it
  ghost predicate Holds(text: string, at: nat, left: string, body: string, right: string) {
    var brace := at + 1 + |left|;
    var end := brace + 1 + |body|;
    && end + 1 + |right| < |text|
    && text[at] == '(' && text[at + 1..brace] == left && text[brace] == '{' && text[brace + 1..end] == body
    && text[end] == '}' && text[end + 1..end + 1 + |right|] == right && text[end + 1 + |right|] == ')'
  }

  lemma CallHeld(pre: string, left: string, body: string, right: string, post: string)
    ensures Holds(pre + Call(left, body, right) + post, |pre|, left, body, right)
  {
    var call := Call(left, body, right);
    var text := pre + call + post;
    forall a: nat, b: nat | a <= b <= |call|
      ensures text[|pre| + a..|pre| + b] == call[a..b]
    {
    }
    assert forall k :: 0 <= k < |call| ==> text[|pre| + k] == call[k];
    var l, m, r := |left|, |body|, |right|;
    assert call[1..1 + l] == left && call[2 + l..2 + l + m] == body && call[3 + l + m..3 + l + m + r] == right;
  }

  lemma OpenerSkipped(text: string, l: Lex, after: Lex)
    requires l.pos < |text| && l.state.Code? && OpensBracket(text[l.pos]) && after == Lex(l.pos + 1, Code, l.depth + 1)
    ensures CloseFrom(text, l) == CloseFrom(text, after)
  {
    OpeningBracket(text, l);
  }

  lemma SpacesSkipped(text: string, i: nat, left: string)
    requires i + |left| < |text| && text[i..i + |left|] == left && AllSpaces(left)
    ensures CloseFrom(text, Lex(i, Code, 1)) == CloseFrom(text, Lex(i + |left|, Code, 1))
  {
    SpacesWellNested(left);
    CloseSkipsFrom(text, i, left, 1);
  }

  lemma CallOpens(text: string, at: nat, left: string, body: string, right: string)
    requires Holds(text, at, left, body, right) && AllSpaces(left)
    ensures CloseFrom(text, Lex(at, Code, 0)) == CloseFrom(text, Lex(at + 2 + |left|, Code, 2))
  {
    OpenerSkipped(text, Lex(at, Code, 0), Lex(at + 1, Code, 1));
    SpacesSkipped(text, at + 1, left);
    OpenerSkipped(text, Lex(at + 1 + |left|, Code, 1), Lex(at + 2 + |left|, Code, 2));
  }

  lemma CallEnds(text: string, end: nat, right: string)
    requires end + 1 + |right| < |text| && text[end] == '}' && text[end + 1..end + 1 + |right|] == right && text[end + 1 + |right|] == ')'
    requires AllSpaces(right)
    ensures CloseFrom(text, Lex(end, Code, 2)) == Some(end + 1 + |right|)
  {
    InnerBrace(text, end);
    SpacesWellNested(right);
    CloseSkipsFrom(text, end + 1, right, 1);
    LastParenthesis(text, end + 1 + |right|);
  }

  lemma LastParenthesis(text: string, i: nat)
    requires i < |text| && text[i] == ')'
    ensures CloseFrom(text, Lex(i, Code, 1)) == Some(i)
  {
  }

  // The call closes at its own parenthesis when the body leaves the depth where it was.
  lemma CallCloses(text: string, at: nat, left: string, body: string, right: string)
    requires Holds(text, at, left, body, right) && AllSpaces(left) && AllSpaces(right)
    requires CloseFrom(text, Lex(at + 2 + |left|, Code, 2)) == CloseFrom(text, Lex(at + 2 + |left| + |body|, Code, 2))
    ensures BalancedText(text, at) == Some(left + ("{" + body + "}") + right)
  {
    CallOpens(text, at, left, body, right);
    CallEnds(text, at + 2 + |left| + |body|, right);
    ArgumentsHeld(text, at, left, body, right);
  }

  lemma NestedCallCloses(text: string, at: nat, left: string, body: string, right: string)
    requires Holds(text, at, left, body, right) && AllSpaces(left) && AllSpaces(right) && WellNested(body)
    ensures BalancedText(text, at) == Some(left + ("{" + body + "}") + right)
  {
    CloseSkipsFrom(text, at + 2 + |left|, body, 2);
    CallCloses(text, at, left, body, right);
  }

  lemma CloseSkipsFrom(text: string, i: nat, s: string, up: int)
    requires Embeds(text, i, s, START) && WellNested(s) && up >= 1
    ensures CloseFrom(text, Lex(i, Code, up)) == CloseFrom(text, Lex(i + |s|, Code, up))
  {
    assert At(START, i, up) == Lex(i, Code, up);
    CloseSkips(text, i, s, START, up);
  }

  lemma InnerBrace(text: string, i: nat)
    requires i < |text| && text[i] == '}'
    ensures CloseFrom(text, Lex(i, Code, 2)) == CloseFrom(text, Lex(i + 1, Code, 1))
  {
  }

  lemma {:induction false} TrimLeftSpaces(a: string, b: string)
    requires AllSpaces(a) && b != "" && !IsSpace(b[0])
    ensures TrimLeft(a + b) == b
    decreases |a|
  {
    if a == "" {
      assert a + b == b;
    } else {
      assert (a + b)[1..] == a[1..] + b;
      TrimLeftSpaces(a[1..], b);
    }
  }

  lemma {:induction false} TrimRightSpaces(a: string, b: string)
    requires AllSpaces(b) && a != "" && !IsSpace(a[|a| - 1])
    ensures TrimRight(a + b) == a
    decreases |b|
  {
    if b == "" {
      assert a + b == a;
    } else {
      assert (a + b)[..|a + b| - 1] == a + b[..|b| - 1];
      TrimRightSpaces(a, b[..|b| - 1]);
    }
  }

  lemma TrimSpaces(left: string, s: string, right: string)
    requires AllSpaces(left) && AllSpaces(right) && s != "" && !IsSpace(s[0]) && !IsSpace(s[|s| - 1])
    ensures Trim(left + s + right) == s
  {
    ConcatAssociates(left, s, right);
    TrimLeftSpaces(left, s + right);
    TrimRightSpaces(s, right);
  }

  function Verdict(keys: seq<string>): CallOptionKeys {
    if FirstUnreadable(keys).Some? then UnreadableKey(FirstUnreadable(keys).value) else Readable(keys)
  }

  // Reading a printed call anywhere in a text: its readable keys in order, or the first unreadable one.
  lemma ReadPrintedCall(pre: string, left: string, es: seq<Entry>, right: string, post: string)
    requires es != [] && (forall e :: e in es ==> Legal(e)) && AllSpaces(left) && AllSpaces(right)
    ensures ReadOptions(pre + Call(left, Print(es), right) + post, |pre|) == Verdict(EntryKeys(es))
  {
    var body := Print(es);
    var text := pre + Call(left, body, right) + post;
    PrintWellNested(es);
    CallHeld(pre, left, body, right, post);
    NestedCallCloses(text, |pre|, left, body, right);
    KeysOfPrint(es);
    ReadBraced(text, |pre|, left, body, right);
  }

  lemma ReadBraced(text: string, at: nat, left: string, body: string, right: string)
    requires BalancedText(text, at) == Some(left + ("{" + body + "}") + right) && AllSpaces(left) && AllSpaces(right)
    ensures ReadOptions(text, at) == Verdict(KeysOf(body))
  {
    var braced := "{" + body + "}";
    assert braced[0] == '{' && braced[|braced| - 1] == '}' && !IsSpace('{') && !IsSpace('}');
    TrimSpaces(left, braced, right);
    assert braced[1..|braced| - 1] == body;
  }

  lemma ArgumentsHeld(text: string, at: nat, left: string, body: string, right: string)
    requires Holds(text, at, left, body, right)
    ensures text[at + 1..at + 3 + |left| + |body| + |right|] == left + ("{" + body + "}") + right
  {
    var brace := at + 1 + |left|;
    var end := brace + 1 + |body|;
    assert text[at + 1..end + 1 + |right|] == text[at + 1..brace] + ([text[brace]] + text[brace + 1..end] + [text[end]]) + text[end + 1..end + 1 + |right|];
  }

  // ---------- identifier keys ----------

  // Spaces and comments only, as far as code goes
  ghost predicate Blank(gap: string) { WellNested(gap) && AllSpaces(CodeTextFrom(gap, START)) }

  datatype Key = Key(before: string, name: string, after: string, value: Option<string>)

  ghost predicate Written(k: Key) {
    Blank(k.before) && IsIdentifier(k.name) && Blank(k.after)
    && (k.value.Some? ==> WellNested(k.value.value) && FreeOfFrom(k.value.value, START, {','}))
  }

  function EntryOf(k: Key): Entry { Entry(k.before + (k.name + k.after), k.value) }

  lemma {:induction false} CodeTextFree(s: string, l: Lex, chars: set<char>)
    requires forall k :: 0 <= k < |CodeTextFrom(s, l)| ==> CodeTextFrom(s, l)[k] !in chars
    ensures FreeOfFrom(s, l, chars)
    decreases |s| - l.pos
  {
    if l.pos < |s| {
      var rest := CodeTextFrom(s, Next(s, l));
      if InCode(s, l) {
        assert CodeTextFrom(s, l) == [s[l.pos]] + rest;
        assert CodeTextFrom(s, l)[0] == s[l.pos];
        assert forall k :: 0 <= k < |rest| ==> rest[k] == CodeTextFrom(s, l)[k + 1];
      } else {
        assert CodeTextFrom(s, l) == rest;
      }
      CodeTextFree(s, Next(s, l), chars);
    }
  }

  lemma {:induction false} PlainCodeText(s: string, i: nat)
    requires i <= |s| && forall k :: 0 <= k < |s| ==> Plain(s[k])
    ensures CodeTextFrom(s, Lex(i, Code, 0)) == s[i..]
    decreases |s| - i
  {
    if i < |s| {
      NextPlain(s, Lex(i, Code, 0));
      PlainCodeText(s, i + 1);
    }
  }

  lemma WordPlain(c: char)
    requires IsWord(c)
    ensures Plain(c) && c != ',' && c != ':' && !IsSpace(c)
  {
  }

  lemma NamePlain(name: string)
    requires IsIdentifier(name)
    ensures WellNested(name) && !LoneSlashFrom(name, START) && CodeTextFrom(name, START) == name
    ensures forall k :: 0 <= k < |name| ==> Plain(name[k]) && name[k] != ',' && name[k] != ':' && !IsSpace(name[k])
  {
    forall k | 0 <= k < |name|
      ensures Plain(name[k]) && name[k] != ',' && name[k] != ':' && !IsSpace(name[k])
    {
      WordPlain(name[k]);
    }
    PlainWellNested(name, 0);
    PlainCodeText(name, 0);
  }

  // Where the pieces of a head stand in it
  lemma HeadPieces(head: string, before: string, name: string, after: string)
    requires head == before + (name + after) && name != ""
    ensures var mid, end := |before|, |before| + |name|;
            head[0..mid] == before && head[mid..end] == name && head[end..end + |after|] == after && head[mid] == name[0]
  {
  }

  lemma CodeTextSkips(text: string, i: nat, s: string)
    requires Embeds(text, i, s, START) && WellNested(s)
    ensures CodeTextFrom(text, Lex(i, Code, 0)) == CodeTextFrom(s, START) + CodeTextFrom(text, Lex(i + |s|, Code, 0))
  {
    assert At(START, i, 0) == Lex(i, Code, 0);
    WellNestedCloses(s, START);
    CodeTextJoins(text, i, s, START, 0);
  }

  lemma HeadNested(head: string, before: string, name: string, after: string)
    requires |head| == |before| + |name| + |after| && WellNested(before) && WellNested(name) && WellNested(after)
    requires Embeds(head, 0, before, START) && Embeds(head, |before|, name, START) && Embeds(head, |before| + |name|, after, START)
    ensures WellNested(head)
  {
    NestedSkips(head, 0, before);
    NestedSkips(head, |before|, name);
    NestedSkips(head, |before| + |name|, after);
    assert Nested(head, |head|);
  }

  // Each piece of a head is scanned as if it stood alone.
  lemma HeadEmbeds(head: string, before: string, name: string, after: string)
    requires head == before + (name + after) && Blank(before) && IsIdentifier(name) && Blank(after)
    ensures Embeds(head, 0, before, START) && Embeds(head, |before|, name, START) && Embeds(head, |before| + |name|, after, START)
  {
    NamePlain(name);
    HeadPieces(head, before, name, after);
    assert Plain(name[0]);
  }

  lemma CodeAtEnd(text: string, i: nat, s: string)
    requires Embeds(text, i, s, START) && WellNested(s) && i + |s| == |text|
    ensures CodeTextFrom(text, Lex(i, Code, 0)) == CodeTextFrom(s, START)
  {
    CodeTextSkips(text, i, s);
    assert CodeTextFrom(text, Lex(|text|, Code, 0)) == "";
    assert CodeTextFrom(s, START) + "" == CodeTextFrom(s, START);
  }

  ghost predicate IsHead(head: string, before: string, name: string, after: string) {
    head == before + (name + after) && Blank(before) && IsIdentifier(name) && Blank(after)
  }

  lemma CodeOfBefore(head: string, before: string, name: string, after: string)
    requires IsHead(head, before, name, after)
    ensures CodeTextFrom(head, START) == CodeTextFrom(before, START) + CodeTextFrom(head, Lex(|before|, Code, 0))
  {
    HeadEmbeds(head, before, name, after);
    CodeTextSkips(head, 0, before);
  }

  lemma CodeOfName(head: string, before: string, name: string, after: string)
    requires IsHead(head, before, name, after)
    ensures CodeTextFrom(head, Lex(|before|, Code, 0)) == name + CodeTextFrom(head, Lex(|before| + |name|, Code, 0))
  {
    NamePlain(name);
    HeadEmbeds(head, before, name, after);
    CodeTextSkips(head, |before|, name);
  }

  lemma CodeOfAfter(head: string, before: string, name: string, after: string)
    requires IsHead(head, before, name, after)
    ensures CodeTextFrom(head, Lex(|before| + |name|, Code, 0)) == CodeTextFrom(after, START)
  {
    HeadEmbeds(head, before, name, after);
    CodeAtEnd(head, |before| + |name|, after);
  }

  // The head of a written key: its code text is the name between spaces.
  lemma HeadOfKey(head: string, before: string, name: string, after: string)
    requires IsHead(head, before, name, after)
    ensures CodeTextFrom(head, START) == CodeTextFrom(before, START) + name + CodeTextFrom(after, START)
  {
    CodeOfBefore(head, before, name, after);
    CodeOfName(head, before, name, after);
    CodeOfAfter(head, before, name, after);
    ConcatAssociates(CodeTextFrom(before, START), name, CodeTextFrom(after, START));
  }

  lemma HeadOfKeyNested(head: string, before: string, name: string, after: string)
    requires IsHead(head, before, name, after)
    ensures WellNested(head)
  {
    NamePlain(name);
    HeadEmbeds(head, before, name, after);
    HeadNested(head, before, name, after);
  }

  lemma WrittenKeyRead(k: Key)
    requires Written(k)
    ensures Legal(EntryOf(k)) && EntryKey(EntryOf(k)) == [k.name]
  {
    var head := k.before + (k.name + k.after);
    HeadOfKey(head, k.before, k.name, k.after);
    HeadOfKeyNested(head, k.before, k.name, k.after);
    NamePlain(k.name);
    var a, c := CodeTextFrom(k.before, START), CodeTextFrom(k.after, START);
    forall j | 0 <= j < |CodeTextFrom(head, START)|
      ensures CodeTextFrom(head, START)[j] !in {',', ':'}
    {
      var ch := CodeTextFrom(head, START)[j];
      if j < |a| {
        SpacePlain(ch);
      } else if j >= |a| + |k.name| {
        assert ch == c[j - |a| - |k.name|];
        SpacePlain(ch);
      } else {
        assert ch == k.name[j - |a|];
      }
    }
    CodeTextFree(head, START, {',', ':'});
    TrimSpaces(a, k.name, c);
  }

  // A blank entry, such as what follows a trailing comma, is legal and counts for nothing.
  lemma BlankRead(gap: string)
    requires Blank(gap)
    ensures Legal(Entry(gap, None)) && EntryKey(Entry(gap, None)) == []
  {
    var code := CodeTextFrom(gap, START);
    forall j | 0 <= j < |code|
      ensures code[j] !in {',', ':'}
    {
      SpacePlain(code[j]);
    }
    CodeTextFree(gap, START, {',', ':'});
    AllSpacesTrim(code);
  }

  lemma {:induction false} AllSpacesTrim(s: string)
    requires AllSpaces(s)
    ensures TrimLeft(s) == "" && Trim(s) == ""
    decreases |s|
  {
    if s != "" {
      AllSpacesTrim(s[1..]);
    }
  }

  function Names(ks: seq<Key>): seq<string> { seq(|ks|, i requires 0 <= i < |ks| => ks[i].name) }

  // The entries of a list of keys, with what stands after a trailing comma or in an empty literal
  function EntriesOf(ks: seq<Key>, trailing: Option<string>): seq<Entry> {
    if ks == [] then (if trailing.Some? then [Entry(trailing.value, None)] else []) else [EntryOf(ks[0])] + EntriesOf(ks[1..], trailing)
  }

  lemma {:induction false} WrittenKeysRead(ks: seq<Key>, trailing: Option<string>)
    requires (forall k :: k in ks ==> Written(k)) && (trailing.Some? ==> Blank(trailing.value))
    ensures (forall e :: e in EntriesOf(ks, trailing) ==> Legal(e)) && EntryKeys(EntriesOf(ks, trailing)) == Names(ks)
    decreases |ks|
  {
    var es := EntriesOf(ks, trailing);
    if ks == [] {
      if trailing.Some? {
        BlankRead(trailing.value);
        assert EntryKeys(es) == EntryKey(es[0]) + EntryKeys(es[1..]);
      }
    } else {
      WrittenKeyRead(ks[0]);
      WrittenKeysRead(ks[1..], trailing);
      assert es[1..] == EntriesOf(ks[1..], trailing);
      assert Names(ks) == [ks[0].name] + Names(ks[1..]);
    }
  }

  lemma {:induction false} IdentifiersReadable(keys: seq<string>)
    ensures FirstUnreadable(keys).None? <==> forall k :: k in keys ==> IsIdentifier(k)
    ensures FirstUnreadable(keys).Some? ==> FirstUnreadable(keys).value in keys && !IsIdentifier(FirstUnreadable(keys).value)
    decreases |keys|
  {
    if keys != [] {
      IdentifiersReadable(keys[1..]);
    }
  }

  // Printing identifier keys, with comments, strings and escapes wherever they may stand, as the one
  // object literal of a call and reading the call back yields exactly those keys in order.
  lemma RoundTrip(pre: string, left: string, ks: seq<Key>, trailing: Option<string>, right: string, post: string)
    requires (forall k :: k in ks ==> Written(k)) && (trailing.Some? ==> Blank(trailing.value)) && (ks != [] || trailing.Some?)
    requires AllSpaces(left) && AllSpaces(right)
    ensures EntriesOf(ks, trailing) != []
    ensures ReadOptions(pre + Call(left, Print(EntriesOf(ks, trailing)), right) + post, |pre|) == Readable(Names(ks))
  {
    WrittenKeysRead(ks, trailing);
    ReadPrintedCall(pre, left, EntriesOf(ks, trailing), right, post);
    NamesReadable(ks);
  }

  lemma NamesReadable(ks: seq<Key>)
    requires forall k :: k in ks ==> Written(k)
    ensures Verdict(Names(ks)) == Readable(Names(ks))
  {
    IdentifiersReadable(Names(ks));
    forall n | n in Names(ks)
      ensures IsIdentifier(n)
    {
      var i :| 0 <= i < |ks| && ks[i].name == n;
      assert ks[i] in ks;
    }
  }

  // A call is readable exactly when every head is blank or an identifier: a spread or a computed key is
  // always reported, a quoted key never is.
  lemma ReadableIff(pre: string, left: string, es: seq<Entry>, right: string, post: string)
    requires es != [] && (forall e :: e in es ==> Legal(e)) && AllSpaces(left) && AllSpaces(right)
    ensures ReadOptions(pre + Call(left, Print(es), right) + post, |pre|).Readable? <==>
              forall e :: e in es ==> EntryKey(e) == [] || IsIdentifier(EntryKey(e)[0])
  {
    ReadPrintedCall(pre, left, es, right, post);
    IdentifiersReadable(EntryKeys(es));
    EntryKeysFrom(es);
  }

  lemma {:induction false} EntryKeysFrom(es: seq<Entry>)
    ensures forall k :: k in EntryKeys(es) <==> exists e :: e in es && EntryKey(e) == [k]
    decreases |es|
  {
    if es != [] {
      EntryKeysFrom(es[1..]);
      assert forall e :: e in es <==> e == es[0] || e in es[1..];
    }
  }
}
