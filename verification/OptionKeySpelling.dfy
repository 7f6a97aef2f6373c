/**
 Source text as one writes it, read by the scanners of config/scripts/call-site-option-keys.ts: string
 literals with escapes, comments, and brackets around any of them.
 */
module OptionKeySpelling {
  import opened Options
  import opened Sequences
  import opened Strings
  import opened OptionKeys
  import opened OptionKeyReading
  import opened OptionKeyCutting
  import opened OptionKeyRoundTrip
  import opened OptionKeyMisreadings

  // ---------- pieces of source text ----------

  // Plain characters, a string literal, a comment, or brackets around more of them
  datatype Piece = Raw(text: string) | Literal(mark: char, body: string) | Block(text: string) | Line(text: string)
                 | Group(open: char, inside: seq<Piece>, close: char)

  predicate IsRaw(c: char) { c !in {'/', '\'', '"', '`', '(', ')', '[', ']', '{', '}'} }

  // The mark and a backslash stand behind a backslash, and so does the dollar of `${` in a template.
  predicate LiteralBody(body: string, mark: char) {
    body == ""
    || (if body[0] == '\\' then |body| >= 2 && LiteralBody(body[2..], mark)
        else body[0] != mark && !(mark == '`' && "${" <= body) && LiteralBody(body[1..], mark))
  }

  predicate Occurs(s: string, t: string) { exists i | 0 <= i <= |s| :: t <= s[i..] }

  predicate Proper(p: Piece) {
    match p
    case Raw(text) => forall i :: 0 <= i < |text| ==> IsRaw(text[i])
    case Literal(mark, body) => mark in {'\'', '"', '`'} && LiteralBody(body, mark)
    case Block(text) => !Occurs(text, "*/")
    case Line(text) => '\n' !in text
    case Group(open, inside, close) => open in {'(', '[', '{'} && close in {')', ']', '}'} && forall q :: q in inside ==> Proper(q)
  }

  function Spell(p: Piece): string {
    match p
    case Raw(text) => text
    case Literal(mark, body) => [mark] + (body + [mark])
    case Block(text) => "/*" + (text + "*/")
    case Line(text) => "//" + (text + "\n")
    case Group(open, inside, close) => [open] + (SpellAll(inside) + [close])
  }

  function SpellAll(ps: seq<Piece>): string { if ps == [] then "" else Spell(ps[0]) + SpellAll(ps[1..]) }

  // The code in it: neither strings nor comments
  function CodeOf(p: Piece): string {
    match p
    case Raw(text) => text
    case Group(open, inside, close) => [open] + (CodeOfAll(inside) + [close])
    case _ => ""
  }

  function CodeOfAll(ps: seq<Piece>): string { if ps == [] then "" else CodeOf(ps[0]) + CodeOfAll(ps[1..]) }

  // ---------- one piece ----------

  // Read as it stands, `s` leaves the depth where it was, ends in code and has the code text `code`.
  ghost predicate Sound(s: string, code: string) {
    WellNested(s) && !LoneSlashFrom(s, START) && CodeTextFrom(s, START) == code
  }

  function StateOf(mark: char): ScanState { if mark == '\'' then Single else if mark == '"' then Double else Template }

  // Inside a literal, from position `i` on
  ghost predicate Hidden(s: string, l: Lex, chars: set<char>) {
    WellNestedFrom(s, l) && !LoneSlashFrom(s, l) && CodeTextFrom(s, l) == "" && FreeOfFrom(s, l, chars)
  }

  lemma HiddenNext(s: string, l: Lex, chars: set<char>)
    requires l.pos < |s| && !InCode(s, l) && l.depth >= 0 && !Substitutes(s, l) && Hidden(s, Next(s, l), chars)
    requires !(l.state.Code? && s[l.pos] == '/' && l.pos == |s| - 1)
    ensures Hidden(s, l, chars)
  {
  }

  lemma HiddenEnd(s: string, chars: set<char>)
    ensures Hidden(s, Lex(|s|, Code, 0), chars)
  {
  }

  lemma {:induction false} LiteralHidden(s: string, i: nat, body: string, mark: char, chars: set<char>)
    requires mark in {'\'', '"', '`'} && LiteralBody(body, mark) && i <= |s| && s[i..] == body + [mark]
    ensures Hidden(s, Lex(i, StateOf(mark), 0), chars)
    decreases |body|
  {
    var l := Lex(i, StateOf(mark), 0);
    assert s[i] == s[i..][0] && |s| == i + |body| + 1;
    if body == "" {
      HiddenEnd(s, chars);
      assert Next(s, l) == Lex(|s|, Code, 0);
    } else if body[0] == '\\' {
      assert s[i + 2..] == s[i..][2..] == body[2..] + [mark];
      LiteralHidden(s, i + 2, body[2..], mark, chars);
      assert Next(s, l) == Lex(i + 2, l.state, 0);
    } else {
      assert s[i + 1..] == s[i..][1..] == body[1..] + [mark];
      LiteralHidden(s, i + 1, body[1..], mark, chars);
      assert NextIs(s, i, '{') ==> |body| > 1 && body[1] == '{' by {
        if i + 1 < |s| { assert s[i + 1] == s[i..][1]; }
      }
      assert Next(s, l) == Lex(i + 1, l.state, 0);
    }
    HiddenNext(s, l, chars);
  }

  lemma LiteralSpelled(mark: char, body: string, s: string, chars: set<char>)
    requires mark in {'\'', '"', '`'} && LiteralBody(body, mark) && s == [mark] + (body + [mark])
    ensures Hidden(s, START, chars)
  {
    assert s[1..] == body + [mark];
    LiteralHidden(s, 1, body, mark, chars);
    assert Next(s, START) == Lex(1, StateOf(mark), 0);
    HiddenNext(s, START, chars);
  }

  lemma NoEarlyEnd(text: string)
    requires !Occurs(text, "*/") && text != ""
    ensures !Occurs(text[1..], "*/") && !(|text| > 1 && text[0] == '*' && text[1] == '/')
  {
    assert text[0..] == text && ("*/" <= text[0..] ==> Occurs(text, "*/"));
    forall i | 0 <= i <= |text[1..]|
      ensures !("*/" <= text[1..][i..])
    {
      assert text[1..][i..] == text[i + 1..];
    }
  }

  lemma {:induction false} BlockHidden(s: string, i: nat, text: string, chars: set<char>)
    requires !Occurs(text, "*/") && i <= |s| && s[i..] == text + "*/"
    ensures Hidden(s, Lex(i, BlockComment, 0), chars)
    decreases |text|
  {
    var l := Lex(i, BlockComment, 0);
    assert s[i] == s[i..][0] && s[i + 1] == s[i..][1] && |s| == i + |text| + 2;
    if text == "" {
      HiddenEnd(s, chars);
      assert Next(s, l) == Lex(|s|, Code, 0);
    } else {
      NoEarlyEnd(text);
      assert s[i + 1..] == s[i..][1..] == text[1..] + "*/";
      BlockHidden(s, i + 1, text[1..], chars);
      assert Next(s, l) == Lex(i + 1, BlockComment, 0);
    }
    HiddenNext(s, l, chars);
  }

  lemma BlockSpelled(text: string, s: string, chars: set<char>)
    requires !Occurs(text, "*/") && s == "/*" + (text + "*/")
    ensures Hidden(s, START, chars)
  {
    assert s[2..] == text + "*/";
    BlockHidden(s, 2, text, chars);
    assert Next(s, START) == Lex(2, BlockComment, 0);
    HiddenNext(s, START, chars);
  }

  lemma {:induction false} LineHidden(s: string, i: nat, text: string, chars: set<char>)
    requires '\n' !in text && i <= |s| && s[i..] == text + "\n"
    ensures Hidden(s, Lex(i, LineComment, 0), chars)
    decreases |text|
  {
    var l := Lex(i, LineComment, 0);
    assert s[i] == s[i..][0] && |s| == i + |text| + 1;
    if text == "" {
      HiddenEnd(s, chars);
    } else {
      assert s[i + 1..] == s[i..][1..] == text[1..] + "\n";
      LineHidden(s, i + 1, text[1..], chars);
    }
    HiddenNext(s, l, chars);
  }

  lemma LineSpelled(text: string, s: string, chars: set<char>)
    requires '\n' !in text && s == "//" + (text + "\n")
    ensures Hidden(s, START, chars)
  {
    assert s[2..] == text + "\n";
    LineHidden(s, 2, text, chars);
    assert Next(s, START) == Lex(2, LineComment, 0);
    HiddenNext(s, START, chars);
  }

  lemma RawSpelled(text: string, chars: set<char>)
    requires forall i :: 0 <= i < |text| ==> IsRaw(text[i])
    ensures Sound(text, text) && ((forall i :: 0 <= i < |text| ==> text[i] !in chars) ==> FreeOfFrom(text, START, chars))
  {
    forall i | 0 <= i < |text|
      ensures Plain(text[i])
    {
      assert IsRaw(text[i]);
    }
    PlainWellNested(text, 0);
    PlainCodeText(text, 0);
    if forall i :: 0 <= i < |text| ==> text[i] !in chars {
      CodeTextFree(text, START, chars);
    }
  }

  // ---------- pieces in a row ----------

  lemma {:induction false} SlashSkips(text: string, i: nat, s: string, l: Lex)
    requires Embeds(text, i, s, l) && WellNestedFrom(s, l) && !LoneSlashFrom(s, l)
    ensures LoneSlashFrom(text, At(l, i, 0)) <==> LoneSlashFrom(text, Lex(i + |s|, Code, 0))
    decreases |s| - l.pos
  {
    if l.pos < |s| {
      NextEmbedded(text, i, s, l, 0);
      SlashSkips(text, i, s, Next(s, l));
      assert l.pos + i == |text| - 1 ==> l.pos == |s| - 1;
    }
  }

  lemma SlashOver(text: string, i: nat, s: string)
    requires Embeds(text, i, s, START) && WellNested(s) && !LoneSlashFrom(s, START)
    ensures LoneSlashFrom(text, Lex(i, Code, 0)) <==> LoneSlashFrom(text, Lex(i + |s|, Code, 0))
  {
    assert At(START, i, 0) == Lex(i, Code, 0);
    SlashSkips(text, i, s, START);
  }

  lemma JoinEmbeds(a: string, b: string, text: string)
    requires text == a + b && !LoneSlashFrom(a, START) && !LoneSlashFrom(b, START)
    ensures Embeds(text, 0, a, START) && Embeds(text, |a|, b, START) && |text| == |a| + |b|
  {
    assert text[0..|a|] == a && text[|a|..|a| + |b|] == b;
  }

  lemma SoundJoin(a: string, b: string, ca: string, cb: string)
    requires Sound(a, ca) && Sound(b, cb)
    ensures Sound(a + b, ca + cb)
  {
    var text := a + b;
    JoinEmbeds(a, b, text);
    NestedSkips(text, 0, a);
    NestedSkips(text, |a|, b);
    SlashOver(text, 0, a);
    SlashOver(text, |a|, b);
    CodeTextSkips(text, 0, a);
    CodeAtEnd(text, |a|, b);
    assert Nested(text, |text|) && !LoneSlashFrom(text, Lex(|text|, Code, 0));
  }

  lemma FreeJoin(a: string, b: string, chars: set<char>)
    requires Sound(a, CodeTextFrom(a, START)) && Sound(b, CodeTextFrom(b, START)) && FreeOfFrom(a, START, chars) && FreeOfFrom(b, START, chars)
    ensures FreeOfFrom(a + b, START, chars)
  {
    WellNestedCloses(a, START);
    WellNestedCloses(b, START);
    SegmentsJoin(a, b, chars);
  }

  // ---------- brackets ----------

  lemma {:induction false} FreeDeep(text: string, i: nat, s: string, l: Lex, chars: set<char>)
    requires Embeds(text, i, s, l) && WellNestedFrom(s, l)
    ensures FreeOfFrom(text, At(l, i, 1), chars) <==> FreeOfFrom(text, Lex(i + |s|, Code, 1), chars)
    decreases |s| - l.pos
  {
    if l.pos < |s| {
      NextEmbedded(text, i, s, l, 1);
      FreeDeep(text, i, s, Next(s, l), chars);
    }
  }

  predicate Opening(c: char) { c in {'(', '[', '{'} }

  predicate Closing(c: char) { c in {')', ']', '}'} }

  // From the closing bracket to the end
  lemma GroupEnds(s: string, i: nat, chars: set<char>)
    requires i + 1 == |s| && Closing(s[i]) && chars <= {',', ':'}
    ensures WellNestedFrom(s, Lex(i, Code, 1)) && FreeOfFrom(s, Lex(i, Code, 1), chars) && CodeTextFrom(s, Lex(i, Code, 1)) == [s[i]]
  {
    assert Next(s, Lex(i, Code, 1)) == Lex(|s|, Code, 0);
    assert CodeTextFrom(s, Lex(|s|, Code, 0)) == "";
  }

  lemma GroupOpens(s: string, chars: set<char>)
    requires s != "" && Opening(s[0]) && chars <= {',', ':'}
    ensures WellNested(s) <==> WellNestedFrom(s, Lex(1, Code, 1))
    ensures FreeOfFrom(s, START, chars) <==> FreeOfFrom(s, Lex(1, Code, 1), chars)
    ensures CodeTextFrom(s, START) == [s[0]] + CodeTextFrom(s, Lex(1, Code, 1))
  {
    assert Next(s, START) == Lex(1, Code, 1);
  }

  lemma GroupInside(s: string, inside: string, end: nat, chars: set<char>)
    requires end == 1 + |inside| < |s| && s[1..end] == inside && Closing(s[end]) && WellNested(inside)
    ensures WellNestedFrom(s, Lex(1, Code, 1)) <==> WellNestedFrom(s, Lex(end, Code, 1))
    ensures FreeOfFrom(s, Lex(1, Code, 1), chars) <==> FreeOfFrom(s, Lex(end, Code, 1), chars)
    ensures CodeTextFrom(s, Lex(1, Code, 1)) == CodeTextFrom(inside, START) + CodeTextFrom(s, Lex(end, Code, 1))
  {
    assert At(START, 1, 1) == Lex(1, Code, 1);
    NestingSkips(s, 1, inside, START, 1);
    FreeDeep(s, 1, inside, START, chars);
    WellNestedCloses(inside, START);
    CodeTextJoins(s, 1, inside, START, 1);
  }

  lemma GroupSpelled(open: char, inside: string, close: char, s: string, code: string, chars: set<char>)
    requires Opening(open) && Closing(close) && s == [open] + (inside + [close]) && Sound(inside, code) && chars <= {',', ':'}
    ensures Sound(s, [open] + (code + [close])) && FreeOfFrom(s, START, chars)
  {
    var end := 1 + |inside|;
    assert s[1..end] == inside && s[end] == close && s[0] == open;
    GroupOpens(s, chars);
    GroupInside(s, inside, end, chars);
    GroupEnds(s, end, chars);
    NoLoneSlash(s, START);
  }

  // ---------- any spelling ----------

  lemma {:induction false} PieceSound(p: Piece)
    requires Proper(p)
    ensures Sound(Spell(p), CodeOf(p))
    decreases p, 0
  {
    match p {
      case Raw(text) => RawSpelled(text, {});
      case Literal(mark, body) => LiteralSpelled(mark, body, Spell(p), {});
      case Block(text) => BlockSpelled(text, Spell(p), {});
      case Line(text) => LineSpelled(text, Spell(p), {});
      case Group(open, inside, close) =>
        SpellingSound(inside);
        GroupSpelled(open, SpellAll(inside), close, Spell(p), CodeOfAll(inside), {});
    }
  }

  // Proper pieces, in any order and nesting, are well nested and have the code that stands outside their
  // strings and comments.
  lemma {:induction false} SpellingSound(ps: seq<Piece>)
    requires forall q :: q in ps ==> Proper(q)
    ensures Sound(SpellAll(ps), CodeOfAll(ps))
    decreases ps
  {
    if ps == [] {
      RawSpelled("", {});
    } else {
      PieceSound(ps[0]);
      SpellingSound(ps[1..]);
      SoundJoin(Spell(ps[0]), SpellAll(ps[1..]), CodeOf(ps[0]), CodeOfAll(ps[1..]));
    }
  }

  // No separator stands outside strings, comments and brackets.
  predicate Separates(p: Piece, chars: set<char>) { p.Raw? && exists c | c in p.text :: c in chars }

  lemma PieceFree(p: Piece, chars: set<char>)
    requires Proper(p) && chars <= {',', ':'} && !Separates(p, chars)
    ensures FreeOfFrom(Spell(p), START, chars)
  {
    match p {
      case Raw(text) =>
        assert forall i :: 0 <= i < |text| ==> text[i] in text;
        RawSpelled(text, chars);
      case Literal(mark, body) => LiteralSpelled(mark, body, Spell(p), chars);
      case Block(text) => BlockSpelled(text, Spell(p), chars);
      case Line(text) => LineSpelled(text, Spell(p), chars);
      case Group(open, inside, close) =>
        SpellingSound(inside);
        GroupSpelled(open, SpellAll(inside), close, Spell(p), CodeOfAll(inside), chars);
    }
  }

  lemma {:induction false} SpellingFree(ps: seq<Piece>, chars: set<char>)
    requires (forall q :: q in ps ==> Proper(q) && !Separates(q, chars)) && chars <= {',', ':'}
    ensures FreeOfFrom(SpellAll(ps), START, chars)
    decreases |ps|
  {
    if ps != [] {
      PieceFree(ps[0], chars);
      PieceSound(ps[0]);
      SpellingFree(ps[1..], chars);
      SpellingSound(ps[1..]);
      FreeJoin(Spell(ps[0]), SpellAll(ps[1..]), chars);
    }
  }

  // ---------- any text in a literal ----------

  // A text as it is written between two marks
  function Escaped(s: string, mark: char): string {
    if s == "" then "" else (if s[0] == mark || s[0] == '\\' || s[0] == '$' then ['\\', s[0]] else [s[0]]) + Escaped(s[1..], mark)
  }

  lemma {:induction false} EscapedBody(s: string, mark: char)
    requires mark in {'\'', '"', '`'}
    ensures LiteralBody(Escaped(s, mark), mark)
    decreases |s|
  {
    if s != "" {
      EscapedBody(s[1..], mark);
      var rest := Escaped(s[1..], mark);
      if s[0] == mark || s[0] == '\\' || s[0] == '$' {
        assert (['\\', s[0]] + rest)[2..] == rest;
      } else {
        var body := [s[0]] + rest;
        assert body[1..] == rest && body[0] == s[0];
      }
    }
  }

  // ---------- round trip ----------

  datatype SpelledKey = SpelledKey(before: seq<Piece>, name: string, after: seq<Piece>, value: Option<seq<Piece>>)

  // Comments and white space
  predicate IsGap(ps: seq<Piece>) {
    forall p :: p in ps ==> Proper(p) && (p.Block? || p.Line? || (p.Raw? && forall i :: 0 <= i < |p.text| ==> IsSpace(p.text[i])))
  }

  // A letter, an underscore or a dollar sign, and then any of these and digits
  predicate IsName(s: string) {
    && s != "" && ('a' <= s[0] <= 'z' || 'A' <= s[0] <= 'Z' || s[0] == '_' || s[0] == '$')
    && forall i :: 1 <= i < |s| ==> 'a' <= s[i] <= 'z' || 'A' <= s[i] <= 'Z' || '0' <= s[i] <= '9' || s[i] == '_' || s[i] == '$'
  }

  lemma NameIff(s: string)
    ensures IsName(s) <==> IsIdentifier(s)
  {
    if IsIdentifier(s) {
      assert IsWord(s[0]);
      forall i | 1 <= i < |s|
        ensures 'a' <= s[i] <= 'z' || 'A' <= s[i] <= 'Z' || '0' <= s[i] <= '9' || s[i] == '_' || s[i] == '$'
      {
        assert IsWord(s[i]);
      }
    }
  }

  predicate IsSpelled(k: SpelledKey) {
    IsGap(k.before) && IsName(k.name) && IsGap(k.after)
    && (k.value.Some? ==> forall p :: p in k.value.value ==> Proper(p) && !Separates(p, {','}))
  }

  function WrittenKey(k: SpelledKey): Key {
    Key(SpellAll(k.before), k.name, SpellAll(k.after), if k.value.Some? then Some(SpellAll(k.value.value)) else None)
  }

  function WrittenKeys(ks: seq<SpelledKey>): seq<Key> { seq(|ks|, i requires 0 <= i < |ks| => WrittenKey(ks[i])) }

  lemma {:induction false} GapCode(ps: seq<Piece>)
    requires IsGap(ps)
    ensures AllSpaces(CodeOfAll(ps))
    decreases |ps|
  {
    if ps != [] {
      assert ps[0] in ps;
      GapCode(ps[1..]);
      assert AllSpaces(CodeOf(ps[0]));
      SpacesMore(CodeOf(ps[0]), CodeOfAll(ps[1..]));
    }
  }

  lemma GapBlank(ps: seq<Piece>)
    requires IsGap(ps)
    ensures Blank(SpellAll(ps))
  {
    SpellingSound(ps);
    GapCode(ps);
  }

  lemma SpelledWritten(k: SpelledKey)
    requires IsSpelled(k)
    ensures Written(WrittenKey(k))
  {
    GapBlank(k.before);
    GapBlank(k.after);
    NameIff(k.name);
    if k.value.Some? {
      SpellingSound(k.value.value);
      SpellingFree(k.value.value, {','});
    }
  }

  // The round trip over written source: identifier keys with comments around them, and values made of plain
  // text, string literals with any escapes, comments and brackets, no comma standing free in a value.  The
  // call that spells them is read as exactly these keys, in order.
  lemma RoundTripSpelled(pre: string, left: string, ks: seq<SpelledKey>, trailing: Option<seq<Piece>>, right: string, post: string)
    requires (forall k :: k in ks ==> IsSpelled(k)) && (trailing.Some? ==> IsGap(trailing.value)) && (ks != [] || trailing.Some?)
    requires AllSpaces(left) && AllSpaces(right)
    ensures var es := EntriesOf(WrittenKeys(ks), if trailing.Some? then Some(SpellAll(trailing.value)) else None);
            es != [] && ReadOptions(pre + Call(left, Print(es), right) + post, |pre|) == Readable(seq(|ks|, i requires 0 <= i < |ks| => ks[i].name))
  {
    var written := WrittenKeys(ks);
    var gap := if trailing.Some? then Some(SpellAll(trailing.value)) else None;
    forall k | k in written
      ensures Written(k)
    {
      var i :| 0 <= i < |ks| && WrittenKey(ks[i]) == k;
      SpelledWritten(ks[i]);
    }
    if trailing.Some? {
      GapBlank(trailing.value);
    }
    RoundTrip(pre, left, written, gap, right, post);
    assert Names(written) == seq(|ks|, i requires 0 <= i < |ks| => ks[i].name);
  }

  // The escaped quote does not end the string.
  lemma EscapedQuoteRead(text: string)
    requires text == "({a:'\\'',b:1})"
    ensures ReadOptions(text, 0) == Readable(["a", "b"])
  {
    var quote, one := [Literal('\'', "\\'")], [Raw("1")];
    var a, b := SpelledKey([], "a", [], Some(quote)), SpelledKey([], "b", [], Some(one));
    assert "\\'"[2..] == "" && LiteralBody("\\'", '\'');
    RoundTripSpelled("", "", [a, b], None, "", "");
    QuoteSpelled(text, quote, one, WrittenKey(a), WrittenKey(b));
    assert WrittenKeys([a, b]) == [WrittenKey(a), WrittenKey(b)];
    assert seq(2, i requires 0 <= i < 2 => [a, b][i].name) == ["a", "b"];
  }

  lemma QuoteSpelled(text: string, quote: seq<Piece>, one: seq<Piece>, a: Key, b: Key)
    requires text == "({a:'\\'',b:1})" && quote == [Literal('\'', "\\'")] && one == [Raw("1")]
    requires a == Key("", "a", "", Some(SpellAll(quote))) && b == Key("", "b", "", Some(SpellAll(one)))
    ensures EntriesOf([a, b], None) != [] && "" + Call("", Print(EntriesOf([a, b], None)), "") + "" == text
  {
    PrintedTwo(a, b);
    assert SpellAll(quote) == "'\\''" && SpellAll(one) == "1";
    assert PrintEntry(EntryOf(a)) + ("," + PrintEntry(EntryOf(b))) == "a:'\\'',b:1";
    var call := Call("", "a:'\\'',b:1", "");
    assert call == text && "" + call + "" == call;
  }

  // ---------- substitutions ----------

  lemma {:induction false} TemplateRefused(text: string, i: nat, body: string, depth: int)
    requires LiteralBody(body, '`') && i <= |text| && body + "${" <= text[i..]
    ensures CloseFrom(text, Lex(i, Template, depth)) == None
    decreases |body|
  {
    var l := Lex(i, Template, depth);
    assert forall k :: 0 <= k < |body| + 2 ==> text[i + k] == (body + "${")[k];
    if body == "" {
      assert Substitutes(text, l);
    } else if body[0] == '\\' {
      assert body[2..] + "${" <= text[i + 2..];
      TemplateRefused(text, i + 2, body[2..], depth);
      assert Next(text, l) == Lex(i + 2, Template, depth);
    } else {
      assert body[1..] + "${" <= text[i + 1..];
      TemplateRefused(text, i + 1, body[1..], depth);
      assert !Substitutes(text, l) || CloseFrom(text, l) == None;
    }
  }

  // An argument list with a template substitution anywhere outside brackets is refused.
  lemma SubstitutionRefused(ps: seq<Piece>, body: string, rest: string, text: string)
    requires (forall p :: p in ps ==> Proper(p)) && LiteralBody(body, '`') && text == "(" + (SpellAll(ps) + ("`" + (body + ("${" + rest))))
    ensures ReadOptions(text, 0) == NeverCloses
  {
    var s := SpellAll(ps);
    SpellingSound(ps);
    assert text[1..1 + |s|] == s && text[1 + |s|] == '`' && body + "${" <= text[2 + |s|..];
    TemplateReached(text, s, body);
  }

  lemma TemplateReached(text: string, s: string, body: string)
    requires 1 + |s| < |text| && text[0] == '(' && text[1..1 + |s|] == s && text[1 + |s|] == '`' && WellNested(s)
    requires LiteralBody(body, '`') && body + "${" <= text[2 + |s|..]
    ensures CloseFrom(text, Lex(0, Code, 0)) == None
  {
    var at := 1 + |s|;
    OpenerSkipped(text, Lex(0, Code, 0), Lex(1, Code, 1));
    CloseSkipsFrom(text, 1, s, 1);
    TemplateRefused(text, at + 1, body, 1);
    MarkPassed(text, at);
  }

  lemma MarkPassed(text: string, at: nat)
    requires at < |text| && text[at] == '`'
    ensures CloseFrom(text, Lex(at, Code, 1)) == CloseFrom(text, Lex(at + 1, Template, 1))
  {
    assert Next(text, Lex(at, Code, 1)) == Lex(at + 1, Template, 1);
  }

  // ---------- arguments that are no object ----------

  // An argument list written in pieces closes at its own parenthesis.
  lemma SpelledArguments(text: string, at: nat, ps: seq<Piece>, s: string)
    requires (forall p :: p in ps ==> Proper(p)) && s == SpellAll(ps)
    requires at + 1 + |s| < |text| && text[at] == '(' && text[at + 1..at + 1 + |s|] == s && text[at + 1 + |s|] == ')'
    ensures BalancedText(text, at) == Some(s)
  {
    SpellingSound(ps);
    OpenerSkipped(text, Lex(at, Code, 0), Lex(at + 1, Code, 1));
    CloseSkipsFrom(text, at + 1, s, 1);
    LastParenthesis(text, at + 1 + |s|);
  }

  // White space is no options at all; anything else that does not begin with `{` and end in `}` is no object,
  // a comment alone included.
  lemma NoObjectRead(text: string, at: nat, ps: seq<Piece>, left: string, middle: string, right: string)
    requires (forall p :: p in ps ==> Proper(p)) && SpellAll(ps) == left + middle + right && AllSpaces(left) && AllSpaces(right)
    requires middle == "" || (!IsSpace(middle[0]) && !IsSpace(middle[|middle| - 1]))
    requires var s := left + middle + right;
             at + 1 + |s| < |text| && text[at] == '(' && text[at + 1..at + 1 + |s|] == s && text[at + 1 + |s|] == ')'
    ensures middle == "" ==> ReadOptions(text, at) == NoOptions
    ensures middle != "" && (middle[0] != '{' || middle[|middle| - 1] != '}') ==> ReadOptions(text, at) == NotAnObject
  {
    var s := left + middle + right;
    SpelledArguments(text, at, ps, s);
    if middle == "" {
      assert left + "" + right == left + right;
      SpacesMore(left, right);
      AllSpacesTrim(s);
    } else {
      TrimSpaces(left, middle, right);
    }
  }
}
