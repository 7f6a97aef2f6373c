/**
 The leading shell words of a command and its launch prefix (src/cli/codex-command-classification.ts).

 `Scan` is the tokenizer as a function, `Strip` the removal of assignments and of an `env` prefix; both
 are followed by the loops of the source.
 */
module CodexTokens {
  import opened Sequences
  import opened Strings

  // The open quote, if any
  datatype Quote = Open | In(mark: char)

  predicate IsQuote(c: char) { c == '\"' || c == '\'' }

  // ---------- the tokenizer ----------

  // The words from here on, when `got` were found before
  function Scan(s: string, current: string, quote: Quote, got: nat, limit: nat): seq<string> {
    if s == [] then if current != "" && got < limit then [current] else []
    else
      var c, rest := s[0], s[1..];
      if quote.In? then if c == quote.mark then Scan(rest, current, Open, got, limit) else Scan(rest, current + [c], quote, got, limit)
      else if IsQuote(c) then Scan(rest, current, In(c), got, limit)
      else if !IsSpace(c) then Scan(rest, current + [c], Open, got, limit)
      else if current == "" then Scan(rest, current, Open, got, limit)
      else [current] + if got + 1 >= limit then [] else Scan(rest, "", Open, got + 1, limit)
  }

  function Tokens(command: string, limit: nat): seq<string> { Scan(command, "", Open, 0, limit) }

  method TokenizeLeadingShellWords(command: string, limit: nat) returns (tokens: seq<string>)
    ensures tokens == Tokens(command, limit)
  {
    tokens := [];
    var current := "";
    var quote := Open;
    for i := 0 to |command|
      invariant Tokens(command, limit) == tokens + Scan(command[i..], current, quote, |tokens|, limit)
    {
      var ch := command[i];
      assert command[i..][0] == ch && command[i..][1..] == command[i + 1..];
      if quote.In? {
        if ch == quote.mark {
          quote := Open;
        } else {
          current := current + [ch];
        }
        continue;
      }
      if IsQuote(ch) {
        quote := In(ch);
        continue;
      }
      if IsSpace(ch) {
        if current != "" {
          ghost var rest := if |tokens| + 1 >= limit then [] else Scan(command[i + 1..], "", Open, |tokens| + 1, limit);
          assert tokens + ([current] + rest) == (tokens + [current]) + rest;
          tokens := tokens + [current];
          if |tokens| >= limit {
            return;
          }
          current := "";
        }
        continue;
      }
      current := current + [ch];
    }
    if current != "" && |tokens| < limit {
      tokens := tokens + [current];
    }
  }

  lemma {:induction false} ScanNonempty(s: string, current: string, quote: Quote, got: nat, limit: nat)
    ensures forall t :: t in Scan(s, current, quote, got, limit) ==> t != ""
    ensures got < limit ==> |Scan(s, current, quote, got, limit)| <= limit - got
    decreases |s|
  {
    if s != [] {
      var c, rest := s[0], s[1..];
      if quote.In? {
        ScanNonempty(rest, current, Open, got, limit);
        ScanNonempty(rest, current + [c], quote, got, limit);
      } else {
        ScanNonempty(rest, current, In(c), got, limit);
        ScanNonempty(rest, current + [c], Open, got, limit);
        ScanNonempty(rest, current, Open, got, limit);
        ScanNonempty(rest, "", Open, got + 1, limit);
      }
    }
  }

  // A smaller limit gives the same words, fewer of them.
  lemma {:induction false} ScanPrefix(s: string, current: string, quote: Quote, got: nat, a: nat, b: nat)
    requires got < a <= b
    ensures Scan(s, current, quote, got, a) == Take(Scan(s, current, quote, got, b), a - got)
    decreases |s|
  {
    if s != [] {
      var c, rest := s[0], s[1..];
      if quote.In? {
        if c == quote.mark { ScanPrefix(rest, current, Open, got, a, b); } else { ScanPrefix(rest, current + [c], quote, got, a, b); }
      } else if IsQuote(c) {
        ScanPrefix(rest, current, In(c), got, a, b);
      } else if !IsSpace(c) {
        ScanPrefix(rest, current + [c], Open, got, a, b);
      } else if current == "" {
        ScanPrefix(rest, current, Open, got, a, b);
      } else if got + 1 < a {
        ScanPrefix(rest, "", Open, got + 1, a, b);
        var more := Scan(rest, "", Open, got + 1, b);
        assert Take([current] + more, a - got) == [current] + Take(more, a - got - 1);
      }
    }
  }

  // ---------- quoting ----------

  // A word with the quote it is printed in
  datatype Word = Word(text: string, mark: char)

  predicate Quotable(w: Word) { w.text != "" && IsQuote(w.mark) && w.mark !in w.text }

  function Quoted(w: Word): string { [w.mark] + w.text + [w.mark] }

  function QuoteJoin(words: seq<Word>): string {
    if words == [] then "" else if |words| == 1 then Quoted(words[0]) else Quoted(words[0]) + " " + QuoteJoin(words[1..])
  }

  function Texts(words: seq<Word>): seq<string> { seq(|words|, i requires 0 <= i < |words| => words[i].text) }

  // Inside quotes everything up to the closing quote is kept.
  lemma {:induction false} ScanQuoted(text: string, mark: char, rest: string, current: string, got: nat, limit: nat)
    requires mark !in text
    ensures Scan(text + [mark] + rest, current, In(mark), got, limit) == Scan(rest, current + text, Open, got, limit)
    decreases |text|
  {
    var s := text + [mark] + rest;
    if text == "" {
      assert s[1..] == rest && current + text == current;
    } else {
      assert s[0] == text[0] && s[1..] == text[1..] + [mark] + rest;
      ScanQuoted(text[1..], mark, rest, current + [text[0]], got, limit);
      assert current + [text[0]] + text[1..] == current + text;
    }
  }

  lemma ScanWord(w: Word, rest: string, got: nat, limit: nat)
    requires Quotable(w)
    ensures Scan(Quoted(w) + rest, "", Open, got, limit) == Scan(rest, w.text, Open, got, limit)
  {
    var s := Quoted(w) + rest;
    assert s[0] == w.mark && s[1..] == w.text + [w.mark] + rest;
    ScanQuoted(w.text, w.mark, rest, "", got, limit);
    assert "" + w.text == w.text;
  }

  lemma {:induction false} ScanQuoteJoin(words: seq<Word>, got: nat, limit: nat)
    requires got < limit && forall w :: w in words ==> Quotable(w)
    ensures Scan(QuoteJoin(words), "", Open, got, limit) == Take(Texts(words), limit - got)
    decreases |words|
  {
    if words == [] {
    } else if |words| == 1 {
      ScanWord(words[0], "", got, limit);
      assert Quoted(words[0]) + "" == Quoted(words[0]);
      assert Texts(words) == [words[0].text];
    } else {
      var more := QuoteJoin(words[1..]);
      assert Quoted(words[0]) + " " + more == Quoted(words[0]) + (" " + more);
      ScanWord(words[0], " " + more, got, limit);
      assert (" " + more)[1..] == more;
      assert IsSpace(' ') && !IsQuote(' ');
      assert Texts(words) == [words[0].text] + Texts(words[1..]);
      if got + 1 < limit {
        ScanQuoteJoin(words[1..], got + 1, limit);
      }
    }
  }

  // Quoted, joined and tokenized, any words come back, up to the limit.
  lemma QuoteJoinReadsBack(words: seq<Word>, limit: nat)
    requires limit >= 1 && forall w :: w in words ==> Quotable(w)
    ensures Tokens(QuoteJoin(words), limit) == Take(Texts(words), limit)
  {
    ScanQuoteJoin(words, 0, limit);
  }

  // ---------- any spelling of words ----------

  // A stretch of a word: as it is, or in quotes
  datatype Stretch = AsIs(text: string) | InQuotes(mark: char, text: string)

  // A word with the white space before it
  datatype Spelled = Spelled(gap: string, stretches: seq<Stretch>)

  predicate Clean(t: Stretch) {
    match t
    case AsIs(text) => forall i :: 0 <= i < |text| ==> text[i] !in {'"', '\''} && !IsSpace(text[i])
    case InQuotes(mark, text) => mark in {'"', '\''} && mark !in text
  }

  function Written(t: Stretch): string { match t case AsIs(text) => text case InQuotes(mark, text) => [mark] + text + [mark] }

  function WrittenAll(ts: seq<Stretch>): string { if ts == [] then "" else Written(ts[0]) + WrittenAll(ts[1..]) }

  function Said(ts: seq<Stretch>): string { if ts == [] then "" else ts[0].text + Said(ts[1..]) }

  ghost predicate IsGap(s: string) { forall i :: 0 <= i < |s| ==> IsSpace(s[i]) }

  // Words are kept apart by white space, and none is empty.
  ghost predicate Apart(ws: seq<Spelled>, first: bool) {
    forall i :: 0 <= i < |ws| ==> (IsGap(ws[i].gap) && (i > 0 || !first ==> ws[i].gap != "") && Said(ws[i].stretches) != ""
                                   && forall t :: t in ws[i].stretches ==> Clean(t))
  }

  function SpellAll(ws: seq<Spelled>, trailing: string): string {
    if ws == [] then trailing else ws[0].gap + (WrittenAll(ws[0].stretches) + SpellAll(ws[1..], trailing))
  }

  function AllSaid(ws: seq<Spelled>): seq<string> { seq(|ws|, i requires 0 <= i < |ws| => Said(ws[i].stretches)) }

  lemma {:induction false} ScanAsIs(text: string, rest: string, current: string, got: nat, limit: nat)
    requires Clean(AsIs(text))
    ensures Scan(text + rest, current, Open, got, limit) == Scan(rest, current + text, Open, got, limit)
    decreases |text|
  {
    var s := text + rest;
    if text == "" {
      assert s == rest && current + text == current;
    } else {
      assert s[0] == text[0] && s[1..] == text[1..] + rest && !IsQuote(text[0]) && !IsSpace(text[0]);
      ScanAsIs(text[1..], rest, current + [text[0]], got, limit);
      assert current + [text[0]] + text[1..] == current + text;
    }
  }

  lemma ScanStretch(t: Stretch, rest: string, current: string, got: nat, limit: nat)
    requires Clean(t)
    ensures Scan(Written(t) + rest, current, Open, got, limit) == Scan(rest, current + t.text, Open, got, limit)
  {
    match t {
      case AsIs(text) => ScanAsIs(text, rest, current, got, limit);
      case InQuotes(mark, text) =>
        var s := Written(t) + rest;
        assert s[0] == mark && s[1..] == text + [mark] + rest && IsQuote(mark);
        ScanQuoted(text, mark, rest, current, got, limit);
    }
  }

  lemma {:induction false} ScanStretches(ts: seq<Stretch>, rest: string, current: string, got: nat, limit: nat)
    requires forall t :: t in ts ==> Clean(t)
    ensures Scan(WrittenAll(ts) + rest, current, Open, got, limit) == Scan(rest, current + Said(ts), Open, got, limit)
    decreases |ts|
  {
    if ts == [] {
      assert WrittenAll(ts) + rest == rest && current + Said(ts) == current;
    } else {
      ConcatAssociates(Written(ts[0]), WrittenAll(ts[1..]), rest);
      ScanStretch(ts[0], WrittenAll(ts[1..]) + rest, current, got, limit);
      ScanStretches(ts[1..], rest, current + ts[0].text, got, limit);
      ConcatAssociates(current, ts[0].text, Said(ts[1..]));
    }
  }

  lemma {:induction false} ScanGap(gap: string, rest: string, got: nat, limit: nat)
    requires IsGap(gap)
    ensures Scan(gap + rest, "", Open, got, limit) == Scan(rest, "", Open, got, limit)
    decreases |gap|
  {
    if gap == "" {
      assert gap + rest == rest;
    } else {
      assert (gap + rest)[1..] == gap[1..] + rest && IsSpace(gap[0]) && !IsQuote(gap[0]);
      ScanGap(gap[1..], rest, got, limit);
    }
  }

  // White space behind a word ends it.
  lemma ScanEnds(gap: string, rest: string, current: string, got: nat, limit: nat)
    requires IsGap(gap) && gap != "" && current != ""
    ensures Scan(gap + rest, current, Open, got, limit) == [current] + if got + 1 >= limit then [] else Scan(rest, "", Open, got + 1, limit)
  {
    assert (gap + rest)[0] == gap[0] && (gap + rest)[1..] == gap[1..] + rest && IsSpace(gap[0]) && !IsQuote(gap[0]);
    ScanGap(gap[1..], rest, got + 1, limit);
  }

  // Behind a word comes its gap, or nothing.
  lemma {:induction false} ScanSpelled(ws: seq<Spelled>, trailing: string, current: string, got: nat, limit: nat)
    requires got < limit && current != "" && Apart(ws, false) && IsGap(trailing)
    ensures Scan(SpellAll(ws, trailing), current, Open, got, limit) == Take([current] + AllSaid(ws), limit - got)
    decreases |ws|
  {
    if ws == [] {
      assert [current] + AllSaid(ws) == [current];
      if trailing != "" {
        ScanEnds(trailing, "", current, got, limit);
        assert trailing + "" == trailing;
      }
    } else {
      var word, rest := Said(ws[0].stretches), SpellAll(ws[1..], trailing);
      ScanEnds(ws[0].gap, WrittenAll(ws[0].stretches) + rest, current, got, limit);
      assert AllSaid(ws) == [word] + AllSaid(ws[1..]);
      if got + 1 < limit {
        ScanStretches(ws[0].stretches, rest, "", got + 1, limit);
        assert "" + word == word;
        ScanSpelled(ws[1..], trailing, word, got + 1, limit);
        TakeBehind(current, [word] + AllSaid(ws[1..]), limit - got);
      }
    }
  }

  lemma TakeBehind(first: string, rest: seq<string>, n: nat)
    requires n > 0
    ensures Take([first] + rest, n) == [first] + Take(rest, n - 1)
  {
  }

  // Any command whose words are made of plain and quoted stretches, with any white space around them, is
  // tokenized into the texts of these words, up to the limit.
  lemma SpellingReadsBack(ws: seq<Spelled>, trailing: string, limit: nat)
    requires limit >= 1 && Apart(ws, true) && IsGap(trailing)
    ensures Tokens(SpellAll(ws, trailing), limit) == Take(AllSaid(ws), limit)
  {
    if ws == [] {
      ScanGap(trailing, "", 0, limit);
      assert trailing + "" == trailing;
    } else {
      var word, rest := Said(ws[0].stretches), SpellAll(ws[1..], trailing);
      ScanFirst(ws[0], rest, limit);
      assert AllSaid(ws) == [word] + AllSaid(ws[1..]);
      ScanSpelled(ws[1..], trailing, word, 0, limit);
    }
  }

  lemma ScanFirst(w: Spelled, rest: string, limit: nat)
    requires IsGap(w.gap) && forall t :: t in w.stretches ==> Clean(t)
    ensures Tokens(w.gap + (WrittenAll(w.stretches) + rest), limit) == Scan(rest, Said(w.stretches), Open, 0, limit)
  {
    ScanGap(w.gap, WrittenAll(w.stretches) + rest, 0, limit);
    ScanStretches(w.stretches, rest, "", 0, limit);
    assert "" + Said(w.stretches) == Said(w.stretches);
  }

  lemma {:induction false} ScanUnclosed(text: string, mark: char, current: string, limit: nat)
    requires mark !in text && limit >= 1
    ensures Scan(text, current, In(mark), 0, limit) == if current + text == "" then [] else [current + text]
    decreases |text|
  {
    if text == "" {
      assert current + text == current;
    } else {
      ScanUnclosed(text[1..], mark, current + [text[0]], limit);
      assert current + [text[0]] + text[1..] == current + text;
    }
  }

  // A quote that is never closed runs to the end.
  lemma UnclosedRead(mark: char, text: string, limit: nat)
    requires mark in {'"', '\''} && mark !in text && limit >= 1
    ensures Tokens([mark] + text, limit) == if text == "" then [] else [text]
  {
    var s := [mark] + text;
    assert s[0] == mark && s[1..] == text && IsQuote(mark) && "" + text == text;
    ScanUnclosed(text, mark, "", limit);
  }

  // ---------- the launch prefix ----------

  predicate IsNameStart(c: char) { 'A' <= c <= 'Z' || 'a' <= c <= 'z' || c == '_' }

  predicate IsNameChar(c: char) { IsNameStart(c) || '0' <= c <= '9' }

  predicate IsAssignment(token: string) {
    var k := IndexOf(token, '=');
    k >= 1 && IsNameStart(token[0]) && forall i :: 0 <= i < k ==> IsNameChar(token[i])
  }

  predicate IsName(name: string) {
    && name != "" && ('A' <= name[0] <= 'Z' || 'a' <= name[0] <= 'z' || name[0] == '_')
    && forall i :: 0 <= i < |name| ==> 'A' <= name[i] <= 'Z' || 'a' <= name[i] <= 'z' || '0' <= name[i] <= '9' || name[i] == '_'
  }

  lemma NamedAssigns(token: string, name: string, rest: string)
    requires token == name + "=" + rest && IsName(name)
    ensures IsAssignment(token)
  {
    assert token[..|name|] == name && token[|name|] == '=';
    FirstIndex(token, '=', |name|);
    forall i | 0 <= i < |name|
      ensures IsNameChar(token[i])
    {
      assert token[i] == name[i];
    }
  }

  // A name, an equals sign and anything
  lemma AssignmentIff(token: string)
    ensures IsAssignment(token) <==> exists name, rest :: token == name + "=" + rest && IsName(name)
  {
    if IsAssignment(token) {
      var k := IndexOf(token, '=');
      NameBefore(token, k);
      assert token == token[..k] + "=" + token[k + 1..];
    }
    if name, rest :| token == name + "=" + rest && IsName(name) {
      NamedAssigns(token, name, rest);
    }
  }

  lemma NameBefore(token: string, k: int)
    requires IsAssignment(token) && k == IndexOf(token, '=')
    ensures IsName(token[..k]) && token[k] == '='
  {
    forall i | 0 <= i < k
      ensures IsNameChar(token[..k][i])
    {
    }
  }

  function AfterSeparators(s: string): string {
    if s == [] then [] else if s[|s| - 1] in "/\\" then [] else AfterSeparators(s[..|s| - 1]) + [s[|s| - 1]]
  }

  function Basename(command: string): string { Lower(AfterSeparators(command)) }

  function DropAssignments(tokens: seq<string>): seq<string> {
    if tokens != [] && tokens[0] != "" && IsAssignment(tokens[0]) then DropAssignments(tokens[1..]) else tokens
  }

  function DropEnvArguments(tokens: seq<string>): seq<string>
    decreases |tokens|
  {
    if tokens == [] || tokens[0] == "" then tokens
    else if IsAssignment(tokens[0]) then DropEnvArguments(tokens[1..])
    else if tokens[0] == "-u" || tokens[0] == "--unset" then DropEnvArguments(if |tokens| >= 2 then tokens[2..] else [])
    else if "-" <= tokens[0] then DropEnvArguments(tokens[1..])
    else tokens
  }

  predicate IsEnv(tokens: seq<string>) { tokens != [] && tokens[0] != "" && Basename(tokens[0]) == "env" }

  function Strip(tokens: seq<string>): seq<string> {
    var rest := DropAssignments(tokens);
    if IsEnv(rest) then DropEnvArguments(rest[1..]) else rest
  }

  method StripShellLaunchPrefix(tokens: seq<string>) returns (remaining: seq<string>)
    ensures remaining == Strip(tokens)
  {
    remaining := tokens;
    while remaining != [] && remaining[0] != "" && IsAssignment(remaining[0])
      invariant DropAssignments(tokens) == DropAssignments(remaining)
      decreases |remaining|
    {
      remaining := remaining[1..];
    }
    if IsEnv(remaining) {
      remaining := remaining[1..];
      while remaining != [] && remaining[0] != ""
        invariant Strip(tokens) == DropEnvArguments(remaining)
        decreases |remaining|
      {
        var token := remaining[0];
        if IsAssignment(token) {
          remaining := remaining[1..];
          continue;
        }
        if token == "-u" || token == "--unset" {
          remaining := if |remaining| >= 2 then remaining[2..] else [];
          continue;
        }
        if "--unset=" <= token {
          remaining := remaining[1..];
          continue;
        }
        if "-" <= token {
          remaining := remaining[1..];
          continue;
        }
        break;
      }
    }
  }

  // ---------- where the command begins ----------

  predicate IsUnset(token: string) { token == "-u" || token == "--unset" }

  // The word behind these is the operand of the `-u` or `--unset` they end in.
  predicate OperandAfter(words: seq<string>) {
    words != [] && IsUnset(words[|words| - 1]) && !OperandAfter(words[..|words| - 1])
  }

  predicate Passes(token: string) { token != "" && (IsAssignment(token) || "-" <= token) }

  // What the loop behind an `env` steps over: operands of `-u` and `--unset`, assignments and dash words
  predicate PassedAt(words: seq<string>, i: nat)
    requires i < |words|
  {
    OperandAfter(words[..i]) || Passes(words[i])
  }

  // The first word not stepped over, or the end
  ghost predicate CommandAt(words: seq<string>, k: nat) {
    k <= |words| && (forall i :: 0 <= i < k ==> PassedAt(words, i)) && (k < |words| ==> !PassedAt(words, k))
  }

  // Behind these words the loop takes the next one for the command, if nothing else makes it pass.  Only
  // the operands of `-u` and `--unset` are known: that of any other option of `env` is not among them.
  ghost predicate EnvArguments(arguments: seq<string>) { CommandAt(arguments, |arguments|) && !OperandAfter(arguments) }

  lemma DashIsNoAssignment(token: string)
    requires "-" <= token
    ensures !IsAssignment(token)
  {
    assert token[0] == '-';
  }

  // One word more
  lemma OperandAfterNext(words: seq<string>, i: nat)
    requires i < |words|
    ensures OperandAfter(words[..i + 1]) <==> IsUnset(words[i]) && !OperandAfter(words[..i])
  {
    assert words[..i + 1][..i] == words[..i];
  }

  // The loop at a word that is not an operand: it stops, or steps over one word or two.
  lemma LoopTurn(words: seq<string>, i: nat)
    requires i < |words| && !OperandAfter(words[..i])
    ensures !Passes(words[i]) ==> DropEnvArguments(words[i..]) == words[i..]
    ensures Passes(words[i]) && !IsUnset(words[i]) ==> DropEnvArguments(words[i..]) == DropEnvArguments(words[i + 1..]) && !OperandAfter(words[..i + 1])
    ensures IsUnset(words[i]) ==> Passes(words[i]) && OperandAfter(words[..i + 1])
    ensures IsUnset(words[i]) && i + 1 < |words| ==> DropEnvArguments(words[i..]) == DropEnvArguments(words[i + 2..]) && !OperandAfter(words[..i + 2])
    ensures IsUnset(words[i]) && i + 1 == |words| ==> DropEnvArguments(words[i..]) == []
  {
    var here := words[i..];
    assert here[0] == words[i] && here[1..] == words[i + 1..];
    OperandAfterNext(words, i);
    if "-" <= words[i] {
      DashIsNoAssignment(words[i]);
    }
    if IsUnset(words[i]) && i + 1 < |words| {
      assert here[2..] == words[i + 2..];
      OperandAfterNext(words, i + 1);
    }
  }

  lemma {:induction false} DroppedFrom(words: seq<string>, i: nat) returns (k: nat)
    requires i <= |words| && !OperandAfter(words[..i]) && forall j :: 0 <= j < i ==> PassedAt(words, j)
    ensures CommandAt(words, k) && DropEnvArguments(words[i..]) == words[k..]
    decreases |words| - i
  {
    if i == |words| {
      return i;
    }
    LoopTurn(words, i);
    if !Passes(words[i]) {
      k := i;
    } else if !IsUnset(words[i]) {
      k := DroppedFrom(words, i + 1);
    } else if i + 1 < |words| {
      assert PassedAt(words, i + 1);
      k := DroppedFrom(words, i + 2);
    } else {
      k := |words|;
    }
  }

  lemma CommandUnique(words: seq<string>, k: nat, m: nat)
    requires CommandAt(words, k) && CommandAt(words, m)
    ensures k == m
  {
  }

  // Behind an `env` the first word that is no assignment, no dash word and no operand of `-u` or
  // `--unset` is taken for the command.
  lemma StripBehindEnv(env: string, words: seq<string>) returns (k: nat)
    requires Basename(env) == "env" && !IsAssignment(env)
    ensures CommandAt(words, k) && Strip([env] + words) == words[k..]
  {
    assert ([env] + words)[1..] == words;
    k := DroppedFrom(words, 0);
    assert words[0..] == words;
  }

  // Whether a word is stepped over depends on those before it only.
  lemma PassedInFront(words: seq<string>, more: seq<string>, i: nat)
    requires i < |words|
    ensures PassedAt(words + more, i) <==> PassedAt(words, i)
  {
    assert (words + more)[..i] == words[..i];
  }

  // Any words between an `env` and a command: what is left is the command if and only if each of them is
  // stepped over and the last is no `-u` or `--unset` that takes the command for its operand.
  lemma StripEnvIff(env: string, arguments: seq<string>, command: seq<string>)
    requires Basename(env) == "env" && !IsAssignment(env) && command != [] && !Passes(command[0])
    ensures Strip([env] + (arguments + command)) == command <==> EnvArguments(arguments)
  {
    var words := arguments + command;
    var k := StripBehindEnv(env, words);
    forall i | 0 <= i < |arguments|
      ensures PassedAt(words, i) <==> PassedAt(arguments, i)
    {
      PassedInFront(arguments, command, i);
    }
    assert words[..|arguments|] == arguments && words[|arguments|] == command[0] && words[|arguments|..] == command;
    if EnvArguments(arguments) {
      CommandUnique(words, k, |arguments|);
    } else if words[k..] == command {
      assert |words[k..]| == |words| - k;
    }
  }

  // An option of `env` with an operand of its own is not understood: the operand is taken for the command.
  lemma EnvOperandTaken(env: string, option: string, operand: string, command: seq<string>)
    requires Basename(env) == "env" && !IsAssignment(env) && "-" <= option && !IsUnset(option) && !Passes(operand)
    ensures Strip([env] + ([option, operand] + command)) == [operand] + command
  {
    var words := [option, operand] + command;
    assert words == [option] + ([operand] + command);
    assert [option][..0] == [] && [option][..1] == [option];
    assert EnvArguments([option]);
    StripEnvIff(env, [option], [operand] + command);
  }

  lemma {:induction false} NoSeparators(s: string)
    requires forall k :: 0 <= k < |s| ==> s[k] !in "/\\"
    ensures AfterSeparators(s) == s
    decreases |s|
  {
    if s != "" {
      NoSeparators(s[..|s| - 1]);
    }
  }

  lemma {:induction false} LastPart(before: string, part: string)
    requires before != "" && before[|before| - 1] in "/\\" && forall k :: 0 <= k < |part| ==> part[k] !in "/\\"
    ensures AfterSeparators(before + part) == part && Basename(before + part) == Lower(part)
    decreases |part|
  {
    var s := before + part;
    if part == "" {
      assert s == before;
    } else {
      assert s[..|s| - 1] == before + part[..|part| - 1] && s[|s| - 1] == part[|part| - 1];
      LastPart(before, part[..|part| - 1]);
    }
  }

  lemma EnvDirectoryTaken()
    ensures Strip(["env", "-C", "/tmp", "codex"]) == ["/tmp", "codex"]
  {
    NoSeparators("env");
    EnvOperandTaken("env", "-C", "/tmp", ["codex"]);
    assert ["env"] + (["-C", "/tmp"] + ["codex"]) == ["env", "-C", "/tmp", "codex"];
  }

  // Assignments in front change nothing.
  lemma {:induction false} StripAssignments(assignments: seq<string>, tokens: seq<string>)
    requires forall a :: a in assignments ==> IsAssignment(a)
    ensures Strip(assignments + tokens) == Strip(tokens)
  {
    var all := assignments + tokens;
    if assignments == [] {
      assert all == tokens;
    } else {
      assert assignments[0] in assignments && all[0] == assignments[0] && all[1..] == assignments[1..] + tokens;
      StripAssignments(assignments[1..], tokens);
    }
  }
}
