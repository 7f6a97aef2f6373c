/**
 What the two scanners of config/scripts/call-site-option-keys.ts read: when an argument is one object
 literal, and that on such an argument the two scanners run in lockstep.
 */
module OptionKeyReading {
  import opened Options
  import opened Strings
  import opened OptionKeys

  // ---------- well nested text ----------

  // From `l` the depth never drops below zero, no template substitution is met, and the text ends in
  // code at depth zero.
  predicate WellNestedFrom(s: string, l: Lex)
    decreases |s| - l.pos
  {
    l.depth >= 0
    && if l.pos >= |s| then l == Lex(|s|, Code, 0) else !Substitutes(s, l) && WellNestedFrom(s, Next(s, l))
  }

  predicate WellNested(s: string) { WellNestedFrom(s, START) }

  // The text ends with a slash of code that a following character could turn into a comment
  predicate LoneSlashFrom(s: string, l: Lex)
    decreases |s| - l.pos
  {
    l.pos < |s| && ((l.state.Code? && l.pos == |s| - 1 && s[l.pos] == '/') || LoneSlashFrom(s, Next(s, l)))
  }

  lemma {:induction false} NoLoneSlash(s: string, l: Lex)
    requires s != "" && s[|s| - 1] != '/'
    ensures !LoneSlashFrom(s, l)
    decreases |s| - l.pos
  {
    if l.pos < |s| {
      NoLoneSlash(s, Next(s, l));
    }
  }

  // Reading `s` at position `i` of `text` goes as reading it alone.
  ghost predicate Embeds(text: string, i: nat, s: string, l: Lex) {
    i + |s| <= |text| && text[i..i + |s|] == s
    && (i + |s| == |text| || text[i + |s|] !in {'/', '*'} || !LoneSlashFrom(s, l))
  }

  function At(l: Lex, i: nat, up: int): Lex { Lex(l.pos + i, l.state, l.depth + up) }

  // What a turn looks at: the character, and the one after a slash, a star of a comment or a template dollar
  ghost predicate SameSight(text: string, m: nat, s: string, l: Lex)
    requires m < |text| && l.pos < |s|
  {
    && text[m] == s[l.pos]
    && (l.state.Code? && s[l.pos] == '/' ==> NextIs(text, m, '/') == NextIs(s, l.pos, '/') && NextIs(text, m, '*') == NextIs(s, l.pos, '*'))
    && (l.state.BlockComment? && s[l.pos] == '*' ==> NextIs(text, m, '/') == NextIs(s, l.pos, '/'))
    && (l.state.Template? && s[l.pos] == '$' ==> NextIs(text, m, '{') == NextIs(s, l.pos, '{'))
  }

  lemma SameTurn(text: string, i: nat, s: string, l: Lex, up: int)
    requires l.pos + i < |text| && l.pos < |s| && SameSight(text, l.pos + i, s, l)
    ensures Next(text, At(l, i, up)) == At(Next(s, l), i, up)
    ensures InCode(text, At(l, i, up)) == InCode(s, l) && Substitutes(text, At(l, i, up)) == Substitutes(s, l)
  {
  }

  // Where the scan of `s` from `l` stands once it has run past the end
  function EndOf(s: string, l: Lex): (end: Lex)
    ensures end.pos >= |s|
    decreases |s| - l.pos
  {
    if l.pos >= |s| then l else EndOf(s, Next(s, l))
  }

  // The text ends in code at depth zero.  On the way the depth may have been anything.
  predicate ClosesFrom(s: string, l: Lex) { EndOf(s, l) == Lex(|s|, Code, 0) }

  predicate Closes(s: string) { ClosesFrom(s, START) }

  lemma {:induction false} WellNestedCloses(s: string, l: Lex)
    requires WellNestedFrom(s, l)
    ensures ClosesFrom(s, l)
    decreases |s| - l.pos
  {
    if l.pos < |s| {
      WellNestedCloses(s, Next(s, l));
    }
  }

  // A text that closes is not left inside a comment or a template at its last character.
  lemma LastTurn(s: string, l: Lex)
    requires l.pos + 1 == |s| && ClosesFrom(s, l)
    ensures Next(s, l) == Lex(|s|, Code, 0)
    ensures !l.state.Template? || s[l.pos] != '$'
    ensures !l.state.BlockComment?
  {
    assert EndOf(s, l) == EndOf(s, Next(s, l)) == Next(s, l);
  }

  // `s` stands in `text`, and closes unless it stands at the end.
  ghost predicate Sees(text: string, i: nat, s: string, l: Lex) {
    Embeds(text, i, s, l) && (ClosesFrom(s, l) || i + |s| == |text|)
  }

  lemma EmbeddedSight(text: string, i: nat, s: string, l: Lex)
    requires Sees(text, i, s, l) && l.pos < |s|
    ensures SameSight(text, l.pos + i, s, l)
  {
    assert text[l.pos + i] == text[i..i + |s|][l.pos];
    if l.pos + 1 < |s| {
      assert text[l.pos + 1 + i] == text[i..i + |s|][l.pos + 1];
    } else if ClosesFrom(s, l) {
      LastTurn(s, l);
    }
  }

  lemma NextSeen(text: string, i: nat, s: string, l: Lex, up: int)
    requires Sees(text, i, s, l) && l.pos < |s|
    ensures l.pos + i < |text| && text[l.pos + i] == s[l.pos]
    ensures Next(text, At(l, i, up)) == At(Next(s, l), i, up)
    ensures InCode(text, At(l, i, up)) == InCode(s, l) && Substitutes(text, At(l, i, up)) == Substitutes(s, l)
    ensures Sees(text, i, s, Next(s, l))
  {
    EmbeddedSight(text, i, s, l);
    SameTurn(text, i, s, l, up);
  }

  lemma NextEmbedded(text: string, i: nat, s: string, l: Lex, up: int)
    requires Embeds(text, i, s, l) && l.pos < |s| && WellNestedFrom(s, l)
    ensures Next(text, At(l, i, up)) == At(Next(s, l), i, up)
    ensures InCode(text, At(l, i, up)) == InCode(s, l) && !Substitutes(text, At(l, i, up))
    ensures Embeds(text, i, s, Next(s, l)) && WellNestedFrom(s, Next(s, l))
    ensures text[l.pos + i] == s[l.pos]
  {
    WellNestedCloses(s, l);
    NextSeen(text, i, s, l, up);
  }

  // ---------- the argument scanner over well nested text ----------

  lemma {:induction false} CloseSkips(text: string, i: nat, s: string, l: Lex, up: int)
    requires Embeds(text, i, s, l) && WellNestedFrom(s, l) && up >= 1
    ensures CloseFrom(text, At(l, i, up)) == CloseFrom(text, Lex(i + |s|, Code, up))
    decreases |s| - l.pos
  {
    if l.pos < |s| {
      NextEmbedded(text, i, s, l, up);
      CloseSkips(text, i, s, Next(s, l), up);
    }
  }

  lemma NextInBraces(body: string, text: string, l: Lex)
    requires text == "{" + body + "}" && l.pos < |body|
    ensures text[l.pos + 1] == body[l.pos]
    ensures Next(text, At(l, 1, 1)) == At(Next(body, l), 1, 1)
    ensures InCode(text, At(l, 1, 1)) == InCode(body, l) && Substitutes(text, At(l, 1, 1)) == Substitutes(body, l)
  {
    assert text[l.pos + 1] == body[l.pos];
    assert text[l.pos + 2] == if l.pos + 1 < |body| then body[l.pos + 1] else '}';
  }

  // The brace after the body, in whatever state it is met
  lemma LastBrace(body: string, text: string, l: Lex)
    requires text == "{" + body + "}" && l.depth >= 0 && l.pos >= |body|
    ensures CloseFrom(text, At(l, 1, 1)) == Some(|body| + 1) <==> l == Lex(|body|, Code, 0)
  {
    if l.pos == |body| {
      assert text[l.pos + 1] == '}';
      assert Next(text, At(l, 1, 1)).pos >= |text|;
    }
  }

  // `{body}` closes at its last brace exactly when the body is well nested.
  lemma {:induction false} SoleFrom(body: string, text: string, l: Lex)
    requires text == "{" + body + "}" && l.depth >= 0
    ensures CloseFrom(text, At(l, 1, 1)) == Some(|body| + 1) <==> WellNestedFrom(body, l)
    decreases |body| + 1 - l.pos
  {
    if l.pos < |body| {
      NextInBraces(body, text, l);
      if Next(body, l).depth >= 0 {
        SoleFrom(body, text, Next(body, l));
      }
    } else {
      LastBrace(body, text, l);
    }
  }

  // The caller can check with the argument scanner itself that an argument is one object literal: run on
  // the trimmed argument it returns everything between the outer braces.  Exactly then does the key
  // scanner stay at or above depth zero and end in code at depth zero.
  lemma SoleObjectIffWellNested(body: string)
    ensures BalancedText("{" + body + "}", 0) == Some(body) <==> WellNested(body)
  {
    SoleText(body, "{" + body + "}");
  }

  lemma SoleText(body: string, text: string)
    requires text == "{" + body + "}"
    ensures CloseFrom(text, START) == Some(|body| + 1) <==> WellNested(body)
    ensures BalancedText(text, 0) == Some(body) <==> CloseFrom(text, START) == Some(|body| + 1)
  {
    SoleFrom(body, text, START);
    OpeningBracket(text, START);
    var close := CloseFrom(text, START);
    if close.Some? {
      SliceIsBody(body, text, close.value);
    }
  }

  lemma BracketTurn(text: string, l: Lex)
    requires l.pos < |text| && l.state.Code? && OpensBracket(text[l.pos])
    ensures Next(text, l) == Lex(l.pos + 1, Code, l.depth + 1) && !ClosesBracket(text[l.pos]) && !Substitutes(text, l)
  {
  }

  lemma OpeningBracket(text: string, l: Lex)
    requires l.pos < |text| && l.state.Code? && OpensBracket(text[l.pos])
    ensures CloseFrom(text, l) == CloseFrom(text, Lex(l.pos + 1, Code, l.depth + 1))
    ensures Trace(text, l) == [l] + Trace(text, Lex(l.pos + 1, Code, l.depth + 1))
  {
    BracketTurn(text, l);
  }

  lemma SliceIsBody(body: string, text: string, close: nat)
    requires text == "{" + body + "}" && 0 < close < |text|
    ensures text[1..close] == body <==> close == |body| + 1
  {
    assert |text[1..close]| == close - 1;
    assert text[1..|body| + 1] == body;
  }

  // ---------- lockstep ----------

  // The positions a scanner stands at, one per turn of its loop
  function Trace(text: string, l: Lex): (t: seq<Lex>)
    ensures |t| > 0 && t[0] == l
    decreases |text| - l.pos
  {
    [l] + if l.pos < |text| then Trace(text, Next(text, l)) else []
  }

  lemma {:induction false} TraceEmbedded(text: string, i: nat, s: string, l: Lex, up: int, k: nat)
    requires Embeds(text, i, s, l) && WellNestedFrom(s, l) && k < |Trace(s, l)|
    ensures k < |Trace(text, At(l, i, up))| && Trace(text, At(l, i, up))[k] == At(Trace(s, l)[k], i, up)
    ensures Trace(s, l)[k].depth >= 0 && Trace(s, l)[k].pos <= |s|
    ensures k == |Trace(s, l)| - 1 ==> Trace(s, l)[k] == Lex(|s|, Code, 0)
    decreases |s| - l.pos
  {
    if l.pos < |s| {
      NextEmbedded(text, i, s, l, up);
      if k > 0 {
        TraceEmbedded(text, i, s, Next(s, l), up, k - 1);
      }
    }
  }

  // From turn `n` on the turns `t` are the turns `r`
  ghost predicate Continues(t: seq<Lex>, n: nat, r: seq<Lex>) { n <= |t| && t[n..] == r }

  lemma ContinuesLater(a: Lex, t: seq<Lex>, n: nat, r: seq<Lex>)
    requires Continues(t, n, r)
    ensures Continues([a] + t, n + 1, r)
  {
    assert ([a] + t)[n + 1..] == t[n..];
  }

  lemma ContinuesThrough(s: seq<Lex>, m: nat, t: seq<Lex>, n: nat, r: seq<Lex>)
    requires Continues(s, m, t) && Continues(t, n, r)
    ensures Continues(s, m + n, r)
  {
    assert s[m..][n..] == s[m + n..];
  }

  // `trace` gives the turns from each state: the equations of `Trace`, used one turn at a time.
  ghost predicate TraceTurn(text: string, trace: Lex -> seq<Lex>, l: Lex) {
    trace(l) == [l] + if l.pos < |text| then trace(Next(text, l)) else []
  }

  ghost predicate Traces(text: string, trace: Lex -> seq<Lex>) { forall l :: TraceTurn(text, trace, l) }

  function Tracer(text: string): Lex -> seq<Lex> { l => Trace(text, l) }

  lemma TracerTraces(text: string)
    ensures Traces(text, Tracer(text))
  {
    forall l
      ensures TraceTurn(text, Tracer(text), l)
    {
      assert Tracer(text)(l) == Trace(text, l);
    }
  }

  lemma {:induction false} TraceJoined(text: string, trace: Lex -> seq<Lex>, i: nat, s: string, l: Lex, up: int) returns (n: nat)
    requires Traces(text, trace) && Embeds(text, i, s, l) && WellNestedFrom(s, l)
    ensures Continues(trace(At(l, i, up)), n, trace(Lex(i + |s|, Code, up)))
    decreases |s| - l.pos
  {
    if l.pos < |s| {
      NextEmbedded(text, i, s, l, up);
      var m := TraceJoined(text, trace, i, s, Next(s, l), up);
      assert TraceTurn(text, trace, At(l, i, up));
      ContinuesLater(At(l, i, up), trace(At(Next(s, l), i, up)), m, trace(Lex(i + |s|, Code, up)));
      n := m + 1;
    } else {
      n := 0;
    }
  }

  // A character that is plain code whatever follows it
  predicate Plain(c: char) { c !in {'/', '\'', '"', '`'} && !OpensBracket(c) && !ClosesBracket(c) }

  lemma SpacePlain(c: char)
    requires IsSpace(c)
    ensures Plain(c) && c != ',' && c != ':' && !IsWord(c)
  {
  }

  lemma NextPlain(s: string, l: Lex)
    requires l.pos < |s| && l.state.Code? && Plain(s[l.pos])
    ensures InCode(s, l) && !Substitutes(s, l) && Next(s, l) == l.(pos := l.pos + 1)
  {
  }

  lemma {:induction false} PlainWellNested(s: string, i: nat)
    requires i <= |s| && forall k :: 0 <= k < |s| ==> Plain(s[k])
    ensures WellNestedFrom(s, Lex(i, Code, 0)) && !LoneSlashFrom(s, Lex(i, Code, 0))
    decreases |s| - i
  {
    if i < |s| {
      NextPlain(s, Lex(i, Code, 0));
      PlainWellNested(s, i + 1);
    }
  }

  lemma SpacesWellNested(ws: string)
    requires forall k :: 0 <= k < |ws| ==> IsSpace(ws[k])
    ensures WellNested(ws) && !LoneSlashFrom(ws, START)
  {
    forall k | 0 <= k < |ws|
      ensures Plain(ws[k])
    {
      SpacePlain(ws[k]);
    }
    PlainWellNested(ws, 0);
  }

  lemma {:induction false} TrimLeftSplit(s: string) returns (left: string)
    ensures s == left + TrimLeft(s) && (forall k :: 0 <= k < |left| ==> IsSpace(left[k]))
    ensures TrimLeft(s) != "" ==> !IsSpace(TrimLeft(s)[0])
    decreases |s|
  {
    if s != [] && IsSpace(s[0]) {
      var rest := TrimLeftSplit(s[1..]);
      left := [s[0]] + rest;
    } else {
      left := "";
    }
  }

  lemma {:induction false} TrimRightSplit(s: string) returns (right: string)
    ensures s == TrimRight(s) + right && (forall k :: 0 <= k < |right| ==> IsSpace(right[k]))
    ensures TrimRight(s) != "" ==> !IsSpace(TrimRight(s)[|TrimRight(s)| - 1])
    decreases |s|
  {
    if s != [] && IsSpace(s[|s| - 1]) {
      var rest := TrimRightSplit(s[..|s| - 1]);
      right := rest + [s[|s| - 1]];
      LastBack(s, TrimRight(s[..|s| - 1]), rest);
    } else {
      right := "";
    }
  }

  lemma LastBack(s: string, trimmed: string, rest: string)
    requires s != "" && s[..|s| - 1] == trimmed + rest
    ensures s == trimmed + (rest + [s[|s| - 1]])
  {
    assert s == s[..|s| - 1] + [s[|s| - 1]];
  }

  // Where the object literal sits in a call that the argument scanner accepts
  ghost predicate SoleObject(text: string, openIndex: nat, args: string, body: string) {
    && openIndex < |text| && text[openIndex] == '('
    && BalancedText(text, openIndex) == Some(args)
    && Trim(args) == "{" + body + "}"
    && BalancedText(Trim(args), 0) == Some(body)
  }

  // A turn of the argument scanner over an opening bracket
  lemma OverBracket(text: string, trace: Lex -> seq<Lex>, l: Lex, after: Lex)
    requires Traces(text, trace) && l.pos < |text| && l.state.Code? && OpensBracket(text[l.pos]) && after == Lex(l.pos + 1, Code, l.depth + 1)
    ensures Continues(trace(l), 1, trace(after))
  {
    BracketTurn(text, l);
    assert TraceTurn(text, trace, l);
  }

  // Over the white space before the object
  lemma ThroughSpaces(text: string, trace: Lex -> seq<Lex>, i: nat, left: string) returns (m: nat)
    requires Traces(text, trace) && i + |left| < |text| && text[i..i + |left|] == left && text[i + |left|] == '{'
    requires forall k :: 0 <= k < |left| ==> IsSpace(left[k])
    ensures Continues(trace(Lex(i, Code, 1)), m, trace(Lex(i + |left|, Code, 1)))
  {
    SpacesWellNested(left);
    assert Embeds(text, i, left, START);
    m := TraceJoined(text, trace, i, left, START, 1);
    assert At(START, i, 1) == Lex(i, Code, 1);
  }

  // From the opening parenthesis the argument scanner reaches the body of the object two brackets deep.
  lemma ReachesBody(text: string, trace: Lex -> seq<Lex>, openIndex: nat, left: string) returns (n: nat)
    requires Traces(text, trace) && openIndex + 1 + |left| < |text| && text[openIndex] == '('
    requires text[openIndex + 1..openIndex + 1 + |left|] == left && text[openIndex + 1 + |left|] == '{'
    requires forall k :: 0 <= k < |left| ==> IsSpace(left[k])
    ensures Continues(trace(Lex(openIndex, Code, 0)), n, trace(Lex(openIndex + 2 + |left|, Code, 2)))
  {
    var first, second := Lex(openIndex, Code, 0), Lex(openIndex + 1, Code, 1);
    var third, fourth := Lex(openIndex + 1 + |left|, Code, 1), Lex(openIndex + 2 + |left|, Code, 2);
    OverBracket(text, trace, first, second);
    var m := ThroughSpaces(text, trace, openIndex + 1, left);
    OverBracket(text, trace, third, fourth);
    ContinuesThrough(trace(first), 1, trace(second), m, trace(third));
    ContinuesThrough(trace(first), 1 + m, trace(third), 1, trace(fourth));
    n := 1 + m + 1;
  }

  // The two scanners run in lockstep: from some turn on, and for as long as the key scanner runs, the
  // argument scanner stands at the same character in the same lexical state, exactly two brackets deeper.
  lemma Lockstep(text: string, openIndex: nat, args: string, body: string) returns (turn: nat, offset: nat)
    requires SoleObject(text, openIndex, args, body)
    ensures offset + |body| < |text| && text[offset..offset + |body|] == body
    ensures var outer, inner := Trace(text, Lex(openIndex, Code, 0)), Trace(body, START);
            && turn + |inner| <= |outer|
            && (forall k :: 0 <= k < |inner| ==> outer[turn + k] == At(inner[k], offset, 2) && inner[k].depth >= 0)
            && inner[|inner| - 1] == Lex(|body|, Code, 0)
  {
    var left := LocateObject(text, openIndex, args, body);
    offset := openIndex + 2 + |left|;
    BodyWellNested(text, openIndex, args, body);
    turn := LockstepAt(text, openIndex, offset, left, body, Trace(text, Lex(openIndex, Code, 0)), Trace(text, Lex(offset, Code, 2)), Trace(body, START));
  }

  lemma LockstepAt(text: string, openIndex: nat, offset: nat, left: string, body: string, outer: seq<Lex>, inside: seq<Lex>, inner: seq<Lex>)
      returns (turn: nat)
    requires openIndex < |text| && text[openIndex] == '(' && OpensObject(text, openIndex + 1, left) && offset == openIndex + 2 + |left|
    requires WellNested(body) && offset + |body| < |text| && text[offset..offset + |body|] == body && text[offset + |body|] == '}'
    requires outer == Trace(text, Lex(openIndex, Code, 0)) && inside == Trace(text, Lex(offset, Code, 2)) && inner == Trace(body, START)
    ensures turn + |inner| <= |outer| && inner[|inner| - 1] == Lex(|body|, Code, 0)
    ensures forall k :: 0 <= k < |inner| ==> outer[turn + k] == At(inner[k], offset, 2) && inner[k].depth >= 0
  {
    turn := TurnsLeft(text, openIndex, left, offset, outer, inside);
    InnerTurns(text, offset, body, outer, inside, inner, turn);
  }

  // White space and an opening brace
  ghost predicate OpensObject(text: string, i: nat, left: string) {
    i + |left| < |text| && text[i..i + |left|] == left && text[i + |left|] == '{' && forall k :: 0 <= k < |left| ==> IsSpace(left[k])
  }

  lemma BodyWellNested(text: string, openIndex: nat, args: string, body: string)
    requires SoleObject(text, openIndex, args, body)
    ensures WellNested(body)
  {
    SoleObjectIffWellNested(body);
  }

  // The first part of it: the turns left when the argument scanner reaches the body
  lemma TurnsLeft(text: string, openIndex: nat, left: string, offset: nat, outer: seq<Lex>, inside: seq<Lex>) returns (turn: nat)
    requires openIndex < |text| && text[openIndex] == '(' && OpensObject(text, openIndex + 1, left) && offset == openIndex + 2 + |left|
    requires outer == Trace(text, Lex(openIndex, Code, 0)) && inside == Trace(text, Lex(offset, Code, 2))
    ensures Continues(outer, turn, inside)
  {
    TracerTraces(text);
    turn := ReachesBody(text, Tracer(text), openIndex, left);
    assert outer == Tracer(text)(Lex(openIndex, Code, 0)) && inside == Tracer(text)(Lex(offset, Code, 2));
  }

  // Every turn of the key scanner on the body is one of the argument scanner inside it.
  lemma InnerInside(text: string, offset: nat, body: string, inside: seq<Lex>, inner: seq<Lex>)
    requires inside == Trace(text, Lex(offset, Code, 2)) && inner == Trace(body, START)
    requires WellNested(body) && offset + |body| < |text| && text[offset..offset + |body|] == body && text[offset + |body|] == '}'
    ensures |inner| <= |inside| && inner[|inner| - 1] == Lex(|body|, Code, 0)
    ensures forall k :: 0 <= k < |inner| ==> inside[k] == At(inner[k], offset, 2) && inner[k].depth >= 0
  {
    assert At(START, offset, 2) == Lex(offset, Code, 2);
    forall k | 0 <= k < |inner|
      ensures k < |inside| && inside[k] == At(inner[k], offset, 2) && inner[k].depth >= 0
    {
      TraceEmbedded(text, offset, body, START, 2, k);
    }
    TraceEmbedded(text, offset, body, START, 2, |inner| - 1);
  }

  lemma InnerTurns(text: string, offset: nat, body: string, outer: seq<Lex>, inside: seq<Lex>, inner: seq<Lex>, turn: nat)
    requires turn <= |outer| && outer[turn..] == inside && inside == Trace(text, Lex(offset, Code, 2)) && inner == Trace(body, START)
    requires WellNested(body) && offset + |body| < |text| && text[offset..offset + |body|] == body && text[offset + |body|] == '}'
    ensures turn + |inner| <= |outer|
    ensures forall k :: 0 <= k < |inner| ==> outer[turn + k] == At(inner[k], offset, 2) && inner[k].depth >= 0
    ensures inner[|inner| - 1] == Lex(|body|, Code, 0)
  {
    InnerInside(text, offset, body, inside, inner);
    TurnsTogether(outer, inside, inner, turn, offset);
  }

  lemma TurnsTogether(outer: seq<Lex>, inside: seq<Lex>, inner: seq<Lex>, turn: nat, offset: nat)
    requires turn <= |outer| && outer[turn..] == inside && |inner| <= |inside|
    requires forall k :: 0 <= k < |inner| ==> inside[k] == At(inner[k], offset, 2) && inner[k].depth >= 0
    ensures turn + |inner| <= |outer|
    ensures forall k :: 0 <= k < |inner| ==> outer[turn + k] == At(inner[k], offset, 2) && inner[k].depth >= 0
  {
    forall k | 0 <= k < |inner|
      ensures outer[turn + k] == At(inner[k], offset, 2)
    {
      assert outer[turn..][k] == inside[k];
    }
  }

  lemma TrimSplit(s: string) returns (left: string, right: string)
    ensures s == left + Trim(s) + right
    ensures forall k :: 0 <= k < |left| ==> IsSpace(left[k])
    ensures forall k :: 0 <= k < |right| ==> IsSpace(right[k])
  {
    left := TrimLeftSplit(s);
    right := TrimRightSplit(TrimLeft(s));
    assert left + (Trim(s) + right) == left + Trim(s) + right;
  }

  lemma LocateObject(text: string, openIndex: nat, args: string, body: string) returns (left: string)
    requires BalancedText(text, openIndex) == Some(args) && Trim(args) == "{" + body + "}"
    ensures forall k :: 0 <= k < |left| ==> IsSpace(left[k])
    ensures var offset := openIndex + 2 + |left|;
            && offset + |body| < |text| && text[openIndex + 1..openIndex + 1 + |left|] == left
            && text[offset - 1] == '{' && text[offset..offset + |body|] == body && text[offset + |body|] == '}'
  {
    var right;
    left, right := TrimSplit(args);
    Located(text, openIndex, CloseFrom(text, Lex(openIndex, Code, 0)).value, left, body, right);
  }

  lemma Located(text: string, openIndex: nat, close: nat, left: string, body: string, right: string)
    requires openIndex < close < |text| && text[openIndex + 1..close] == left + ("{" + body + "}") + right
    ensures var offset := openIndex + 2 + |left|;
            && offset + |body| < close && text[openIndex + 1..openIndex + 1 + |left|] == left
            && text[offset - 1] == '{' && text[offset..offset + |body|] == body && text[offset + |body|] == '}'
  {
    var args := text[openIndex + 1..close];
    var offset := openIndex + 2 + |left|;
    assert args[..|left|] == left && args[|left|] == '{' && args[|left| + 1..|left| + 1 + |body|] == body && args[|left| + 1 + |body|] == '}';
    SubSlice(text, openIndex + 1, close, 0, |left|);
    SubSlice(text, openIndex + 1, close, |left| + 1, |left| + 1 + |body|);
    assert text[offset - 1] == args[|left|] && text[offset + |body|] == args[|left| + 1 + |body|];
  }

  lemma SubSlice(text: string, from: nat, to: nat, a: nat, b: nat)
    requires from <= to <= |text| && a <= b <= to - from
    ensures text[from..to][a..b] == text[from + a..from + b]
  {
    forall k | a <= k < b
      ensures text[from..to][k] == text[from + k]
    {
    }
  }

  // The turn at which the argument scanner succeeds, or gives up
  ghost predicate Returns(text: string, l: Lex) {
    l.pos < |text| && InCode(text, l) && ClosesBracket(text[l.pos]) && l.depth == 1
  }

  ghost predicate Refuses(text: string, l: Lex) { l.pos < |text| && Substitutes(text, l) }

  // Turn `n` is the first at which the depth returns to zero
  ghost predicate FirstReturn(text: string, t: seq<Lex>, n: nat) {
    n < |t| && Returns(text, t[n]) && forall m :: 0 <= m < n ==> t[m].depth >= 1 && !Returns(text, t[m]) && !Refuses(text, t[m])
  }

  lemma FirstReturnLater(text: string, l: Lex, rest: seq<Lex>, n: nat)
    requires l.depth >= 1 && !Returns(text, l) && !Refuses(text, l)
    ensures FirstReturn(text, [l] + rest, n + 1) <==> FirstReturn(text, rest, n)
  {
    var t := [l] + rest;
    assert forall m :: 0 <= m < |rest| ==> t[m + 1] == rest[m];
    if FirstReturn(text, t, n + 1) {
      forall m | 0 <= m < n
        ensures rest[m].depth >= 1 && !Returns(text, rest[m]) && !Refuses(text, rest[m])
      {
        assert t[m + 1] == rest[m];
      }
    }
  }

  // The argument list ends where the depth first returns to zero: at a closing bracket of code at depth
  // one, every turn in between being one bracket deep or more.
  lemma {:induction false} ClosesAtFirstReturn(text: string, l: Lex, close: nat)
    requires l.depth >= 1
    ensures CloseFrom(text, l) == Some(close) <==> exists n: nat :: FirstReturn(text, Trace(text, l), n) && Trace(text, l)[n].pos == close
    decreases |text| - l.pos
  {
    var t := Trace(text, l);
    if l.pos >= |text| {
      assert t == [l];
    } else if Returns(text, l) {
      assert FirstReturn(text, t, 0);
      forall n: nat | FirstReturn(text, t, n)
        ensures t[n] == l
      {
      }
      assert CloseFrom(text, l) == Some(l.pos);
      if l.pos == close {
        assert Trace(text, l)[0].pos == close;
        assert exists n: nat :: FirstReturn(text, Trace(text, l), n) && Trace(text, l)[n].pos == close;
      } else {
        assert forall n: nat :: FirstReturn(text, Trace(text, l), n) ==> Trace(text, l)[n].pos != close;
      }
    } else if !Refuses(text, l) {
      var rest := Trace(text, Next(text, l));
      assert t == [l] + rest;
      ClosesAtFirstReturn(text, Next(text, l), close);
      assert CloseFrom(text, l) == CloseFrom(text, Next(text, l));
      if CloseFrom(text, l) == Some(close) {
        var n: nat :| FirstReturn(text, rest, n) && rest[n].pos == close;
        FirstReturnLater(text, l, rest, n);
        assert FirstReturn(text, Trace(text, l), n + 1) && Trace(text, l)[n + 1].pos == close;
      }
      forall n: nat | FirstReturn(text, Trace(text, l), n) && Trace(text, l)[n].pos == close
        ensures CloseFrom(text, l) == Some(close)
      {
        FirstReturnLater(text, l, rest, n - 1);
        assert FirstReturn(text, rest, n - 1) && rest[n - 1] == t[n];
      }
    } else {
      assert t[0] == l;
    }
  }
}
