/**
 config/scripts/call-site-option-keys.ts: reading the option keys of a call out of source text with two
 hand-written scanners, one for the argument list and one for the object literal inside it.
 */
module OptionKeys {
  import opened Options
  import opened Strings

  // ---------- the lexer both scanners share ----------

  datatype ScanState = Code | LineComment | BlockComment | Single | Double | Template

  // Where a scanner stands: next position, lexical state, bracket depth
  datatype Lex = Lex(pos: nat, state: ScanState, depth: int)

  predicate NextIs(text: string, i: nat, c: char) { i + 1 < |text| && text[i + 1] == c }

  function OpensNonCode(text: string, i: nat): Option<ScanState>
    requires i < |text|
  {
    var c := text[i];
    if c == '/' && NextIs(text, i, '/') then Some(LineComment)
    else if c == '/' && NextIs(text, i, '*') then Some(BlockComment)
    else if c == '\'' then Some(Single)
    else if c == '"' then Some(Double)
    else if c == '`' then Some(Template)
    else None
  }

  predicate ClosesString(state: ScanState, c: char) {
    (state.Single? && c == '\'') || (state.Double? && c == '"') || (state.Template? && c == '`')
  }

  predicate OpensBracket(c: char) { c == '(' || c == '{' || c == '[' }

  predicate ClosesBracket(c: char) { c == ')' || c == '}' || c == ']' }

  // A character of code proper, neither in nor opening a comment or a string
  predicate InCode(text: string, l: Lex)
    requires l.pos < |text|
  {
    l.state.Code? && OpensNonCode(text, l.pos).None?
  }

  // `${` inside a template, which the argument scanner refuses
  predicate Substitutes(text: string, l: Lex)
    requires l.pos < |text|
  {
    l.state.Template? && text[l.pos] == '$' && NextIs(text, l.pos, '{')
  }

  // One turn of either loop, as far as position, state and depth go
  function Next(text: string, l: Lex): (n: Lex)
    requires l.pos < |text|
    ensures l.pos < n.pos <= l.pos + 2
  {
    var c := text[l.pos];
    match l.state
    case Code =>
      var o := OpensNonCode(text, l.pos);
      if o.Some? then Lex(if o.value.LineComment? || o.value.BlockComment? then l.pos + 2 else l.pos + 1, o.value, l.depth)
      else Lex(l.pos + 1, Code, if OpensBracket(c) then l.depth + 1 else if ClosesBracket(c) then l.depth - 1 else l.depth)
    case LineComment => Lex(l.pos + 1, if c == '\n' then Code else LineComment, l.depth)
    case BlockComment => if c == '*' && NextIs(text, l.pos, '/') then Lex(l.pos + 2, Code, l.depth) else l.(pos := l.pos + 1)
    case _ => if c == '\\' then l.(pos := l.pos + 2) else Lex(l.pos + 1, if ClosesString(l.state, c) then Code else l.state, l.depth)
  }

  const START: Lex := Lex(0, Code, 0)

  // ---------- the argument scanner ----------

  // Position of the bracket that closes the one the scan began at
  function CloseFrom(text: string, l: Lex): (close: Option<nat>)
    ensures close.Some? ==> l.pos <= close.value < |text| && (l.depth <= 0 ==> l.pos < close.value)
    decreases |text| - l.pos
  {
    if l.pos >= |text| then None
    else if InCode(text, l) && ClosesBracket(text[l.pos]) && l.depth <= 1 then (if l.depth == 1 then Some(l.pos) else None)
    else if Substitutes(text, l) then None
    else CloseFrom(text, Next(text, l))
  }

  function BalancedText(text: string, openIndex: nat): Option<string> {
    match CloseFrom(text, Lex(openIndex, Code, 0))
    case None => None
    case Some(close) => Some(text[openIndex + 1..close])
  }

  method BalancedArguments(text: string, openIndex: nat) returns (args: Option<string>)
    ensures args == BalancedText(text, openIndex)
  {
    var depth, state := 0, Code;
    var index := openIndex;
    while index < |text|
      invariant openIndex <= index
      invariant CloseFrom(text, Lex(openIndex, Code, 0)) == CloseFrom(text, Lex(index, state, depth))
      invariant depth > 0 ==> openIndex < index
      invariant depth >= 0
    {
      ghost var here := Lex(index, state, depth);
      var current := text[index];
      if state.Code? {
        var opening := OpensNonCode(text, index);
        if opening.Some? {
          state := opening.value;
          if state.LineComment? || state.BlockComment? {
            index := index + 1;
          }
        } else if OpensBracket(current) {
          depth := depth + 1;
        } else if ClosesBracket(current) {
          depth := depth - 1;
          if depth == 0 {
            return Some(text[openIndex + 1..index]);
          }
          if depth < 0 {
            return None;
          }
        }
      } else if state.LineComment? {
        if current == '\n' {
          state := Code;
        }
      } else if state.BlockComment? {
        if current == '*' && NextIs(text, index, '/') {
          state := Code;
          index := index + 1;
        }
      } else if current == '\\' {
        index := index + 1;
      } else if state.Template? && current == '$' && NextIs(text, index, '{') {
        return None;
      } else if ClosesString(state, current) {
        state := Code;
      }
      index := index + 1;
      assert Lex(index, state, depth) == Next(text, here);
    }
    return None;
  }

  // ---------- the key scanner ----------

  datatype KeyScan = KeyScan(lex: Lex, inValue: bool, token: string, keys: seq<string>)

  function Flushed(keys: seq<string>, token: string, depth: int): seq<string> {
    if Trim(token) != "" && depth == 0 then keys + [Trim(token)] else keys
  }

  // One turn of the key loop
  function KeyNext(body: string, k: KeyScan): KeyScan
    requires k.lex.pos < |body|
  {
    var c, next := body[k.lex.pos], Next(body, k.lex);
    if !InCode(body, k.lex) then k.(lex := next)
    else if OpensBracket(c) || ClosesBracket(c) then k.(lex := next, token := if k.inValue then k.token else k.token + [c])
    else if c == ':' && k.lex.depth == 0 && !k.inValue then KeyScan(next, true, "", Flushed(k.keys, k.token, 0))
    else if c == ',' && k.lex.depth == 0 then KeyScan(next, false, "", if k.inValue then k.keys else Flushed(k.keys, k.token, 0))
    else k.(lex := next, token := if k.inValue then k.token else k.token + [c])
  }

  function KeysFrom(body: string, k: KeyScan): seq<string>
    decreases |body| - k.lex.pos
  {
    if k.lex.pos >= |body| then (if k.inValue then k.keys else Flushed(k.keys, k.token, k.lex.depth))
    else KeysFrom(body, KeyNext(body, k))
  }

  function KeysOf(body: string): seq<string> { KeysFrom(body, KeyScan(START, false, "", [])) }

  method ObjectLiteralKeys(body: string) returns (keys: seq<string>)
    ensures keys == KeysOf(body)
  {
    keys := [];
    var depth, state, inValue, token := 0, Code, false, "";
    var index := 0;
    while index < |body|
      invariant KeysOf(body) == KeysFrom(body, KeyScan(Lex(index, state, depth), inValue, token, keys))
    {
      ghost var here := KeyScan(Lex(index, state, depth), inValue, token, keys);
      var current := body[index];
      if state.Code? {
        var opening := OpensNonCode(body, index);
        if opening.Some? {
          state := opening.value;
          if state.LineComment? || state.BlockComment? {
            index := index + 1;
          }
        } else if OpensBracket(current) {
          depth := depth + 1;
          if !inValue {
            token := token + [current];
          }
        } else if ClosesBracket(current) {
          depth := depth - 1;
          if !inValue {
            token := token + [current];
          }
        } else if current == ':' && depth == 0 && !inValue {
          keys := Flushed(keys, token, depth);
          token := "";
          inValue := true;
        } else if current == ',' && depth == 0 {
          if inValue {
            inValue := false;
          } else {
            keys := Flushed(keys, token, depth);
          }
          token := "";
        } else if !inValue {
          token := token + [current];
        }
      } else if state.LineComment? {
        if current == '\n' {
          state := Code;
        }
      } else if state.BlockComment? {
        if current == '*' && NextIs(body, index, '/') {
          state := Code;
          index := index + 1;
        }
      } else if current == '\\' {
        index := index + 1;
      } else if ClosesString(state, current) {
        state := Code;
      }
      index := index + 1;
      assert KeyScan(Lex(index, state, depth), inValue, token, keys) == KeyNext(body, here);
    }
    if !inValue {
      keys := Flushed(keys, token, depth);
    }
  }

  // ---------- reading a call ----------

  datatype CallOptionKeys = Readable(keys: seq<string>) | NeverCloses | NoOptions | NotAnObject | UnreadableKey(key: string)

  predicate IsWord(c: char) { 'A' <= c <= 'Z' || 'a' <= c <= 'z' || '0' <= c <= '9' || c == '_' || c == '$' }

  predicate IsIdentifier(s: string) {
    s != "" && !('0' <= s[0] <= '9') && forall i :: 0 <= i < |s| ==> IsWord(s[i])
  }

  function FirstUnreadable(keys: seq<string>): Option<string> {
    if keys == [] then None else if !IsIdentifier(keys[0]) then Some(keys[0]) else FirstUnreadable(keys[1..])
  }

  function ReadOptions(text: string, parenIndex: nat): CallOptionKeys {
    var args := BalancedText(text, parenIndex);
    if args.None? then NeverCloses
    else
      var trimmed := Trim(args.value);
      if trimmed == "" then NoOptions
      else if trimmed[0] != '{' || trimmed[|trimmed| - 1] != '}' then NotAnObject
      else
        var keys := KeysOf(trimmed[1..|trimmed| - 1]);
        if FirstUnreadable(keys).Some? then UnreadableKey(FirstUnreadable(keys).value) else Readable(keys)
  }

  method ReadCallOptionKeys(text: string, parenIndex: nat) returns (r: CallOptionKeys)
    ensures r == ReadOptions(text, parenIndex)
  {
    var args := BalancedArguments(text, parenIndex);
    if args.None? {
      return NeverCloses;
    }
    var trimmed := Trim(args.value);
    if trimmed == "" {
      return NoOptions;
    }
    if trimmed[0] != '{' || trimmed[|trimmed| - 1] != '}' {
      return NotAnObject;
    }
    var keys := ObjectLiteralKeys(trimmed[1..|trimmed| - 1]);
    var unreadable := FirstUnreadable(keys);
    r := if unreadable.Some? then UnreadableKey(unreadable.value) else Readable(keys);
  }
}
