/**
 Which commands get an interactive terminal (src/cli/codex-command-classification.ts).

 `FindIn` looks for the subcommand behind global options; the verdicts are functions of the first 32
 shell words of the command.  The theorems insert options and launch prefixes and say exactly when the
 verdict is kept.
 */
module CodexClassification {
  import opened Options
  import opened Sequences
  import opened Strings
  import opened CodexTokens

  const WORD_LIMIT: nat := 32

  // A subcommand and its place
  datatype Sub = Sub(value: string, index: nat)

  // The tables of options and subcommands
  datatype Vocabulary = Vocabulary(
    globalValued: set<string>, globalBoolean: set<string>,
    loginValued: set<string>, loginBoolean: set<string>, loginOneShot: set<string>,
    cloudValued: set<string>, cloudBoolean: set<string>, cloudOneShot: set<string>,
    oneShot: set<string>)

  const CODEX := Vocabulary(
    {"--config", "-c", "--enable", "--disable", "--remote", "--remote-auth-token-env", "--image", "-i", "--model", "-m",
     "--local-provider", "--profile", "-p", "--sandbox", "-s", "--cd", "-C", "--add-dir", "--ask-for-approval", "-a"},
    {"--oss", "--dangerously-bypass-approvals-and-sandbox", "--search", "--no-alt-screen", "--no-daemon", "--help", "-h",
     "--version", "-V"},
    {"-c", "--config", "--enable", "--disable"},
    {"--with-api-key", "--with-access-token", "--device-auth", "--help", "-h"},
    {"status", "help"},
    {"-c", "--config", "--enable", "--disable"},
    {"--help", "-h", "--version", "-V"},
    {"exec", "status", "list", "apply", "diff", "help"},
    {"exec", "e", "review", "logout", "mcp", "plugin", "mcp-server", "app-server", "remote-control", "app", "completion",
     "update", "doctor", "sandbox", "debug", "execpolicy", "apply", "a", "cloud", "cloud-tasks", "responses-api-proxy",
     "stdio-to-uds", "exec-server", "features", "help", "version"})

  function OptionName(token: string): string {
    var k := IndexOf(token, '=');
    if k == -1 then token else token[..k]
  }

  predicate IsHelp(token: string) { token == "--help" || token == "-h" }

  predicate IsVersion(token: string) { token == "--version" || token == "-V" }

  // What the first token settles: the answer, or how many tokens to step over
  datatype Turn = Answer(found: Option<Sub>) | Skip(width: nat)

  function TurnAt(tokens: seq<string>, valued: set<string>, boolean: set<string>): (turn: Turn)
    requires tokens != []
    ensures turn.Skip? ==> 1 <= turn.width <= 2
    ensures turn.Answer? && turn.found.Some? ==> turn.found.value.index < |tokens|
  {
    var token := tokens[0];
    var name := OptionName(token);
    if token == "--" then Answer(if |tokens| >= 2 && tokens[1] != "" then Some(Sub("<prompt>", 1)) else None)
    else if IsHelp(name) || IsVersion(name) then Answer(Some(Sub(if IsVersion(name) then "version" else "help", 0)))
    else if name in valued then Skip(if name == token then 2 else 1)
    else if name in boolean then Skip(1)
    else Answer(Some(Sub(token, 0)))
  }

  function Later(found: Option<Sub>, n: nat): Option<Sub> { if found.None? then None else Some(Sub(found.value.value, found.value.index + n)) }

  // The subcommand among the tokens, with its offset
  function FindIn(tokens: seq<string>, valued: set<string>, boolean: set<string>): (found: Option<Sub>)
    ensures found.Some? ==> found.value.index < |tokens|
    decreases |tokens|
  {
    if tokens == [] then None
    else
      match TurnAt(tokens, valued, boolean)
      case Answer(found) => found
      case Skip(n) => if n <= |tokens| then Later(FindIn(tokens[n..], valued, boolean), n) else None
  }

  function FindFrom(tokens: seq<string>, i: nat, valued: set<string>, boolean: set<string>): Option<Sub> {
    if i <= |tokens| then Later(FindIn(tokens[i..], valued, boolean), i) else None
  }

  lemma FindSkip(tokens: seq<string>, n: nat, valued: set<string>, boolean: set<string>)
    requires tokens != [] && n <= |tokens| && TurnAt(tokens, valued, boolean) == Skip(n)
    ensures FindIn(tokens, valued, boolean) == Later(FindIn(tokens[n..], valued, boolean), n)
  {
  }

  lemma FindPast(tokens: seq<string>, n: nat, valued: set<string>, boolean: set<string>)
    requires tokens != [] && n > |tokens| && TurnAt(tokens, valued, boolean) == Skip(n)
    ensures FindIn(tokens, valued, boolean) == None
  {
  }

  lemma FindAnswer(tokens: seq<string>, found: Option<Sub>, valued: set<string>, boolean: set<string>)
    requires tokens != [] && TurnAt(tokens, valued, boolean) == Answer(found)
    ensures FindIn(tokens, valued, boolean) == found
  {
  }

  // One turn of the search
  lemma FindTurn(tokens: seq<string>, i: nat, valued: set<string>, boolean: set<string>)
    requires i < |tokens|
    ensures match TurnAt(tokens[i..], valued, boolean)
            case Answer(found) => FindFrom(tokens, i, valued, boolean) == Later(found, i)
            case Skip(n) => FindFrom(tokens, i, valued, boolean) == FindFrom(tokens, i + n, valued, boolean)
  {
    var here := tokens[i..];
    match TurnAt(here, valued, boolean) {
      case Answer(found) => FindAnswer(here, found, valued, boolean);
      case Skip(n) =>
        if i + n <= |tokens| {
          assert here[n..] == tokens[i + n..];
          FindSkip(here, n, valued, boolean);
          var later := FindIn(tokens[i + n..], valued, boolean);
          LaterTwice(Later(Later(later, n), i), Later(later, n), later, i, n);
        } else {
          FindPast(here, n, valued, boolean);
        }
    }
  }

  method FindCodexSubcommand(tokens: seq<string>, startIndex: nat, valued: set<string>, boolean: set<string>) returns (found: Option<Sub>)
    requires startIndex <= |tokens|
    ensures found == FindFrom(tokens, startIndex, valued, boolean)
  {
    var i: nat := startIndex;
    while i < |tokens|
      invariant FindFrom(tokens, startIndex, valued, boolean) == FindFrom(tokens, i, valued, boolean)
      decreases |tokens| - i
    {
      FindTurn(tokens, i, valued, boolean);
      var token := tokens[i];
      if token == "--" {
        return if i + 1 < |tokens| && tokens[i + 1] != "" then Some(Sub("<prompt>", i + 1)) else None;
      }
      var optionName := OptionName(token);
      if IsHelp(optionName) || IsVersion(optionName) {
        return Some(Sub(if IsVersion(optionName) then "version" else "help", i));
      }
      if optionName in valued {
        if optionName == token {
          i := i + 1;
        }
        i := i + 1;
        continue;
      }
      if optionName in boolean {
        i := i + 1;
        continue;
      }
      return Some(Sub(token, i));
    }
    return None;
  }

  // ---------- the verdicts ----------

  predicate LoginFlag(t: string) { t == "--with-api-key" || t == "--with-access-token" || IsHelp(t) }

  predicate CloudFlag(t: string) { IsHelp(t) || IsVersion(t) }

  // The verdicts on what follows a login and a cloud command, where `child` is found
  predicate LoginOneShot(child: Option<Sub>, after: seq<string>, v: Vocabulary) {
    (exists t | t in after :: LoginFlag(t)) || (child.Some? && Lower(child.value.value) in v.loginOneShot)
  }

  predicate CloudOneShot(child: Option<Sub>, after: seq<string>, v: Vocabulary) {
    (exists t | t in after :: CloudFlag(t)) || (child.Some? && Lower(child.value.value) in v.cloudOneShot)
  }

  // The child of a login or of a cloud command
  function Child(name: string, after: seq<string>, v: Vocabulary): Option<Sub> {
    if name == "login" then FindIn(after, v.loginValued, v.loginBoolean)
    else if name == "cloud" then FindIn(after, v.cloudValued, v.cloudBoolean)
    else None
  }

  predicate NamedOneShot(name: string, child: Option<Sub>, after: seq<string>, v: Vocabulary) {
    if name == "login" then LoginOneShot(child, after, v) else if name == "cloud" then CloudOneShot(child, after, v) else name in v.oneShot
  }

  // Whether what was found among the arguments is a one-shot subcommand
  predicate OneShot(found: Option<Sub>, arguments: seq<string>, v: Vocabulary)
    requires found.Some? ==> found.value.index < |arguments|
  {
    match found
    case None => false
    case Some(sub) =>
      var name, after := Lower(sub.value), arguments[sub.index + 1..];
      NamedOneShot(name, Child(name, after, v), after, v)
  }

  predicate OneShotArguments(arguments: seq<string>, v: Vocabulary) {
    OneShot(FindIn(arguments, v.globalValued, v.globalBoolean), arguments, v)
  }

  method LoginIsOneShot(tokens: seq<string>, start: nat, v: Vocabulary) returns (oneShot: bool)
    requires start <= |tokens|
    ensures oneShot == LoginOneShot(Child("login", tokens[start..], v), tokens[start..], v)
  {
    var login := FindCodexSubcommand(tokens, start, v.loginValued, v.loginBoolean);
    return (exists t | t in tokens[start..] :: t == "--with-api-key" || t == "--with-access-token")
        || (exists t | t in tokens[start..] :: IsHelp(t))
        || (login.Some? && Lower(login.value.value) in v.loginOneShot);
  }

  method CloudIsOneShot(tokens: seq<string>, start: nat, v: Vocabulary) returns (oneShot: bool)
    requires start <= |tokens|
    ensures oneShot == CloudOneShot(Child("cloud", tokens[start..], v), tokens[start..], v)
  {
    var cloud := FindCodexSubcommand(tokens, start, v.cloudValued, v.cloudBoolean);
    return (exists t | t in tokens[start..] :: IsHelp(t) || IsVersion(t))
        || (cloud.Some? && Lower(cloud.value.value) in v.cloudOneShot);
  }

  // The same counted from the executable
  lemma OneShotFrom(tokens: seq<string>, subcommand: Option<Sub>, found: Option<Sub>, v: Vocabulary)
    requires tokens != [] && found == FindIn(tokens[1..], v.globalValued, v.globalBoolean) && subcommand == Later(found, 1)
    ensures match subcommand
            case None => !OneShotArguments(tokens[1..], v)
            case Some(sub) =>
              var name, start := Lower(sub.value), sub.index + 1;
              && start <= |tokens|
              && OneShotArguments(tokens[1..], v) == NamedOneShot(name, Child(name, tokens[start..], v), tokens[start..], v)
  {
    if found.Some? {
      assert tokens[1..][found.value.index + 1..] == tokens[found.value.index + 2..];
    }
  }

  method IsNonInteractiveCodexSubcommand(tokens: seq<string>, v: Vocabulary) returns (oneShot: bool)
    requires tokens != []
    ensures oneShot == OneShotArguments(tokens[1..], v)
  {
    var subcommand := FindCodexSubcommand(tokens, 1, v.globalValued, v.globalBoolean);
    OneShotFrom(tokens, subcommand, FindIn(tokens[1..], v.globalValued, v.globalBoolean), v);
    if subcommand.None? {
      return false;
    }
    var normalized := Lower(subcommand.value.value);
    var start := subcommand.value.index + 1;
    if normalized == "login" {
      oneShot := LoginIsOneShot(tokens, start, v);
      return;
    }
    if normalized == "cloud" {
      oneShot := CloudIsOneShot(tokens, start, v);
      return;
    }
    return normalized in v.oneShot;
  }

  predicate IsCodex(name: string) { name == "codex" || name == "codex.exe" || name == "codex.cmd" }

  predicate IsClaude(name: string) { name == "claude" || name == "claude.exe" || name == "claude.cmd" }

  predicate IsClaudePrint(token: string) { OptionName(token) == "-p" || OptionName(token) == "--print" }

  // Whether the command left of its launch prefix is an interactive codex
  predicate CodexTerminal(tokens: seq<string>, v: Vocabulary) {
    tokens != [] && IsCodex(Basename(tokens[0])) && !OneShotArguments(tokens[1..], v)
  }

  // Or an interactive claude
  predicate ClaudeTerminal(tokens: seq<string>) {
    tokens != [] && IsClaude(Basename(tokens[0])) && forall t | t in tokens[1..] :: !IsHelp(t) && !IsVersion(t) && !IsClaudePrint(t)
  }

  predicate InteractiveTerminal(tokens: seq<string>, v: Vocabulary) { CodexTerminal(tokens, v) || ClaudeTerminal(tokens) }

  // The command words behind the launch prefix, of the first 32
  function CommandWords(command: string): seq<string> { Strip(Tokens(Trim(command), WORD_LIMIT)) }

  method LaunchedWords(command: string) returns (tokens: seq<string>)
    ensures tokens == CommandWords(command)
  {
    var words := TokenizeLeadingShellWords(Trim(command), WORD_LIMIT);
    ScanNonempty(Trim(command), "", Open, 0, WORD_LIMIT);
    tokens := StripShellLaunchPrefix(words);
  }

  method ShouldUseRendererBackedCodexTerminal(command: Option<string>) returns (use: bool)
    ensures use == (command.Some? && CodexTerminal(CommandWords(command.value), CODEX))
  {
    if command.None? || command.value == "" {
      return false;
    }
    var tokens := LaunchedWords(command.value);
    if tokens == [] || !IsCodex(Basename(tokens[0])) {
      return false;
    }
    var oneShot := IsNonInteractiveCodexSubcommand(tokens, CODEX);
    return !oneShot;
  }

  method ShouldUseRendererBackedInteractiveTerminal(command: Option<string>) returns (use: bool)
    ensures use == (command.Some? && InteractiveTerminal(CommandWords(command.value), CODEX))
  {
    if command.None? || command.value == "" {
      return false;
    }
    var tokens := LaunchedWords(command.value);
    if tokens == [] {
      return false;
    }
    var executable := Basename(tokens[0]);
    if IsCodex(executable) {
      var oneShot := IsNonInteractiveCodexSubcommand(tokens, CODEX);
      return !oneShot;
    }
    if IsClaude(executable) {
      return !exists t | t in tokens[1..] :: IsHelp(t) || IsVersion(t) || IsClaudePrint(t);
    }
    return false;
  }

  // ---------- inserting options ----------

  // Known global options with their values, none of them help or version
  predicate GlobalOptions(options: seq<string>, v: Vocabulary)
    decreases |options|
  {
    if options == [] then true
    else
      var name := OptionName(options[0]);
      && options[0] != "--" && !IsHelp(name) && !IsVersion(name)
      && if name in v.globalValued && name == options[0] then |options| >= 2 && GlobalOptions(options[2..], v)
         else (name in v.globalValued || name in v.globalBoolean) && GlobalOptions(options[1..], v)
  }

  lemma OptionTurn(options: seq<string>, rest: seq<string>, v: Vocabulary)
    requires GlobalOptions(options, v) && options != []
    ensures var turn := TurnAt(options + rest, v.globalValued, v.globalBoolean);
            turn.Skip? && turn.width <= |options| && GlobalOptions(options[turn.width..], v)
  {
  }

  // The first option is stepped over
  lemma OptionSkipped(options: seq<string>, rest: seq<string>, v: Vocabulary) returns (n: nat)
    requires GlobalOptions(options, v) && options != []
    ensures 1 <= n <= |options| && GlobalOptions(options[n..], v)
    ensures FindIn(options + rest, v.globalValued, v.globalBoolean) == Later(FindIn(options[n..] + rest, v.globalValued, v.globalBoolean), n)
  {
    var all := options + rest;
    OptionTurn(options, rest, v);
    n := TurnAt(all, v.globalValued, v.globalBoolean).width;
    assert all[n..] == options[n..] + rest;
    FindSkip(all, n, v.globalValued, v.globalBoolean);
  }

  lemma LaterTwice(a: Option<Sub>, b: Option<Sub>, c: Option<Sub>, n: nat, m: nat)
    requires a == Later(b, n) && b == Later(c, m)
    ensures a == Later(c, n + m)
  {
  }

  // The subcommand behind inserted options is the same, further on.
  lemma {:induction false} OptionsShift(options: seq<string>, rest: seq<string>, v: Vocabulary)
    requires GlobalOptions(options, v)
    ensures FindIn(options + rest, v.globalValued, v.globalBoolean) == Later(FindIn(rest, v.globalValued, v.globalBoolean), |options|)
    decreases |options|
  {
    if options == [] {
      assert options + rest == rest;
    } else {
      var n := OptionSkipped(options, rest, v);
      OptionsShift(options[n..], rest, v);
      LaterTwice(FindIn(options + rest, v.globalValued, v.globalBoolean), FindIn(options[n..] + rest, v.globalValued, v.globalBoolean),
                 FindIn(rest, v.globalValued, v.globalBoolean), n, |options[n..]|);
    }
  }

  lemma OneShotShifted(found: Option<Sub>, options: seq<string>, rest: seq<string>, v: Vocabulary)
    requires found.Some? ==> found.value.index < |rest|
    ensures OneShot(Later(found, |options|), options + rest, v) == OneShot(found, rest, v)
  {
    if found.Some? {
      assert (options + rest)[|options| + found.value.index + 1..] == rest[found.value.index + 1..];
    }
  }

  // Global options before the subcommand never change whether the arguments are one-shot.
  lemma OptionsKeepVerdict(options: seq<string>, rest: seq<string>, v: Vocabulary)
    requires GlobalOptions(options, v)
    ensures OneShotArguments(options + rest, v) == OneShotArguments(rest, v)
  {
    OptionsShift(options, rest, v);
    OneShotShifted(FindIn(rest, v.globalValued, v.globalBoolean), options, rest, v);
  }

  // ---------- behind an env ----------

  // Any words behind an `env`: the verdict is that of the first one not stepped over and those after it.
  lemma EnvVerdict(env: string, words: seq<string>, k: nat, v: Vocabulary)
    requires Basename(env) == "env" && !IsAssignment(env) && CommandAt(words, k)
    ensures CodexTerminal(Strip([env] + words), v)
            <==> k < |words| && IsCodex(Basename(words[k])) && !OneShotArguments(words[k + 1..], v)
    ensures InteractiveTerminal(Strip([env] + words), v) <==> InteractiveTerminal(words[k..], v)
  {
    var m := StripBehindEnv(env, words);
    CommandUnique(words, k, m);
    if k < |words| {
      assert words[k..][0] == words[k] && words[k..][1..] == words[k + 1..];
    }
  }

  // `env` and any words in front of a command keep its verdict as long as the command is found behind
  // them, unless it is an `env` itself with an interactive command: a second `env` is not looked through.
  // When another word is taken for the command, the words from there on decide.
  lemma EnvKeepsVerdictIff(env: string, arguments: seq<string>, command: seq<string>, k: nat, j: nat, v: Vocabulary)
    requires Basename(env) == "env" && !IsAssignment(env) && command != [] && !Passes(command[0])
    requires CommandAt(arguments + command, k) && CommandAt(command[1..], j)
    ensures k == |arguments| <==> EnvArguments(arguments)
    ensures var inner := if IsEnv(command) then command[1..][j..] else command;
            && (CodexTerminal(Strip([env] + (arguments + command)), v) == CodexTerminal(Strip(command), v) <==>
                 if k == |arguments| then !(IsEnv(command) && CodexTerminal(inner, v))
                 else CodexTerminal((arguments + command)[k..], v) == CodexTerminal(inner, v))
            && (InteractiveTerminal(Strip([env] + (arguments + command)), v) == InteractiveTerminal(Strip(command), v) <==>
                 if k == |arguments| then !(IsEnv(command) && InteractiveTerminal(inner, v))
                 else InteractiveTerminal((arguments + command)[k..], v) == InteractiveTerminal(inner, v))
  {
    var words := arguments + command;
    StripEnvIff(env, arguments, command);
    var m := StripBehindEnv(env, words);
    CommandUnique(words, k, m);
    assert words[|arguments|..] == command && |words[k..]| == |words| - k;
    StripCommand(command, j);
  }

  // A command by itself is looked through once if it is an `env`.
  lemma StripCommand(command: seq<string>, j: nat)
    requires command != [] && !Passes(command[0]) && CommandAt(command[1..], j)
    ensures Strip(command) == if IsEnv(command) then command[1..][j..] else command
  {
    if IsEnv(command) {
      var m := StripBehindEnv(command[0], command[1..]);
      CommandUnique(command[1..], j, m);
      assert [command[0]] + command[1..] == command;
    }
  }

  // An option with an operand of its own hides the command: its operand is classified instead.
  lemma EnvOptionHides(env: string, option: string, operand: string, command: seq<string>, v: Vocabulary)
    requires Basename(env) == "env" && !IsAssignment(env) && "-" <= option && !IsUnset(option) && !Passes(operand)
    ensures CodexTerminal(Strip([env] + ([option, operand] + command)), v) <==> CodexTerminal([operand] + command, v)
  {
    EnvOperandTaken(env, option, operand, command);
  }

  lemma CodexAlone(v: Vocabulary)
    ensures CodexTerminal(Strip(["codex"]), v)
  {
    NoSeparators("codex");
    assert Lower("codex") == "codex" && IndexOf("codex", '=') == -1;
    assert ["codex"][1..] == [];
  }

  // The directory of `env -C` is taken for the command, and the interactive codex behind it is not seen.
  lemma EnvDirectoryHidesCodex(v: Vocabulary)
    ensures CodexTerminal(Strip(["codex"]), v) && !CodexTerminal(Strip(["env", "-C", "/tmp", "codex"]), v)
  {
    CodexAlone(v);
    EnvDirectoryTaken();
    DirectoryIsNoCodex();
  }

  lemma DirectoryIsNoCodex()
    ensures !IsCodex(Basename("/tmp"))
  {
    LastPart("/", "tmp");
    assert "/" + "tmp" == "/tmp" && |Lower("tmp")| == 3;
  }

  // ---------- the first words of the arguments ----------

  lemma TurnTaken(tokens: seq<string>, m: nat, valued: set<string>, boolean: set<string>)
    requires tokens != [] && 1 <= m <= |tokens|
    ensures var turn := TurnAt(tokens, valued, boolean);
            TurnAt(tokens[..m], valued, boolean)
            == if turn.Answer? && turn.found.Some? && turn.found.value.index >= m then Answer(None) else turn
  {
  }

  // Cutting the tokens off hides what lies behind the cut, and nothing else.
  lemma {:induction false} FindTaken(tokens: seq<string>, m: nat, valued: set<string>, boolean: set<string>)
    requires m <= |tokens|
    ensures var found := FindIn(tokens, valued, boolean);
            FindIn(tokens[..m], valued, boolean) == if found.Some? && found.value.index < m then found else None
    decreases |tokens|
  {
    if m > 0 {
      TurnTaken(tokens, m, valued, boolean);
      var turn := TurnAt(tokens, valued, boolean);
      if turn.Skip? && turn.width <= m {
        FindTaken(tokens[turn.width..], m - turn.width, valued, boolean);
        assert tokens[..m][turn.width..] == tokens[turn.width..][..m - turn.width];
      }
    }
  }

  // The word at `i` shows a subcommand to be one-shot: the subcommand itself, or a word behind a login or
  // a cloud.
  predicate Shows(sub: Sub, child: Option<Sub>, arguments: seq<string>, i: nat, v: Vocabulary)
    requires i < |arguments|
  {
    var name, isChild := Lower(sub.value), child.Some? && sub.index + 1 + child.value.index == i;
    if name == "login" then i > sub.index && (LoginFlag(arguments[i]) || (isChild && Lower(child.value.value) in v.loginOneShot))
    else if name == "cloud" then i > sub.index && (CloudFlag(arguments[i]) || (isChild && Lower(child.value.value) in v.cloudOneShot))
    else i == sub.index && name in v.oneShot
  }

  ghost predicate ShownBy(sub: Sub, child: Option<Sub>, arguments: seq<string>, m: int, v: Vocabulary) {
    exists i: nat :: i < |arguments| && i < m && Shows(sub, child, arguments, i, v)
  }

  // ... where `childOf` finds children
  ghost predicate ShownIn(childOf: (string, seq<string>) -> Option<Sub>, found: Option<Sub>, arguments: seq<string>, m: int, v: Vocabulary)
    requires found.Some? ==> found.value.index < |arguments|
  {
    found.Some? && ShownBy(found.value, childOf(Lower(found.value.value), arguments[found.value.index + 1..]), arguments, m, v)
  }

  function Children(v: Vocabulary): (string, seq<string>) -> Option<Sub> { (name, after) => Child(name, after, v) }

  // Some word before `m` shows the subcommand of these arguments to be one-shot.
  ghost predicate ShownBefore(arguments: seq<string>, m: int, v: Vocabulary) {
    ShownIn(Children(v), FindIn(arguments, v.globalValued, v.globalBoolean), arguments, m, v)
  }

  function Before(found: Option<Sub>, n: nat): Option<Sub> { if found.Some? && found.value.index < n then found else None }

  lemma ChildTaken(name: string, after: seq<string>, n: nat, v: Vocabulary)
    requires n <= |after|
    ensures Child(name, after[..n], v) == Before(Child(name, after, v), n)
  {
    if name == "login" {
      FindTaken(after, n, v.loginValued, v.loginBoolean);
    } else if name == "cloud" {
      FindTaken(after, n, v.cloudValued, v.cloudBoolean);
    }
  }

  lemma WordsBetween(arguments: seq<string>, start: nat, m: nat)
    requires start <= m <= |arguments|
    ensures forall i :: start <= i < m ==> arguments[i] in arguments[start..m]
    ensures forall t :: t in arguments[start..m] ==> exists i :: start <= i < m && arguments[i] == t
  {
    forall i | start <= i < m
      ensures arguments[i] in arguments[start..m]
    {
      assert arguments[start..m][i - start] == arguments[i];
    }
  }

  lemma LoginTaken(sub: Sub, child: Option<Sub>, arguments: seq<string>, after: seq<string>, m: nat, v: Vocabulary)
    requires sub.index < m <= |arguments| && Lower(sub.value) == "login" && after == arguments[sub.index + 1..m]
    ensures ShownBy(sub, child, arguments, m, v) <==> LoginOneShot(Before(child, m - sub.index - 1), after, v)
  {
    WordsBetween(arguments, sub.index + 1, m);
    if child.Some? && child.value.index < m - sub.index - 1 && Lower(child.value.value) in v.loginOneShot {
      assert Shows(sub, child, arguments, sub.index + 1 + child.value.index, v);
    }
    forall t | t in after && LoginFlag(t)
      ensures ShownBy(sub, child, arguments, m, v)
    {
      var i: nat :| sub.index < i < m && arguments[i] == t;
      assert Shows(sub, child, arguments, i, v);
    }
  }

  lemma CloudTaken(sub: Sub, child: Option<Sub>, arguments: seq<string>, after: seq<string>, m: nat, v: Vocabulary)
    requires sub.index < m <= |arguments| && Lower(sub.value) == "cloud" && after == arguments[sub.index + 1..m]
    ensures ShownBy(sub, child, arguments, m, v) <==> CloudOneShot(Before(child, m - sub.index - 1), after, v)
  {
    WordsBetween(arguments, sub.index + 1, m);
    if child.Some? && child.value.index < m - sub.index - 1 && Lower(child.value.value) in v.cloudOneShot {
      assert Shows(sub, child, arguments, sub.index + 1 + child.value.index, v);
    }
    forall t | t in after && CloudFlag(t)
      ensures ShownBy(sub, child, arguments, m, v)
    {
      var i: nat :| sub.index < i < m && arguments[i] == t;
      assert Shows(sub, child, arguments, i, v);
    }
  }

  // Any other subcommand shows itself.
  lemma ItselfShown(sub: Sub, child: Option<Sub>, arguments: seq<string>, m: int, v: Vocabulary)
    requires sub.index < |arguments| && Lower(sub.value) !in {"login", "cloud"}
    ensures ShownBy(sub, child, arguments, m, v) <==> sub.index < m && Lower(sub.value) in v.oneShot
  {
    if sub.index < m && Lower(sub.value) in v.oneShot {
      assert Shows(sub, child, arguments, sub.index, v);
    }
  }

  lemma NamedTaken(sub: Sub, child: Option<Sub>, arguments: seq<string>, after: seq<string>, m: nat, v: Vocabulary)
    requires sub.index < m <= |arguments| && after == arguments[sub.index + 1..m]
    ensures ShownBy(sub, child, arguments, m, v) <==> NamedOneShot(Lower(sub.value), Before(child, m - sub.index - 1), after, v)
  {
    if Lower(sub.value) == "login" {
      LoginTaken(sub, child, arguments, after, m, v);
    } else if Lower(sub.value) == "cloud" {
      CloudTaken(sub, child, arguments, after, m, v);
    } else {
      ItselfShown(sub, child, arguments, m, v);
    }
  }

  lemma OneShotTaken(sub: Sub, arguments: seq<string>, m: nat, v: Vocabulary)
    requires sub.index < m <= |arguments|
    ensures OneShot(Some(sub), arguments[..m], v) <==> ShownIn(Children(v), Some(sub), arguments, m, v)
  {
    var name, after, n := Lower(sub.value), arguments[sub.index + 1..], m - sub.index - 1;
    ChildTaken(name, after, n, v);
    assert after[..n] == arguments[sub.index + 1..m] == arguments[..m][sub.index + 1..];
    NamedTaken(sub, Child(name, after, v), arguments, after[..n], m, v);
  }

  // A subcommand shows nothing before itself.
  lemma ShownLater(found: Option<Sub>, arguments: seq<string>, m: int, v: Vocabulary)
    requires found.Some? ==> m <= found.value.index < |arguments|
    ensures !ShownIn(Children(v), found, arguments, m, v)
  {
  }

  // Of any arguments the first `m` are one-shot if and only if one of them shows it.
  lemma TakenShown(arguments: seq<string>, m: nat, v: Vocabulary)
    requires m <= |arguments|
    ensures OneShotArguments(arguments[..m], v) <==> ShownBefore(arguments, m, v)
  {
    FindTaken(arguments, m, v.globalValued, v.globalBoolean);
    var found := FindIn(arguments, v.globalValued, v.globalBoolean);
    if found.Some? && found.value.index < m {
      OneShotTaken(found.value, arguments, m, v);
    } else {
      ShownLater(found, arguments, m, v);
    }
  }

  // ---------- whole commands ----------

  lemma QuotesAreNotSpaces(c: char)
    requires IsQuote(c)
    ensures !IsSpace(c)
  {
  }

  lemma TrimNothing(s: string)
    requires s == "" || (!IsSpace(s[0]) && !IsSpace(s[|s| - 1]))
    ensures Trim(s) == s
  {
    assert TrimLeft(s) == s;
  }

  lemma {:induction false} QuoteJoinEnds(words: seq<Word>)
    requires words != [] && forall w :: w in words ==> Quotable(w)
    ensures var all := QuoteJoin(words); all != "" && IsQuote(all[0]) && IsQuote(all[|all| - 1])
    decreases |words|
  {
    assert Quotable(words[0]);
    var first := Quoted(words[0]);
    assert first[0] == words[0].mark && first[|first| - 1] == words[0].mark;
    if |words| > 1 {
      QuoteJoinEnds(words[1..]);
      var more := QuoteJoin(words[1..]);
      assert (first + " " + more)[0] == first[0] && (first + " " + more)[|first + " " + more| - 1] == more[|more| - 1];
    }
  }

  // The command words of a quoted command are the first 32 words, behind the launch prefix.
  lemma QuotedCommand(words: seq<Word>, tokens: seq<string>)
    requires (forall w :: w in words ==> Quotable(w)) && tokens == Take(Texts(words), WORD_LIMIT)
    ensures CommandWords(QuoteJoin(words)) == Strip(tokens)
  {
    var all := QuoteJoin(words);
    assert Trim(all) == all by {
      if words != [] {
        QuoteJoinEnds(words);
        QuotesAreNotSpaces(all[0]);
        QuotesAreNotSpaces(all[|all| - 1]);
      }
      TrimNothing(all);
    }
    QuoteJoinReadsBack(words, WORD_LIMIT);
    assert CommandWords(all) == Strip(Tokens(all, WORD_LIMIT));
  }

  // Assignments, and then nothing or an `env` with arguments it is looked through
  ghost predicate LaunchPrefix(assignments: seq<string>, env: seq<string>) {
    && (forall a :: a in assignments ==> IsAssignment(a))
    && (env == [] || (Basename(env[0]) == "env" && !IsAssignment(env[0]) && EnvArguments(env[1..])))
  }

  // A word that starts a command of its own
  predicate StartsCommand(token: string) { token != "" && !Passes(token) && Basename(token) != "env" }

  lemma PrefixStripped(assignments: seq<string>, env: seq<string>, tokens: seq<string>)
    requires LaunchPrefix(assignments, env) && tokens != [] && StartsCommand(tokens[0])
    ensures Strip(assignments + env + tokens) == tokens
  {
    assert assignments + env + tokens == assignments + (env + tokens);
    StripAssignments(assignments, env + tokens);
    if env == [] {
      assert env + tokens == tokens;
    } else {
      assert env + tokens == [env[0]] + (env[1..] + tokens);
      StripEnvIff(env[0], env[1..], tokens);
    }
  }

  // A launch prefix that is cut off leaves nothing.
  lemma PrefixCut(assignments: seq<string>, env: seq<string>, n: nat)
    requires LaunchPrefix(assignments, env) && n <= |assignments + env|
    ensures Strip((assignments + env)[..n]) == []
  {
    if n <= |assignments| {
      assert (assignments + env)[..n] == assignments[..n] + [];
      StripAssignments(assignments[..n], []);
    } else {
      var some := env[..n - |assignments|];
      assert (assignments + env)[..n] == assignments + some;
      StripAssignments(assignments, some);
      EnvCut(env[0], env[1..], n - |assignments| - 1);
      assert some == [env[0]] + env[1..][..n - |assignments| - 1];
    }
  }

  lemma EnvCut(env: string, arguments: seq<string>, n: nat)
    requires Basename(env) == "env" && !IsAssignment(env) && EnvArguments(arguments) && n <= |arguments|
    ensures Strip([env] + arguments[..n]) == []
  {
    var some := arguments[..n];
    forall i | 0 <= i < n
      ensures PassedAt(some, i)
    {
      PassedInFront(some, arguments[n..], i);
      assert some + arguments[n..] == arguments;
    }
    var k := StripBehindEnv(env, some);
    CommandUnique(some, k, n);
  }

  lemma TextsConcat(a: seq<Word>, b: seq<Word>)
    ensures Texts(a + b) == Texts(a) + Texts(b)
  {
  }

  // What is left of the first 32 words
  lemma TakenWords(prefix: seq<string>, executable: string, arguments: seq<string>)
    ensures var words := prefix + ([executable] + arguments);
            Take(words, WORD_LIMIT) == if |prefix| >= WORD_LIMIT then prefix[..WORD_LIMIT]
                                       else prefix + ([executable] + Take(arguments, WORD_LIMIT - 1 - |prefix|))
  {
  }

  // The words left of a command with a launch prefix: none if the prefix fills the limit
  lemma WordsLeft(assignments: seq<string>, env: seq<string>, executable: string, arguments: seq<string>)
    requires LaunchPrefix(assignments, env) && StartsCommand(executable)
    ensures var room := WORD_LIMIT - 1 - |assignments| - |env|;
            Strip(Take(assignments + env + ([executable] + arguments), WORD_LIMIT))
            == if room < 0 then [] else [executable] + Take(arguments, room)
  {
    var prefix := assignments + env;
    TakenWords(prefix, executable, arguments);
    if |prefix| >= WORD_LIMIT {
      PrefixCut(assignments, env, WORD_LIMIT);
    } else {
      PrefixStripped(assignments, env, [executable] + Take(arguments, WORD_LIMIT - 1 - |prefix|));
    }
  }

  lemma TakeShown(arguments: seq<string>, room: nat, v: Vocabulary)
    ensures OneShotArguments(Take(arguments, room), v) <==> ShownBefore(arguments, room, v)
  {
    var m := if room < |arguments| then room else |arguments|;
    assert Take(arguments, room) == arguments[..m];
    TakenShown(arguments, m, v);
    assert ShownBefore(arguments, room, v) <==> ShownBefore(arguments, m, v);
  }

  // A command of any length behind a launch prefix: it is an interactive codex if and only if there is
  // room for its executable, which is a codex, and no word that shows a one-shot subcommand stands within
  // the first 32 words.
  lemma CommandVerdict(words: seq<Word>, assignments: seq<Word>, env: seq<Word>, executable: Word, arguments: seq<Word>, v: Vocabulary)
    requires words == assignments + env + ([executable] + arguments) && forall w :: w in words ==> Quotable(w)
    requires LaunchPrefix(Texts(assignments), Texts(env)) && StartsCommand(executable.text)
    ensures var room := WORD_LIMIT - 1 - |assignments| - |env|;
            CodexTerminal(CommandWords(QuoteJoin(words)), v)
            <==> room >= 0 && IsCodex(Basename(executable.text)) && !ShownBefore(Texts(arguments), room, v)
  {
    var texts := Texts(assignments) + Texts(env) + ([executable.text] + Texts(arguments));
    TextsOfParts(assignments, env, executable, arguments);
    QuotedCommand(words, Take(texts, WORD_LIMIT));
    WordsVerdict(Texts(assignments), Texts(env), executable.text, Texts(arguments), v);
  }

  lemma WordsVerdict(assignments: seq<string>, env: seq<string>, executable: string, arguments: seq<string>, v: Vocabulary)
    requires LaunchPrefix(assignments, env) && StartsCommand(executable)
    ensures var room := WORD_LIMIT - 1 - |assignments| - |env|;
            CodexTerminal(Strip(Take(assignments + env + ([executable] + arguments), WORD_LIMIT)), v)
            <==> room >= 0 && IsCodex(Basename(executable)) && !ShownBefore(arguments, room, v)
  {
    var room := WORD_LIMIT - 1 - |assignments| - |env|;
    WordsLeft(assignments, env, executable, arguments);
    if room >= 0 {
      TakeShown(arguments, room, v);
      assert ([executable] + Take(arguments, room))[1..] == Take(arguments, room);
    }
  }

  // The words of a command in its parts
  lemma TextsOfParts(assignments: seq<Word>, env: seq<Word>, executable: Word, arguments: seq<Word>)
    ensures Texts(assignments + env + ([executable] + arguments)) == Texts(assignments) + Texts(env) + ([executable.text] + Texts(arguments))
  {
    TextsConcat(assignments + env, [executable] + arguments);
    TextsConcat(assignments, env);
    TextsConcat([executable], arguments);
    assert Texts([executable]) == [executable.text];
  }

  // What shows behind inserted options stands further on.
  lemma ShownFurther(sub: Sub, child: Option<Sub>, all: seq<string>, rest: seq<string>, n: nat, m: int, v: Vocabulary)
    requires |all| == n + |rest| && all[n..] == rest
    ensures ShownBy(Sub(sub.value, sub.index + n), child, all, m, v) <==> ShownBy(sub, child, rest, m - n, v)
  {
    var later := Sub(sub.value, sub.index + n);
    forall i: nat | i < |all| && Shows(later, child, all, i, v)
      ensures i >= n && Shows(sub, child, rest, i - n, v)
    {
    }
    forall i: nat | i < |rest| && Shows(sub, child, rest, i, v)
      ensures Shows(later, child, all, i + n, v)
    {
    }
  }

  lemma ShownInShifted(childOf: (string, seq<string>) -> Option<Sub>, found: Option<Sub>, all: seq<string>, rest: seq<string>, n: nat, m: int,
                       v: Vocabulary)
    requires |all| == n + |rest| && all[n..] == rest && (found.Some? ==> found.value.index < |rest|)
    ensures ShownIn(childOf, Later(found, n), all, m, v) <==> ShownIn(childOf, found, rest, m - n, v)
  {
    if found.Some? {
      var sub := found.value;
      var after := rest[sub.index + 1..];
      assert all[n + sub.index + 1..] == after;
      ShownFurther(sub, childOf(Lower(sub.value), after), all, rest, n, m, v);
    }
  }

  lemma ShownBehindOptions(options: seq<string>, rest: seq<string>, m: int, v: Vocabulary)
    requires GlobalOptions(options, v)
    ensures ShownBefore(options + rest, m, v) <==> ShownBefore(rest, m - |options|, v)
  {
    OptionsShift(options, rest, v);
    ShownInShifted(Children(v), FindIn(rest, v.globalValued, v.globalBoolean), options + rest, rest, |options|, m, v);
  }

  lemma OptionWords(options: seq<Word>, rest: seq<Word>, arguments: seq<Word>, m: int, v: Vocabulary)
    requires arguments == options + rest && GlobalOptions(Texts(options), v)
    ensures ShownBefore(Texts(arguments), m, v) <==> ShownBefore(Texts(rest), m - |options|, v)
  {
    TextsConcat(options, rest);
    ShownBehindOptions(Texts(options), Texts(rest), m, v);
  }

  lemma ShownEarlier(rest: seq<string>, m: int, n: int, v: Vocabulary)
    requires m <= n
    ensures ShownBefore(rest, m, v) ==> ShownBefore(rest, n, v)
  {
  }

  lemma ShortVerdict(short: seq<Word>, executable: Word, rest: seq<Word>, v: Vocabulary)
    requires short == [executable] + rest && (forall w :: w in short ==> Quotable(w)) && StartsCommand(executable.text)
    ensures CodexTerminal(CommandWords(QuoteJoin(short)), v)
            <==> IsCodex(Basename(executable.text)) && !ShownBefore(Texts(rest), WORD_LIMIT - 1, v)
  {
    assert short == [] + [] + ([executable] + rest);
    CommandVerdict(short, [], [], executable, rest, v);
  }

  // A launch prefix and inserted global options keep the codex verdict of a command of any length if and
  // only if they leave room for the executable and do not push every word that shows a one-shot subcommand
  // beyond the 32nd; a command that was refused anyway keeps its verdict also without room.
  lemma CommandVerdictKeptIff(words: seq<Word>, short: seq<Word>, assignments: seq<Word>, env: seq<Word>, executable: Word, options: seq<Word>,
                              rest: seq<Word>, v: Vocabulary)
    requires words == assignments + env + ([executable] + (options + rest)) && short == [executable] + rest
    requires forall w :: w in words ==> Quotable(w)
    requires LaunchPrefix(Texts(assignments), Texts(env)) && StartsCommand(executable.text) && GlobalOptions(Texts(options), v)
    ensures var room := WORD_LIMIT - 1 - |assignments| - |env|;
            var seen, still := ShownBefore(Texts(rest), WORD_LIMIT - 1, v), ShownBefore(Texts(rest), room - |options|, v);
            CodexTerminal(CommandWords(QuoteJoin(words)), v) == CodexTerminal(CommandWords(QuoteJoin(short)), v)
            <==> !IsCodex(Basename(executable.text)) || (if room >= 0 then seen ==> still else seen)
  {
    CommandVerdict(words, assignments, env, executable, options + rest, v);
    OptionWords(options, rest, options + rest, WORD_LIMIT - 1 - |assignments| - |env|, v);
    ShortOf(words, short, assignments + env, executable, options, rest);
    ShortVerdict(short, executable, rest, v);
    ShownEarlier(Texts(rest), WORD_LIMIT - 1 - |assignments| - |env| - |options|, WORD_LIMIT - 1, v);
  }

  lemma ShortOf(words: seq<Word>, short: seq<Word>, prefix: seq<Word>, executable: Word, options: seq<Word>, rest: seq<Word>)
    requires words == prefix + ([executable] + (options + rest)) && short == [executable] + rest && forall w :: w in words ==> Quotable(w)
    ensures forall w :: w in short ==> Quotable(w)
  {
    forall w | w in short
      ensures w in words
    {
    }
  }

  // Outside login and cloud the subcommand itself decides: when the first 32 words of the short command
  // reach it, the verdict is kept if and only if it is not one-shot or they still do.
  lemma SubcommandKeptIff(words: seq<Word>, short: seq<Word>, assignments: seq<Word>, env: seq<Word>, executable: Word, options: seq<Word>,
                          rest: seq<Word>, sub: Sub, v: Vocabulary)
    requires words == assignments + env + ([executable] + (options + rest)) && short == [executable] + rest
    requires forall w :: w in words ==> Quotable(w)
    requires LaunchPrefix(Texts(assignments), Texts(env)) && StartsCommand(executable.text) && GlobalOptions(Texts(options), v)
    requires |assignments| + |env| < WORD_LIMIT && IsCodex(Basename(executable.text))
    requires FindIn(Texts(rest), v.globalValued, v.globalBoolean) == Some(sub)
    requires Lower(sub.value) !in {"login", "cloud"} && 1 + sub.index < WORD_LIMIT
    ensures CodexTerminal(CommandWords(QuoteJoin(words)), v) == CodexTerminal(CommandWords(QuoteJoin(short)), v)
            <==> Lower(sub.value) !in v.oneShot || |assignments| + |env| + 1 + |options| + sub.index < WORD_LIMIT
  {
    CommandVerdictKeptIff(words, short, assignments, env, executable, options, rest, v);
    ItselfShown(sub, None, Texts(rest), WORD_LIMIT - 1, v);
    ItselfShown(sub, None, Texts(rest), WORD_LIMIT - 1 - |assignments| - |env| - |options|, v);
  }

  // In particular the verdict of a command of at most 32 words is kept.
  lemma CommandVerdictKept(words: seq<Word>, short: seq<Word>, assignments: seq<Word>, env: seq<Word>, executable: Word, options: seq<Word>,
                           rest: seq<Word>, v: Vocabulary)
    requires words == assignments + env + ([executable] + (options + rest)) && short == [executable] + rest
    requires |words| <= WORD_LIMIT && forall w :: w in words ==> Quotable(w)
    requires LaunchPrefix(Texts(assignments), Texts(env)) && StartsCommand(executable.text) && GlobalOptions(Texts(options), v)
    ensures CodexTerminal(CommandWords(QuoteJoin(words)), v) == CodexTerminal(CommandWords(QuoteJoin(short)), v)
  {
    CommandVerdictKeptIff(words, short, assignments, env, executable, options, rest, v);
    ShownWithin(Texts(rest), WORD_LIMIT - 1 - |assignments| - |env| - |options|, WORD_LIMIT - 1, v);
  }

  lemma ShownWithin(rest: seq<string>, m: int, n: int, v: Vocabulary)
    requires |rest| <= m
    ensures ShownBefore(rest, n, v) ==> ShownBefore(rest, m, v)
  {
  }

  // Beyond 32 words it may change: behind 31 assignments a one-shot subcommand is no longer seen.
  lemma SubcommandBeyondLimit(assignments: seq<Word>, executable: Word, subcommand: Word, v: Vocabulary)
    requires forall w :: w in assignments + [executable, subcommand] ==> Quotable(w)
    requires |assignments| == WORD_LIMIT - 1 && LaunchPrefix(Texts(assignments), [])
    requires StartsCommand(executable.text) && IsCodex(Basename(executable.text)) && OneShotArguments([subcommand.text], v)
    ensures !CodexTerminal(CommandWords(QuoteJoin([executable, subcommand])), v)
    ensures CodexTerminal(CommandWords(QuoteJoin(assignments + [executable, subcommand])), v)
  {
    var words, short := assignments + [executable, subcommand], [executable, subcommand];
    assert words == assignments + [] + ([executable] + [subcommand]) && short == [executable] + [subcommand];
    assert Texts([subcommand]) == [subcommand.text];
    forall w | w in short
      ensures w in words
    {
    }
    CommandVerdict(words, assignments, [], executable, [subcommand], v);
    ShortVerdict(short, executable, [subcommand], v);
    TakeShown([subcommand.text], WORD_LIMIT - 1, v);
  }
}
