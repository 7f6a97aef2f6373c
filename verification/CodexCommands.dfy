/**
 The verdicts on the commands of codex, with its tables spelled out (src/cli/codex-command-classification.ts).

 The theorems of CodexClassification hold of any vocabulary; these say what the vocabulary `CODEX` makes
 of options, subcommands, logins and cloud commands.
 */
module CodexCommands {
  import opened Options
  import opened Strings
  import opened CodexTokens
  import opened CodexClassification

  // Options of codex as one writes them: alone, with a value behind them, or with a value behind `=`
  predicate CodexOptions(options: seq<string>)
    decreases |options|
  {
    options == []
    || (IsSwitch(options[0]) && CodexOptions(options[1..]))
    || (IsValued(options[0]) && |options| >= 2 && CodexOptions(options[2..]))
    || ('=' in options[0] && IsValued(OptionName(options[0])) && CodexOptions(options[1..]))
  }

  predicate IsSwitch(name: string) {
    '=' !in name && name in {"--oss", "--dangerously-bypass-approvals-and-sandbox", "--search", "--no-alt-screen", "--no-daemon"}
  }

  predicate IsValued(name: string) {
    '=' !in name && name in
      {"--config", "-c", "--enable", "--disable", "--remote", "--remote-auth-token-env", "--image", "-i", "--model", "-m",
       "--local-provider", "--profile", "-p", "--sandbox", "-s", "--cd", "-C", "--add-dir", "--ask-for-approval", "-a"}
  }

  // A word in the place of a subcommand
  predicate IsPlainWord(w: string) {
    '=' !in w && w != "--" && !IsHelp(w) && !IsVersion(w) && !IsSwitch(w) && !IsValued(w)
  }

  lemma SwitchKnown(name: string)
    requires IsSwitch(name)
    ensures name != "--" && !IsHelp(name) && !IsVersion(name) && name !in CODEX.globalValued && name in CODEX.globalBoolean
  {
  }

  lemma ValuedKnown(name: string)
    requires IsValued(name)
    ensures name != "--" && !IsHelp(name) && !IsVersion(name) && name in CODEX.globalValued
  {
  }

  lemma PlainUnknown(w: string)
    requires IsPlainWord(w)
    ensures OptionName(w) == w && w !in CODEX.globalValued && w !in CODEX.globalBoolean
  {
  }

  lemma {:induction false} CodexOptionsKnown(options: seq<string>, v: Vocabulary)
    requires CodexOptions(options) && v == CODEX
    ensures GlobalOptions(options, v)
    decreases |options|
  {
    if options != [] {
      var first := options[0];
      if IsSwitch(first) && CodexOptions(options[1..]) {
        SwitchKnown(first);
        CodexOptionsKnown(options[1..], v);
      } else if IsValued(first) && |options| >= 2 && CodexOptions(options[2..]) {
        ValuedKnown(first);
        CodexOptionsKnown(options[2..], v);
      } else {
        ValuedKnown(OptionName(first));
        assert OptionName(first) != first;
        CodexOptionsKnown(options[1..], v);
      }
    }
  }

  // A word that is no option is what is found.
  lemma FirstFound(w: string, rest: seq<string>, valued: set<string>, boolean: set<string>)
    requires '=' !in w && w != "--" && !IsHelp(w) && !IsVersion(w) && w !in valued && w !in boolean
    ensures FindIn([w] + rest, valued, boolean) == Some(Sub(w, 0))
  {
    assert OptionName(w) == w;
    FindAnswer([w] + rest, Some(Sub(w, 0)), valued, boolean);
  }

  // A help or version flag is found under its own name.
  lemma FlagFound(flag: string, rest: seq<string>, valued: set<string>, boolean: set<string>)
    requires IsHelp(flag) || IsVersion(flag)
    ensures FindIn([flag] + rest, valued, boolean) == Some(Sub(if IsVersion(flag) then "version" else "help", 0))
  {
    assert OptionName(flag) == flag && flag != "--";
    FindAnswer([flag] + rest, Some(Sub(if IsVersion(flag) then "version" else "help", 0)), valued, boolean);
  }

  // The word found behind options decides, with the words behind it.
  lemma FoundDecides(options: seq<string>, w: string, value: string, rest: seq<string>, v: Vocabulary)
    requires GlobalOptions(options, v) && FindIn([w] + rest, v.globalValued, v.globalBoolean) == Some(Sub(value, 0))
    ensures OneShotArguments(options + ([w] + rest), v) <==> NamedOneShot(Lower(value), Child(Lower(value), rest, v), rest, v)
  {
    OptionsKeepVerdict(options, [w] + rest, v);
    assert ([w] + rest)[1..] == rest;
  }

  lemma WordDecides(options: seq<string>, w: string, rest: seq<string>, v: Vocabulary)
    requires CodexOptions(options) && IsPlainWord(w) && v == CODEX
    ensures OneShotArguments(options + ([w] + rest), v) <==> NamedOneShot(Lower(w), Child(Lower(w), rest, v), rest, v)
  {
    CodexOptionsKnown(options, v);
    PlainUnknown(w);
    FirstFound(w, rest, v.globalValued, v.globalBoolean);
    FoundDecides(options, w, w, rest, v);
  }

  predicate IsOneShotName(name: string) {
    name in {"exec", "e", "review", "logout", "mcp", "plugin", "mcp-server", "app-server", "remote-control", "app", "completion",
             "update", "doctor", "sandbox", "debug", "execpolicy", "apply", "a", "cloud-tasks", "responses-api-proxy",
             "stdio-to-uds", "exec-server", "features", "help", "version"}
  }

  lemma OneShotNames(name: string)
    requires name != "login" && name != "cloud"
    ensures name in CODEX.oneShot <==> IsOneShotName(name)
  {
  }

  // The verdict on codex with any options and any subcommand but login and cloud: one-shot exactly for these.
  lemma SubcommandVerdict(options: seq<string>, w: string, rest: seq<string>)
    requires CodexOptions(options) && IsPlainWord(w) && Lower(w) != "login" && Lower(w) != "cloud"
    ensures OneShotArguments(options + ([w] + rest), CODEX) <==> IsOneShotName(Lower(w))
  {
    WordDecides(options, w, rest, CODEX);
    OneShotNames(Lower(w));
  }

  // Options alone start an interactive codex.
  lemma OptionsVerdict(options: seq<string>)
    requires CodexOptions(options)
    ensures !OneShotArguments(options, CODEX)
  {
    CodexOptionsKnown(options, CODEX);
    OptionsKeepVerdict(options, [], CODEX);
    assert options + [] == options;
  }

  lemma FlagName(flag: string, name: string, v: Vocabulary)
    requires (name == "version" || name == "help") && v == CODEX
    ensures Lower(name) == name && name in v.oneShot && name != "login" && name != "cloud"
  {
    assert |name| == 7 || |name| == 4;
    assert Lower("version") == "version" && Lower("help") == "help";
  }

  // A help or version flag behind options is one-shot.
  lemma FlagVerdict(options: seq<string>, flag: string, rest: seq<string>)
    requires CodexOptions(options) && (flag == "--help" || flag == "-h" || flag == "--version" || flag == "-V")
    ensures OneShotArguments(options + ([flag] + rest), CODEX)
  {
    var name := if IsVersion(flag) then "version" else "help";
    CodexOptionsKnown(options, CODEX);
    FlagFound(flag, rest, CODEX.globalValued, CODEX.globalBoolean);
    FoundDecides(options, flag, name, rest, CODEX);
    FlagName(flag, name, CODEX);
  }

  // Behind options and `--` there is a prompt or nothing, and codex is interactive.
  lemma PromptVerdict(options: seq<string>, rest: seq<string>)
    requires CodexOptions(options)
    ensures !OneShotArguments(options + (["--"] + rest), CODEX)
  {
    var tokens := ["--"] + rest;
    CodexOptionsKnown(options, CODEX);
    OptionsKeepVerdict(options, tokens, CODEX);
    var found := if rest != [] && rest[0] != "" then Some(Sub("<prompt>", 1)) else None;
    FindAnswer(tokens, found, CODEX.globalValued, CODEX.globalBoolean);
    PromptIsNoName("<prompt>");
  }

  lemma PromptIsNoName(prompt: string)
    requires prompt == "<prompt>"
    ensures Lower(prompt) == prompt && prompt !in {"login", "cloud"} && prompt !in CODEX.oneShot
  {
    assert prompt[0] == '<';
  }

  // ---------- login and cloud ----------

  lemma LoginTable(w: string, v: Vocabulary)
    requires IsPlainWord(w) && v == CODEX
    ensures w !in v.loginValued && (w in v.loginBoolean <==> w in {"--with-api-key", "--with-access-token", "--device-auth"})
    ensures Lower(w) in v.loginOneShot <==> Lower(w) == "status" || Lower(w) == "help"
  {
  }

  lemma CloudTable(w: string, v: Vocabulary)
    requires IsPlainWord(w) && v == CODEX
    ensures w !in v.cloudValued && w !in v.cloudBoolean
    ensures Lower(w) in v.cloudOneShot <==> Lower(w) in {"exec", "status", "list", "apply", "diff", "help"}
  {
  }

  // A login with a word behind it is one-shot exactly for status and help, or with a help flag or a key on
  // standard input behind it.
  lemma LoginVerdict(options: seq<string>, w: string, word: string, rest: seq<string>)
    requires CodexOptions(options) && IsPlainWord(w) && Lower(w) == "login"
    requires IsPlainWord(word) && word !in {"--with-api-key", "--with-access-token", "--device-auth"}
    ensures OneShotArguments(options + ([w] + ([word] + rest)), CODEX)
            <==> Lower(word) == "status" || Lower(word) == "help"
                 || exists t :: t in rest && (t == "--with-api-key" || t == "--with-access-token" || t == "--help" || t == "-h")
  {
    WordDecides(options, w, [word] + rest, CODEX);
    LoginTable(word, CODEX);
    FirstFound(word, rest, CODEX.loginValued, CODEX.loginBoolean);
    LoginFlags(word, rest);
  }

  lemma LoginFlags(word: string, rest: seq<string>)
    requires IsPlainWord(word) && word !in {"--with-api-key", "--with-access-token"}
    ensures (exists t | t in [word] + rest :: LoginFlag(t))
            <==> exists t :: t in rest && (t == "--with-api-key" || t == "--with-access-token" || t == "--help" || t == "-h")
  {
    forall t | t in rest && LoginFlag(t)
      ensures t in [word] + rest
    {
    }
  }

  // A cloud command with a word behind it is one-shot exactly for its own subcommands, or with a help or
  // version flag behind it.
  lemma CloudVerdict(options: seq<string>, w: string, word: string, rest: seq<string>)
    requires CodexOptions(options) && IsPlainWord(w) && Lower(w) == "cloud" && IsPlainWord(word)
    ensures OneShotArguments(options + ([w] + ([word] + rest)), CODEX)
            <==> Lower(word) in {"exec", "status", "list", "apply", "diff", "help"}
                 || exists t :: t in rest && (t == "--help" || t == "-h" || t == "--version" || t == "-V")
  {
    WordDecides(options, w, [word] + rest, CODEX);
    CloudTable(word, CODEX);
    FirstFound(word, rest, CODEX.cloudValued, CODEX.cloudBoolean);
    CloudFlags(word, rest);
  }

  lemma CloudFlags(word: string, rest: seq<string>)
    requires IsPlainWord(word)
    ensures (exists t | t in [word] + rest :: CloudFlag(t))
            <==> exists t :: t in rest && (t == "--help" || t == "-h" || t == "--version" || t == "-V")
  {
    forall t | t in rest && CloudFlag(t)
      ensures t in [word] + rest
    {
    }
  }

  // Such a flag anywhere behind a login or a cloud command is enough.
  lemma FlagBehind(options: seq<string>, w: string, rest: seq<string>, flag: string)
    requires CodexOptions(options) && IsPlainWord(w) && flag in rest
    requires if Lower(w) == "login" then flag in {"--with-api-key", "--with-access-token", "--help", "-h"}
             else Lower(w) == "cloud" && flag in {"--help", "-h", "--version", "-V"}
    ensures OneShotArguments(options + ([w] + rest), CODEX)
  {
    WordDecides(options, w, rest, CODEX);
    assert Lower(w) == "login" ==> LoginFlag(flag);
  }

  // Bare, both are interactive.
  lemma BareVerdict(options: seq<string>, w: string)
    requires CodexOptions(options) && IsPlainWord(w) && (Lower(w) == "login" || Lower(w) == "cloud")
    ensures !OneShotArguments(options + [w], CODEX)
  {
    assert [w] + [] == [w];
    WordDecides(options, w, [], CODEX);
  }

  // ---------- executables ----------

  // A file name behind any directories, in any case
  lemma ExecutableIff(directory: string, name: string)
    requires (directory == "" || directory[|directory| - 1] == '/' || directory[|directory| - 1] == '\\') && '/' !in name && '\\' !in name
    ensures IsCodex(Basename(directory + name)) <==> Lower(name) in {"codex", "codex.exe", "codex.cmd"}
    ensures IsClaude(Basename(directory + name)) <==> Lower(name) in {"claude", "claude.exe", "claude.cmd"}
  {
    assert forall k :: 0 <= k < |name| ==> name[k] !in "/\\";
    if directory == "" {
      assert directory + name == name;
      NoSeparators(name);
    } else {
      LastPart(directory, name);
    }
  }

  // The flags of claude that print and exit, alone or with a value behind `=`
  predicate ClaudeExits(flag: string) {
    flag == "--help" || flag == "-h" || flag == "--version" || flag == "-V"
    || flag == "-p" || flag == "--print" || "-p=" <= flag || "--print=" <= flag
  }

  lemma PrintIff(flag: string)
    ensures IsClaudePrint(flag) <==> flag == "-p" || flag == "--print" || "-p=" <= flag || "--print=" <= flag
  {
    var k := IndexOf(flag, '=');
    if "-p=" <= flag {
      assert flag[..2] == "-p" && flag[2] == '=';
      FirstIndex(flag, '=', 2);
    }
    if "--print=" <= flag {
      assert flag[..7] == "--print" && flag[7] == '=';
      FirstIndex(flag, '=', 7);
    }
    if k != -1 {
      assert flag == flag[..k] + "=" + flag[k + 1..];
    }
  }

  // A claude command is interactive unless one of its arguments is such a flag.
  lemma ClaudeVerdict(directory: string, name: string, arguments: seq<string>)
    requires (directory == "" || directory[|directory| - 1] == '/' || directory[|directory| - 1] == '\\') && '/' !in name && '\\' !in name
    requires Lower(name) in {"claude", "claude.exe", "claude.cmd"}
    ensures InteractiveTerminal([directory + name] + arguments, CODEX) <==> forall t :: t in arguments ==> !ClaudeExits(t)
  {
    ExecutableIff(directory, name);
    ClaudeArguments([directory + name] + arguments, arguments);
  }

  lemma ClaudeArguments(tokens: seq<string>, arguments: seq<string>)
    requires tokens != [] && tokens[1..] == arguments && IsClaude(Basename(tokens[0]))
    ensures InteractiveTerminal(tokens, CODEX) <==> forall t :: t in arguments ==> !ClaudeExits(t)
  {
    forall t | t in arguments
      ensures ClaudeExits(t) <==> IsHelp(t) || IsVersion(t) || IsClaudePrint(t)
    {
      PrintIff(t);
    }
  }

  // A codex command is interactive exactly if its arguments show no one-shot subcommand.
  lemma CodexVerdict(directory: string, name: string, arguments: seq<string>)
    requires (directory == "" || directory[|directory| - 1] == '/' || directory[|directory| - 1] == '\\') && '/' !in name && '\\' !in name
    requires Lower(name) in {"codex", "codex.exe", "codex.cmd"}
    ensures InteractiveTerminal([directory + name] + arguments, CODEX) <==> !OneShotArguments(arguments, CODEX)
  {
    ExecutableIff(directory, name);
    CodexArguments([directory + name] + arguments, arguments);
  }

  lemma CodexArguments(tokens: seq<string>, arguments: seq<string>)
    requires tokens != [] && tokens[1..] == arguments && IsCodex(Basename(tokens[0]))
    ensures InteractiveTerminal(tokens, CODEX) <==> !OneShotArguments(arguments, CODEX)
  {
  }

  // Of a command written in quotes 32 words are read: it is an interactive codex exactly if its launch prefix
  // leaves room for the executable, that is a codex, and no argument read shows a one-shot subcommand.
  lemma WrittenVerdict(words: seq<Word>, assignments: seq<Word>, env: seq<Word>, directory: string, name: string, mark: char, arguments: seq<Word>)
    requires words == assignments + env + ([Word(directory + name, mark)] + arguments) && forall w :: w in words ==> Quotable(w)
    requires LaunchPrefix(Texts(assignments), Texts(env)) && StartsCommand(directory + name)
    requires (directory == "" || directory[|directory| - 1] == '/' || directory[|directory| - 1] == '\\') && '/' !in name && '\\' !in name
    ensures CodexTerminal(CommandWords(QuoteJoin(words)), CODEX)
            <==> |assignments| + |env| < 32 && Lower(name) in {"codex", "codex.exe", "codex.cmd"}
                 && !ShownBefore(Texts(arguments), 31 - |assignments| - |env|, CODEX)
  {
    ExecutableIff(directory, name);
    CommandVerdict(words, assignments, env, Word(directory + name, mark), arguments, CODEX);
  }
}
