/**
 Finding the command among the arguments (src/shared/cli-argument-boundary.ts), and whether the parser of
 src/cli/args.ts then reads that command.
 */
module CommandIndex {
  import opened Args

  // How far the search steps over a flag
  function Width(token: string, booleans: set<string>): nat
    requires IsFlag(token)
  {
    match Read(token)
    case Named(name) => if name in booleans then 1 else 2
    case _ => 1
  }

  predicate IsFlagAt(argv: seq<string>, i: nat) { i < |argv| && IsFlag(argv[i]) }

  // The words of `path` come up from token `cursor` on, flags stepped over
  predicate StartsAt(argv: seq<string>, cursor: nat, path: seq<string>, booleans: set<string>)
    decreases |path|, |argv| - cursor
  {
    if path == [] then true
    else if IsFlagAt(argv, cursor) then StartsAt(argv, cursor + Width(argv[cursor], booleans), path, booleans)
    else cursor < |argv| && argv[cursor] == path[0] && StartsAt(argv, cursor + 1, path[1..], booleans)
  }

  method CommandPathStartsAt(argv: seq<string>, tokenIndex: nat, path: seq<string>, booleans: set<string>) returns (starts: bool)
    ensures starts == StartsAt(argv, tokenIndex, path, booleans)
  {
    var cursor: nat := tokenIndex;
    for k := 0 to |path|
      invariant StartsAt(argv, tokenIndex, path, booleans) == StartsAt(argv, cursor, path[k..], booleans)
    {
      while cursor < |argv| && IsFlag(argv[cursor])
        invariant StartsAt(argv, tokenIndex, path, booleans) == StartsAt(argv, cursor, path[k..], booleans)
        decreases |argv| - cursor
      {
        cursor := cursor + Width(argv[cursor], booleans);
      }
      assert path[k..][1..] == path[k + 1..];
      if cursor >= |argv| || argv[cursor] != path[k] {
        return false;
      }
      cursor := cursor + 1;
    }
    return true;
  }

  predicate CommandStarts(argv: seq<string>, i: nat, paths: seq<seq<string>>, booleans: set<string>) {
    exists p | p in paths :: StartsAt(argv, i, p, booleans)
  }

  // Whether the search lets the flag at token `i` take the next token
  predicate SearchTakesNext(argv: seq<string>, i: nat, paths: seq<seq<string>>, known: set<string>, booleans: set<string>)
    requires i < |argv|
  {
    match Read(argv[i])
    case Named(name) =>
      && name !in booleans && i + 1 < |argv| && !IsFlag(argv[i + 1])
      && (name in known || !(CommandStarts(argv, i + 1, paths, booleans) && !CommandStarts(argv, i + 2, paths, booleans)))
    case _ => false
  }

  function FindFrom(argv: seq<string>, i: nat, paths: seq<seq<string>>, known: set<string>, booleans: set<string>): (k: int)
    ensures k == -1 || (i <= k < |argv| && !IsFlag(argv[k]) && CommandStarts(argv, k, paths, booleans))
    decreases |argv| - i
  {
    if i >= |argv| then -1
    else if !IsFlag(argv[i]) then if CommandStarts(argv, i, paths, booleans) then i else -1
    else FindFrom(argv, i + if SearchTakesNext(argv, i, paths, known, booleans) then 2 else 1, paths, known, booleans)
  }

  method StartsCommandAt(argv: seq<string>, i: nat, paths: seq<seq<string>>, booleans: set<string>) returns (starts: bool)
    ensures starts == CommandStarts(argv, i, paths, booleans)
  {
    for k := 0 to |paths|
      invariant forall p :: p in paths[..k] ==> !StartsAt(argv, i, p, booleans)
    {
      var here := CommandPathStartsAt(argv, i, paths[k], booleans);
      if here {
        return true;
      }
    }
    return false;
  }

  method TakesNextToken(argv: seq<string>, i: nat, paths: seq<seq<string>>, known: set<string>, booleans: set<string>) returns (takes: bool)
    requires i < |argv|
    ensures takes == SearchTakesNext(argv, i, paths, known, booleans)
  {
    var read := Read(argv[i]);
    if !read.Named? || read.name in booleans || i + 1 >= |argv| || IsFlag(argv[i + 1]) {
      return false;
    }
    if read.name in known {
      return true;
    }
    var next := StartsCommandAt(argv, i + 1, paths, booleans);
    var later := StartsCommandAt(argv, i + 2, paths, booleans);
    return !(next && !later);
  }

  method FindCliCommandIndex(argv: seq<string>, paths: seq<seq<string>>, known: set<string>, booleans: set<string>) returns (index: int)
    ensures index == FindFrom(argv, 0, paths, known, booleans)
  {
    var i: nat := 0;
    while i < |argv|
      invariant FindFrom(argv, 0, paths, known, booleans) == FindFrom(argv, i, paths, known, booleans)
      decreases |argv| - i
    {
      var token := argv[i];
      if !IsFlag(token) {
        var here := StartsCommandAt(argv, i, paths, booleans);
        return if here then i else -1;
      }
      var takesNext := TakesNextToken(argv, i, paths, known, booleans);
      i := i + if takesNext then 2 else 1;
    }
    return -1;
  }

  // ---------- what is found ----------

  // A word that no command path begins with
  predicate BeginsNone(word: string, paths: seq<seq<string>>) { forall p :: p in paths && p != [] ==> p[0] != word }

  // `k` is the first word, reached over flags that stand alone or with a value.  A value is taken when its
  // flag is known to have one or when it begins no command; a flag right before a command leaves it alone
  // when what comes after begins none.
  predicate WordAt(argv: seq<string>, i: nat, k: nat, paths: seq<seq<string>>, known: set<string>, booleans: set<string>)
    decreases |argv| - i
  {
    if i >= |argv| || i >= k then i == k < |argv| && !("--" <= argv[k])
    else
      && "--" <= argv[i]
      && var rest := argv[i][2..];
         if '=' in rest || rest in booleans || (i + 1 < |argv| && "--" <= argv[i + 1]) then WordAt(argv, i + 1, k, paths, known, booleans)
         else if k == i + 1 && rest !in known then
           && WordAt(argv, i + 1, k, paths, known, booleans) && CommandStarts(argv, k, paths, booleans)
           && (k + 1 >= |argv| || (!("--" <= argv[k + 1]) && BeginsNone(argv[k + 1], paths)))
         else i + 1 < |argv| && (rest in known || BeginsNone(argv[i + 1], paths)) && WordAt(argv, i + 2, k, paths, known, booleans)
  }

  lemma StartsNone(argv: seq<string>, i: nat, paths: seq<seq<string>>, booleans: set<string>)
    requires [] !in paths && (i < |argv| ==> !("--" <= argv[i]) && BeginsNone(argv[i], paths))
    ensures !CommandStarts(argv, i, paths, booleans)
  {
    forall p | p in paths
      ensures !StartsAt(argv, i, p, booleans)
    {
    }
  }

  lemma FlagReads(token: string)
    requires "--" <= token
    ensures var rest := token[2..]; if '=' in rest then Read(token).Assigned? else Read(token) == Named(rest)
  {
  }

  lemma {:induction false} WordIsWord(argv: seq<string>, i: nat, k: nat, paths: seq<seq<string>>, known: set<string>, booleans: set<string>)
    requires WordAt(argv, i, k, paths, known, booleans)
    ensures k < |argv| && !("--" <= argv[k])
    decreases |argv| - i
  {
    if i < |argv| && i < k {
      var rest := argv[i][2..];
      if '=' in rest || rest in booleans || (i + 1 < |argv| && "--" <= argv[i + 1]) || (k == i + 1 && rest !in known) {
        WordIsWord(argv, i + 1, k, paths, known, booleans);
      } else {
        WordIsWord(argv, i + 2, k, paths, known, booleans);
      }
    }
  }

  // The search finds the first word if a command starts there, and nothing otherwise.
  lemma {:induction false} FoundIff(argv: seq<string>, i: nat, k: nat, paths: seq<seq<string>>, known: set<string>, booleans: set<string>)
    requires [] !in paths && WordAt(argv, i, k, paths, known, booleans)
    ensures FindFrom(argv, i, paths, known, booleans) == if CommandStarts(argv, k, paths, booleans) then k else -1
    decreases |argv| - i
  {
    if i < |argv| && i < k {
      FlagReads(argv[i]);
      var rest := argv[i][2..];
      if '=' in rest || rest in booleans || (i + 1 < |argv| && "--" <= argv[i + 1]) {
        FoundIff(argv, i + 1, k, paths, known, booleans);
      } else if k == i + 1 && rest !in known {
        StartsNone(argv, k + 1, paths, booleans);
        FoundIff(argv, i + 1, k, paths, known, booleans);
      } else {
        if rest !in known {
          StartsNone(argv, i + 1, paths, booleans);
        }
        FoundIff(argv, i + 2, k, paths, known, booleans);
      }
    }
  }

  // A command path written out word by word starts where its first word stands.
  lemma {:induction false} WrittenStarts(argv: seq<string>, k: nat, path: seq<string>, booleans: set<string>)
    requires k + |path| <= |argv| && argv[k..k + |path|] == path && forall j :: 0 <= j < |path| ==> !("--" <= path[j])
    ensures StartsAt(argv, k, path, booleans)
    decreases |path|
  {
    if path != [] {
      assert argv[k] == argv[k..k + |path|][0];
      assert argv[k + 1..k + 1 + |path[1..]|] == argv[k..k + |path|][1..];
      WrittenStarts(argv, k + 1, path[1..], booleans);
    }
  }

  // So a command that is written out behind such flags is found.
  lemma CommandFound(argv: seq<string>, k: nat, path: seq<string>, paths: seq<seq<string>>, known: set<string>, booleans: set<string>)
    requires [] !in paths && path in paths && WordAt(argv, 0, k, paths, known, booleans)
    requires k + |path| <= |argv| && argv[k..k + |path|] == path && forall j :: 0 <= j < |path| ==> !("--" <= path[j])
    ensures FindFrom(argv, 0, paths, known, booleans) == k
  {
    WrittenStarts(argv, k, path, booleans);
    FoundIff(argv, 0, k, paths, known, booleans);
  }

  // ... and nothing is found if the first word begins no command.
  lemma NoCommandFound(argv: seq<string>, k: nat, paths: seq<seq<string>>, known: set<string>, booleans: set<string>)
    requires [] !in paths && k < |argv| && WordAt(argv, 0, k, paths, known, booleans) && BeginsNone(argv[k], paths)
    ensures FindFrom(argv, 0, paths, known, booleans) == -1
  {
    WordIsWord(argv, 0, k, paths, known, booleans);
    StartsNone(argv, k, paths, booleans);
    FoundIff(argv, 0, k, paths, known, booleans);
  }

  // ---------- the flags before the command ----------

  // The parser steps over the flags before the command exactly as the search did.
  lemma {:induction false} SameSteps(argv: seq<string>, i: nat, paths: seq<seq<string>>, booleans: set<string>, k: nat)
    requires FindFrom(argv, i, paths, {}, booleans) == k
    ensures i <= k < |argv| && ParseFrom(argv, i, false, booleans, k).path == ParseFrom(argv, k, false, booleans, k).path
    decreases |argv| - i
  {
    if IsFlag(argv[i]) {
      var next := i + if SearchTakesNext(argv, i, paths, {}, booleans) then 2 else 1;
      SameSteps(argv, next, paths, booleans, k);
    }
  }

  // A flag before the command never swallows it: the first path word parsed is the command's first token.
  lemma CommandNotSwallowed(argv: seq<string>, paths: seq<seq<string>>, booleans: set<string>)
    ensures var k := FindFrom(argv, 0, paths, {}, booleans);
            k >= 0 ==> Parse(argv, booleans, k).path == [argv[k]] + ParseFrom(argv, k + 1, true, booleans, k).path
  {
    var k := FindFrom(argv, 0, paths, {}, booleans);
    if k >= 0 {
      SameSteps(argv, 0, paths, booleans, k);
    }
  }

  // ---------- the flags inside the command ----------

  // Where the search stops having matched all of `path`
  function MatchEnd(argv: seq<string>, cursor: nat, path: seq<string>, booleans: set<string>): nat
    requires StartsAt(argv, cursor, path, booleans)
    decreases |path|, |argv| - cursor
  {
    if path == [] then cursor
    else if IsFlagAt(argv, cursor) then MatchEnd(argv, cursor + Width(argv[cursor], booleans), path, booleans)
    else MatchEnd(argv, cursor + 1, path[1..], booleans)
  }

  predicate IsValueFlag(argv: seq<string>, i: nat, booleans: set<string>) {
    IsFlagAt(argv, i) && Read(argv[i]).Named? && Read(argv[i]).name !in booleans
  }

  // No step of the match is over a value flag whose next token is again a value flag, right before a word
  predicate Unambiguous(argv: seq<string>, cursor: nat, path: seq<string>, booleans: set<string>)
    decreases |path|, |argv| - cursor
  {
    if path == [] then true
    else if IsFlagAt(argv, cursor) then
      && !(IsValueFlag(argv, cursor, booleans) && IsValueFlag(argv, cursor + 1, booleans) && cursor + 2 < |argv| && !IsFlag(argv[cursor + 2]))
      && Unambiguous(argv, cursor + Width(argv[cursor], booleans), path, booleans)
    else Unambiguous(argv, cursor + 1, path[1..], booleans)
  }

  lemma {:induction false} MatchInside(argv: seq<string>, cursor: nat, path: seq<string>, booleans: set<string>)
    requires StartsAt(argv, cursor, path, booleans) && path != []
    ensures cursor < MatchEnd(argv, cursor, path, booleans) <= |argv|
    decreases |path|, |argv| - cursor
  {
    if IsFlagAt(argv, cursor) {
      MatchInside(argv, cursor + Width(argv[cursor], booleans), path, booleans);
    } else if |path| > 1 {
      MatchInside(argv, cursor + 1, path[1..], booleans);
    }
  }

  // The path the parser reads from `cursor` on is `path` and what follows the match, or it lost words.
  ghost predicate Kept(argv: seq<string>, cursor: nat, path: seq<string>, booleans: set<string>, index: int)
    requires StartsAt(argv, cursor, path, booleans) && cursor <= |argv| && MatchEnd(argv, cursor, path, booleans) <= |argv|
  {
    var read := ParseFrom(argv, cursor, true, booleans, index).path;
    var whole := path + ParseFrom(argv, MatchEnd(argv, cursor, path, booleans), true, booleans, index).path;
    |read| <= |whole| && (read == whole <==> Unambiguous(argv, cursor, path, booleans))
  }

  // One flag of the match, as the parser reads it
  lemma FlagStep(argv: seq<string>, cursor: nat, booleans: set<string>, index: int)
    requires IsFlagAt(argv, cursor)
    ensures var next := cursor + Width(argv[cursor], booleans);
            var clash := IsValueFlag(argv, cursor, booleans) && IsValueFlag(argv, cursor + 1, booleans) && cursor + 2 < |argv| && !IsFlag(argv[cursor + 2]);
            && (clash ==> ParseFrom(argv, cursor, true, booleans, index).path == ParseFrom(argv, cursor + 3, true, booleans, index).path)
            && (!clash && next <= |argv| ==> ParseFrom(argv, cursor, true, booleans, index).path == ParseFrom(argv, next, true, booleans, index).path)
  {
    if IsValueFlag(argv, cursor, booleans) && IsFlagAt(argv, cursor + 1) {
      assert ParseFrom(argv, cursor, true, booleans, index).path == ParseFrom(argv, cursor + 1, true, booleans, index).path;
    }
  }

  lemma ConsIff<T>(w: T, read: seq<T>, path: seq<T>, rest: seq<T>)
    ensures [w] + read == ([w] + path) + rest <==> read == path + rest
  {
    assert ([w] + path) + rest == [w] + (path + rest);
    assert ([w] + read)[1..] == read && ([w] + (path + rest))[1..] == path + rest;
  }

  lemma KeptWord(argv: seq<string>, cursor: nat, path: seq<string>, booleans: set<string>, index: int)
    requires StartsAt(argv, cursor, path, booleans) && path != [] && cursor < |argv| && !IsFlag(argv[cursor])
    requires MatchEnd(argv, cursor + 1, path[1..], booleans) <= |argv| && Kept(argv, cursor + 1, path[1..], booleans, index)
    ensures Kept(argv, cursor, path, booleans, index)
  {
    var read := ParseFrom(argv, cursor + 1, true, booleans, index).path;
    var rest := ParseFrom(argv, MatchEnd(argv, cursor, path, booleans), true, booleans, index).path;
    assert path == [path[0]] + path[1..];
    assert ParseFrom(argv, cursor, true, booleans, index).path == [path[0]] + read;
    ConsIff(path[0], read, path[1..], rest);
  }

  lemma {:induction false} MatchKept(argv: seq<string>, cursor: nat, path: seq<string>, booleans: set<string>, index: int)
    requires StartsAt(argv, cursor, path, booleans) && cursor <= |argv|
    ensures MatchEnd(argv, cursor, path, booleans) <= |argv| && Kept(argv, cursor, path, booleans, index)
    decreases |path|, |argv| - cursor
  {
    if path == [] {
      assert [] + ParseFrom(argv, cursor, true, booleans, index).path == ParseFrom(argv, cursor, true, booleans, index).path;
    } else if IsFlagAt(argv, cursor) {
      var next := cursor + Width(argv[cursor], booleans);
      MatchInside(argv, next, path, booleans);
      MatchKept(argv, next, path, booleans, index);
      FlagStep(argv, cursor, booleans, index);
      if IsValueFlag(argv, cursor, booleans) && IsValueFlag(argv, cursor + 1, booleans) && !IsFlag(argv[next]) {
        MatchKept(argv, next + 1, path[1..], booleans, index);
      }
    } else {
      MatchKept(argv, cursor + 1, path[1..], booleans, index);
      KeptWord(argv, cursor, path, booleans, index);
    }
  }

  // A command path the search matched is what the parser reads, followed by the words after the match, if
  // and only if no flag inside the match is a value flag followed by a value flag and a word.
  lemma CommandReadIff(argv: seq<string>, paths: seq<seq<string>>, booleans: set<string>, path: seq<string>)
    ensures var k := FindFrom(argv, 0, paths, {}, booleans);
            k >= 0 && path != [] && StartsAt(argv, k, path, booleans) ==>
              (MatchEnd(argv, k, path, booleans) <= |argv|
               && (Parse(argv, booleans, k).path == path + ParseFrom(argv, MatchEnd(argv, k, path, booleans), true, booleans, k).path
                   <==> Unambiguous(argv, k, path, booleans)))
  {
    var k := FindFrom(argv, 0, paths, {}, booleans);
    if k >= 0 && path != [] && StartsAt(argv, k, path, booleans) {
      CommandNotSwallowed(argv, paths, booleans);
      MatchKept(argv, k, path, booleans, k);
      assert ParseFrom(argv, k, true, booleans, k).path == [argv[k]] + ParseFrom(argv, k + 1, true, booleans, k).path;
    }
  }

  // Two value flags before the last word: the search matches the word, the parser gives it to the second flag.
  lemma SwallowedWord(argv: seq<string>, booleans: set<string>)
    requires |argv| == 4 && !IsFlag(argv[0]) && IsValueFlag(argv, 1, booleans) && IsValueFlag(argv, 2, booleans) && !IsFlag(argv[3])
    ensures FindFrom(argv, 0, [[argv[0], argv[3]]], {}, booleans) == 0 && Parse(argv, booleans, 0).path == [argv[0]]
  {
    var path := [argv[0], argv[3]];
    assert path[1..] == [argv[3]];
    assert StartsAt(argv, 3, [argv[3]], booleans);
    assert StartsAt(argv, 1, [argv[3]], booleans);
    assert StartsAt(argv, 0, path, booleans) && path in [path];
    assert ParseFrom(argv, 4, true, booleans, 0).path == [];
    assert ParseFrom(argv, 2, true, booleans, 0).path == [];
    assert ParseFrom(argv, 1, true, booleans, 0).path == [];
  }

  // The search finds `worktree list` where the parser reads only `worktree`.
  lemma SwallowedInside(booleans: set<string>)
    requires "repo" !in booleans && "base" !in booleans
    ensures var argv, path := ["worktree", "--repo", "--base", "list"], ["worktree", "list"];
            FindFrom(argv, 0, [path], {}, booleans) == 0 && Parse(argv, booleans, 0).path == ["worktree"]
  {
    var argv := ["worktree", "--repo", "--base", "list"];
    ReadsName("--repo", "repo");
    ReadsName("--base", "base");
    ReadsWord("worktree");
    ReadsWord("list");
    SwallowedWord(argv, booleans);
  }

  lemma ReadsName(token: string, name: string)
    requires token == "--" + name && '=' !in name
    ensures IsFlag(token) && Read(token) == Named(name)
  {
    assert token[2..] == name && token[..2] == "--";
  }

  lemma ReadsWord(token: string)
    requires token != "" && token[0] != '-'
    ensures !IsFlag(token)
  {
    assert "--"[0] == '-';
  }
}
