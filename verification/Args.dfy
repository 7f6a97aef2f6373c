/**
 The command-line parser of src/cli/args.ts.

 `ParseFrom` reads the tokens as a function and `ParseArgs` as the loop of the source.  The theorems print
 a path and flag entries back and read them again, and say what the flag map keeps of the entries.
 */
module Args {
  import opened Options
  import opened Sequences
  import opened Strings

  // The value of a flag: bare (`true` in the source) or a text
  datatype Value = Bare | Text(text: string)

  datatype Entry = Entry(name: string, value: Value)

  datatype Parsed = Parsed(path: seq<string>, entries: seq<Entry>)

  type Flags = map<string, Value>

  datatype Spec = Spec(path: seq<string>, aliases: Option<seq<seq<string>>>, repeatableFlags: Option<set<string>>, positionalArgs: seq<string>)

  const SEPARATOR: char := '\0'
  const REPEATABLE := {"label", "skill"}

  // ---------- reading the tokens ----------

  predicate IsFlag(token: string) { "--" <= token }

  datatype Token = Word(word: string) | Assigned(name: string, text: string) | Named(name: string)

  function Read(token: string): Token {
    if !IsFlag(token) then Word(token)
    else
      var k := IndexOf(token[2..], '=');
      if k == -1 then Named(token[2..]) else Assigned(token[2..][..k], token[2..][k + 1..])
  }

  // Whether a flag without `=` takes the next token: not a boolean flag, not the flag just before the
  // command when no path word came yet, and followed by something that is not a flag.
  predicate TakesNext(argv: seq<string>, i: nat, name: string, started: bool, booleans: set<string>, commandIndex: int) {
    name !in booleans && (started || i + 1 != commandIndex) && i + 1 < |argv| && !IsFlag(argv[i + 1])
  }

  // The path words and flag entries from token `i` on; `started` says whether a path word came before
  function ParseFrom(argv: seq<string>, i: nat, started: bool, booleans: set<string>, commandIndex: int): Parsed
    requires i <= |argv|
    decreases |argv| - i
  {
    if i == |argv| then Parsed([], [])
    else
      match Read(argv[i])
      case Word(w) =>
        var p := ParseFrom(argv, i + 1, true, booleans, commandIndex);
        Parsed([w] + p.path, p.entries)
      case Assigned(name, text) =>
        var p := ParseFrom(argv, i + 1, started, booleans, commandIndex);
        Parsed(p.path, [Entry(name, Text(text))] + p.entries)
      case Named(name) =>
        if TakesNext(argv, i, name, started, booleans, commandIndex) then
          var p := ParseFrom(argv, i + 2, started, booleans, commandIndex);
          Parsed(p.path, [Entry(name, Text(argv[i + 1]))] + p.entries)
        else
          var p := ParseFrom(argv, i + 1, started, booleans, commandIndex);
          Parsed(p.path, [Entry(name, Bare)] + p.entries)
  }

  function Parse(argv: seq<string>, booleans: set<string>, commandIndex: int): Parsed {
    ParseFrom(argv, 0, false, booleans, commandIndex)
  }

  // ---------- the flag map ----------

  function WithFlag(flags: Flags, e: Entry, repeatable: set<string>): Flags {
    if e.value.Text? && e.name in flags && flags[e.name].Text? && e.name in repeatable then
      flags[e.name := Text(flags[e.name].text + [SEPARATOR] + e.value.text)]
    else flags[e.name := e.value]
  }

  function FlagMap(entries: seq<Entry>, repeatable: set<string>): Flags {
    if entries == [] then map[] else WithFlag(FlagMap(entries[..|entries| - 1], repeatable), entries[|entries| - 1], repeatable)
  }

  // The split of the source's consumers
  function Split(s: string): (parts: seq<string>)
    ensures parts != []
  {
    var k := IndexOf(s, SEPARATOR);
    if k == -1 then [s] else [s[..k]] + Split(s[k + 1..])
  }

  lemma SplitAt(s: string, k: nat)
    requires k < |s| && s[k] == SEPARATOR && SEPARATOR !in s[..k]
    ensures Split(s) == [s[..k]] + Split(s[k + 1..])
  {
    FirstIndex(s, SEPARATOR, k);
  }

  lemma SplitWhole(s: string)
    requires SEPARATOR !in s
    ensures Split(s) == [s]
  {
  }

  lemma {:induction false} SplitConcat(s: string, t: string)
    ensures Split(s + [SEPARATOR] + t) == Split(s) + Split(t)
    decreases |s|
  {
    var whole := s + [SEPARATOR] + t;
    var k := IndexOf(s, SEPARATOR);
    if k == -1 {
      assert whole[..|s|] == s && whole[|s| + 1..] == t;
      SplitAt(whole, |s|);
      SplitWhole(s);
    } else {
      assert whole[..k] == s[..k] && whole[k + 1..] == s[k + 1..] + [SEPARATOR] + t;
      SplitAt(whole, k);
      SplitAt(s, k);
      SplitConcat(s[k + 1..], t);
      ConcatAssociates([s[..k]], Split(s[k + 1..]), Split(t));
    }
  }

  function Unsplit(parts: seq<string>): string
    requires parts != []
  {
    if |parts| == 1 then parts[0] else parts[0] + [SEPARATOR] + Unsplit(parts[1..])
  }

  lemma UnsplitFirst(first: string, parts: seq<string>)
    requires parts != []
    ensures Unsplit([first] + parts) == first + [SEPARATOR] + Unsplit(parts)
  {
    assert ([first] + parts)[1..] == parts;
  }

  lemma CutAt(s: string, k: nat, c: char)
    requires k < |s| && s[k] == c
    ensures s == s[..k] + [c] + s[k + 1..]
  {
  }

  // The parts determine the text.
  lemma {:induction false} UnsplitSplit(s: string)
    ensures Unsplit(Split(s)) == s
    decreases |s|
  {
    var k := IndexOf(s, SEPARATOR);
    if k != -1 {
      UnsplitSplit(s[k + 1..]);
      UnsplitFirst(s[..k], Split(s[k + 1..]));
      CutAt(s, k, SEPARATOR);
    }
  }

  // ---------- the spec of a path ----------

  function SpecPaths(spec: Spec): seq<seq<string>> { if spec.aliases.Some? then [spec.path] + spec.aliases.value else [spec.path] }

  // A path of a spec, with the spec's place
  datatype Candidate = Candidate(spec: nat, path: seq<string>)

  function CandidatesOf(i: nat, paths: seq<seq<string>>): seq<Candidate> {
    seq(|paths|, j requires 0 <= j < |paths| => Candidate(i, paths[j]))
  }

  function Candidates(specs: seq<Spec>): seq<Candidate> {
    if specs == [] then []
    else Candidates(specs[..|specs| - 1]) + CandidatesOf(|specs| - 1, SpecPaths(specs[|specs| - 1]))
  }

  function Better(best: Option<Candidate>, c: Candidate, path: seq<string>): Option<Candidate> {
    if c.path <= path && (best.None? || |c.path| > |best.value.path|) then Some(c) else best
  }

  function BestOf(candidates: seq<Candidate>, path: seq<string>): Option<Candidate> {
    if candidates == [] then None
    else
      Better(BestOf(candidates[..|candidates| - 1], path), candidates[|candidates| - 1], path)
  }

  // The longest spec path that begins `path` wins, and of equally long ones the first.
  lemma {:induction false} BestOfExact(candidates: seq<Candidate>, path: seq<string>)
    ensures match BestOf(candidates, path)
            case None => forall c :: c in candidates ==> !(c.path <= path)
            case Some(best) =>
              && best.path <= path
              && (forall c :: c in candidates && c.path <= path ==> |c.path| <= |best.path|)
              && exists i :: 0 <= i < |candidates| && candidates[i] == best
                             && forall j :: 0 <= j < i && candidates[j].path <= path ==> |candidates[j].path| < |best.path|
  {
    if candidates != [] {
      var rest := candidates[..|candidates| - 1];
      BestOfExact(rest, path);
      assert candidates[|candidates| - 1].path <= path ==> forall j :: 0 <= j < |rest| ==> rest[j] == candidates[j];
      match BestOf(rest, path) {
        case None => assert forall j :: 0 <= j < |rest| ==> rest[j] in rest;
        case Some(best) => assert forall j :: 0 <= j < |rest| ==> rest[j] in rest;
      }
    }
  }

  lemma {:induction false} CandidateSpecs(specs: seq<Spec>)
    ensures forall c :: c in Candidates(specs) ==> c.spec < |specs| && c.path in SpecPaths(specs[c.spec])
    ensures forall i, p :: 0 <= i < |specs| && p in SpecPaths(specs[i]) ==> Candidate(i, p) in Candidates(specs)
  {
    if specs != [] {
      var n := |specs| - 1;
      CandidateSpecs(specs[..n]);
      var last := CandidatesOf(n, SpecPaths(specs[n]));
      forall p | p in SpecPaths(specs[n])
        ensures Candidate(n, p) in last
      {
        var j :| 0 <= j < |SpecPaths(specs[n])| && SpecPaths(specs[n])[j] == p;
        assert last[j] == Candidate(n, p);
      }
    }
  }

  lemma BestOfAppend(candidates: seq<Candidate>, c: Candidate, path: seq<string>)
    ensures BestOf(candidates + [c], path) == Better(BestOf(candidates, path), c, path)
  {
    assert (candidates + [c])[..|candidates + [c]| - 1] == candidates;
  }

  lemma CandidatesOfAppend(before: seq<Candidate>, i: nat, paths: seq<seq<string>>, j: nat)
    requires j < |paths|
    ensures before + CandidatesOf(i, paths[..j + 1]) == before + CandidatesOf(i, paths[..j]) + [Candidate(i, paths[j])]
  {
  }

  lemma CandidatesAppend(specs: seq<Spec>, i: nat)
    requires i < |specs|
    ensures Candidates(specs[..i + 1]) == Candidates(specs[..i]) + CandidatesOf(i, SpecPaths(specs[i]))
  {
    assert specs[..i + 1][..i] == specs[..i];
  }

  // The loop over the paths of one spec
  method BetterOfPaths(i: nat, paths: seq<seq<string>>, path: seq<string>, sofar: Option<Candidate>, ghost before: seq<Candidate>)
    returns (best: Option<Candidate>)
    requires sofar == BestOf(before, path)
    ensures best == BestOf(before + CandidatesOf(i, paths), path)
  {
    best := sofar;
    assert before + CandidatesOf(i, paths[..0]) == before;
    for j := 0 to |paths|
      invariant best == BestOf(before + CandidatesOf(i, paths[..j]), path)
    {
      CandidatesOfAppend(before, i, paths, j);
      BestOfAppend(before + CandidatesOf(i, paths[..j]), Candidate(i, paths[j]), path);
      if paths[j] <= path && (best.None? || |paths[j]| > |best.value.path|) {
        best := Some(Candidate(i, paths[j]));
      }
    }
    assert paths[..|paths|] == paths;
  }

  method SpecForPathPrefix(specs: seq<Spec>, path: seq<string>) returns (best: Option<Candidate>)
    ensures best == BestOf(Candidates(specs), path)
  {
    best := None;
    for i := 0 to |specs|
      invariant best == BestOf(Candidates(specs[..i]), path)
    {
      CandidatesAppend(specs, i);
      best := BetterOfPaths(i, SpecPaths(specs[i]), path, best, Candidates(specs[..i]));
    }
    assert specs[..|specs|] == specs;
  }

  function RepeatableFor(specs: seq<Spec>, path: seq<string>): set<string> {
    match BestOf(Candidates(specs), path)
    case None => REPEATABLE
    case Some(c) => REPEATABLE + if c.spec < |specs| && specs[c.spec].repeatableFlags.Some? then specs[c.spec].repeatableFlags.value else {}
  }

  // The command path and flag map of an argument list
  function Parsing(argv: seq<string>, booleans: set<string>, commandIndex: int, specs: seq<Spec>): (seq<string>, Flags) {
    var p := Parse(argv, booleans, commandIndex);
    (p.path, FlagMap(p.entries, RepeatableFor(specs, p.path)))
  }

  // ---------- the parser ----------

  // What the tokens read so far and those left together give
  ghost predicate Splits(all: Parsed, path: seq<string>, entries: seq<Entry>, rest: Parsed) {
    all.path == path + rest.path && all.entries == entries + rest.entries
  }

  lemma SplitsWord(all: Parsed, path: seq<string>, entries: seq<Entry>, w: string, rest: Parsed)
    requires Splits(all, path, entries, Parsed([w] + rest.path, rest.entries))
    ensures Splits(all, path + [w], entries, rest)
  {
    ConcatAssociates(path, [w], rest.path);
  }

  lemma SplitsEntry(all: Parsed, path: seq<string>, entries: seq<Entry>, e: Entry, rest: Parsed)
    requires Splits(all, path, entries, Parsed(rest.path, [e] + rest.entries))
    ensures Splits(all, path, entries + [e], rest)
  {
    ConcatAssociates(entries, [e], rest.entries);
  }

  // The entry of a flag token, and where the reading goes on behind it
  datatype Taken = Taken(entry: Entry, next: nat)

  function TakenAt(argv: seq<string>, i: nat, started: bool, booleans: set<string>, commandIndex: int): (t: Taken)
    requires i < |argv| && IsFlag(argv[i])
    ensures i < t.next <= |argv|
  {
    var read := Read(argv[i]);
    if read.Assigned? then Taken(Entry(read.name, Text(read.text)), i + 1)
    else if TakesNext(argv, i, read.name, started, booleans, commandIndex) then Taken(Entry(read.name, Text(argv[i + 1])), i + 2)
    else Taken(Entry(read.name, Bare), i + 1)
  }

  // Where each kind of token leads
  lemma WordStep(argv: seq<string>, i: nat, started: bool, booleans: set<string>, commandIndex: int)
    requires i < |argv| && !IsFlag(argv[i])
    ensures var rest := ParseFrom(argv, i + 1, true, booleans, commandIndex);
            ParseFrom(argv, i, started, booleans, commandIndex) == Parsed([argv[i]] + rest.path, rest.entries)
  {
  }

  lemma FlagStep(argv: seq<string>, i: nat, started: bool, booleans: set<string>, commandIndex: int)
    requires i < |argv| && IsFlag(argv[i])
    ensures var t := TakenAt(argv, i, started, booleans, commandIndex);
            var rest := ParseFrom(argv, t.next, started, booleans, commandIndex);
            ParseFrom(argv, i, started, booleans, commandIndex) == Parsed(rest.path, [t.entry] + rest.entries)
  {
  }

  // One token read: the words and entries so far, and what the rest of the tokens gives, still make `all`.
  ghost predicate Reading(all: Parsed, path: seq<string>, entries: seq<Entry>, argv: seq<string>, i: nat, booleans: set<string>, commandIndex: int) {
    i <= |argv| && Splits(all, path, entries, ParseFrom(argv, i, path != [], booleans, commandIndex))
  }

  lemma WordRead(all: Parsed, path: seq<string>, entries: seq<Entry>, argv: seq<string>, i: nat, booleans: set<string>, commandIndex: int)
    requires Reading(all, path, entries, argv, i, booleans, commandIndex) && i < |argv| && !IsFlag(argv[i])
    ensures Reading(all, path + [argv[i]], entries, argv, i + 1, booleans, commandIndex)
  {
    WordStep(argv, i, path != [], booleans, commandIndex);
    SplitsWord(all, path, entries, argv[i], ParseFrom(argv, i + 1, true, booleans, commandIndex));
  }

  lemma FlagRead(all: Parsed, path: seq<string>, entries: seq<Entry>, argv: seq<string>, i: nat, booleans: set<string>, commandIndex: int)
    requires Reading(all, path, entries, argv, i, booleans, commandIndex) && i < |argv| && IsFlag(argv[i])
    ensures var t := TakenAt(argv, i, path != [], booleans, commandIndex);
            Reading(all, path, entries + [t.entry], argv, t.next, booleans, commandIndex)
  {
    FlagStep(argv, i, path != [], booleans, commandIndex);
    var t := TakenAt(argv, i, path != [], booleans, commandIndex);
    SplitsEntry(all, path, entries, t.entry, ParseFrom(argv, t.next, path != [], booleans, commandIndex));
  }

  lemma ReadingEnds(all: Parsed, path: seq<string>, entries: seq<Entry>, argv: seq<string>, booleans: set<string>, commandIndex: int)
    requires Reading(all, path, entries, argv, |argv|, booleans, commandIndex)
    ensures all == Parsed(path, entries)
  {
    assert path + [] == path && entries + [] == entries;
  }

  lemma ReadingStarts(argv: seq<string>, booleans: set<string>, commandIndex: int)
    ensures Reading(Parse(argv, booleans, commandIndex), [], [], argv, 0, booleans, commandIndex)
  {
    var all := Parse(argv, booleans, commandIndex);
    assert [] + all.path == all.path && [] + all.entries == all.entries;
  }

  method ReadTokens(argv: seq<string>, booleans: set<string>, commandIndex: int) returns (commandPath: seq<string>, flagEntries: seq<Entry>)
    ensures Parsed(commandPath, flagEntries) == Parse(argv, booleans, commandIndex)
  {
    commandPath, flagEntries := [], [];
    var i: nat := 0;
    ghost var all := Parse(argv, booleans, commandIndex);
    ReadingStarts(argv, booleans, commandIndex);
    while i < |argv|
      invariant Reading(all, commandPath, flagEntries, argv, i, booleans, commandIndex)
      decreases |argv| - i
    {
      var token := argv[i];
      if !IsFlag(token) {
        WordRead(all, commandPath, flagEntries, argv, i, booleans, commandIndex);
        commandPath := commandPath + [token];
        i := i + 1;
        continue;
      }
      FlagRead(all, commandPath, flagEntries, argv, i, booleans, commandIndex);
      var assignment := token[2..];
      var equalsIndex := IndexOf(assignment, '=');
      if equalsIndex != -1 {
        flagEntries := flagEntries + [Entry(assignment[..equalsIndex], Text(assignment[equalsIndex + 1..]))];
        i := i + 1;
        continue;
      }
      var flag := assignment;
      if flag in booleans {
        flagEntries := flagEntries + [Entry(flag, Bare)];
        i := i + 1;
        continue;
      }
      if commandPath == [] && i + 1 == commandIndex {
        flagEntries := flagEntries + [Entry(flag, Bare)];
        i := i + 1;
        continue;
      }
      var hasNext := i + 1 < |argv|;
      if !hasNext || IsFlag(argv[i + 1]) {
        flagEntries := flagEntries + [Entry(flag, Bare)];
        i := i + 1;
        continue;
      }
      flagEntries := flagEntries + [Entry(flag, Text(argv[i + 1]))];
      i := i + 2;
    }
    ReadingEnds(all, commandPath, flagEntries, argv, booleans, commandIndex);
  }

  // The values a flag keeps when it is given another one
  function KeptValues(flags: Flags, name: string, repeatable: set<string>): seq<string> {
    if name in repeatable && name in flags && flags[name].Text? then Split(flags[name].text) else []
  }

  // No other flag changes, and this one splits into the values it keeps and those of the new text.
  method SetFlagValue(flags: Flags, name: string, value: string, repeatable: set<string>) returns (changed: Flags)
    ensures changed.Keys == flags.Keys + {name} && forall other :: other in flags && other != name ==> changed[other] == flags[other]
    ensures changed[name].Text? && Split(changed[name].text) == KeptValues(flags, name, repeatable) + Split(value)
  {
    if name in flags && flags[name].Text? && name in repeatable {
      SplitConcat(flags[name].text, value);
      return flags[name := Text(flags[name].text + [SEPARATOR] + value)];
    }
    return flags[name := Text(value)];
  }

  lemma SameParts(s: string, t: string)
    requires Split(s) == Split(t)
    ensures s == t
  {
    UnsplitSplit(s);
    UnsplitSplit(t);
  }

  lemma GrownText(flags: Flags, name: string, value: string, repeatable: set<string>, text: string)
    requires Split(text) == KeptValues(flags, name, repeatable) + Split(value)
    ensures WithFlag(flags, Entry(name, Text(value)), repeatable) == flags[name := Text(text)]
  {
    if name in flags && flags[name].Text? && name in repeatable {
      SplitConcat(flags[name].text, value);
      SameParts(text, flags[name].text + [SEPARATOR] + value);
    } else {
      SameParts(text, value);
    }
  }

  lemma SameMap(flags: Flags, name: string, changed: Flags)
    requires changed.Keys == flags.Keys + {name} && forall other :: other in flags && other != name ==> changed[other] == flags[other]
    ensures changed == flags[name := changed[name]]
  {
    var after := flags[name := changed[name]];
    assert changed.Keys == after.Keys;
    forall other | other in changed
      ensures changed[other] == after[other]
    {
    }
  }

  // These facts leave no choice.
  lemma FlagSetOnce(flags: Flags, name: string, value: string, repeatable: set<string>, changed: Flags)
    requires changed.Keys == flags.Keys + {name} && forall other :: other in flags && other != name ==> changed[other] == flags[other]
    requires changed[name].Text? && Split(changed[name].text) == KeptValues(flags, name, repeatable) + Split(value)
    ensures changed == WithFlag(flags, Entry(name, Text(value)), repeatable)
  {
    SameMap(flags, name, changed);
    GrownText(flags, name, value, repeatable, changed[name].text);
  }

  method CollectFlags(flagEntries: seq<Entry>, repeatable: set<string>) returns (flags: Flags)
    ensures flags == FlagMap(flagEntries, repeatable)
  {
    flags := map[];
    for k := 0 to |flagEntries|
      invariant flags == FlagMap(flagEntries[..k], repeatable)
    {
      assert flagEntries[..k + 1][..k] == flagEntries[..k];
      if flagEntries[k].value.Text? {
        var changed := SetFlagValue(flags, flagEntries[k].name, flagEntries[k].value.text, repeatable);
        FlagSetOnce(flags, flagEntries[k].name, flagEntries[k].value.text, repeatable, changed);
        flags := changed;
      } else {
        flags := flags[flagEntries[k].name := flagEntries[k].value];
      }
    }
    assert flagEntries[..|flagEntries|] == flagEntries;
  }

  method ParseArgs(argv: seq<string>, booleans: set<string>, commandIndex: int, specs: seq<Spec>)
    returns (commandPath: seq<string>, flags: Flags)
    ensures (commandPath, flags) == Parsing(argv, booleans, commandIndex, specs)
  {
    var flagEntries;
    commandPath, flagEntries := ReadTokens(argv, booleans, commandIndex);
    var best := SpecForPathPrefix(specs, commandPath);
    var repeatable := REPEATABLE;
    if best.Some? && best.value.spec < |specs| && specs[best.value.spec].repeatableFlags.Some? {
      repeatable := REPEATABLE + specs[best.value.spec].repeatableFlags.value;
    }
    assert repeatable == RepeatableFor(specs, commandPath);
    flags := CollectFlags(flagEntries, repeatable);
  }
}
