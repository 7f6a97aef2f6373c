/**
 Printing and reading arguments back (src/cli/args.ts), and what the flag map keeps.

 A path and its flag entries are printed as the path words followed by `--name=value` or `--name`.
 */
module ArgsRoundTrip {
  import opened Options
  import opened Sequences
  import opened Strings
  import opened Args

  // ---------- printing ----------

  function PrintEntry(e: Entry): string {
    match e.value
    case Bare => "--" + e.name
    case Text(v) => "--" + e.name + "=" + v
  }

  function PrintEntries(entries: seq<Entry>): seq<string> {
    seq(|entries|, i requires 0 <= i < |entries| => PrintEntry(entries[i]))
  }

  function Print(path: seq<string>, entries: seq<Entry>): seq<string> { path + PrintEntries(entries) }

  // Path words are not flags, and flag names hold no `=`; values are arbitrary.
  ghost predicate Printable(path: seq<string>, entries: seq<Entry>) {
    && (forall w :: w in path ==> !IsFlag(w))
    && (forall e :: e in entries ==> '=' !in e.name)
  }

  lemma ReadPrinted(e: Entry)
    requires '=' !in e.name
    ensures IsFlag(PrintEntry(e))
    ensures Read(PrintEntry(e)) == match e.value case Bare => Named(e.name) case Text(v) => Assigned(e.name, v)
  {
    var t := PrintEntry(e);
    assert t[..2] == "--";
    match e.value {
      case Bare => assert t[2..] == e.name;
      case Text(v) =>
        assert t[2..] == e.name + "=" + v;
        assert t[2..][..|e.name|] == e.name && t[2..][|e.name| + 1..] == v;
        FirstIndex(t[2..], '=', |e.name|);
    }
  }

  // A printed entry that is last, or followed by another flag, is read as itself.
  lemma EntryStep(argv: seq<string>, i: nat, e: Entry, started: bool, booleans: set<string>, commandIndex: int)
    requires i < |argv| && '=' !in e.name && argv[i] == PrintEntry(e) && (i + 1 < |argv| ==> IsFlag(argv[i + 1]))
    ensures var rest := ParseFrom(argv, i + 1, started, booleans, commandIndex);
            ParseFrom(argv, i, started, booleans, commandIndex) == Parsed(rest.path, [e] + rest.entries)
  {
    ReadPrinted(e);
  }

  // The entries are printed from token `i` to the end.
  ghost predicate PrintedFrom(argv: seq<string>, i: nat, entries: seq<Entry>) {
    i + |entries| == |argv| && forall j :: 0 <= j < |entries| ==> '=' !in entries[j].name && argv[i + j] == PrintEntry(entries[j])
  }

  lemma PrintedNext(argv: seq<string>, i: nat, entries: seq<Entry>)
    requires PrintedFrom(argv, i, entries) && entries != []
    ensures '=' !in entries[0].name && argv[i] == PrintEntry(entries[0]) && (i + 1 < |argv| ==> IsFlag(argv[i + 1]))
    ensures PrintedFrom(argv, i + 1, entries[1..])
  {
    assert argv[i + 0] == PrintEntry(entries[0]);
    if |entries| > 1 {
      assert argv[i + 1] == PrintEntry(entries[1]);
      ReadPrinted(entries[1]);
    }
    forall j | 0 <= j < |entries[1..]|
      ensures '=' !in entries[1..][j].name && argv[i + 1 + j] == PrintEntry(entries[1..][j])
    {
      assert argv[i + (j + 1)] == PrintEntry(entries[j + 1]);
    }
  }

  lemma {:induction false} ReadEntriesBack(argv: seq<string>, i: nat, entries: seq<Entry>, started: bool, booleans: set<string>, commandIndex: int)
    requires PrintedFrom(argv, i, entries)
    ensures ParseFrom(argv, i, started, booleans, commandIndex) == Parsed([], entries)
    decreases |entries|
  {
    if entries != [] {
      PrintedNext(argv, i, entries);
      EntryStep(argv, i, entries[0], started, booleans, commandIndex);
      ReadEntriesBack(argv, i + 1, entries[1..], started, booleans, commandIndex);
      assert entries == [entries[0]] + entries[1..];
    }
  }

  lemma {:induction false} ReadPathBack(path: seq<string>, entries: seq<Entry>, i: nat, started: bool, booleans: set<string>, commandIndex: int)
    requires Printable(path, entries) && i <= |path|
    ensures ParseFrom(Print(path, entries), i, started, booleans, commandIndex) == Parsed(path[i..], entries)
    decreases |path| - i
  {
    if i == |path| {
      ReadEntriesBack(Print(path, entries), |path|, entries, started, booleans, commandIndex);
    } else {
      assert Print(path, entries)[i] == path[i];
      ReadPathBack(path, entries, i + 1, true, booleans, commandIndex);
      assert path[i..] == [path[i]] + path[i + 1..];
    }
  }

  // Reading what was printed gives the path and the entries, values with `=` or leading `--` included,
  // whatever the boolean flags and the command index are.
  lemma ReadsBack(path: seq<string>, entries: seq<Entry>, booleans: set<string>, commandIndex: int)
    requires Printable(path, entries)
    ensures Parse(Print(path, entries), booleans, commandIndex) == Parsed(path, entries)
  {
    ReadPathBack(path, entries, 0, false, booleans, commandIndex);
  }

  lemma {:induction false} ParsedPrintable(argv: seq<string>, i: nat, started: bool, booleans: set<string>, commandIndex: int)
    requires i <= |argv|
    ensures var p := ParseFrom(argv, i, started, booleans, commandIndex); Printable(p.path, p.entries)
    decreases |argv| - i
  {
    if i < |argv| {
      ParsedPrintable(argv, i + 1, true, booleans, commandIndex);
      ParsedPrintable(argv, i + 1, started, booleans, commandIndex);
      if i + 2 <= |argv| {
        ParsedPrintable(argv, i + 2, started, booleans, commandIndex);
      }
    }
  }

  // Every argument list has a canonical form: printing what was parsed and parsing it again, under any
  // other command index, gives the same path and the same flags.
  lemma Canonical(argv: seq<string>, booleans: set<string>, commandIndex: int, another: int, specs: seq<Spec>)
    ensures var p := Parse(argv, booleans, commandIndex);
            && Parse(Print(p.path, p.entries), booleans, another) == p
            && Parsing(Print(p.path, p.entries), booleans, another, specs) == Parsing(argv, booleans, commandIndex, specs)
  {
    ParsedPrintable(argv, 0, false, booleans, commandIndex);
    var p := Parse(argv, booleans, commandIndex);
    ReadsBack(p.path, p.entries, booleans, another);
  }

  // ---------- every argument list ----------

  // A path word, `--name=text`, `--name text`, or `--name` alone
  datatype Piece = Plain(word: string) | Equals(name: string, text: string) | Spaced(name: string, text: string) | Alone(name: string)

  function WidthOf(p: Piece): nat { if p.Spaced? then 2 else 1 }

  // The piece stands at token `i`.  A flag takes the token behind it unless it is a boolean flag, is followed
  // by another flag or by nothing, or stands right before the command with no path word read yet.
  predicate StandsAt(p: Piece, argv: seq<string>, i: nat, started: bool, booleans: set<string>, commandIndex: int) {
    && i + WidthOf(p) <= |argv|
    && match p
       case Plain(w) => argv[i] == w && !("--" <= w)
       case Equals(n, t) => argv[i] == "--" + n + "=" + t && '=' !in n
       case Spaced(n, t) => argv[i] == "--" + n && '=' !in n && argv[i + 1] == t && n !in booleans && !("--" <= t) && (started || i + 1 != commandIndex)
       case Alone(n) =>
         argv[i] == "--" + n && '=' !in n && (n in booleans || i + 1 == |argv| || "--" <= argv[i + 1] || (!started && i + 1 == commandIndex))
  }

  // The tokens from `i` on are these pieces.
  predicate Spelled(ps: seq<Piece>, argv: seq<string>, i: nat, started: bool, booleans: set<string>, commandIndex: int)
    decreases |ps|
  {
    if ps == [] then i == |argv|
    else
      && StandsAt(ps[0], argv, i, started, booleans, commandIndex)
      && Spelled(ps[1..], argv, i + WidthOf(ps[0]), started || ps[0].Plain?, booleans, commandIndex)
  }

  function PathOf(ps: seq<Piece>): seq<string> { if ps == [] then [] else (if ps[0].Plain? then [ps[0].word] else []) + PathOf(ps[1..]) }

  function GivenBy(ps: seq<Piece>): seq<Entry> {
    if ps == [] then []
    else
      (match ps[0]
       case Plain(_) => []
       case Equals(n, t) => [Entry(n, Text(t))]
       case Spaced(n, t) => [Entry(n, Text(t))]
       case Alone(n) => [Entry(n, Bare)]) + GivenBy(ps[1..])
  }

  lemma ReadsAlone(token: string, n: string)
    requires token == "--" + n && '=' !in n
    ensures IsFlag(token) && Read(token) == Named(n)
  {
    assert token[2..] == n && token[..2] == "--";
  }

  lemma ReadsEquals(token: string, n: string, t: string)
    requires token == "--" + n + "=" + t && '=' !in n
    ensures IsFlag(token) && Read(token) == Assigned(n, t)
  {
    ReadPrinted(Entry(n, Text(t)));
  }

  lemma PieceRead(p: Piece, argv: seq<string>, i: nat, started: bool, booleans: set<string>, commandIndex: int)
    requires StandsAt(p, argv, i, started, booleans, commandIndex)
    ensures match p
            case Plain(w) => !IsFlag(argv[i]) && argv[i] == w
            case Equals(n, t) => IsFlag(argv[i]) && TakenAt(argv, i, started, booleans, commandIndex) == Taken(Entry(n, Text(t)), i + 1)
            case Spaced(n, t) => IsFlag(argv[i]) && TakenAt(argv, i, started, booleans, commandIndex) == Taken(Entry(n, Text(t)), i + 2)
            case Alone(n) => IsFlag(argv[i]) && TakenAt(argv, i, started, booleans, commandIndex) == Taken(Entry(n, Bare), i + 1)
  {
    match p {
      case Plain(_) =>
      case Equals(n, t) => ReadsEquals(argv[i], n, t);
      case Spaced(n, _) => ReadsAlone(argv[i], n);
      case Alone(n) => ReadsAlone(argv[i], n);
    }
  }

  // Words and flags in any order, values behind an equals sign or a space: the parser reads the words and
  // the entries that are spelled.
  lemma {:induction false} SpelledRead(ps: seq<Piece>, argv: seq<string>, i: nat, started: bool, booleans: set<string>, commandIndex: int)
    requires i <= |argv| && Spelled(ps, argv, i, started, booleans, commandIndex)
    ensures ParseFrom(argv, i, started, booleans, commandIndex) == Parsed(PathOf(ps), GivenBy(ps))
    decreases |ps|
  {
    if ps != [] {
      PieceRead(ps[0], argv, i, started, booleans, commandIndex);
      SpelledRead(ps[1..], argv, i + WidthOf(ps[0]), started || ps[0].Plain?, booleans, commandIndex);
      if ps[0].Plain? {
        WordStep(argv, i, started, booleans, commandIndex);
      } else {
        FlagStep(argv, i, started, booleans, commandIndex);
      }
    }
  }

  lemma DashesOff(token: string) returns (rest: string)
    requires "--" <= token
    ensures token == "--" + rest
  {
    rest := token[2..];
  }

  lemma AtEquals(token: string, rest: string) returns (n: string, t: string)
    requires token == "--" + rest && '=' in rest
    ensures token == "--" + n + "=" + t && '=' !in n
  {
    var k := IndexOf(rest, '=');
    n, t := rest[..k], rest[k + 1..];
    assert rest == n + ("=" + t);
    ConcatAssociates("--", n, "=" + t);
    ConcatAssociates("--" + n, "=", t);
  }

  lemma FirstPiece(argv: seq<string>, i: nat, started: bool, booleans: set<string>, commandIndex: int) returns (p: Piece)
    requires i < |argv|
    ensures StandsAt(p, argv, i, started, booleans, commandIndex)
  {
    if !("--" <= argv[i]) {
      return Plain(argv[i]);
    }
    var rest := DashesOff(argv[i]);
    if '=' in rest {
      var n, t := AtEquals(argv[i], rest);
      p := Equals(n, t);
    } else if rest !in booleans && i + 1 < |argv| && !("--" <= argv[i + 1]) && (started || i + 1 != commandIndex) {
      p := Spaced(rest, argv[i + 1]);
    } else {
      p := Alone(rest);
    }
  }

  lemma {:induction false} SpellingFrom(argv: seq<string>, i: nat, started: bool, booleans: set<string>, commandIndex: int) returns (ps: seq<Piece>)
    requires i <= |argv|
    ensures Spelled(ps, argv, i, started, booleans, commandIndex)
    decreases |argv| - i
  {
    if i == |argv| {
      ps := [];
    } else {
      var p := FirstPiece(argv, i, started, booleans, commandIndex);
      var rest := SpellingFrom(argv, i + WidthOf(p), started || p.Plain?, booleans, commandIndex);
      ps := [p] + rest;
      assert ps[1..] == rest;
    }
  }

  // Every argument list is spelled by such pieces, and what the parser reads is what they say.
  lemma EveryListSpelled(argv: seq<string>, booleans: set<string>, commandIndex: int) returns (ps: seq<Piece>)
    ensures Spelled(ps, argv, 0, false, booleans, commandIndex)
    ensures Parse(argv, booleans, commandIndex) == Parsed(PathOf(ps), GivenBy(ps))
  {
    ps := SpellingFrom(argv, 0, false, booleans, commandIndex);
    SpelledRead(ps, argv, 0, false, booleans, commandIndex);
  }

  // ---------- the flag map ----------

  // The texts given to a flag since it was last bare
  function TextsOf(entries: seq<Entry>, name: string): seq<string> {
    if entries == [] then []
    else
      var rest, e := TextsOf(entries[..|entries| - 1], name), entries[|entries| - 1];
      if e.name != name then rest else if e.value.Bare? then [] else rest + [e.value.text]
  }

  function LastOf(entries: seq<Entry>, name: string): Option<Value> {
    if entries == [] then None
    else if entries[|entries| - 1].name == name then Some(entries[|entries| - 1].value)
    else LastOf(entries[..|entries| - 1], name)
  }

  function Join(texts: seq<string>): string
    requires texts != []
  {
    if |texts| == 1 then texts[0] else Join(texts[..|texts| - 1]) + [SEPARATOR] + texts[|texts| - 1]
  }

  lemma JoinMore(texts: seq<string>)
    requires |texts| > 1
    ensures Join(texts) == Join(texts[..|texts| - 1]) + [SEPARATOR] + texts[|texts| - 1]
  {
  }

  lemma {:induction false} SplitJoin(texts: seq<string>)
    requires texts != [] && forall t :: t in texts ==> SEPARATOR !in t
    ensures Split(Join(texts)) == texts
    decreases |texts|
  {
    if |texts| == 1 {
      assert texts == [texts[0]] && texts[0] in texts;
      SplitWhole(texts[0]);
    } else {
      var rest, last := texts[..|texts| - 1], texts[|texts| - 1];
      assert texts == rest + [last] && last in texts;
      SplitJoin(rest);
      JoinMore(texts);
      SplitConcat(Join(rest), last);
      SplitWhole(last);
    }
  }

  // The last entry of a flag wins; a repeatable flag joins the texts since it was last bare.
  lemma {:induction false} FlagMapExact(entries: seq<Entry>, repeatable: set<string>, name: string)
    ensures var flags, last := FlagMap(entries, repeatable), LastOf(entries, name);
            && (name in flags <==> last.Some?)
            && (last.Some? ==> (flags[name].Bare? <==> last.value.Bare?))
            && (last.Some? && last.value.Text? ==>
                  (TextsOf(entries, name) != []
                   && flags[name].text == if name in repeatable then Join(TextsOf(entries, name)) else last.value.text))
  {
    if entries != [] {
      var rest, e := entries[..|entries| - 1], entries[|entries| - 1];
      FlagMapExact(rest, repeatable, name);
      if e.name == name && e.value.Text? {
        var texts := TextsOf(rest, name);
        TextsSinceBare(rest, name);
        assert (texts + [e.value.text])[..|texts|] == texts;
      }
    }
  }

  lemma {:induction false} TextsSinceBare(entries: seq<Entry>, name: string)
    ensures TextsOf(entries, name) != [] <==> LastOf(entries, name).Some? && LastOf(entries, name).value.Text?
  {
    if entries != [] {
      TextsSinceBare(entries[..|entries| - 1], name);
    }
  }

  lemma {:induction false} TextsFromEntries(entries: seq<Entry>, name: string)
    ensures forall t :: t in TextsOf(entries, name) ==> Entry(name, Text(t)) in entries
  {
    if entries != [] {
      TextsFromEntries(entries[..|entries| - 1], name);
    }
  }

  // Printed and read back, a repeatable flag's text splits into exactly the values it was given.
  lemma RepeatedValuesRecovered(path: seq<string>, entries: seq<Entry>, booleans: set<string>, commandIndex: int, specs: seq<Spec>, name: string)
    requires Printable(path, entries)
    requires name in RepeatableFor(specs, path)
    requires forall e :: e in entries && e.name == name && e.value.Text? ==> SEPARATOR !in e.value.text
    ensures var (commandPath, flags) := Parsing(Print(path, entries), booleans, commandIndex, specs);
            && commandPath == path
            && (name in flags && flags[name].Text? <==> TextsOf(entries, name) != [])
            && (name in flags && flags[name].Text? ==> Split(flags[name].text) == TextsOf(entries, name))
  {
    ReadsBack(path, entries, booleans, commandIndex);
    FlagMapExact(entries, RepeatableFor(specs, path), name);
    TextsSinceBare(entries, name);
    TextsFromEntries(entries, name);
    if TextsOf(entries, name) != [] {
      forall t | t in TextsOf(entries, name)
        ensures SEPARATOR !in t
      {
        assert Entry(name, Text(t)) in entries;
      }
      SplitJoin(TextsOf(entries, name));
    }
  }

  // Which flags of a command are repeatable: two always, and those its spec declares.  The spec is that with
  // the longest path the command begins with.
  lemma RepeatableExact(specs: seq<Spec>, path: seq<string>, name: string)
    ensures match BestOf(Candidates(specs), path)
            case None => name in RepeatableFor(specs, path) <==> name == "label" || name == "skill"
            case Some(c) => c.spec < |specs| && (name in RepeatableFor(specs, path) <==>
                              name == "label" || name == "skill" || (specs[c.spec].repeatableFlags.Some? && name in specs[c.spec].repeatableFlags.value))
  {
    CandidateSpecs(specs);
    BestOfExact(Candidates(specs), path);
  }
}
