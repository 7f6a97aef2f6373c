/**
 The plain-Node entry guard of config/build-plugins/plain-node-entry-guard.ts: which chunks an entry
 reaches, and scanning all guarded entries with one shared memo of chunks known to be clean.
 */
module EntryGuard {
  import opened Options
  import opened Sequences

  // `id` is the identity of the chunk object, `name` its entry name (empty when it has none).
  datatype Chunk = Chunk(id: nat, fileName: string, name: string, isEntry: bool, imports: seq<string>, dynamicImports: seq<string>, code: string)

  type Bundle = map<string, Chunk>

  function Imports(c: Chunk): seq<string> { c.imports + c.dynamicImports }

  // ---------- reachability ----------

  // A chain of static and dynamic imports through present chunks, from the first file to the last
  ghost predicate Chain(b: Bundle, p: seq<string>) {
    p != [] && forall i :: 0 <= i < |p| - 1 ==> p[i] in b && (p[i + 1] in b[p[i]].imports || p[i + 1] in b[p[i]].dynamicImports)
  }

  ghost predicate Reaches(b: Bundle, from: string, to: string) {
    exists p :: Chain(b, p) && p[0] == from && p[|p| - 1] == to
  }

  // The worklist as a function: `order` is what was collected, `seen` what was popped
  function Collect(b: Bundle, stack: seq<string>, seen: set<string>, order: seq<string>): seq<string>
    decreases b.Keys - seen, |stack|
  {
    if stack == [] then order
    else
      var f, rest := stack[|stack| - 1], stack[..|stack| - 1];
      if f in seen then Collect(b, rest, seen, order)
      else if f !in b then Collect(b, rest, seen + {f}, order)
      else Collect(b, rest + Imports(b[f]), seen + {f}, order + [f])
  }

  // The present files the worklist collects from an entry file, in order
  function Reachable(b: Bundle, entryFile: string): seq<string> { Collect(b, [entryFile], {}, []) }

  // What the worklist knows: collected files are present, seen and reached, and every import of a
  // collected chunk was popped or waits.
  ghost predicate Exploring(b: Bundle, entry: string, stack: seq<string>, seen: set<string>, order: seq<string>) {
    && Distinct(order)
    && (forall f :: f in order <==> f in seen && f in b)
    && (forall f :: f in seen || f in stack ==> Reaches(b, entry, f))
    && (entry in seen || entry in stack)
    && (forall f, g :: f in order && g in Imports(b[f]) ==> g in seen || g in stack)
  }

  lemma ReachesItself(b: Bundle, f: string)
    ensures Reaches(b, f, f)
  {
    assert Chain(b, [f]);
  }

  lemma ReachesImport(b: Bundle, from: string, f: string, g: string)
    requires Reaches(b, from, f) && f in b && g in Imports(b[f])
    ensures Reaches(b, from, g)
  {
    var p :| Chain(b, p) && p[0] == from && p[|p| - 1] == f;
    var q := p + [g];
    assert Chain(b, q) && q[|q| - 1] == g;
  }

  // One turn of the worklist
  lemma ExploringStep(b: Bundle, entry: string, stack: seq<string>, seen: set<string>, order: seq<string>)
    requires Exploring(b, entry, stack, seen, order) && stack != []
    ensures var f, rest := stack[|stack| - 1], stack[..|stack| - 1];
            && (f in seen ==> Exploring(b, entry, rest, seen, order))
            && (f !in seen && f !in b ==> Exploring(b, entry, rest, seen + {f}, order))
            && (f !in seen && f in b ==> Exploring(b, entry, rest + Imports(b[f]), seen + {f}, order + [f]))
  {
    var f, rest := stack[|stack| - 1], stack[..|stack| - 1];
    assert forall g :: g in stack <==> g == f || g in rest;
    if f !in seen && f in b {
      forall g | g in Imports(b[f])
        ensures Reaches(b, entry, g)
      {
        ReachesImport(b, entry, f, g);
      }
    }
  }

  lemma {:induction false} CollectExplores(b: Bundle, entry: string, stack: seq<string>, seen: set<string>, order: seq<string>) returns (all: set<string>)
    requires Exploring(b, entry, stack, seen, order)
    ensures Exploring(b, entry, [], all, Collect(b, stack, seen, order))
    decreases b.Keys - seen, |stack|
  {
    if stack == [] {
      all := seen;
    } else {
      ExploringStep(b, entry, stack, seen, order);
      var f, rest := stack[|stack| - 1], stack[..|stack| - 1];
      if f in seen {
        all := CollectExplores(b, entry, rest, seen, order);
      } else if f !in b {
        assert b.Keys - (seen + {f}) == b.Keys - seen;
        all := CollectExplores(b, entry, rest, seen + {f}, order);
      } else {
        all := CollectExplores(b, entry, rest + Imports(b[f]), seen + {f}, order + [f]);
      }
    }
  }

  lemma {:induction false} ChainSeen(b: Bundle, entry: string, seen: set<string>, order: seq<string>, p: seq<string>)
    requires Exploring(b, entry, [], seen, order) && Chain(b, p) && p[0] == entry
    ensures p[|p| - 1] in seen
    decreases |p|
  {
    if |p| > 1 {
      var q := p[..|p| - 1];
      forall i | 0 <= i < |q| - 1
        ensures q[i] in b && (q[i + 1] in b[q[i]].imports || q[i + 1] in b[q[i]].dynamicImports)
      {
        assert p[i] in b && (p[i + 1] in b[p[i]].imports || p[i + 1] in b[p[i]].dynamicImports);
      }
      ChainSeen(b, entry, seen, order, q);
      var f, g := p[|p| - 2], p[|p| - 2 + 1];
      assert f in b && (g in b[f].imports || g in b[f].dynamicImports);
    }
  }

  // On any bundle, cyclic and with imports of absent chunks, the worklist collects without repetition
  // exactly the present files reached from the entry through present chunks.
  lemma ReachableExact(b: Bundle, entryFile: string)
    ensures Distinct(Reachable(b, entryFile))
    ensures forall f :: f in Reachable(b, entryFile) <==> f in b && Reaches(b, entryFile, f)
  {
    ReachesItself(b, entryFile);
    var all := CollectExplores(b, entryFile, [entryFile], {}, []);
    forall f | f in b && Reaches(b, entryFile, f)
      ensures f in all
    {
      var p :| Chain(b, p) && p[0] == entryFile && p[|p| - 1] == f;
      ChainSeen(b, entryFile, all, Reachable(b, entryFile), p);
    }
  }

  function ChunksOf(b: Bundle, files: seq<string>): seq<Chunk>
    requires forall f :: f in files ==> f in b
  {
    seq(|files|, i requires 0 <= i < |files| => b[files[i]])
  }

  method CollectReachableChunks(entry: Chunk, b: Bundle) returns (reachable: seq<Chunk>)
    ensures forall f :: f in Reachable(b, entry.fileName) ==> f in b
    ensures reachable == ChunksOf(b, Reachable(b, entry.fileName))
  {
    var seen: set<string> := {};
    reachable := [];
    var stack := [entry.fileName];
    ghost var order: seq<string> := [];
    while stack != []
      invariant forall f :: f in order ==> f in b
      invariant reachable == ChunksOf(b, order)
      invariant Collect(b, stack, seen, order) == Reachable(b, entry.fileName)
      decreases b.Keys - seen, |stack|
    {
      var fileName := stack[|stack| - 1];
      stack := stack[..|stack| - 1];
      if fileName in seen {
        continue;
      }
      assert fileName !in b ==> b.Keys - (seen + {fileName}) == b.Keys - seen;
      seen := seen + {fileName};
      if fileName !in b {
        continue;
      }
      var chunk := b[fileName];
      reachable := reachable + [chunk];
      order := order + [fileName];
      var imported := Imports(chunk);
      ghost var below := stack;
      for i := 0 to |imported|
        invariant stack == below + imported[..i]
      {
        stack := stack + [imported[i]];
      }
      assert stack == below + imported;
    }
    CollectKeeps(b, [entry.fileName], {}, []);
  }

  lemma {:induction false} CollectKeeps(b: Bundle, stack: seq<string>, seen: set<string>, order: seq<string>)
    requires forall f :: f in order ==> f in b
    ensures forall f :: f in Collect(b, stack, seen, order) ==> f in b
    decreases b.Keys - seen, |stack|
  {
    if stack != [] {
      var f, rest := stack[|stack| - 1], stack[..|stack| - 1];
      if f in seen {
        CollectKeeps(b, rest, seen, order);
      } else if f !in b {
        assert b.Keys - (seen + {f}) == b.Keys - seen;
        CollectKeeps(b, rest, seen + {f}, order);
      } else {
        CollectKeeps(b, rest + Imports(b[f]), seen + {f}, order + [f]);
      }
    }
  }

  // ---------- the memo ----------

  function FirstOffender(chunks: seq<Chunk>, electron: string -> bool): Option<Chunk> {
    if chunks == [] then None else if electron(chunks[0].code) then Some(chunks[0]) else FirstOffender(chunks[1..], electron)
  }

  // The first chunk requiring electron among those an entry reaches, without any memo
  ghost function OffenderFrom(b: Bundle, entry: Chunk, electron: string -> bool): Option<Chunk> {
    ReachableExact(b, entry.fileName);
    FirstOffender(ChunksOf(b, Reachable(b, entry.fileName)), electron)
  }

  // The code each chunk object had when it last tested clean.  The bundle may differ from call to call.
  class Memo {
    const electron: string -> bool
    var electronFreeChunkCode: map<nat, string>

    ghost predicate Valid()
      reads this
    {
      forall id :: id in electronFreeChunkCode ==> !electron(electronFreeChunkCode[id])
    }

    constructor (electron: string -> bool)
      ensures this.electron == electron && Valid() && electronFreeChunkCode == map[]
    {
      this.electron := electron;
      electronFreeChunkCode := map[];
    }

    // The memo never changes the answer.
    method AssertNoElectronRequire(entry: Chunk, b: Bundle) returns (offender: Option<Chunk>)
      requires Valid()
      modifies this
      ensures Valid() && offender == OffenderFrom(b, entry, electron)
      ensures forall id :: id in old(electronFreeChunkCode) ==> id in electronFreeChunkCode
    {
      var chunks := CollectReachableChunks(entry, b);
      for i := 0 to |chunks|
        invariant Valid() && FirstOffender(chunks, electron) == FirstOffender(chunks[i..], electron)
        invariant forall id :: id in old(electronFreeChunkCode) ==> id in electronFreeChunkCode
      {
        var chunk := chunks[i];
        var code := chunk.code;
        if chunk.id in electronFreeChunkCode && electronFreeChunkCode[chunk.id] == code {
          continue;
        }
        if electron(code) {
          return Some(chunk);
        }
        electronFreeChunkCode := electronFreeChunkCode[chunk.id := code];
      }
      return None;
    }
  }

  // ---------- the guard ----------

  datatype Runtime = PlainNode | WorkerThread

  datatype Verdict = Clean | Offends(entryName: string, chunk: Chunk, runtime: Runtime)

  // Later chunks of the same file name, or entries of the same name, win.
  function ByFileName(chunks: seq<Chunk>): Bundle {
    if chunks == [] then map[] else ByFileName(chunks[..|chunks| - 1])[chunks[|chunks| - 1].fileName := chunks[|chunks| - 1]]
  }

  function EntryByName(chunks: seq<Chunk>): Bundle {
    if chunks == [] then map[]
    else
      var m, c := EntryByName(chunks[..|chunks| - 1]), chunks[|chunks| - 1];
      if c.isEntry && c.name != "" then m[c.name := c] else m
  }

  // Nothing the named entry reaches requires electron; a name without an entry is passed over
  ghost predicate Guarded(b: Bundle, entries: Bundle, name: string, electron: string -> bool) {
    name in entries ==> forall f :: f in b && Reaches(b, entries[name].fileName, f) ==> !electron(b[f].code)
  }

  // The chunk is reached from the entry and requires electron
  ghost predicate Offending(b: Bundle, entries: Bundle, name: string, chunk: Chunk, electron: string -> bool) {
    name in entries && electron(chunk.code) && exists f :: f in b && b[f] == chunk && Reaches(b, entries[name].fileName, f)
  }

  lemma {:induction false} FirstOffenderExact(chunks: seq<Chunk>, electron: string -> bool)
    ensures FirstOffender(chunks, electron).None? <==> forall c :: c in chunks ==> !electron(c.code)
    ensures FirstOffender(chunks, electron).Some? ==> FirstOffender(chunks, electron).value in chunks && electron(FirstOffender(chunks, electron).value.code)
  {
    if chunks != [] {
      FirstOffenderExact(chunks[1..], electron);
    }
  }

  lemma OffenderExact(b: Bundle, entries: Bundle, name: string, electron: string -> bool)
    requires name in entries
    ensures var o := OffenderFrom(b, entries[name], electron);
            && (o.None? <==> Guarded(b, entries, name, electron))
            && (o.Some? ==> Offending(b, entries, name, o.value, electron))
  {
    var files := Reachable(b, entries[name].fileName);
    ReachableExact(b, entries[name].fileName);
    var chunks := ChunksOf(b, files);
    FirstOffenderExact(chunks, electron);
    forall f | f in files
      ensures b[f] in chunks
    {
      var i :| 0 <= i < |files| && files[i] == f;
      assert chunks[i] == b[f];
    }
    forall c | c in chunks
      ensures exists f :: f in files && b[f] == c
    {
      var i :| 0 <= i < |chunks| && chunks[i] == c;
      assert files[i] in files && b[files[i]] == c;
    }
  }

  // ---------- in terms of the chunks written ----------

  // The chunk written last under a file name, and the last entry chunk of a name
  ghost predicate Holds(chunks: seq<Chunk>, f: string, c: Chunk) {
    exists i :: 0 <= i < |chunks| && chunks[i] == c && c.fileName == f && forall j :: i < j < |chunks| ==> chunks[j].fileName != f
  }

  ghost predicate Enters(chunks: seq<Chunk>, name: string, c: Chunk) {
    exists i :: 0 <= i < |chunks| && chunks[i] == c && c.isEntry && c.name == name && name != ""
                && forall j :: i < j < |chunks| ==> !(chunks[j].isEntry && chunks[j].name == name)
  }

  lemma {:induction false} ByFileNameExact(chunks: seq<Chunk>, f: string, c: Chunk)
    ensures f in ByFileName(chunks) && ByFileName(chunks)[f] == c <==> Holds(chunks, f, c)
  {
    if chunks != [] {
      var last := |chunks| - 1;
      var rest := chunks[..last];
      ByFileNameExact(rest, f, c);
      if chunks[last].fileName == f {
        if Holds(chunks, f, c) {
          var i :| 0 <= i < |chunks| && chunks[i] == c && c.fileName == f && forall j :: i < j < |chunks| ==> chunks[j].fileName != f;
          assert i == last;
        }
        assert chunks[last] == c ==> Holds(chunks, f, c);
      } else {
        HoldsBefore(chunks, rest, f, c);
      }
    }
  }

  lemma HoldsBefore(chunks: seq<Chunk>, rest: seq<Chunk>, f: string, c: Chunk)
    requires chunks != [] && rest == chunks[..|chunks| - 1] && chunks[|chunks| - 1].fileName != f
    ensures Holds(chunks, f, c) <==> Holds(rest, f, c)
  {
    if Holds(chunks, f, c) {
      var i :| 0 <= i < |chunks| && chunks[i] == c && c.fileName == f && forall j :: i < j < |chunks| ==> chunks[j].fileName != f;
      assert rest[i] == c;
    }
    if Holds(rest, f, c) {
      var i :| 0 <= i < |rest| && rest[i] == c && c.fileName == f && forall j :: i < j < |rest| ==> rest[j].fileName != f;
      assert chunks[i] == c && forall j :: i < j < |chunks| ==> j == |chunks| - 1 || chunks[j] == rest[j];
    }
  }

  lemma {:induction false} EntryByNameExact(chunks: seq<Chunk>, name: string, c: Chunk)
    ensures name in EntryByName(chunks) && EntryByName(chunks)[name] == c <==> Enters(chunks, name, c)
  {
    if chunks != [] {
      var last := |chunks| - 1;
      var rest := chunks[..last];
      EntryByNameExact(rest, name, c);
      if chunks[last].isEntry && chunks[last].name == name && name != "" {
        if Enters(chunks, name, c) {
          var i :| 0 <= i < |chunks| && chunks[i] == c && c.isEntry && c.name == name
                   && forall j :: i < j < |chunks| ==> !(chunks[j].isEntry && chunks[j].name == name);
          assert i == last;
        }
        assert chunks[last] == c ==> Enters(chunks, name, c);
      } else {
        EntersBefore(chunks, rest, name, c);
      }
    }
  }

  lemma EntersBefore(chunks: seq<Chunk>, rest: seq<Chunk>, name: string, c: Chunk)
    requires chunks != [] && rest == chunks[..|chunks| - 1] && !(chunks[|chunks| - 1].isEntry && chunks[|chunks| - 1].name == name && name != "")
    ensures Enters(chunks, name, c) <==> Enters(rest, name, c)
  {
    if Enters(chunks, name, c) {
      var i :| 0 <= i < |chunks| && chunks[i] == c && c.isEntry && c.name == name
               && forall j :: i < j < |chunks| ==> !(chunks[j].isEntry && chunks[j].name == name);
      assert rest[i] == c;
    }
    if Enters(rest, name, c) {
      var i :| 0 <= i < |rest| && rest[i] == c && c.isEntry && c.name == name
               && forall j :: i < j < |rest| ==> !(rest[j].isEntry && rest[j].name == name);
      assert chunks[i] == c && forall j :: i < j < |chunks| ==> j == |chunks| - 1 || chunks[j] == rest[j];
    }
  }

  // A chain of static and dynamic imports, each from the chunk written under its file name
  ghost predicate ImportChain(chunks: seq<Chunk>, p: seq<string>) {
    p != [] && forall i :: 0 <= i < |p| - 1 ==> ImportsNext(chunks, p[i], p[i + 1])
  }

  ghost predicate ImportsNext(chunks: seq<Chunk>, f: string, g: string) {
    exists c :: Holds(chunks, f, c) && (g in c.imports || g in c.dynamicImports)
  }

  // No chunk that imports lead to from the named entry requires electron.
  ghost predicate Safe(chunks: seq<Chunk>, name: string, electron: string -> bool) {
    forall e, p, c :: Enters(chunks, name, e) && ImportChain(chunks, p) && p[0] == e.fileName && Holds(chunks, p[|p| - 1], c) ==> !electron(c.code)
  }

  lemma ImportsNextIff(chunks: seq<Chunk>, f: string, g: string)
    ensures var b := ByFileName(chunks); ImportsNext(chunks, f, g) <==> f in b && (g in b[f].imports || g in b[f].dynamicImports)
  {
    var b := ByFileName(chunks);
    if f in b {
      ByFileNameExact(chunks, f, b[f]);
    }
    if c :| Holds(chunks, f, c) && (g in c.imports || g in c.dynamicImports) {
      ByFileNameExact(chunks, f, c);
    }
  }

  lemma ImportChainIff(chunks: seq<Chunk>, p: seq<string>)
    ensures ImportChain(chunks, p) <==> Chain(ByFileName(chunks), p)
  {
    var b := ByFileName(chunks);
    forall i | 0 <= i < |p| - 1
      ensures ImportsNext(chunks, p[i], p[i + 1]) <==> p[i] in b && (p[i + 1] in b[p[i]].imports || p[i + 1] in b[p[i]].dynamicImports)
    {
      ImportsNextIff(chunks, p[i], p[i + 1]);
    }
    if Chain(b, p) {
      forall i | 0 <= i < |p| - 1
        ensures ImportsNext(chunks, p[i], p[i + 1])
      {
        assert p[i] in b && (p[i + 1] in b[p[i]].imports || p[i + 1] in b[p[i]].dynamicImports);
      }
    }
    if ImportChain(chunks, p) {
      forall i | 0 <= i < |p| - 1
        ensures p[i] in b && (p[i + 1] in b[p[i]].imports || p[i + 1] in b[p[i]].dynamicImports)
      {
        assert ImportsNext(chunks, p[i], p[i + 1]);
      }
    }
  }

  lemma SafeIff(chunks: seq<Chunk>, name: string, electron: string -> bool)
    ensures Safe(chunks, name, electron) <==> Guarded(ByFileName(chunks), EntryByName(chunks), name, electron)
  {
    var b, entries := ByFileName(chunks), EntryByName(chunks);
    if Guarded(b, entries, name, electron) {
      forall e, p, c | Enters(chunks, name, e) && ImportChain(chunks, p) && p[0] == e.fileName && Holds(chunks, p[|p| - 1], c)
        ensures !electron(c.code)
      {
        EntryByNameExact(chunks, name, e);
        ImportChainIff(chunks, p);
        ByFileNameExact(chunks, p[|p| - 1], c);
        assert Reaches(b, e.fileName, p[|p| - 1]);
      }
    }
    if Safe(chunks, name, electron) && name in entries {
      var e := entries[name];
      EntryByNameExact(chunks, name, e);
      forall f | f in b && Reaches(b, e.fileName, f)
        ensures !electron(b[f].code)
      {
        var p :| Chain(b, p) && p[0] == e.fileName && p[|p| - 1] == f;
        ImportChainIff(chunks, p);
        ByFileNameExact(chunks, f, b[f]);
      }
    }
  }

  ghost predicate AllSafe(chunks: seq<Chunk>, names: seq<string>, electron: string -> bool) { forall n :: n in names ==> Safe(chunks, n, electron) }

  ghost predicate AllGuarded(b: Bundle, entries: Bundle, names: seq<string>, electron: string -> bool) {
    forall n :: n in names ==> Guarded(b, entries, n, electron)
  }

  lemma AllSafeIff(chunks: seq<Chunk>, b: Bundle, entries: Bundle, names: seq<string>, electron: string -> bool)
    requires b == ByFileName(chunks) && entries == EntryByName(chunks)
    ensures AllSafe(chunks, names, electron) <==> AllGuarded(b, entries, names, electron)
  {
    forall n | n in names
      ensures Safe(chunks, n, electron) <==> Guarded(b, entries, n, electron)
    {
      SafeIff(chunks, n, electron);
    }
  }

  // What scanning a list of names must answer: the first offending name, in order
  ghost predicate Answers(v: Verdict, b: Bundle, entries: Bundle, names: seq<string>, runtime: Runtime, electron: string -> bool) {
    match v
    case Clean => AllGuarded(b, entries, names, electron)
    case Offends(name, chunk, r) =>
      r == runtime && Offending(b, entries, name, chunk, electron) && Some(chunk) == OffenderFrom(b, entries[name], electron)
      && exists i :: 0 <= i < |names| && names[i] == name && forall j :: 0 <= j < i ==> Guarded(b, entries, names[j], electron)
  }

  // The names before place i are guarded.
  ghost predicate GuardedBefore(b: Bundle, entries: Bundle, names: seq<string>, i: nat, electron: string -> bool)
    requires i <= |names|
  {
    forall j :: 0 <= j < i ==> Guarded(b, entries, names[j], electron)
  }

  lemma OffendsHere(b: Bundle, entries: Bundle, names: seq<string>, i: nat, chunk: Chunk, runtime: Runtime, electron: string -> bool)
    requires i < |names| && GuardedBefore(b, entries, names, i, electron)
    requires names[i] in entries && OffenderFrom(b, entries[names[i]], electron) == Some(chunk)
    ensures Answers(Offends(names[i], chunk, runtime), b, entries, names, runtime, electron)
  {
    OffenderExact(b, entries, names[i], electron);
  }

  lemma GuardedHere(b: Bundle, entries: Bundle, names: seq<string>, i: nat, electron: string -> bool)
    requires i < |names| && GuardedBefore(b, entries, names, i, electron)
    requires names[i] in entries ==> OffenderFrom(b, entries[names[i]], electron).None?
    ensures GuardedBefore(b, entries, names, i + 1, electron)
  {
    if names[i] in entries {
      OffenderExact(b, entries, names[i], electron);
    }
  }

  // An offending verdict names an entry of the list that is not guarded.
  lemma OffendsUnguarded(v: Verdict, b: Bundle, entries: Bundle, names: seq<string>, runtime: Runtime, electron: string -> bool)
    requires Answers(v, b, entries, names, runtime, electron)
    ensures v.Clean? <==> AllGuarded(b, entries, names, electron)
  {
    if v.Offends? {
      var f :| f in b && b[f] == v.chunk && Reaches(b, entries[v.entryName].fileName, f);
      assert !Guarded(b, entries, v.entryName, electron);
    }
  }

  method ScanEntries(names: seq<string>, runtime: Runtime, b: Bundle, entries: Bundle, memo: Memo) returns (v: Verdict)
    requires memo.Valid()
    modifies memo
    ensures memo.Valid() && Answers(v, b, entries, names, runtime, memo.electron)
    ensures v.Clean? <==> AllGuarded(b, entries, names, memo.electron)
  {
    for i := 0 to |names|
      invariant memo.Valid() && GuardedBefore(b, entries, names, i, memo.electron)
    {
      var name := names[i];
      if name in entries {
        var offender := memo.AssertNoElectronRequire(entries[name], b);
        if offender.Some? {
          v := Offends(name, offender.value, runtime);
          OffendsHere(b, entries, names, i, offender.value, runtime, memo.electron);
          OffendsUnguarded(v, b, entries, names, runtime, memo.electron);
          return;
        }
      }
      GuardedHere(b, entries, names, i, memo.electron);
    }
    return Clean;
  }

  // The two maps: chunks by file name, entry chunks by name
  method IndexChunks(chunks: seq<Chunk>) returns (b: Bundle, entries: Bundle)
    ensures b == ByFileName(chunks) && entries == EntryByName(chunks)
  {
    b, entries := map[], map[];
    for i := 0 to |chunks|
      invariant b == ByFileName(chunks[..i])
    {
      assert chunks[..i + 1][..i] == chunks[..i];
      b := b[chunks[i].fileName := chunks[i]];
    }
    for i := 0 to |chunks|
      invariant entries == EntryByName(chunks[..i])
    {
      assert chunks[..i + 1][..i] == chunks[..i];
      if chunks[i].isEntry && chunks[i].name != "" {
        entries := entries[chunks[i].name := chunks[i]];
      }
    }
    assert chunks[..|chunks|] == chunks;
  }

  // writeBundle passes exactly when no static or dynamic import leads from a guarded entry to a chunk that
  // requires electron, and otherwise names the first offending entry: plain-Node entries first, then worker
  // entries, in list order.
  method WriteBundle(chunks: seq<Chunk>, plainNames: seq<string>, workerNames: seq<string>, electron: string -> bool) returns (v: Verdict)
    ensures v.Clean? <==> AllSafe(chunks, plainNames, electron) && AllSafe(chunks, workerNames, electron)
    ensures Answers(v, ByFileName(chunks), EntryByName(chunks), plainNames, PlainNode, electron)
            || (AllSafe(chunks, plainNames, electron) && Answers(v, ByFileName(chunks), EntryByName(chunks), workerNames, WorkerThread, electron))
  {
    var b, entries := IndexChunks(chunks);
    var memo := new Memo(electron);
    v := ScanEntries(plainNames, PlainNode, b, entries, memo);
    AllSafeIff(chunks, b, entries, plainNames, electron);
    if v.Clean? {
      v := ScanEntries(workerNames, WorkerThread, b, entries, memo);
      AllSafeIff(chunks, b, entries, workerNames, electron);
    }
  }
}
