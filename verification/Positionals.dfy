/**
 Positional arguments and aliases of src/cli/args.ts: the command path of a parse is matched to a spec,
 replaced by the spec's own path, and the words left over become flags.
 */
module Positionals {
  import opened Options
  import opened Sequences
  import opened Args
  import opened ArgsRoundTrip

  datatype Normal = Normal(commandPath: seq<string>, flags: Flags, conflicts: seq<string>)

  // The words after `base` are no more than the spec's positionals.
  predicate Fits(spec: Spec, base: seq<string>, path: seq<string>) {
    (spec.positionalArgs != [] || spec.aliases.Some?) && base <= path && |path| - |base| <= |spec.positionalArgs|
  }

  function FirstBase(i: nat, spec: Spec, bases: seq<seq<string>>, path: seq<string>): Option<Candidate> {
    if bases == [] then None
    else if Fits(spec, bases[0], path) then Some(Candidate(i, bases[0]))
    else FirstBase(i, spec, bases[1..], path)
  }

  // The first spec, and its first path, that fits
  function Pick(specs: seq<Spec>, i: nat, path: seq<string>): Option<Candidate>
    requires i <= |specs|
    decreases |specs| - i
  {
    if i == |specs| then None
    else
      var here := FirstBase(i, specs[i], SpecPaths(specs[i]), path);
      if here.Some? then here else Pick(specs, i + 1, path)
  }

  // A positional fills its flag unless the flag was given.
  function Bind(flags: Flags, names: seq<string>, values: seq<string>): Flags
    requires |values| <= |names|
  {
    if values == [] then flags
    else
      var rest, k := Bind(flags, names, values[..|values| - 1]), |values| - 1;
      if names[k] in rest then rest else rest[names[k] := Text(values[k])]
  }

  function Conflicts(flags: Flags, names: seq<string>): seq<string> {
    if names == [] then []
    else Conflicts(flags, names[..|names| - 1]) + if names[|names| - 1] in flags then [names[|names| - 1]] else []
  }

  lemma {:induction false} PickFits(specs: seq<Spec>, i: nat, path: seq<string>)
    requires i <= |specs|
    ensures match Pick(specs, i, path)
            case None => forall j, b :: i <= j < |specs| && b in SpecPaths(specs[j]) ==> !Fits(specs[j], b, path)
            case Some(c) => i <= c.spec < |specs| && c.path in SpecPaths(specs[c.spec]) && Fits(specs[c.spec], c.path, path)
                            && forall j, b :: i <= j < c.spec && b in SpecPaths(specs[j]) ==> !Fits(specs[j], b, path)
    decreases |specs| - i
  {
    if i < |specs| {
      FirstBaseFits(i, specs[i], SpecPaths(specs[i]), path);
      PickFits(specs, i + 1, path);
    }
  }

  lemma {:induction false} FirstBaseFits(i: nat, spec: Spec, bases: seq<seq<string>>, path: seq<string>)
    ensures match FirstBase(i, spec, bases, path)
            case None => forall b :: b in bases ==> !Fits(spec, b, path)
            case Some(c) => c.spec == i && c.path in bases && Fits(spec, c.path, path)
  {
    if bases != [] {
      FirstBaseFits(i, spec, bases[1..], path);
      assert forall b :: b in bases <==> b == bases[0] || b in bases[1..];
    }
  }

  function Normalized(specs: seq<Spec>, path: seq<string>, flags: Flags): Normal {
    match Pick(specs, 0, path)
    case None => Normal(path, flags, [])
    case Some(c) =>
      PickFits(specs, 0, path);
      var names, values := specs[c.spec].positionalArgs, path[|c.path|..];
      Normal(specs[c.spec].path, Bind(flags, names, values), Conflicts(flags, names[..|values|]))
  }

  // The words after `base` are at most as many as the positionals of a spec that has positionals or aliases.
  ghost predicate Takes(specs: seq<Spec>, i: nat, base: seq<string>, path: seq<string>) {
    && i < |specs| && (base == specs[i].path || (specs[i].aliases.Some? && base in specs[i].aliases.value))
    && (specs[i].positionalArgs != [] || specs[i].aliases.Some?)
    && base <= path && |path| <= |base| + |specs[i].positionalArgs|
  }

  lemma {:induction false} BindExact(flags: Flags, names: seq<string>, values: seq<string>, n: string)
    requires |values| <= |names|
    ensures var bound := Bind(flags, names, values);
            && (n in bound <==> n in flags || n in names[..|values|])
            && (n in flags ==> bound[n] == flags[n])
            && (n !in flags && n in names[..|values|] ==> exists k :: 0 <= k < |values| && names[k] == n && n !in names[..k] && bound[n] == Text(values[k]))
    decreases |values|
  {
    if values != [] {
      var k := |values| - 1;
      BindExact(flags, names, values[..k], n);
      assert names[..|values|] == names[..k] + [names[k]];
      var rest := Bind(flags, names, values[..k]);
      BindExact(flags, names, values[..k], names[k]);
      if n !in flags && n in names[..k] {
        var j :| 0 <= j < k && names[j] == n && n !in names[..j] && rest[n] == Text(values[..k][j]);
        assert values[..k][j] == values[j];
      } else if n !in flags && n == names[k] {
        assert n !in names[..k] && Bind(flags, names, values)[n] == Text(values[k]);
      }
    }
  }

  // Which spec is matched and what becomes of the command: no spec takes it and nothing changes, or the first
  // spec that does gives its own path, keeps the flags that were given, and turns each word left over into
  // the flag of its place; what was given as well is reported.
  lemma NormalizedExact(specs: seq<Spec>, path: seq<string>, flags: Flags)
    ensures var n := Normalized(specs, path, flags);
            if forall i: nat, base :: !Takes(specs, i, base, path) then n == Normal(path, flags, [])
            else exists i: nat, base ::
                   && Takes(specs, i, base, path) && (forall j: nat, b :: j < i ==> !Takes(specs, j, b, path))
                   && n.commandPath == specs[i].path && Fills(n, flags, specs[i].positionalArgs, path[|base|..])
  {
    PickFits(specs, 0, path);
    forall i: nat, base
      ensures Takes(specs, i, base, path) <==> i < |specs| && base in SpecPaths(specs[i]) && Fits(specs[i], base, path)
    {
    }
    match Pick(specs, 0, path) {
      case None =>
      case Some(c) =>
        var names, values := specs[c.spec].positionalArgs, path[|c.path|..];
        assert Takes(specs, c.spec, c.path, path);
        FilledByBind(flags, names, values, Normalized(specs, path, flags));
    }
  }

  // The flags after the positionals `values` are bound to the first of `names`
  ghost predicate Fills(n: Normal, flags: Flags, names: seq<string>, values: seq<string>) {
    && |values| <= |names|
    && (forall f :: f in n.flags <==> f in flags || f in names[..|values|])
    && (forall f :: f in flags ==> f in n.flags && n.flags[f] == flags[f])
    && (forall k :: 0 <= k < |values| && names[k] !in flags && names[k] !in names[..k] ==> n.flags[names[k]] == Text(values[k]))
    && (forall f :: f in n.conflicts <==> f in flags && f in names[..|values|])
  }

  lemma {:induction false} ConflictsExact(flags: Flags, names: seq<string>, n: string)
    ensures n in Conflicts(flags, names) <==> n in flags && n in names
    decreases |names|
  {
    if names != [] {
      ConflictsExact(flags, names[..|names| - 1], n);
      assert names == names[..|names| - 1] + [names[|names| - 1]];
    }
  }

  lemma FilledByBind(flags: Flags, names: seq<string>, values: seq<string>, n: Normal)
    requires |values| <= |names| && n.flags == Bind(flags, names, values) && n.conflicts == Conflicts(flags, names[..|values|])
    ensures Fills(n, flags, names, values)
  {
    forall f
      ensures f in n.flags <==> f in flags || f in names[..|values|]
      ensures f in flags ==> n.flags[f] == flags[f]
      ensures f in n.conflicts <==> f in flags && f in names[..|values|]
    {
      BindExact(flags, names, values, f);
      ConflictsExact(flags, names[..|values|], f);
    }
    forall k | 0 <= k < |values| && names[k] !in flags && names[k] !in names[..k]
      ensures names[k] in n.flags && n.flags[names[k]] == Text(values[k])
    {
      assert names[k] == names[..|values|][k];
      BindExact(flags, names, values, names[k]);
      var j :| 0 <= j < |values| && names[j] == names[k] && names[k] !in names[..j] && n.flags[names[k]] == Text(values[j]);
    }
  }

  // The conflicts in order, and the flags with the positionals that were not given as flags
  method BindPositionals(given: Flags, names: seq<string>, values: seq<string>) returns (flags: Flags, conflicts: seq<string>)
    requires |values| <= |names|
    ensures flags == Bind(given, names, values) && conflicts == Conflicts(given, names[..|values|])
  {
    flags, conflicts := given, [];
    for k := 0 to |values|
      invariant conflicts == Conflicts(given, names[..k])
    {
      assert names[..k + 1][..k] == names[..k];
      if names[k] in flags {
        conflicts := conflicts + [names[k]];
      }
    }
    for k := 0 to |values|
      invariant flags == Bind(given, names, values[..k])
    {
      assert values[..k + 1][..k] == values[..k];
      if names[k] !in flags {
        flags := flags[names[k] := Text(values[k])];
      }
    }
    assert values[..|values|] == values;
  }

  method NormalizeCommandPositionals(specs: seq<Spec>, path: seq<string>, flags: Flags) returns (n: Normal)
    ensures n == Normalized(specs, path, flags)
  {
    for i := 0 to |specs|
      invariant Pick(specs, 0, path) == Pick(specs, i, path)
    {
      var spec := specs[i];
      if spec.positionalArgs == [] && spec.aliases.None? {
        assert FirstBase(i, spec, SpecPaths(spec), path).None? by { FirstBaseFits(i, spec, SpecPaths(spec), path); }
        continue;
      }
      var bases := SpecPaths(spec);
      for j := 0 to |bases|
        invariant FirstBase(i, spec, bases, path) == FirstBase(i, spec, bases[j..], path)
      {
        if Fits(spec, bases[j], path) {
          var bound, conflicts := BindPositionals(flags, spec.positionalArgs, path[|bases[j]|..]);
          return Normal(spec.path, bound, conflicts);
        }
        assert bases[j..][1..] == bases[j + 1..];
      }
    }
    return Normal(path, flags, []);
  }

  // ---------- positionals are flags ----------

  function AsEntries(names: seq<string>, values: seq<string>): seq<Entry>
    requires |values| <= |names|
  {
    seq(|values|, k requires 0 <= k < |values| => Entry(names[k], Text(values[k])))
  }

  lemma {:induction false} KeysOfFlagMap(entries: seq<Entry>, repeatable: set<string>, name: string)
    ensures name in FlagMap(entries, repeatable) <==> exists e :: e in entries && e.name == name
  {
    if entries != [] {
      var rest, e := entries[..|entries| - 1], entries[|entries| - 1];
      KeysOfFlagMap(rest, repeatable, name);
      assert entries == rest + [e];
    }
  }

  lemma AsEntriesMore(names: seq<string>, values: seq<string>)
    requires values != [] && |values| <= |names|
    ensures var k := |values| - 1;
            AsEntries(names, values) == AsEntries(names, values[..k]) + [Entry(names[k], Text(values[k]))]
  {
  }

  lemma NamesOfEntries(names: seq<string>, values: seq<string>)
    requires |values| <= |names|
    ensures forall e :: e in AsEntries(names, values) ==> e.name in names[..|values|]
  {
    forall e | e in AsEntries(names, values)
      ensures e.name in names[..|values|]
    {
      var j :| 0 <= j < |values| && e == AsEntries(names, values)[j];
      assert names[..|values|][j] == e.name;
    }
  }

  // Giving one more flag for the first time
  lemma GivenOnce(entries: seq<Entry>, e: Entry, repeatable: set<string>)
    requires forall x :: x in entries ==> x.name != e.name
    ensures e.name !in FlagMap(entries, repeatable)
    ensures FlagMap(entries + [e], repeatable) == FlagMap(entries, repeatable)[e.name := e.value]
  {
    KeysOfFlagMap(entries, repeatable, e.name);
    assert (entries + [e])[..|entries + [e]| - 1] == entries;
  }

  // Binding positionals that were not given as flags is the same as giving them as flags.
  lemma {:induction false} BindIsGiving(entries: seq<Entry>, repeatable: set<string>, names: seq<string>, values: seq<string>)
    requires |values| <= |names| && Distinct(names[..|values|])
    requires forall e :: e in entries ==> e.name !in names[..|values|]
    ensures Bind(FlagMap(entries, repeatable), names, values) == FlagMap(entries + AsEntries(names, values), repeatable)
    decreases |values|
  {
    if values == [] {
      assert entries + AsEntries(names, values) == entries;
    } else {
      var k := |values| - 1;
      var before, e := entries + AsEntries(names, values[..k]), Entry(names[k], Text(values[k]));
      assert names[..|values|] == names[..k] + [names[k]];
      BindIsGiving(entries, repeatable, names, values[..k]);
      AsEntriesMore(names, values);
      assert entries + AsEntries(names, values) == before + [e];
      NamesOfEntries(names, values[..k]);
      forall x | x in before
        ensures x.name != names[k]
      {
        if x.name == names[k] && x !in entries {
          DistinctLast(names, k);
        }
      }
      GivenOnce(before, e, repeatable);
    }
  }

  lemma DistinctLast(names: seq<string>, k: nat)
    requires k < |names| && Distinct(names[..k + 1])
    ensures names[k] !in names[..k]
  {
    forall j | 0 <= j < k
      ensures names[j] != names[k]
    {
      assert names[..k + 1][j] == names[j] && names[..k + 1][k] == names[k];
    }
  }

  lemma {:induction false} NoConflicts(flags: Flags, names: seq<string>)
    ensures Conflicts(flags, names) == [] <==> forall n :: n in names ==> n !in flags
  {
    if names != [] {
      NoConflicts(flags, names[..|names| - 1]);
      assert names == names[..|names| - 1] + [names[|names| - 1]];
    }
  }

  // Writing `base value ...` and writing `base --name=value ...` come to the same command and flags, and
  // neither conflicts, when both are matched to the same spec and no positional is also given as a flag.
  lemma PositionalsAsFlags(specs: seq<Spec>, c: Candidate, values: seq<string>, entries: seq<Entry>, booleans: set<string>, index: int)
    requires c.spec < |specs| && |values| <= |specs[c.spec].positionalArgs|
    requires Pick(specs, 0, c.path + values) == Some(c) && Pick(specs, 0, c.path) == Some(c)
    requires RepeatableFor(specs, c.path + values) == RepeatableFor(specs, c.path)
    requires var names := specs[c.spec].positionalArgs[..|values|];
             && Distinct(names) && (forall n :: n in names ==> '=' !in n)
             && forall e :: e in entries ==> e.name !in names
    requires Printable(c.path + values, entries)
    ensures var given := AsEntries(specs[c.spec].positionalArgs, values);
            var (path, flags) := Parsing(Print(c.path + values, entries), booleans, index, specs);
            var (path', flags') := Parsing(Print(c.path, entries + given), booleans, index, specs);
            && Normalized(specs, path, flags) == Normalized(specs, path', flags')
            && Normalized(specs, path, flags).conflicts == []
  {
    var names := specs[c.spec].positionalArgs;
    var given := AsEntries(names, values);
    var repeatable := RepeatableFor(specs, c.path);
    ReadsBack(c.path + values, entries, booleans, index);
    forall e | e in given
      ensures '=' !in e.name
    {
      var k :| 0 <= k < |given| && given[k] == e;
      assert names[..|values|][k] == e.name;
    }
    ReadsBack(c.path, entries + given, booleans, index);
    BindIsGiving(entries, repeatable, names, values);
    assert (c.path + values)[|c.path|..] == values && c.path[|c.path|..] == [];
    forall n | n in names[..|values|]
      ensures n !in FlagMap(entries, repeatable)
    {
      KeysOfFlagMap(entries, repeatable, n);
    }
    NoConflicts(FlagMap(entries, repeatable), names[..|values|]);
  }
}
