# Verified models of Orca's self-contained protocols and algorithms

Dafny models of ten parts of the repository that carry a protocol or an algorithm of their own, with
proofs about every run or every input. `dafny verify dfyconfig.toml` checks all of it.

| files | what they model |
|---|---|
| `KeyPair`, `KeyProtocol`, `KeyOutcomes` | the key file that any number of mock servers race to create, with a lock file and an atomic rename |
| `AccessibilityNode`, `AccessibilityTree`, `AccessibilityPaths`, `TabCompaction`, `TreeRenderer`, `RenderedTree`, `RenderedContent`, `RenderedLines`, `RenderedTabs` | the capped, eliding accessibility-tree renderer, its tab compactor and the lookup of elements by path |
| `BoundedSearch` | the bounded depth-first search over accessibility graphs |
| `OptionKeys`, `OptionKeyReading`, `OptionKeyCutting`, `OptionKeyRoundTrip`, `OptionKeySpelling`, `OptionKeyMisreadings` | the two hand-written scanners that read option keys out of a call's source text |
| `EntryGuard` | chunk reachability and the shared memo of the plain-Node entry guard |
| `AccountState`, `AccountSnapshots`, `AccountRpc` | redemption of reset credits, and the snapshots pushed to account subscribers |
| `TerminalStream` | terminal streams fenced by generation, with delayed replies |
| `Args`, `ArgsRoundTrip`, `CommandIndex`, `Positionals` | the command-line parser and the search for the command among the arguments |
| `CodexTokens`, `CodexClassification`, `CodexCommands` | the shell-word tokenizer and the Codex command classifier |
| `Benchmark` | checksum accounting and calibration of the live-session benchmark |
| `Options`, `Sequences`, `Strings` | shared vocabulary |

How the models are built: a step of a protocol or a turn of a loop is a function on values; the loops and
the objects with fields are methods and classes that are proved to follow it; the theorems are lemmas
about the functions, over all inputs or all runs. Some of the lemmas say again, in terms of the input and of
what can be seen from outside, what a specification function decides: `KeyOutcomes`, `RenderedContent`,
`RenderedLines`, `RenderedTabs`, `OptionKeySpelling`, `AccountSnapshots` and `CodexCommands`. Numbers are unbounded integers (or reals for clock
readings) unless a bound is part of the code.

## What turned out to be worth knowing

- **Key file.** A key file that could not be read is treated as having no key, also under the lock. One
  such read replaces a good key by another, so agreement holds over all runs exactly when a read under the
  lock never misses a usable key (`KeyProtocol.AgreementIffLockedReadsReliable`). Within one run a rename
  replaces a usable key exactly when its own process missed one under the lock
  (`KeyProtocol.ReplacedIffMissed`). Reads outside the lock may fail at any time.
- **Tab compaction and numbering.** Compaction shortens the list whose length numbers the next element, so
  two elements of one render can carry the same number; numbers are distinct in every tree exactly when tabs
  are not compacted (`RenderedTree.NumbersDistinctIffNotCompacting`). Paths stay distinct either way. A list of
  tabs counts as a tab itself, and so does an element of role `page` with a title that begins with the word
  `tab` (`RenderedTabs.TabLineIff`).
- **Graph search.** The depth cap counts the steps of the search's own way to a node, so on a graph a node
  near the root can be missed because a longer way came first (`BoundedSearch.NearNodeMissed`). A search
  that tested fewer nodes than either cap allows has tested everything that can be walked to.
- **Option keys.** The doc comments say that anything not an identifier is kept verbatim and that unreadable
  shapes are refused. On one object literal every entry is reported exactly when each head has code, which a
  quoted key has not (`OptionKeyMisreadings.EveryEntryReportedIff`). A braced argument that is not one object
  literal is refused exactly when some head of its cut is neither blank nor an identifier
  (`OptionKeyMisreadings.NotOneObjectRefusedIff`): `({a:1},{b:2,c:3})` is answered as readable with `a` and
  `c`. The scanners do what they promise on one object literal, which a caller can recognise with the
  argument scanner itself (`OptionKeyReading.SoleObjectIffWellNested`). An argument list that holds a comment
  and nothing else is no empty one but refused as no object (`OptionKeySpelling.NoObjectRead`).
- **Reset credits.** The error "already being redeemed" and the outcome `noCredit` cannot occur in any run
  (`AccountState.RedeemAnswers`).
- **Terminal streams.** Closing a socket leaves its interval running until the next tick
  (`TerminalStream.IntervalOutlivesClose`); it sends nothing.
- **Command search.** The search for the command and the parser disagree when two value flags stand in a row
  before a word of the command; the parser reads the command that was found exactly when that does not
  happen (`CommandIndex.CommandReadIff`).
- **Classifier.** Behind an `env` the first word that is no assignment, no dash word and no operand of `-u`
  or `--unset` is taken for the command, so every other option of `env` with an operand of its own hides the
  command: `env -C /tmp codex` is classified as `/tmp` (`CodexTokens.StripEnvIff`,
  `CodexClassification.EnvDirectoryHidesCodex`), and a second `env` is not looked through
  (`CodexClassification.EnvKeepsVerdictIff`). Only 32 words are read: a launch prefix and inserted options
  keep the verdict of a command of any length exactly when they leave room for the executable and do not push
  the words that show a one-shot subcommand beyond the limit (`CodexClassification.CommandVerdictKeptIff`).

## Model

| member | source | states |
|---|---|---|
| `KeyPair.Caller.AcquireKeyLock` | mobile/scripts/mock-server-key-pair.ts:53-89 | the retry loop and the late attempt end with the lock held, with a key read while the lock was busy, or with the error thrown, and the calls made so far are the automaton's |
| `KeyPair.Caller.RenameKeyFile` | mobile/scripts/mock-server-key-pair.ts:91-106 | up to five renames, repeated on transient failures only; afterwards the caller returns its key or throws |
| `KeyPair.Caller.PersistKeyPair` | mobile/scripts/mock-server-key-pair.ts:108-124 | writes the temporary file, renames it and always removes it; a failure of any call but the removal makes the caller throw |
| `KeyPair.Caller.ReleaseKeyLock` | mobile/scripts/mock-server-key-pair.ts:126-133 | makes the two calls the automaton makes from here, and whatever either answers the outcome stands; that they free the lock is `KeyOutcomes.LockReleased` |
| `KeyPair.Caller.LoadOrCreate` | mobile/scripts/mock-server-key-pair.ts:135-167 | against any answers of the system, the caller ends in the outcome of the automaton after at most 116 calls; without a key file it only calls the generator |
| `KeyProtocol.MutualExclusion` | mobile/scripts/mock-server-key-pair.ts:147-165 | in every run, with crashes and failing calls, at most one process is between creating the lock and releasing it |
| `KeyProtocol.Agreement` | mobile/scripts/mock-server-key-pair.ts:135-167 | between any two moments of any run a usable key file is never replaced, and every process that returned a pair returned the one in the file |
| `KeyProtocol.AgreementIffLockedReadsReliable` | mobile/scripts/mock-server-key-pair.ts:151-162 | agreement holds over all runs if and only if a read under the lock never misses a usable key |
| `KeyProtocol.MaskedReadReplacesKey` | mobile/scripts/mock-server-key-pair.ts:34-51 | the run in which one failed read under the lock overwrites a key with another |
| `KeyProtocol.ReplacedIffMissed` | mobile/scripts/mock-server-key-pair.ts:91-124 | at any moment of any run a usable key is replaced by a rename and nothing else, and a rename finds a usable key in place if and only if its own process missed one under the lock |
| `KeyProtocol.WaitFree` | mobile/scripts/mock-server-key-pair.ts:53-89 | whatever others do, a process ends within 116 calls, and reports a busy lock only after 51 creates that found it and 53 reads that found no key |
| `KeyProtocol.NeverBlocked` | mobile/scripts/mock-server-key-pair.ts:135-167 | a process that has not ended can always take its next step |
| `KeyOutcomes.LockedIff` | mobile/scripts/mock-server-key-pair.ts:126-133 | in every run the lock file is there if and only if a process is between creating and removing it, or one crashed there, or one failed to remove it; said of the events and answers of the run |
| `KeyOutcomes.LockReleased` | mobile/scripts/mock-server-key-pair.ts:126-133 | once every process has ended, none by crashing with the lock and none failing to remove it, the lock is free, whatever else failed |
| `KeyOutcomes.Outcomes` | mobile/scripts/mock-server-key-pair.ts:53-167 | from the calls a process made and their answers: it throws exactly when a call failed for good or five renames failed for the moment; with the lock its last calls close and remove the lock file and, before that, any temporary file; the key it returns was read outside the lock at once, or read under the lock, or minted, written, restricted and renamed |
| `KeyOutcomes.PublishedRestricted` | mobile/scripts/mock-server-key-pair.ts:108-124 | no key is renamed into place before its file was opened, filled and restricted, and never more than five times |
| `KeyOutcomes.AloneReturns` | mobile/scripts/mock-server-key-pair.ts:135-167 | a process alone with a free lock and no failing call never throws and returns the key that is in the file |
| `AccessibilityNode.SnippetCollector.Collect` | native/computer-use-linux/runtime.py:358-373 | the recursive collector, which stops once it holds `limit` texts, holds what all label texts of the subtree would leave it with |
| `AccessibilityNode.TextSnippets` | native/computer-use-linux/runtime.py:354-376 | the result is the first distinct label texts of the preorder, each cut to 80 characters; stopping early changes nothing |
| `AccessibilityNode.FreshConcat` | native/computer-use-linux/runtime.py:358-373 | dropping repeated texts can be done part by part, remembering the texts of the first part |
| `TreeRenderer.Renderer.Walk` | native/computer-use-linux/runtime.py:402-442 | the walk that appends to the record and line lists leaves what the recursive specification says, caps, elision and compaction included |
| `TreeRenderer.Renderer.DeleteInactive` | native/computer-use-linux/runtime.py:465-475 | deleting inactive tab lines backwards leaves the lines that are not inactive tabs, and the numbers and count of those that were |
| `TreeRenderer.Renderer.CompactRenderedBrowserTabs` | native/computer-use-linux/runtime.py:448-479 | in place, the lines and records become those of the filter, or stay as they are below ten tabs, without an active one, or without an inactive one |
| `TreeRenderer.RenderAccessibilityTree` | native/computer-use-linux/runtime.py:349-445 | the render of a root is the recursive specification from empty lists; which elements it lists and what their lines hold are `RenderedContent.ListedIff` and `RenderedLines.LineHolds` |
| `TreeRenderer.DeletionStep` | native/computer-use-linux/runtime.py:467-474 | going back from one tab to the one before keeps all lines between them and drops or keeps the tab |
| `TreeRenderer.WalkedPlain` | native/computer-use-linux/runtime.py:402-440 | without compaction the capped, eliding walk is a fold over the visits of the uncapped preorder |
| `TreeRenderer.WalkedTracked` | native/computer-use-linux/runtime.py:402-442 | with or without compaction, a walk keeps paths distinct, adds records of its own visits only and never touches earlier lines |
| `AccessibilityTree.RefusedSubtree` | native/computer-use-linux/runtime.py:403-407 | once a visit is refused, everything below it would only set `truncated` again |
| `AccessibilityTree.ShowAllClosed` | native/computer-use-linux/runtime.py:402-440 | folding over visits shows exactly the first ones that fit, numbered in order |
| `TabCompaction.TabPositionsExact` | native/computer-use-linux/runtime.py:449-453 | the tab positions are exactly the direct tab lines from the start line on, in ascending order |
| `TabCompaction.KeptLinesExact` | native/computer-use-linux/runtime.py:467-474 | a line survives if and only if it is not an inactive tab |
| `TabCompaction.KeptRecordsExact` | native/computer-use-linux/runtime.py:478 | a record survives if and only if its number was not omitted |
| `TabCompaction.ActiveStaysActive` | native/computer-use-linux/runtime.py:492-499 | an active tab is still active after compaction, even when numbers repeat |
| `TabCompaction.CompactingIsIdempotent` | native/computer-use-linux/runtime.py:448-479 | compacting twice is compacting once, for any records and lines |
| `RenderedTree.RenderIsPreorderPrefix` | native/computer-use-linux/runtime.py:349-445 | without compaction the render is the first 1200 visits of the uncapped preorder that are shallow enough and not elided, numbered 0, 1, 2, ...; `truncated` exactly when something was refused |
| `RenderedTree.NothingDropped` | native/computer-use-linux/runtime.py:403-407 | when `truncated` is not set, every visited node that is not elided has its line |
| `RenderedTree.IndentCountsAncestors` | native/computer-use-linux/runtime.py:422-440 | a line is indented by the number of listed elements it lies inside |
| `RenderedTree.PathRoundTrip` | native/computer-use-linux/runtime.py:754-760 | every listed element, elision and compaction notwithstanding, resolves by its path to the node it was made from, passes the signature check, and shares its path with no other |
| `RenderedTree.CompactionRepeatsNumbers` | native/computer-use-linux/runtime.py:408-478 | a tree whose compacted render numbers two elements alike |
| `RenderedTree.NumbersDistinctIffNotCompacting` | native/computer-use-linux/runtime.py:408-478 | numbers are distinct in every render if and only if tabs are not compacted |
| `RenderedContent.LabelTextsTold` | native/computer-use-linux/runtime.py:354-376 | the label texts of a subtree are those of the names and values of all labels down to a level, each from its place: parents before children, children in order, names before values |
| `RenderedContent.SummaryIff` | native/computer-use-linux/runtime.py:378-417 | a panel is summarised if and only if it is generic without name and value, everything below it within four levels is plain and without actions worth naming, and it has two distinct label texts |
| `RenderedContent.OpensIff` | native/computer-use-linux/runtime.py:264-279 | the children of an element are rendered if and only if it is neither summarised nor a compact element with a title or value |
| `RenderedContent.ElidedIff` | native/computer-use-linux/runtime.py:397-421 | an element is left out if and only if it is generic, without name, id, value, action worth naming and summary, and has at most one present child |
| `RenderedContent.ListedOnly` | native/computer-use-linux/runtime.py:402-442 | with or without compaction, every listed element is one to be listed, with its own attributes: nothing below a summarised panel or a titled compact element, and no such wrapper |
| `RenderedContent.NothingBelow` | native/computer-use-linux/runtime.py:435-440 | with or without compaction, no listed path extends that of a summarised panel or of a titled compact element |
| `RenderedContent.ListedIff` | native/computer-use-linux/runtime.py:402-440 | when nothing is truncated the listed paths are exactly those of the elements to be listed |
| `RenderedContent.TruncatedIff` | native/computer-use-linux/runtime.py:403-407 | `truncated` is set if and only if a visit is more than 64 levels deep or comes when 1200 elements are listed |
| `RenderedLines.LineHolds` | native/computer-use-linux/runtime.py:421-434 | the line of an element begins with its role and title and holds its name, its value, each action worth naming, the first eight distinct label texts of a summarised panel and the first six of a row; without any of these it is role and title alone |
| `RenderedTabs.TabLineIff` | native/computer-use-linux/runtime.py:482-489 | a line is taken for a tab of its depth if and only if the role of its element is that of a tab, a tab item or a list of tabs, or it is a page with a title that begins with the word `tab` |
| `RenderedTabs.ActiveLineIff` | native/computer-use-linux/runtime.py:492-499 | a line is active if and only if its element is selected or has the value 1, or the line says so |
| `RenderedTabs.CompactedExact` | native/computer-use-linux/runtime.py:448-479 | the lines change if and only if ten or more of them are tabs of this depth and some but not all are inactive; then exactly the inactive ones go, with the records of their numbers, and a line with their count stands before the first tab |
| `AccessibilityPaths.FindByPath` | native/computer-use-linux/runtime.py:731-737 | follows the indexes down the tree, or finds nothing at the first missing child |
| `AccessibilityPaths.FindElement` | native/computer-use-linux/runtime.py:754-771 | finds the node at the saved path exactly when a record was saved, the node is there, and its role, name, id and actions are those of the record |
| `AccessibilityPaths.ResolveConcat` | native/computer-use-linux/runtime.py:731-737 | resolving a longer path is resolving its beginning and then the rest |
| `AccessibilityPaths.VisitsWithin` | native/computer-use-linux/runtime.py:402-440 | every visit carries a path below the walk's own that resolves to its node |
| `AccessibilityPaths.VisitsPreorder` | native/computer-use-linux/runtime.py:402-440 | no visit repeats a path, and none comes after something below it |
| `AccessibilityPaths.DepthCountsAncestors` | native/computer-use-linux/runtime.py:418-440 | the depth of a visit counts the shown visits above it |
| `BoundedSearch.FirstDescendant` | native/computer-use-linux/runtime.py:590-610 | on any graph no node is tested twice, at most `max_nodes` are, and each is a child of one tested before it, one step deeper within the depth cap; what is found matches and can be walked to; finding nothing below the node cap leaves out no child of a node above the depth cap, and with no more nodes than the depth cap nothing that can be walked to; on a tree it is the first match in the depth-limited preorder |
| `BoundedSearch.PreorderPushed` | native/computer-use-linux/runtime.py:607-609 | popping children that were pushed in reverse searches them in order |
| `BoundedSearch.UncappedSearchIsExhaustive` | native/computer-use-linux/runtime.py:594-610 | a search that found nothing in fewer nodes than the node cap and no more than the depth cap has tested every node that can be walked to, and none matches |
| `BoundedSearch.WithinCapTestedIff` | native/computer-use-linux/runtime.py:594-610 | a search that found nothing below the node cap has tested every node within the depth cap of the root if and only if each node it met at the cap, although a shorter walk leads there, has tested children only |
| `BoundedSearch.NearNodeMissed` | native/computer-use-linux/runtime.py:604-609 | a graph on which a node two steps from the root is not tested although the depth cap is two |
| `BoundedSearch.SearchInTree` | native/computer-use-linux/runtime.py:590-610 | on a tree what is found is the first match among the first `max_nodes` nodes of the depth-limited preorder |
| `OptionKeys.BalancedArguments` | config/scripts/call-site-option-keys.ts:49-102 | the argument scanner returns the text up to the bracket that closes the opening one, or refuses |
| `OptionKeys.ObjectLiteralKeys` | config/scripts/call-site-option-keys.ts:105-179 | the key scanner's loop follows its turn-by-turn specification |
| `OptionKeys.ReadCallOptionKeys` | config/scripts/call-site-option-keys.ts:186-204 | the five ways a call is answered, in the order they are tried |
| `OptionKeyReading.SoleObjectIffWellNested` | config/scripts/call-site-option-keys.ts:49-102 | an argument is one object literal by the argument scanner if and only if the key scanner stays at or above depth zero and ends in code at depth zero |
| `OptionKeyReading.Lockstep` | config/scripts/call-site-option-keys.ts:49-179 | on a sole object literal both scanners stand at the same character in the same state at every turn, the argument scanner exactly two brackets deeper |
| `OptionKeyReading.ClosesAtFirstReturn` | config/scripts/call-site-option-keys.ts:62-72 | the argument list ends where the depth first returns to zero |
| `OptionKeyReading.CloseSkips` | config/scripts/call-site-option-keys.ts:49-102 | well nested text is passed over without a change of depth, whatever comes before and after it |
| `OptionKeyCutting.KeysOfBody` | config/scripts/call-site-option-keys.ts:105-179 | every text between two braces, balanced or not, has a cut where the key scanner's own depth is zero, and its keys are the trimmed code texts of the heads of the cut; on well nested text that is every head |
| `OptionKeyCutting.KeysOfCut` | config/scripts/call-site-option-keys.ts:105-179 | whatever the cut, the keys read are those of its heads, a last head left open not counted |
| `OptionKeyCutting.SegmentsJoin` | config/scripts/call-site-option-keys.ts:105-179 | two texts the scanner passes over at depth zero can be put together, and their code texts join |
| `OptionKeyRoundTrip.KeysOfPrint` | config/scripts/call-site-option-keys.ts:105-179 | from printed entries the trimmed code text of each head is read, in order, empty ones left out |
| `OptionKeyRoundTrip.PrintWellNested` | config/scripts/call-site-option-keys.ts:105-179 | printed entries are well nested, so their call is a sole object literal |
| `OptionKeyRoundTrip.KeysOfSoleObject` | config/scripts/call-site-option-keys.ts:105-179 | on every sole object literal the keys read are the trimmed code texts in front of the top-level colons and commas |
| `OptionKeyRoundTrip.ReadPrintedCall` | config/scripts/call-site-option-keys.ts:186-204 | a printed call anywhere in a text is answered with its keys, or with the first one that is no identifier |
| `OptionKeyRoundTrip.RoundTrip` | config/scripts/call-site-option-keys.ts:186-204 | identifier keys printed with anything well nested as a value and anything without code around them are read back exactly, in order; what may stand there in terms of text is `OptionKeySpelling.RoundTripSpelled` |
| `OptionKeyRoundTrip.ReadableIff` | config/scripts/call-site-option-keys.ts:181-203 | a call is readable if and only if every entry's head is blank or an identifier: spreads and computed keys are reported |
| `OptionKeySpelling.SpellingSound` | config/scripts/call-site-option-keys.ts:62-92 | text made of plain characters, string literals of all three quotes with any escapes, comments of both kinds and brackets around such text, in any nesting, is well nested and its code is what stands outside strings and comments |
| `OptionKeySpelling.SpellingFree` | config/scripts/call-site-option-keys.ts:144-160 | no comma or colon inside a string, a comment or brackets separates anything |
| `OptionKeySpelling.EscapedBody` | config/scripts/call-site-option-keys.ts:84-92 | any text whatever is the body of a literal once quotes, backslashes and dollar signs are escaped |
| `OptionKeySpelling.RoundTripSpelled` | config/scripts/call-site-option-keys.ts:186-204 | such text as values, with comments and white space around the keys: the call is read as exactly these keys, in order |
| `OptionKeySpelling.EscapedQuoteRead` | config/scripts/call-site-option-keys.ts:84-92 | the call `({a:'\'',b:1})` is read as `a` and `b` |
| `OptionKeySpelling.SubstitutionRefused` | config/scripts/call-site-option-keys.ts:88-92 | an argument list with a template substitution is refused |
| `OptionKeySpelling.NoObjectRead` | config/scripts/call-site-option-keys.ts:186-194 | white space alone is no options, and anything else that does not begin and end in braces is no object |
| `OptionKeyMisreadings.BracedAnswer` | config/scripts/call-site-option-keys.ts:194-203 | every braced argument is answered from its cut, and as readable if and only if each head is blank or an identifier |
| `OptionKeyMisreadings.NotOneObjectRefusedIff` | config/scripts/call-site-option-keys.ts:181-203 | a braced argument that is not one object literal is refused if and only if some head of its cut is neither blank nor an identifier |
| `OptionKeyMisreadings.TwoObjectsAnswer` | config/scripts/call-site-option-keys.ts:181-203 | two objects with anything plain between them are answered as readable if and only if the first ends in an entry with a value and all other heads but the first of the second object are blank or identifiers; that first is lost |
| `OptionKeyMisreadings.TwoObjectsRead` | config/scripts/call-site-option-keys.ts:181-203 | the call `({a:1},{b:2,c:3})` is answered as readable with `a` and `c` |
| `OptionKeyMisreadings.EveryEntryReportedIff` | config/scripts/call-site-option-keys.ts:121-127 | on one object literal there are as many keys as heads with code, so every entry is reported if and only if each head has some |
| `OptionKeyMisreadings.QuotedKeyDropped` | config/scripts/call-site-option-keys.ts:121-127 | a key in quotes is read as absent |
| `OptionKeyMisreadings.BraceInComment` | config/scripts/call-site-option-keys.ts:194-203 | a call whose last brace stands in a comment is answered as readable without keys |
| `EntryGuard.ReachableExact` | config/build-plugins/plain-node-entry-guard.ts:97-120 | on any bundle, cyclic or with absent imports, the worklist collects without repetition exactly the present chunks that a chain of static and dynamic imports leads to through present chunks |
| `EntryGuard.ByFileNameExact` | config/build-plugins/plain-node-entry-guard.ts:274 | the chunk held under a file name is the last one written with it |
| `EntryGuard.EntryByNameExact` | config/build-plugins/plain-node-entry-guard.ts:275-280 | the entry held under a name is the last entry chunk with that name |
| `EntryGuard.SafeIff` | config/build-plugins/plain-node-entry-guard.ts:282-307 | no chain of static and dynamic imports through the chunks written leads from a name's entry to a chunk requiring electron, if and only if the name is guarded in the two maps |
| `EntryGuard.CollectReachableChunks` | config/build-plugins/plain-node-entry-guard.ts:97-120 | the loop collects the chunks of that worklist in its order |
| `EntryGuard.Memo.AssertNoElectronRequire` | config/build-plugins/plain-node-entry-guard.ts:122-144 | with any memo of codes that tested clean, from this bundle or another, the first offending chunk is the one found without a memo |
| `EntryGuard.OffenderExact` | config/build-plugins/plain-node-entry-guard.ts:122-144 | an offender is reported if and only if the entry reaches a chunk requiring electron |
| `EntryGuard.ScanEntries` | config/build-plugins/plain-node-entry-guard.ts:282-307 | the first guarded entry in list order that offends is named, with its first offending chunk |
| `EntryGuard.WriteBundle` | config/build-plugins/plain-node-entry-guard.ts:274-307 | the guard passes if and only if no static or dynamic imports lead from a guarded entry to a chunk requiring electron, said of the chunks written; plain-Node entries are reported before worker entries |
| `AccountState.Accounts.ConsumeResetCredit` | mobile/scripts/mock-server-account-state.ts:139-193 | new state and answer of a redemption, every error before any change; what of it shows is `AccountSnapshots.RedeemShows` |
| `AccountState.Accounts.SelectClaude` | mobile/scripts/mock-server-account-state.ts:67-76 | selects a known account or none; an unknown one throws and changes nothing |
| `AccountState.Accounts.SelectCodex` | mobile/scripts/mock-server-account-state.ts:78-90 | the same for Codex accounts |
| `AccountState.Accounts.constructor` | mobile/scripts/mock-server-account-state.ts:44-63 | the state of the fixture |
| `AccountState.OwnedOfferIsGone` | mobile/scripts/mock-server-account-state.ts:175-188 | an offer that has an owner has no credit left and is no longer the current scope |
| `AccountState.RedeemAnswers` | mobile/scripts/mock-server-account-state.ts:150-192 | a redemption succeeds if and only if its key is recorded with this scope, or is new and the scope is the current one; it never answers that an offer is taken or that there is no credit |
| `AccountState.RedeemSpends` | mobile/scripts/mock-server-account-state.ts:175-192 | a fresh success spends the one credit of the active account and records it; anything else changes nothing |
| `AccountState.SoundRun` | mobile/scripts/mock-server-account-state.ts:139-193 | the invariant over every run of selections and redemptions |
| `AccountState.CreditsConserved` | mobile/scripts/mock-server-account-state.ts:184-191 | after any run each account's credits and recorded resets add up to one, and all credits and operations to two |
| `AccountState.KeysAndOffersInverse` | mobile/scripts/mock-server-account-state.ts:175-186 | recorded keys and owned offers are each other's inverse after any run |
| `AccountState.Replay` | mobile/scripts/mock-server-account-state.ts:157-167 | a key and scope that were answered are answered the same and change nothing, however many steps later |
| `AccountState.OfferRedeemedOnce` | mobile/scripts/mock-server-account-state.ts:175-182 | once redeemed, an offer is never redeemed under another key |
| `AccountSnapshots.SnapshotExact` | mobile/scripts/mock-server-account-state.ts:92-128 | after any run the snapshot is given by the start time, the two selections and which accounts were redeemed, value by value |
| `AccountSnapshots.RedeemShows` | mobile/scripts/mock-server-account-state.ts:175-192 | a fresh success takes the credit and its expiry from the active account's limits, sets its session use from 100 to 0 and dates them later, and nothing else of the snapshot changes; any other answer changes nothing |
| `AccountSnapshots.SelectShows` | mobile/scripts/mock-server-account-state.ts:67-90 | a selection shows at once: the snapshot names the chosen account with its own limits and lists the others with theirs; an unknown account changes nothing |
| `AccountSnapshots.UuidIff` | mobile/scripts/mock-server-account-state.ts:13 | an idempotency key is accepted if and only if it is five groups of 8, 4, 4, 4 and 12 hexadecimal digits with a version from 1 to 8 and a variant of 8, 9, a or b |
| `AccountSnapshots.ScopeExact` | mobile/scripts/mock-server-account-state.ts:130-137 | after any run the scope on offer is that of the active account, unless it was redeemed, none is active, or the clock reading is no safe integer |
| `AccountSnapshots.AnswerExact` | mobile/scripts/mock-server-account-state.ts:139-193 | the answer of a redemption after any run, from its key, the scope it presents, the scope on offer and what was recorded |
| `AccountRpc.AccountServer.NotifySubscribers` | mobile/scripts/mock-server-account-rpc.ts:15-19 | every entry of the subscriber map is pushed the present snapshot, in order |
| `AccountRpc.AccountServer.Handle` | mobile/scripts/mock-server-account-rpc.ts:21-90 | new account state, subscribers and sent messages of every request, errors included |
| `AccountRpc.ServedConsistent` | mobile/scripts/mock-server-account-rpc.ts:21-90 | any request, also one that throws or is refused, leaves every subscriber's last view equal to the present state |
| `AccountRpc.ViewsAreCurrent` | mobile/scripts/mock-server-account-rpc.ts:21-90 | so it is after any requests on any connections |
| `AccountRpc.Answered` | mobile/scripts/mock-server-account-rpc.ts:21-90 | every request is answered first and once, on its connection and under its id: rejected only for an unknown account or an error of the redemption and then without effect, otherwise with the state as it now is; a change is followed by one push to each subscriber in order, and no other request changes the accounts |
| `AccountRpc.WithoutEntryExact` | mobile/scripts/mock-server-account-rpc.ts:71-76 | unsubscribing under the id a subscription was told removes exactly that subscription |
| `AccountRpc.UnsubscribeSilences` | mobile/scripts/mock-server-account-rpc.ts:57-76 | an unsubscribed subscription is pushed nothing until its id subscribes again |
| `TerminalStream.TerminalStreams.OnSubscribe` | mobile/scripts/mock-server-terminal-stream.ts:70-114 | ends the pane's earlier stream, registers a new one, answers its scrollback and arms its interval |
| `TerminalStream.TerminalStreams.OnTick` | mobile/scripts/mock-server-terminal-stream.ts:96-112 | stops the interval of a stream that is no longer current or is played out, and answers the next chunk otherwise |
| `TerminalStream.TerminalStreams.OnUnsubscribe` | mobile/scripts/mock-server-terminal-stream.ts:124-127 | ends the pane's stream |
| `TerminalStream.TerminalStreams.Respond` | mobile/scripts/mock-server-rpc-handlers.ts:112-124 | a reply waits when there is a delay and is otherwise sent at once if its stream is current |
| `TerminalStream.TerminalStreams.OnDue` | mobile/scripts/mock-server-rpc-handlers.ts:113-117 | a waiting reply that comes due is sent only if its stream is current then |
| `TerminalStream.SoundRun` | mobile/scripts/mock-server-terminal-stream.ts:14-44 | the invariant over all orders of requests, ticks, due replies and closes |
| `TerminalStream.FramesInOrder` | mobile/scripts/mock-server-terminal-stream.ts:84-112 | what is sent of a stream is a duplicate-free beginning of scrollback and chunks, and all of it once a current stream has played out with nothing waiting |
| `TerminalStream.SubscribePlays` | mobile/scripts/mock-server-terminal-stream.ts:70-95 | a new subscription on an open socket becomes current, makes its scrollback and arms its interval |
| `TerminalStream.TickPlays` | mobile/scripts/mock-server-terminal-stream.ts:96-112 | a tick of a current stream makes the next of the five chunks, or stops the interval once all are made |
| `TerminalStream.DueSends` | mobile/scripts/mock-server-rpc-handlers.ts:113-117 | the reply that has waited longest is sent when it comes due if its stream is still current, and dropped otherwise |
| `TerminalStream.PlaysOut` | mobile/scripts/mock-server-terminal-stream.ts:96-112 | left alone, a current stream makes scrollback and all five chunks in order and then stops |
| `TerminalStream.OneIntervalPerPane` | mobile/scripts/mock-server-terminal-stream.ts:23-44 | a running interval belongs to the registered stream of its pane, at most one runs per pane, and it is current exactly while its socket is open |
| `TerminalStream.IntervalOutlivesClose` | mobile/scripts/mock-server-terminal-stream.ts:96-100 | closing a socket does not stop the interval; its next tick does, and sends nothing |
| `TerminalStream.SentWhileCurrent` | mobile/scripts/mock-server-rpc-handlers.ts:113-117 | an event sends at most one frame, of a stream that is current |
| `TerminalStream.CurrencyNeverRegained` | mobile/scripts/mock-server-terminal-stream.ts:35-37 | a stream that lost currency never regains it and is sent nothing more |
| `TerminalStream.Superseded` | mobile/scripts/mock-server-terminal-stream.ts:14-33 | subscribing a pane again, unsubscribing it or closing its socket ends its earlier stream for good |
| `Args.ParseArgs` | src/cli/args.ts:61-120 | the loop over the tokens, the spec of the path and the fold into the flag map give what their specifications say |
| `Args.ReadTokens` | src/cli/args.ts:66-105 | the loop reads path words and flag entries as the recursive reading of the tokens |
| `Args.SetFlagValue` | src/cli/args.ts:24-39 | no other flag changes, and this one afterwards splits into the values it keeps, those it had if it is repeatable and held a text, followed by those of the new text |
| `Args.SpecForPathPrefix` | src/cli/args.ts:42-59 | the loops over specs and paths find the best candidate |
| `Args.BestOfExact` | src/cli/args.ts:41-59 | the best candidate is the longest spec path that begins the command path, the first of equally long ones, and there is none only if no path does |
| `Args.CandidateSpecs` | src/cli/command-spec.ts:25-27 | the candidates are exactly the paths and aliases of the specs |
| `ArgsRoundTrip.ReadsBack` | src/cli/args.ts:68-105 | a path and entries printed as words, `--name=value` and `--name` are read back exactly, for all values, boolean flags and command indexes |
| `ArgsRoundTrip.Canonical` | src/cli/args.ts:61-120 | printing what was parsed from any arguments and parsing it again, under any other command index, gives the same path and flags |
| `ArgsRoundTrip.SpelledRead` | src/cli/args.ts:68-105 | words and flags in any order, values behind an equals sign or a space, are read as the words and the entries that are spelled |
| `ArgsRoundTrip.EveryListSpelled` | src/cli/args.ts:68-105 | every argument list is such a spelling, so the parser reads nothing else |
| `ArgsRoundTrip.RepeatableExact` | src/cli/args.ts:107-120 | repeatable are `label`, `skill` and the flags the spec of the longest matching path declares |
| `ArgsRoundTrip.FlagMapExact` | src/cli/args.ts:27-39 | a flag holds its last value, or if repeatable the join of the texts since it was last bare |
| `ArgsRoundTrip.RepeatedValuesRecovered` | src/cli/args.ts:24-39 | a repeatable flag's text splits into exactly the values it was given |
| `CommandIndex.CommandPathStartsAt` | src/shared/cli-argument-boundary.ts:57-75 | the loops match a command path from a token on, stepping over flags |
| `CommandIndex.FindCliCommandIndex` | src/shared/cli-argument-boundary.ts:77-105 | the loop finds the token where a known command path starts, or none |
| `CommandIndex.FoundIff` | src/shared/cli-argument-boundary.ts:77-105 | behind flags that stand alone or with a value, the first word is found if a command starts there, and nothing otherwise |
| `CommandIndex.CommandFound` | src/shared/cli-argument-boundary.ts:57-105 | so a command path written out behind such flags is found |
| `CommandIndex.NoCommandFound` | src/shared/cli-argument-boundary.ts:77-105 | and nothing is found when no path begins with the first word |
| `CommandIndex.CommandNotSwallowed` | src/cli/args.ts:92-96 | the first path word parsed is the command that was found: a flag before it never swallows it |
| `CommandIndex.CommandReadIff` | src/shared/cli-argument-boundary.ts:57-75 | the parser reads the command path that was found, followed by the later words, if and only if no flag inside it is a value flag followed by another value flag and a word |
| `CommandIndex.SwallowedInside` | src/shared/cli-argument-boundary.ts:63-68 | arguments in which the search finds a two-word command and the parser reads one word |
| `Positionals.NormalizeCommandPositionals` | src/cli/args.ts:205-239 | the loops pick the first spec path that fits and bind the words left over |
| `Positionals.PickFits` | src/cli/args.ts:206-224 | the spec picked fits, no earlier one does, and none is picked only if none fits |
| `Positionals.NormalizedExact` | src/cli/args.ts:205-239 | either no spec takes the words and nothing changes, or the first that does gives its path, keeps every flag given, turns each word left over into the flag of its place, and reports those given as well |
| `Positionals.BindIsGiving` | src/cli/args.ts:225-236 | binding positionals is giving them as flags |
| `Positionals.NoConflicts` | src/cli/args.ts:229-230 | conflicts are reported if and only if a positional was also given as a flag |
| `Positionals.PositionalsAsFlags` | src/cli/args.ts:205-239 | a command written with positionals and the same written with flags normalize alike, without conflicts |
| `CodexTokens.TokenizeLeadingShellWords` | src/cli/codex-command-classification.ts:87-123 | the character loop gives the words of its specification |
| `CodexTokens.ScanPrefix` | src/cli/codex-command-classification.ts:108-121 | a smaller limit gives a beginning of the same words, on any command |
| `CodexTokens.ScanNonempty` | src/cli/codex-command-classification.ts:106-121 | no word is empty and there are never more than the limit |
| `CodexTokens.QuoteJoinReadsBack` | src/cli/codex-command-classification.ts:87-123 | words quoted, joined by spaces and tokenized come back, up to the limit |
| `CodexTokens.SpellingReadsBack` | src/cli/codex-command-classification.ts:87-123 | any command of words made of plain and quoted stretches, with any white space around them, is read as these words, up to the limit |
| `CodexTokens.UnclosedRead` | src/cli/codex-command-classification.ts:95-104 | a quote that is never closed runs to the end of the command |
| `CodexTokens.AssignmentIff` | src/cli/codex-command-classification.ts:138-140 | a word is an assignment if and only if it is a name, an equals sign and anything |
| `CodexTokens.StripShellLaunchPrefix` | src/cli/codex-command-classification.ts:142-171 | the loops that shift words off leave what the recursive removal leaves |
| `CodexTokens.StripAssignments` | src/cli/codex-command-classification.ts:144-146 | assignments in front change nothing |
| `CodexTokens.StripBehindEnv` | src/cli/codex-command-classification.ts:147-169 | behind an `env` the first word that is no assignment, no dash word and no operand of `-u` or `--unset` is taken for the command |
| `CodexTokens.StripEnvIff` | src/cli/codex-command-classification.ts:147-169 | whatever stands between an `env` and a command, the command is what is left if and only if each of those words is stepped over and the last does not take the command for its operand |
| `CodexTokens.EnvOperandTaken` | src/cli/codex-command-classification.ts:164-168 | the operand of any other option of `env` is taken for the command |
| `CodexClassification.FindCodexSubcommand` | src/cli/codex-command-classification.ts:191-219 | the index loop finds the subcommand its specification finds |
| `CodexClassification.IsNonInteractiveCodexSubcommand` | src/cli/codex-command-classification.ts:221-270 | the verdict on a subcommand depends on the tokens behind the executable only, login and cloud children included |
| `CodexClassification.ShouldUseRendererBackedCodexTerminal` | src/cli/codex-command-classification.ts:272-287 | true exactly for commands whose words behind the launch prefix are an interactive codex |
| `CodexClassification.ShouldUseRendererBackedInteractiveTerminal` | src/cli/codex-command-classification.ts:289-309 | the same, or an interactive claude |
| `CodexClassification.OptionsShift` | src/cli/codex-command-classification.ts:197-217 | behind inserted global options the same subcommand is found, further on |
| `CodexClassification.OptionsKeepVerdict` | src/cli/codex-command-classification.ts:221-270 | known global options before the subcommand never change the verdict |
| `CodexClassification.EnvKeepsVerdictIff` | src/cli/codex-command-classification.ts:142-171 | an `env` and any words in front of a command keep either verdict, if the command is found behind them, if and only if it is not an `env` whose own command is interactive; otherwise if and only if the words taken for the command have the same verdict |
| `CodexClassification.EnvVerdict` | src/cli/codex-command-classification.ts:142-171 | whatever stands behind an `env`, the verdict is that of the first word not stepped over and the words after it |
| `CodexClassification.EnvDirectoryHidesCodex` | src/cli/codex-command-classification.ts:164-168 | `codex` is interactive and `env -C /tmp codex` is not |
| `CodexClassification.QuotedCommand` | src/cli/codex-command-classification.ts:277-279 | the words classified are the first 32 quoted words behind the launch prefix |
| `CodexClassification.TakenShown` | src/cli/codex-command-classification.ts:221-270 | the first words of any arguments are one-shot if and only if one of them shows the subcommand to be: the subcommand itself, or a child or flag behind a login or a cloud |
| `CodexClassification.CommandVerdict` | src/cli/codex-command-classification.ts:272-287 | a command of any length behind a launch prefix is an interactive codex if and only if there is room for its executable, which is a codex, and no word that shows a one-shot subcommand is among the first 32 |
| `CodexClassification.CommandVerdictKeptIff` | src/cli/codex-command-classification.ts:272-287 | a launch prefix and inserted global options keep the verdict of a command of any length if and only if they leave room for the executable and do not push every showing word beyond the 32nd |
| `CodexClassification.SubcommandKeptIff` | src/cli/codex-command-classification.ts:277-279 | outside login and cloud the verdict is kept if and only if the subcommand is not one-shot or still stands among the first 32 words |
| `CodexClassification.CommandVerdictKept` | src/cli/codex-command-classification.ts:272-287 | so it is kept in every command of at most 32 words |
| `CodexClassification.SubcommandBeyondLimit` | src/cli/codex-command-classification.ts:277-279 | behind 31 assignments a one-shot subcommand is no longer seen and the verdict flips |
| `CodexCommands.SubcommandVerdict` | src/cli/codex-command-classification.ts:1-85 | behind any options of codex, a subcommand other than login and cloud is one-shot exactly when it is one of the 25 of its table |
| `CodexCommands.OptionsVerdict` | src/cli/codex-command-classification.ts:191-219 | options alone start an interactive codex |
| `CodexCommands.PromptVerdict` | src/cli/codex-command-classification.ts:199-201 | and so do options, `--` and anything behind it |
| `CodexCommands.FlagVerdict` | src/cli/codex-command-classification.ts:203-206 | a help or version flag behind options is one-shot |
| `CodexCommands.LoginVerdict` | src/cli/codex-command-classification.ts:233-251 | a login with a word behind it is one-shot exactly for `status` and `help`, or with a help flag or a key on standard input |
| `CodexCommands.CloudVerdict` | src/cli/codex-command-classification.ts:252-267 | a cloud command with a word behind it is one-shot exactly for its own subcommands, or with a help or version flag |
| `CodexCommands.FlagBehind` | src/cli/codex-command-classification.ts:243-267 | such a flag anywhere behind a login or a cloud command is enough |
| `CodexCommands.BareVerdict` | src/cli/codex-command-classification.ts:233-267 | bare, either is interactive |
| `CodexCommands.ExecutableIff` | src/cli/codex-command-classification.ts:125-136 | behind any directories and in any case, the three names of codex and the three of claude are known, and no others |
| `CodexCommands.ClaudeVerdict` | src/cli/codex-command-classification.ts:289-309 | a claude command is interactive unless an argument asks for help, version or print |
| `CodexCommands.WrittenVerdict` | src/cli/codex-command-classification.ts:272-287 | of a command of any length 32 words are read: it is an interactive codex exactly if its launch prefix leaves room for the executable, that is a codex, and no argument read shows a one-shot subcommand |
| `Benchmark.CyclicChecksum` | config/scripts/native-chat-live-session-benchmark.ts:146-157 | the closed form is the sum of the values taken cyclically, for any values and count |
| `Benchmark.FullCycles` | config/scripts/native-chat-live-session-benchmark.ts:150-155 | full cycles add the total once each, the remainder a beginning of the values |
| `Benchmark.ContentRead` | config/scripts/native-chat-live-session-benchmark.ts:106-121 | the content of a message is the text of its first block, whatever follows, and empty without any |
| `Benchmark.WeightRead` | config/scripts/native-chat-live-session-benchmark.ts:123-127 | length and last character of identifier and content count, and the first character of the role |
| `Benchmark.SessionAccounts` | config/scripts/native-chat-live-session-benchmark.ts:129-166 | the expected checksum of a session is the sum of the consumed weights for every count, empty sessions included |
| `Benchmark.PendingAccounts` | config/scripts/native-chat-live-session-benchmark.ts:141-170 | the same for pending outputs |
| `Benchmark.CombinedAccounts` | config/scripts/native-chat-live-session-benchmark.ts:317-326 | operations added up account for expectations added up |
| `Benchmark.Bench.RunSample` | config/scripts/native-chat-live-session-benchmark.ts:172-182 | one sample adds the sum of the operation to one total and the expectation to the other, and is the only one noted |
| `Benchmark.Bench.Calibrate` | config/scripts/native-chat-live-session-benchmark.ts:188-206 | for any clock, calibration runs its own operation only and ends within 50 samples at a power of two up to the cap; capped only if the last sample at the cap was too short, otherwise the last two, of the same count, were long enough |
| `Benchmark.Bench.TimeArms` | config/scripts/native-chat-live-session-benchmark.ts:208-242 | both arms are timed if and only if they agree on the first index, and nothing changes otherwise; the baseline is calibrated first, and in ten rounds both run as often as they were calibrated to, the baseline first in even rounds, each time noted under its own arm; arms accounted for by one expectation agree, and never let the two checksums drift apart |

## Left out

- The real file system, timers, sockets, AT-SPI, NaCl and process exit: system calls are atomic steps with any possible answer, a clock reading is any real number, and a crash is a step after which a process does nothing.
- The base64 and key codec: a key file holds a usable key or it does not (RFC 4648, sections 3.5 and 4, is assumed for the canonical form). Generating a key is a step whose answer is any key.
- A person deleting the lock file by hand, and a second key file path.
- Accessibility nodes as live objects: a tree is a finite value that does not change during a walk, so a walk over a cyclic tree is modelled by the search only. Names, values and actions are what one reading gives; redaction of secret values, frames, toolkit names and native handles are not part of this model.
- Lower-casing beyond ASCII in role, action and command names. Rendered lines are kept as indent, number and text, so a role or title that itself looks like a tab line of another number is not modelled.
- BoundedSearch.FirstDescendant: node identity is a number; Python's reuse of `id()` after a node is freed is not modelled.
- OptionKeys.ReadCallOptionKeys: gives the reason for refusing as a value, not as the message text.
- The electron-require regular expression: any predicate on code. Error messages, the check that entry names are rollup inputs and the daemon smoke load are not part of this model.
- AccountState.Accounts.ConsumeResetCredit: a scope is compared by its JSON text; the model takes scopes that differ to have texts that differ, and a client object with the text of a scope to be that scope. The 4096-character limit of an offer revision, which these fixed fields cannot reach, is left out.
- Account emails, labels and other fields of a snapshot that never change, and numbers too large to be exact in JavaScript.
- AccountRpc.AccountServer.Handle: `respond` is taken never to throw.
- TerminalStream.TerminalStreams.OnSubscribe: a stream is known by its number instead of by object identity; the contents of scrollback and chunks, viewport sizes, and the unguarded replies to list, send and unsubscribe requests are left out. The delay of a reply is the same for all replies to subscriptions, as it is read from the environment of the process.
- Args.ParseArgs: the set of boolean flags is a parameter, and the order of the flag map is not modelled.
- `validateCommandAndFlags`, `findCommandSpec`, `isCommandGroup`, help paths and suggestions: each is a lookup that its body states.
- CodexClassification.CommandVerdictKeptIff: option and subcommand tables are a parameter; the methods use the repository's tables, and `CodexCommands` says what these make of each kind of command.
- Benchmark.Bench.TimeArms: medians, speed-ups, the counters of validated cases and the sinks that keep results alive are left out, and checksums are exact integers.
- React Native screens, the browser and terminal UI, bindings, screenshots, clipboard and input synthesis, and build configuration: user interface, data or thin wrappers.
