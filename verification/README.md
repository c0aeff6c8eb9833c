# Formal models of jQuery's state machines and of the network and text codecs

A Dafny project that models the parts of this repository with the most state and the most
arithmetic, and proves for every input, every run or every reachable state what they promise.
`dafny verify dfyconfig.toml` checks the whole project.

**The selector engine of jQuery 1.9.0 (Sizzle).** `Dom` is one finite tree, nodes named by the
path from the root. `Matcher` runs compiled selectors with the entries combinators leave on
nodes and proves them equal to walks that remember nothing. `Selector` says what a token list
means, without matchers, and proves that compiling keeps the meaning. `TokenCache` is the bounded
cache and the token arrays callers cut up. `Select` proves that starting from a seed set, or from
the element an ID names, with fewer tokens left, keeps the meaning, and exactly when ids that
repeat spoil it. `Search` is `select` itself: whatever is in the two caches and on the nodes, it
appends exactly the elements of the page the selector describes, in document order. `Meanings`
spells out on the places of nodes what each combinator comes to and what such an answer is.
`Lexer` is the tokenizer for names and combinators, `DocumentOrder` the comparator by ancestor
chains with `uniqueSort`, and `NthChild` the position cache of `:nth-child`.

**jQuery's callbacks.** `Callbacks` is the callback list as a state machine: any operation may
happen inside any running callback; `CallbackSteps` says what one operation does to what is
owed, and `CallbackRuns` what holds in every run. `CallbackList` is the same list as the program
keeps it, changed in place, each method proved equal to a step of that machine, and
`CallbackFacts` says what its steps come to on the list and the calls alone. `Deferred` puts
three such lists together as the original does, with its own handlers among the registered ones;
`Notifications` follows what it is notified of to the handlers called, and `When` counts
subordinates. `AjaxConvert` is the conversion walk that inserts steps into the list it walks,
`AjaxPaths` says when that walk ends and what its results mean, `AjaxFailures` when it fails, and
`Events` is the handler list with its dispatch queue.

**Addresses.** `Bits`, `Arithmetic` and `Numerals` hold shifts, masks and numerals. `IPv4` and
`IPv6` are masks, networks, blocks and octets, `IPv6Text` the parser and `IPv6Short` the printer
of the short form; `IPv6Canonical` says when that is the recommended form. `Refusals` says
exactly which texts are taken, for addresses and for interface names.

**Codecs and a widget.** `Base64` and `UrlEncode` are the encoders of the password mangler with
their buffers, `InterfaceKeys` the sort keys for interface names, and `Slider` the handles of a
slider.

## What the proofs turned up

- The fallback comparator puts the root of a detached tree after all its descendants.
  `DocumentOrder.OrderIsPreorder` gives the exact condition for document order;
  `DetachedRoot` an input; `OrderIsTotal` holds in both cases, so sorting is well defined either way.
- `Callbacks.empty` called from a running callback leaves `firingLength` behind.
  `CallbackSteps.EmptyThenReturn` says exactly when the loop then calls a place the list no longer
  has, with an input in `EmptyBreaks`. A callback that adds others after emptying does not fault;
  `EmptyAddSkips` says exactly which of them are skipped, with an input in `AddedSkipped`.
- A falsy converter value, as in `{"* text": fn, "text json": false}`, makes the walk of
  `ajaxConvert` insert the same type for ever (`AjaxPaths.FalsyConverter`); `AjaxPaths.EndsExactly`
  gives the exact condition. It can also hide a path (`AjaxPaths.HiddenPath`, `DeadIsNoPath`).
- Where an id repeats, the ID shortcut of `select` finds the first element only.
  `Select.ShortcutExactly` and `SeedExactly` say exactly when that is harmless, and
  `Select.DuplicateIds` gives a page where it is not.
- From six digits on the keys of `NumericInterface` can leave the numeric order
  (`InterfaceKeys.WideComponent`); `InterfaceKeys.NumericOrder` gives the exact condition.
- The counting pass of `URLEncode` is too small for control characters and those above 0x7f, and
  right for all others (`UrlEncode.CountedExactly`, `ControlCharacter`). A signed character below
  zero takes `base64_encode` out of its table, and no other does (`Base64.SignedIndexes`,
  `NegativeCharacter`).
- A slider option of zero means the start of the range, because zero is falsy; the constructor of
  `Slider.Slider` says so through `Effective` (`Slider.EffectiveIs`).
- `setValue` with handle index 0 moves the active handle while one is being dragged, for the same
  reason; `Slider.TargetIs` states the rule.
- The IPv6 printer replaces a single zero group, takes the last of equal runs, and never counts
  the first group, so that it can pass over the longest run. `IPv6Canonical.PrintsRecommended` says
  exactly when its text is the one of sections 4.2.2 and 4.2.3 of RFC 5952; `SingleGroup`,
  `EqualRuns` and `FirstGroupMissed` are inputs. The round trip holds all the same.
- The IPv6 reader takes groups of up to 31 bits and negative ones, and with eight pieces or more
  any number of empty ones (`Refusals.ReadExactly`, `IntExactly`); the IPv4 reader takes any
  number of octets (`Refusals.TakenExactly`).

## Model

| member | source | states |
|---|---|---|
| `Matcher.Engine.Combinator` | javascript/external/jQuery/jquery-1.9.0.js:5087-5119 | the walk that reads and writes entries on the nodes answers as the walk without memory, whatever entries earlier seeds left, and leaves every entry true |
| `Matcher.Engine.PlainCombinator` | javascript/external/jQuery/jquery-1.9.0.js:5092-5100 | the branch for XML and for nearest-node combinators is the walk without memory, and leaves the entries of other combinators true; which nodes that walk may stop at is said on places by `Meanings.LeadingChild` and `Meanings.ChildStep` |
| `Matcher.Engine.Consult` | javascript/external/jQuery/jquery-1.9.0.js:5103-5116 | an entry of this run decides the whole walk or may be passed over: a failure noted for the current seed ends the walk, one noted for an earlier seed does not |
| `Matcher.Engine.Visit` | javascript/external/jQuery/jquery-1.9.0.js:5110-5115 | an unknown node is matched once and its entry then records the outcome; only entries of inner combinators on nodes further up may change besides |
| `Matcher.Engine.Element` | javascript/external/jQuery/jquery-1.9.0.js:5122-5133 | with the combinator evaluated last, `true` ends the seed, so the entries stay true for the next seed |
| `Matcher.Engine.Candidate` | javascript/external/jQuery/jquery-1.9.0.js:5325-5333 | trying the groups in turn on one candidate says whether some group matches, and leaves all groups' entries true for the next candidate |
| `Matcher.Engine.SuperMatcher` | javascript/external/jQuery/jquery-1.9.0.js:5307-5393 | a run appends exactly the matching candidates in their order, whatever earlier runs left on the nodes |
| `Matcher.FreshRun` | javascript/external/jQuery/jquery-1.9.0.js:5313-5319 | a new run number silences every entry of earlier runs |
| `Matcher.SoundFrame` | javascript/external/jQuery/jquery-1.9.0.js:5087-5119 | combinators sharing a node may overwrite each other's entries but never make one false |
| `Matcher.SoundNext` | javascript/external/jQuery/jquery-1.9.0.js:5325-5338 | entries true for one seed stay true for the next, once the seed counter moves on |
| `Selector.WalkIsExists` | javascript/external/jQuery/jquery-1.9.0.js:5087-5119 | the walk finds a node exactly when some related ancestor or sibling matches, for `first` combinators the nearest one |
| `Selector.BuildDenotes` | javascript/external/jQuery/jquery-1.9.0.js:5253-5305 | the matcher compiled from a token list accepts exactly the nodes the tokens describe when read from the right |
| `Selector.BuildNames` | javascript/external/jQuery/jquery-1.9.0.js:5087-5091 | every combinator of a compiled list gets its own name from the shared counter |
| `Selector.Compiler.MatcherFromTokens` | javascript/external/jQuery/jquery-1.9.0.js:5253-5305 | the loop over the tokens builds that matcher and advances the counter by its combinators |
| `Selector.Compiler.Compile` | javascript/external/jQuery/jquery-1.9.0.js:5401-5426 | on a cache miss, some group matcher accepts a node exactly when some group describes it; names never collide between groups |
| `Meanings.LeadingFilter` | javascript/external/jQuery/jquery-1.9.0.js:5253-5269 | a leading combinator and one filter, on an HTML page: exactly the children of the node searched from, the nodes below it, the node it stands just before, or the siblings behind it, that pass; the document counts as a parent |
| `Meanings.LeadingChild` | javascript/external/jQuery/jquery-1.9.0.js:5074-5085 | a leading `>` stops at the node searched from even where that is the document and no element |
| `Meanings.FilterAlone` | javascript/external/jQuery/jquery-1.9.0.js:5264-5269 | a filter alone describes what passes below an element, or on the whole page |
| `Meanings.ChildStep` | javascript/external/jQuery/jquery-1.9.0.js:5077-5085 | after other tokens `>` leads to the parent, which must be an element |
| `Meanings.DescendantStep` | javascript/external/jQuery/jquery-1.9.0.js:5087-5119 | after other tokens white space leads to any element above |
| `Meanings.AdjacentStep` | javascript/external/jQuery/jquery-1.9.0.js:5077-5085 | `+` leads to the element with no other element in between |
| `Meanings.SiblingStep` | javascript/external/jQuery/jquery-1.9.0.js:5087-5119 | `~` leads to any element before under the same parent |
| `Meanings.AnyContext` | javascript/external/jQuery/jquery-1.9.0.js:5261-5268 | matched against several nodes a list describes what it describes for any of them |
| `TokenCache.PutSound` | javascript/external/jQuery/jquery-1.9.0.js:3837-3849 | storing keeps the keys distinct, equal to the stored key set and within `cacheLength` exactly when there is room at all and the key is new or is the one that goes |
| `TokenCache.Cache.Keep` | javascript/external/jQuery/jquery-1.9.0.js:3837-3849 | a store under a missing key keeps the cache sound; past the limit the key stored first goes, and every other entry is unchanged |
| `TokenCache.Tokenizer.Tokenize` | javascript/external/jQuery/jquery-1.9.0.js:4995-5060 | hit or miss the caller gets a fresh outer array holding what a tokenizing without the cache gives; all entries stay right |
| `TokenCache.Tokenizer.StillValid` | javascript/external/jQuery/jquery-1.9.0.js:4995-5060 | arrays made later do not disturb the entries already cached |
| `Select.SeedKeeps` | javascript/external/jQuery/jquery-1.9.0.js:5459-5485 | a filter after the last combinator may be taken out and tested apart without changing what the list describes |
| `Select.SeedIsAnswer` | javascript/external/jQuery/jquery-1.9.0.js:5459-5485 | the seeds below the search root that the remaining tokens describe are the elements of the page all tokens describe; with no tokens left the seeds are the answer |
| `Select.DenotesBelow` | javascript/external/jQuery/jquery-1.9.0.js:5467-5472 | what a list describes lies below the context, or below its parent when the list starts with a sibling combinator |
| `Select.IdShortcut` | javascript/external/jQuery/jquery-1.9.0.js:5445-5457 | starting at the element a unique ID names, with that token gone, describes the same elements |
| `Select.NoHolder` | javascript/external/jQuery/jquery-1.9.0.js:5451-5454 | an ID no element has, with a combinator behind it, describes nothing |
| `Select.ScanIsAnswer` | javascript/external/jQuery/jquery-1.9.0.js:5313-5319 | candidates below the context, or its parent when the text has a sibling combinator, are enough |
| `Select.ShortcutPins` | javascript/external/jQuery/jquery-1.9.0.js:5445-5457 | whatever the ids, the shortened list means the list whose first token accepts only the element found first, and nothing if none is found |
| `Select.ShortcutExactly` | javascript/external/jQuery/jquery-1.9.0.js:5445-5457 | starting at the element found agrees with the whole list, whatever stands behind the first combinator, if and only if every element so related to some element with the id is related to the one found |
| `Select.SeedExactly` | javascript/external/jQuery/jquery-1.9.0.js:5467-5472 | with the ID as the seed, taking the first element agrees, whatever stands before it, if and only if no other element has the id |
| `Select.DuplicateIds` | javascript/external/jQuery/jquery-1.9.0.js:5445-5457 | a page with two elements of one id, where the child of the one not found is lost whichever is found |
| `Select.UniquePins` | javascript/external/jQuery/jquery-1.9.0.js:5445-5472 | with unique ids the search for the first element changes nothing |
| `Search.Text` | javascript/external/jQuery/jquery-1.9.0.js:5062-5070 | the loop joins the texts of the tokens |
| `Search.Shortcut` | javascript/external/jQuery/jquery-1.9.0.js:5445-5457 | where an ID leads, the rest of the list from the element found means what the list with that ID pinned means, or nothing is described; any other list is left alone |
| `Search.Seed` | javascript/external/jQuery/jquery-1.9.0.js:5459-5485 | the scan from the right keeps or shortens the list; a seed set it returns stands in for the whole page |
| `Search.UniqueMeans` | javascript/external/jQuery/jquery-1.9.0.js:5437-5499 | on a page with unique ids what a selector comes to mean is what it describes |
| `Search.Sizzle.Compile` | javascript/external/jQuery/jquery-1.9.0.js:5401-5426 | a hit in the compile cache is as good as compiling the tokens the text is read as, for selectors as written and for shortened ones, which share the cache |
| `Search.Sizzle.Select` | javascript/external/jQuery/jquery-1.9.0.js:5437-5499 | for every selector and every page the results appended are exactly the elements described, in document order, an ID that leads or seeds standing for the first element with it; both caches stay right although the caller cuts up its copy of the tokens. The one list the call stores in the compile cache must read back from its text, which says something only where the selector was shortened |
| `Meanings.AnswerIs` | javascript/external/jQuery/jquery-1.9.0.js:5307-5393 | those results, said without the search: the elements of the page some group describes, all of them, each once, each before the later ones in document order |
| `Meanings.PinnedExactly` | javascript/external/jQuery/jquery-1.9.0.js:5445-5485 | which token an ID search turns into the first element with the id: the first one before a combinator and more, or else the one whose finder serves last; every other token keeps its meaning |
| `Meanings.FirstOfIs` | javascript/external/jQuery/jquery-1.9.0.js:5451-5472 | that element is the one with the id that precedes all others |
| `Meanings.DocumentChild` | javascript/external/jQuery/jquery-1.9.0.js:5074-5085 | `> html` searched from the document has the document's element for its answer |
| `Meanings.SelectDocumentChild` | javascript/external/jQuery/jquery-1.9.0.js:5437-5499 | and so `select` finds it, whatever the caches hold |
| `Search.WholeRereads` | javascript/external/jQuery/jquery-1.9.0.js:5401-5426 | a selector that is not shortened asks nothing of the tokenizer |
| `Lexer.Tokenize` | javascript/external/jQuery/jquery-1.9.0.js:5004-5057 | the loop, in each round a combinator and then each filter in turn, reads the same tokens as taking the one that fits at every place, and fails exactly where none fits |
| `Lexer.LexText` | javascript/external/jQuery/jquery-1.9.0.js:5007-5042 | the texts of the tokens read make up the text, and each token depends on its own text only |
| `Lexer.CombinatorMeans` | javascript/external/jQuery/jquery-1.9.0.js:4532-4537 | an operator with any white space around it is one token: `>` the parent, `+` the element just before, `~` any before |
| `Lexer.WhiteMeans` | javascript/external/jQuery/jquery-1.9.0.js:4532-4537 | white space alone is one token: any element above |
| `Lexer.NameMeans` | javascript/external/jQuery/jquery-1.9.0.js:3766-3770 | a name alone is one token, that of a tag |
| `Lexer.PrefixMeans` | javascript/external/jQuery/jquery-1.9.0.js:3766-3770 | behind a dot it is a class, behind a hash sign an id |
| `Lexer.NameExactly` | javascript/external/jQuery/jquery-1.9.0.js:3738 | which characters go on in a name, code by code, and what a backslash takes with it |
| `Lexer.WhiteExactly` | javascript/external/jQuery/jquery-1.9.0.js:3736 | which five characters are white space |
| `Lexer.CutReads` | javascript/external/jQuery/jquery-1.9.0.js:5007-5042 | taking out a token behind which stands the end, a class or an id leaves a list that reads back from its text |
| `Lexer.AlwaysRereads` | javascript/external/jQuery/jquery-1.9.0.js:3738-3770 | for selectors of tag names, classes, ids and combinators nothing is left to ask: whatever list `select` shortens reads back from its text, because the finder for tag names always serves |
| `Lexer.TagRunsOn` | javascript/external/jQuery/jquery-1.9.0.js:3766-3770 | without that finder the class could be cut out of `p.a*`, and what is left would read as one tag name |
| `DocumentOrder.PreorderIsPrecedes` | javascript/external/jQuery/jquery-1.9.0.js:4284-4338 | the preorder list holds exactly the nodes of the tree, in strict order by where their paths part |
| `DocumentOrder.SiblingCheck` | javascript/external/jQuery/jquery-1.9.0.js:4439-4449 | of two children of one parent the earlier one gives -1; a missing node comes first |
| `DocumentOrder.SortOrder` | javascript/external/jQuery/jquery-1.9.0.js:4284-4338 | the ancestor chains, their first discrepancy and the sibling check compute the specified order |
| `DocumentOrder.OrderIsPreorder` | javascript/external/jQuery/jquery-1.9.0.js:4284-4338 | negative exactly when earlier in preorder, if and only if the root is the document or neither node is the root |
| `DocumentOrder.DetachedRoot` | javascript/external/jQuery/jquery-1.9.0.js:4303-4308 | the root of a detached tree comes after its child |
| `DocumentOrder.OrderIsTotal` | javascript/external/jQuery/jquery-1.9.0.js:4284-4338 | a strict total order on the nodes, in a document and in a detached tree |
| `DocumentOrder.RemoveDuplicates` | javascript/external/jQuery/jquery-1.9.0.js:4425-4434 | noting the places of repeats and splicing them out from the back leaves one of each run |
| `DocumentOrder.UniqueSort` | javascript/external/jQuery/jquery-1.9.0.js:4415-4437 | the same set of nodes, strictly increasing; in a document this is the preorder list cut down to them |
| `NthChild.CycleTestIsCycle` | javascript/external/jQuery/jquery-1.9.0.js:4743-4746 | the remainder and quotient test holds exactly when the position is a*n+b for some n >= 0, for all signs and for a = 0 |
| `NthChild.Find` | javascript/external/jQuery/jquery-1.9.0.js:4708-4718 | from any right cache entry or none, the seek ends at the element with its index and count, falling back to the first child at most once |
| `NthChild.Positions.SeekForward` | javascript/external/jQuery/jquery-1.9.0.js:4700-4718 | the count is the 1-based position among element siblings and the new parent entry is right |
| `NthChild.Positions.SeekBackward` | javascript/external/jQuery/jquery-1.9.0.js:4721-4740 | the count is the position from the last element sibling, and every entry left on a sibling is right |
| `NthChild.Positions.Child` | javascript/external/jQuery/jquery-1.9.0.js:4676-4748 | the filter holds exactly when the position satisfies section 6.6.5.2 of Selectors Level 3 |
| `NthChild.Positions.NextRun` | javascript/external/jQuery/jquery-1.9.0.js:5317-5318 | a new run number silences what earlier runs have left, for any tree the document may have become |
| `Callbacks.FireValid` | javascript/external/jQuery/jquery-1.9.0.js:1009-1021 | firing from `firingStart` on data that is due, with any callbacks and any queue, comes to its first callback or its end with the invariant holding |
| `Callbacks.FinishValid` | javascript/external/jQuery/jquery-1.9.0.js:1022-1034 | what follows the loop, the next queued batch or clearing or disabling the list, restores the invariant |
| `CallbackSteps.FireBegins` | javascript/external/jQuery/jquery-1.9.0.js:1009-1017 | with a callback to call, firing starts one batch, calls exactly that callback and leaves the list and the queue alone |
| `Callbacks.AddValid` | javascript/external/jQuery/jquery-1.9.0.js:1038-1067 | adding, in or out of a firing, keeps the invariant of indices, list and history |
| `CallbackSteps.OwedAdd` | javascript/external/jQuery/jquery-1.9.0.js:1057-1058 | callbacks added while the loop runs are owed the current data behind those already owed |
| `CallbackSteps.AddRemembered` | javascript/external/jQuery/jquery-1.9.0.js:1061-1064 | what is added after a firing with memory is called at once with the remembered data, in order |
| `CallbackFacts.AddWaits` | javascript/external/jQuery/jquery-1.9.0.js:1038-1067 | what is added at rest with nothing remembered waits at the end of the list |
| `CallbackFacts.UniqueAdds` | javascript/external/jQuery/jquery-1.9.0.js:1046-1048 | with `unique` exactly the functions neither in the list nor before in the arguments are added, in order |
| `Callbacks.RemoveOneValid` | javascript/external/jQuery/jquery-1.9.0.js:1069-1088 | removing during a firing takes the callback out of what is owed and skips or repeats no other |
| `CallbackFacts.RemoveLeaves` | javascript/external/jQuery/jquery-1.9.0.js:1069-1088 | firing or at rest: no entry left has one of the functions, and every other entry is left, at increasing places of the old list; nothing else changes but the firing indices |
| `CallbackSteps.OwedReturn` | javascript/external/jQuery/jquery-1.9.0.js:1016-1034 | when a callback returns the next owed one is called; at the end of a batch the data queued first starts the next one |
| `CallbackFacts.StopForgets` | javascript/external/jQuery/jquery-1.9.0.js:1017-1034 | a callback that returns false under `stopOnFalse` is the last of its batch, and nothing is remembered for later additions; waiting data is fired all the same |
| `CallbackFacts.LastBatchEnds` | javascript/external/jQuery/jquery-1.9.0.js:1022-1033 | at the end of its last batch a list that may not fire again is emptied if it has a memory and disabled if it has none |
| `CallbackFacts.FireWithExactly` | javascript/external/jQuery/jquery-1.9.0.js:1120-1131 | data is taken exactly while the list is not disabled and has not fired or may fire again; it waits for a running batch and is fired at once otherwise |
| `Callbacks.LockValid` | javascript/external/jQuery/jquery-1.9.0.js:1099-1114 | locking and disabling keep the invariant, and a locked list still owes what it owed |
| `CallbackFacts.LockKeeps` | javascript/external/jQuery/jquery-1.9.0.js:1108-1114 | with a memory, locking leaves list, memory and the running batch, late additions are still called and no more data is taken; without one the list takes nothing any more |
| `CallbackFacts.DisableStops` | javascript/external/jQuery/jquery-1.9.0.js:1099-1102 | a disabled list calls nothing more, even in the batch that is running, and takes nothing any more |
| `Callbacks.EmptyValid` | javascript/external/jQuery/jquery-1.9.0.js:1094-1097 | emptying keeps the agreement of indices and list if and only if the list is not firing, or its running callback was the last and has removed itself |
| `CallbackSteps.EmptyThenReturn` | javascript/external/jQuery/jquery-1.9.0.js:1094-1097 | after emptying from a callback that does nothing more, its return calls a place the list no longer has if and only if the callback was not the last one and does not stop the loop; otherwise the batch ends with the invariant restored |
| `CallbackSteps.EmptyAddSkips` | javascript/external/jQuery/jquery-1.9.0.js:1057-1058 | when the callback adds others after emptying, nothing past the list is called, and exactly as many of the callbacks added are skipped as there are places up to its own |
| `CallbackSteps.AddedSkipped` | javascript/external/jQuery/jquery-1.9.0.js:1094-1097 | the only callback of a list empties it and adds another, which is not called |
| `CallbackSteps.EmptyBreaks` | javascript/external/jQuery/jquery-1.9.0.js:1094-1097 | a list of two callbacks emptied by the first one: the return calls what is not there |
| `CallbackRuns.RunTheorem` | javascript/external/jQuery/jquery-1.9.0.js:1009-1131 | in every run, with any operation inside any running callback and `empty` wherever it keeps the invariant: `firingLength` is the list's length, the index is in range, no survivor was skipped or called twice in a batch, batches begin in the order their data was accepted, and no place past the list is ever called |
| `CallbackRuns.AcceptedExactly` | javascript/external/jQuery/jquery-1.9.0.js:1009-1131 | in every run without `lock` and `disable` the accepted data is all that was fired, in order, or with `once` the first alone; a list at rest that is not `once` has started a batch on each |
| `CallbackList.CallbackList.Return` | javascript/external/jQuery/jquery-1.9.0.js:1016-1034 | the rest of the loop after a callback returns is the specified step of the state machine the lemmas of Callbacks are about |
| `CallbackList.CallbackList.Add` | javascript/external/jQuery/jquery-1.9.0.js:1038-1067 | the state after `add` is the specified one |
| `CallbackList.CallbackList.Remove` | javascript/external/jQuery/jquery-1.9.0.js:1069-1088 | the search, splice and index corrections for every argument give the specified state; the entries left are those of other functions, all of them, in their order, whether the list is firing or not |
| `CallbackList.CallbackList.RemoveNext` | javascript/external/jQuery/jquery-1.9.0.js:1073-1084 | one turn of the search loop takes out the next place of the callback and corrects both indices |
| `CallbackList.CallbackList.FireWith` | javascript/external/jQuery/jquery-1.9.0.js:1120-1131 | `fireWith` queues, fires or ignores as specified |
| `Deferred.WithResult` | javascript/external/jQuery/jquery-1.9.0.js:1204-1219 | the first resolve or reject decides the state and the arguments; every later one changes nothing |
| `Deferred.NotifyResult` | javascript/external/jQuery/jquery-1.9.0.js:1215-1219 | a notification never changes the state; a pending Deferred accepts it and a settled one is left as it was |
| `Deferred.OnValid` | javascript/external/jQuery/jquery-1.9.0.js:1197-1202 | adding handlers before, during or after settling registers each exactly once, in order |
| `Deferred.StepValid` | javascript/external/jQuery/jquery-1.9.0.js:1147-1220 | every operation keeps the invariant, and after settling the state, its data and the accepted notifications |
| `Deferred.EveryRun` | javascript/external/jQuery/jquery-1.9.0.js:1147-1220 | in every run with re-entrant operations: handlers of the losing side never run, those of the winning side run exactly once per registration with the settling data, in order of registration |
| `Deferred.SettledForever` | javascript/external/jQuery/jquery-1.9.0.js:1147-1220 | once settled the state and its data stay, and the notifications ever delivered are, one for one and in order, among those accepted before |
| `Notifications.RunOutcome` | javascript/external/jQuery/jquery-1.9.0.js:1204-1219 | in every run the first resolve or reject decides, and the notifications accepted are those made before it, in order |
| `Notifications.EveryNotification` | javascript/external/jQuery/jquery-1.9.0.js:1215-1219 | in every run nothing but those is ever delivered, and while nothing has settled all of them have been, one batch for each and in order, except those that wait for a running batch |
| `Notifications.EveryoneNotified` | javascript/external/jQuery/jquery-1.9.0.js:1197-1219 | each of those batches calls progress handlers one after the other from the first, and by its end has called every one registered before it began; a batch for handlers registered late calls none of the earlier ones |
| `Notifications.ReturnGoesOn` | javascript/external/jQuery/jquery-1.9.0.js:1016-1034 | in every run, when the innermost handler returns, its list calls the next one owed, starts on the data waiting longest, or comes to rest, and the other lists are left alone |
| `Notifications.OneNotified` | javascript/external/jQuery/jquery-1.9.0.js:1215-1219 | one handler and one notification: the handler is called with it |
| `When.NoneUnresolved` | javascript/external/jQuery/jquery-1.9.0.js:1241-1254 | the count is zero exactly when every input is resolved |
| `When.UnresolvedUpdate` | javascript/external/jQuery/jquery-1.9.0.js:1253-1254 | settling one input lowers the count exactly when it resolves |
| `When.When.Update` | javascript/external/jQuery/jquery-1.9.0.js:1247-1256 | one more input resolved: the count and the values follow, and the master resolves, with the values in argument order, exactly when it was the last and none has rejected |
| `When.When.Reject` | javascript/external/jQuery/jquery-1.9.0.js:1270 | the first rejection settles the master with its arguments, later ones do nothing |
| `When.When.Progress` | javascript/external/jQuery/jquery-1.9.0.js:1251-1252 | progress notifies the master, if it is open, with the values so far, and settles nothing |
| `When.Attach` | javascript/external/jQuery/jquery-1.9.0.js:1266-1275 | one round of the loop: the outcome of the argument is taken over, and if it has notified before, its value and a notification of all values so far |
| `When.PackedIs` | javascript/external/jQuery/jquery-1.9.0.js:1250 | several arguments become an array, one stays as it is |
| `When.Start` | javascript/external/jQuery/jquery-1.9.0.js:1235-1284 | for any number of plain, pending and settled inputs the master starts as the inputs demand, rejecting by the first that had failed, and notified at once of the values of those that have notified, as long as it is open |
| `AjaxConvert.Seek` | javascript/external/jQuery/jquery-1.9.0.js:8156-8185 | the loop over the converters finds what the search finds, for truthy and falsy values: nothing, a converter that serves, or a function to an intermediate type |
| `AjaxConvert.AjaxConvert` | javascript/external/jQuery/jquery-1.9.0.js:8126-8209 | for every table and list on which the walk has an end, the walk over the list it splices into comes to it, with the result of converting type by type and exactly as many types inserted; `AjaxPaths.SuccessIsPath`, `AjaxPaths.NoConversionIsDead` and `AjaxFailures.FailsExactly` say what each result means |
| `AjaxConvert.MoreFuel` | javascript/external/jQuery/jquery-1.9.0.js:8147-8206 | the end is one and the same however many insertions are allowed |
| `AjaxPaths.EndsExactly` | javascript/external/jQuery/jquery-1.9.0.js:8147-8206 | if no converter throws the walk ends if and only if no chain of intermediate types it comes to holds a type twice |
| `AjaxPaths.FiniteEnds` | javascript/external/jQuery/jquery-1.9.0.js:8147-8206 | where no chain repeats the walk ends whatever the converters do |
| `AjaxPaths.RepeatsIfLong` | javascript/external/jQuery/jquery-1.9.0.js:8161-8184 | a chain holds a type twice if and only if it is longer than the table, so the condition can be decided from the table |
| `AjaxPaths.FalsyConverter` | javascript/external/jQuery/jquery-1.9.0.js:8157-8178 | beside a converter from anything to text, `text json: false` brings the walk back to where it was: it never ends |
| `AjaxPaths.TruthyFinite` | javascript/external/jQuery/jquery-1.9.0.js:8157-8178 | without falsy converter values no chain repeats |
| `AjaxPaths.TruthyInserts` | javascript/external/jQuery/jquery-1.9.0.js:8176-8178 | and at most one type is inserted for each original step |
| `AjaxPaths.SuccessIsPath` | javascript/external/jQuery/jquery-1.9.0.js:8126-8209 | on success the response is the composition of converters along a path through every type other than `*`, in order, for every table; without falsy values at most two converters for a step |
| `AjaxPaths.NoConversionIsDead` | javascript/external/jQuery/jquery-1.9.0.js:8187-8199 | no conversion is reported only at a type of the list from a type where the search finds nothing |
| `AjaxPaths.DeadIsNoPath` | javascript/external/jQuery/jquery-1.9.0.js:8160-8185 | that report is right, in that no one or two converters join the types, if and only if no falsy converter reached by an equivalence stands before one that serves |
| `AjaxPaths.HiddenPath` | javascript/external/jQuery/jquery-1.9.0.js:8160-8174 | a table of four converters where the report comes despite a path |
| `AjaxFailures.FailsExactly` | javascript/external/jQuery/jquery-1.9.0.js:8187-8200 | a conversion fails if and only if a converter along the path through the types throws on what those before it have made of the response; the exception leaves the function exactly if errors may bubble, and is a parser error otherwise |
| `AjaxFailures.Malformed` | javascript/external/jQuery/jquery-1.9.0.js:8191-8199 | a malformed response where one function leads from text to json |
| `AjaxFailures.ConverterIs` | javascript/external/jQuery/jquery-1.9.0.js:8156-8157 | a converter serves if and only if it is truthy and is the one named for both types, or that from `*` where there is no truthy one of that name |
| `AjaxFailures.InsertsExactly` | javascript/external/jQuery/jquery-1.9.0.js:8160-8184 | a type is inserted if and only if no converter leads straight over and in the first pair that does the first is a function and the second not an equivalence |
| `Events.HandlerList.Add` | javascript/external/jQuery/jquery-1.9.0.js:2783-2788 | the handler is bound last in its part; delegated handlers stay in front |
| `Events.HandlerList.Remove` | javascript/external/jQuery/jquery-1.9.0.js:2829-2848 | exactly the handlers go that agree with everything the request names, survivors are those at the other places in their order, and `delegateCount` still counts the delegated ones |
| `Events.WithoutParts` | javascript/external/jQuery/jquery-1.9.0.js:2829-2848 | unbinding commutes with the division into delegated and direct |
| `Events.FindMatches` | javascript/external/jQuery/jquery-1.9.0.js:3080-3095 | matching with results kept by selector is matching each handler |
| `Events.MakeQueue` | javascript/external/jQuery/jquery-1.9.0.js:3065-3109 | unless the target is no node or the event a click with a button, there is one entry for each live element from the target up to the one listened on that some delegated handler matches, innermost first, with exactly those handlers in binding order; then, if there are any, one for the element listened on with all direct handlers; and no other entry |
| `Events.QueuedExactly` | javascript/external/jQuery/jquery-1.9.0.js:3076-3100 | a delegated handler is queued for an element exactly when the element is on the way up, may take the event and matches its selector |
| `Events.QueueInOrder` | javascript/external/jQuery/jquery-1.9.0.js:3076-3100 | every entry of the queue is for a strict ancestor of the elements before it and holds exactly that element's matching handlers |
| `Events.MatchingInOrder` | javascript/external/jQuery/jquery-1.9.0.js:3080-3095 | the handlers of one element are those at the matching places, in the order they were bound |
| `IPv4.NetmaskIsOnes` | database/java/net_manip/IPv4Manip.java:151-161 | the mask is `bits` ones in front, 2^32 - 2^(32-bits) |
| `IPv4.InNetworkIsInRange` | database/java/net_manip/IPv4Manip.java:164-187 | the mask comparison is membership in the range from the network's base, and agreement of the leading bits |
| `IPv4.NetworksLaminar` | database/java/net_manip/IPv4Manip.java:164-172 | two networks are disjoint or the longer prefix lies within the shorter |
| `IPv4.Rfc1918` | database/java/net_manip/IPv4Manip.java:209-219 | the test is exactly the union of the three ranges of section 3 of RFC 1918 |
| `IPv4.OctetsOf` | database/java/net_manip/IPv4Manip.java:80-83 | the masks and shifts pick the four octets of the address |
| `IPv4.StringToLong` | database/java/net_manip/IPv4Manip.java:85-121 | the loop over the text reads the specified value, or fails where it fails |
| `Refusals.TakenExactly` | database/java/net_manip/IPv4Manip.java:85-121 | a text is taken if and only if every part between its dots is a number from 0 to 255, however many parts there are |
| `Refusals.FourParts` | database/java/net_manip/IPv4Manip.java:85-121 | and of four parts it makes the address with those octets |
| `IPv4.FourTexts` | database/java/net_manip/IPv4Manip.java:85-121 | four octets in dotted form are read as their address |
| `IPv4.RoundTrip` | database/java/net_manip/IPv4Manip.java:80-121 | reading the printed form gives back the address |
| `IPv6.BigIntToIntArray` | database/java/net_manip/IPv6Manip.java:202-210 | the shifting loop fills the eight groups of the number |
| `IPv6.GroupsOfNumber` | database/java/net_manip/IPv6Manip.java:202-210 | from groups to the number and back |
| `IPv6.NumberOfGroups` | database/java/net_manip/IPv6Manip.java:202-249 | from a number to its groups and back |
| `IPv6.IntsToHexString` | database/java/net_manip/IPv6Manip.java:120-126 | the loop prints the groups as hexadecimal digits, four each |
| `IPv6.HexStringValue` | database/java/net_manip/IPv6Manip.java:246-249 | reading that text in base 16 gives the number of the groups |
| `IPv6.BitsToMask` | database/java/net_manip/IPv6Manip.java:142-155 | the group-wise mask is `bits` ones in front as one number |
| `IPv6.MaskGroup` | database/java/net_manip/IPv6Manip.java:142-155 | each group of the mask: full, partial or empty |
| `IPv6.BlockRange` | database/java/net_manip/IPv6Manip.java:237-327 | the mask denotes 2^128 - 2^(128-b), the base is the address rounded down to a multiple of 2^(128-b), and containment holds exactly when the first b bits agree |
| `IPv6.BlocksLaminar` | database/java/net_manip/IPv6Manip.java:255-327 | two blocks are disjoint or the longer prefix lies within the shorter |
| `IPv6Text.StringToInts` | database/java/net_manip/IPv6Manip.java:70-91 | the loops over the pieces compute the specified groups or fail at a ninth |
| `Refusals.ReadExactly` | database/java/net_manip/IPv6Manip.java:70-91 | a text is taken if and only if every piece that is not empty is a number, at most eight are not empty, and at most one is empty unless there are eight pieces or more |
| `Refusals.TooMany` | database/java/net_manip/IPv6Manip.java:70-91 | pieces joined by colons, none of them empty, are taken if and only if they are at most eight numbers |
| `Refusals.IntExactly` | database/java/net_manip/IPv6Manip.java:83 | a group may be as large as a signed `int` of 32 bits, and may be negative |
| `IPv6Text.PutZeros` | database/java/net_manip/IPv6Manip.java:78-81 | a gap writes as many zero groups as are missing |
| `IPv6Text.ReadFull` | database/java/net_manip/IPv6Manip.java:70-91 | eight hexadecimal groups read as their values, form 1 of section 2.2 of RFC 4291 |
| `IPv6Text.ReadGap` | database/java/net_manip/IPv6Manip.java:70-91 | at most seven groups around one `::` expand to eight, form 2 of that section, at either end too |
| `IPv6Short.IntsToShortString` | database/java/net_manip/IPv6Manip.java:107-117 | the loop joins the groups with colons and no leading zeros |
| `IPv6Short.IntegerToShortString` | database/java/net_manip/IPv6Manip.java:174-200 | the loop over matches, the cut and the rewrites compute the specified text |
| `IPv6Short.ScanIsLongest` | database/java/net_manip/IPv6Manip.java:182-191 | the text offsets the loop over matches ends with are those of the run of zero groups a loop over groups finds |
| `IPv6Short.CutIsRun` | database/java/net_manip/IPv6Manip.java:182-191 | the run cut out is a longest run of zero groups after the first group, the last of equals |
| `IPv6Short.ShortText` | database/java/net_manip/IPv6Manip.java:192-199 | the whole text printed, with the rewrites of a leading zero group |
| `IPv6Canonical.RecommendedIsBest` | database/java/net_manip/IPv6Manip.java:182-191 | the first of the longest runs of at least two zero groups, sections 4.2.2 and 4.2.3 of RFC 5952, found by a search of its own |
| `IPv6Canonical.CutIsBest` | database/java/net_manip/IPv6Manip.java:182-199 | the run the program replaces is that run if and only if no zero group stands behind the first group, or some run of two or more outdoes every other even without the first group of the address |
| `IPv6Canonical.PrintsRecommended` | database/java/net_manip/IPv6Manip.java:174-200 | the text printed is the recommended text under exactly that condition |
| `IPv6Canonical.SingleGroup` | database/java/net_manip/IPv6Manip.java:185-188 | an address whose single zero group is replaced |
| `IPv6Canonical.EqualRuns` | database/java/net_manip/IPv6Manip.java:185-188 | an address where the last of two equal runs is replaced |
| `IPv6Canonical.FirstGroupMissed` | database/java/net_manip/IPv6Manip.java:176-188 | an address whose longest run begins with the first group and is passed over for a shorter one |
| `IPv6Short.RoundTrip` | database/java/net_manip/IPv6Manip.java:70-200 | for all eight groups, reading the short form gives back the address |
| `Base64.Tables.Init` | aaa/pwtools/PasswordMangler/PasswordMangler.cpp:1023-1045 | the loops build both tables of section 4 of RFC 4648: symbols by sextet, sextets by symbol, the pad as zero and nothing else |
| `Base64.Tables.Four` | aaa/pwtools/PasswordMangler/PasswordMangler.cpp:1068-1075 | one turn writes the four symbols of the next group, as its shifts and masks pick them, and disturbs nothing before them |
| `Base64.Tables.Encode` | aaa/pwtools/PasswordMangler/PasswordMangler.cpp:1047-1082 | exactly 4*ceil(n/3) symbols and a terminator, within the allocation, spelling the encoding; no buffer exactly for no input |
| `Base64.Masks` | aaa/pwtools/PasswordMangler/PasswordMangler.cpp:1068-1073 | the shifts, masks and ors of the four table indexes are the four sextets of three bytes |
| `Base64.Sextets` | aaa/pwtools/PasswordMangler/PasswordMangler.cpp:1068-1073 | the four sextets join to the 24 bits of the three bytes, and those split into the bytes again |
| `Base64.SignedIndexes` | aaa/pwtools/PasswordMangler/PasswordMangler.cpp:1068-1073 | for signed characters the indexes stay within the encode table if and only if no character is negative |
| `Base64.NegativeCharacter` | aaa/pwtools/PasswordMangler/PasswordMangler.cpp:1068-1073 | the byte 0xff leaves the table from each of the three places |
| `Base64.EncodedLength` | aaa/pwtools/PasswordMangler/PasswordMangler.cpp:1059-1076 | the encoding has 4*ceil(n/3) symbols |
| `Base64.GroupEnds` | aaa/pwtools/PasswordMangler/PasswordMangler.cpp:1068-1075 | one or two bytes at the end give two pads or one, and zero bits where no byte is, section 3.5 of RFC 4648 |
| `Base64.RoundTrip` | aaa/pwtools/PasswordMangler/PasswordMangler.cpp:1023-1082 | decoding an encoding through the decode table gives back the bytes |
| `UrlEncode.CountedExactly` | aaa/pwtools/PasswordMangler/PasswordMangler.cpp:1209-1248 | the count is the length of the encoding if and only if no character is below 0x1f or above 0x7f; otherwise it is too small |
| `UrlEncode.ControlCharacter` | aaa/pwtools/PasswordMangler/PasswordMangler.cpp:1209-1248 | a control character counted as one byte and written as three |
| `UrlEncode.URLEncode` | aaa/pwtools/PasswordMangler/PasswordMangler.cpp:1172-1272 | for every source of single bytes: the counting pass returns the count, writing succeeds exactly from that size up and writes the whole encoding, and otherwise leaves the longest prefix of whole units that fits, terminated; where the count is right nothing past the size is written |
| `UrlEncode.RoundTrip` | aaa/pwtools/PasswordMangler/PasswordMangler.cpp:1209-1271 | percent-decoding the encoded text, section 2.1 of RFC 3986, gives back the source |
| `UrlEncode.NothingSpecial` | aaa/pwtools/PasswordMangler/PasswordMangler.cpp:1216-1248 | no special character but the percent sign is left |
| `UrlEncode.StaysExactly` | aaa/pwtools/PasswordMangler/PasswordMangler.cpp:1213-1247 | which characters stay as they are: letters, digits, seven marks, and the two control characters 0x1f and 0x7f |
| `UrlEncode.EncodedConcat` | aaa/pwtools/PasswordMangler/PasswordMangler.cpp:1209-1266 | encoding a text is encoding its parts, so every cut between units is the encoding of a prefix |
| `Slider.GetNearestValue` | javascript/external/scriptaculous/slider.js:105-124 | the loop finds the allowed value nearest to the given one, the greater of two; in a range, the nearest point |
| `Slider.NearestMonotone` | javascript/external/scriptaculous/slider.js:105-124 | snapping never turns the order of two values round |
| `Slider.ClampedNearest` | javascript/external/scriptaculous/slider.js:132-138 | clamping to the neighbours and then snapping gives the nearest allowed value between the neighbours |
| `Slider.Slider.SetValue` | javascript/external/scriptaculous/slider.js:125-147 | only the addressed handle moves, to an allowed value; a restricted slider whose handles are in order keeps them in order and moves the handle to the nearest allowed value between its neighbours |
| `Slider.Slider.constructor` | javascript/external/scriptaculous/slider.js:74-88 | every handle starts at the allowed value nearest to its option, and in order when the options are |
| `Slider.EffectiveIs` | javascript/external/scriptaculous/slider.js:77-81 | a zero option is read as the start of the range, like a missing one, and no other option is |
| `Slider.TargetIs` | javascript/external/scriptaculous/slider.js:126-131 | an index is the handle meant unless it is 0 and another handle is active; then, as where no index is given, the active one is |
| `InterfaceKeys.NumericInterface` | database/java/string_manip/NetworkStrings.java:36-59 | the loop builds the specified key, keeps a name that is no digit groups, and fails on a piece that is no number |
| `Refusals.KeptExactly` | database/java/string_manip/NetworkStrings.java:45-49 | a name stays as it is if and only if it has no digit, or a character other than a dot and a slash between two digits |
| `Refusals.RefusedExactly` | database/java/string_manip/NetworkStrings.java:51-54 | and any other fails if and only if a piece from its first digit to its last is empty or above the greatest `int` |
| `InterfaceKeys.WrittenKey` | database/java/string_manip/NetworkStrings.java:36-59 | for digit texts, with or without leading zeros and with any separators between them, whatever non-digits stand around, the key is that of their values |
| `InterfaceKeys.PaddedOrder` | database/java/string_manip/NetworkStrings.java:53-55 | of two components the smaller goes first if and only if it is no greater than as many leading digits of the greater as it has itself |
| `InterfaceKeys.KeyOrder` | database/java/string_manip/NetworkStrings.java:51-58 | text order of keys is the lexicographic order by that rule, for components of any size |
| `InterfaceKeys.KeyEqual` | database/java/string_manip/NetworkStrings.java:51-58 | equal keys mean equal components |
| `InterfaceKeys.NumericOrder` | database/java/string_manip/NetworkStrings.java:51-58 | text order of keys is numeric order if and only if at the first difference the smaller component is no greater than those leading digits |
| `InterfaceKeys.SmallOrder` | database/java/string_manip/NetworkStrings.java:51-58 | components below 100000 always meet that condition: text order is lexicographic order of the components, a proper prefix first |
| `InterfaceKeys.NameOrder` | database/java/string_manip/NetworkStrings.java:36-59 | the same for names: those that sort by keys are in the order of the components read from them, numeric exactly under that condition |
| `InterfaceKeys.DigitsOrder` | database/java/string_manip/NetworkStrings.java:53-54 | digit texts of one length are in the order of their values |
| `InterfaceKeys.WideComponent` | database/java/string_manip/NetworkStrings.java:53-54 | 100000 sorts before 99999, but after 10000 |

## Left out

- DOM effects, timers, transports, CSS and animation: browser behaviour. Nodes are a finite tree and callbacks are abstract steps of the environment.
- Callbacks that throw: they leave `firing` set, and the list never fires again.
- Contexts (`this`) in `Callbacks`, `Deferred` and `when`: only arguments are modelled; `then`, `pipe` and `always` are not.
- Selectors with positional pseudos, `:not` or `:has`, `querySelectorAll`, and the shortcuts for a lone ID, tag or class before `select` is reached.
- The regular expressions of `tokenize` for attributes and pseudos: `parse` is a parameter. `Select.Reading` lists what is asked of it: tokens have text, a sibling combinator shows in the text, and the texts of a single group make up the selector.
- The browser's finders: `Select.Find` takes them to return, in document order, the elements below a node that pass the token's own filter. `Expr.find.NAME` is not among them: no token has its type, since `Expr.filter` lists none.
- Search.Sizzle.Select: asks for an HTML page in which only the root may be a parent that is no element, and for a context that is the document or an element. It asks of the tokenizer that the list a call stores in the compile cache reads back from its text; `Lexer.AlwaysRereads` proves that for selectors without commas, brackets and colons, and for the others it is asked of that one list only.
- XML documents in `select`: there a selector without a leading combinator does not look at its context at all. `Matcher` covers XML.
- Matchers that run inside other matchers, with their fractional run numbers.
- The comparator's `sourceIndex` branch and nodes of different trees.
- DocumentOrder.UniqueSort: takes the results as the engine's `sort` leaves them, in some order that agrees with the comparator; `DocumentOrder.OrderIsTotal` is what a sort needs to give one.
- The `of-type` variants of `:nth-child` and the `simple` forms such as `:first-child`.
- CallbackSteps.EmptyAddSkips: lists that keep every callback, not those made with `unique`; what a callback removes after emptying the list is not followed.
- AjaxConvert.AjaxConvert: says nothing of inputs on which the original does not come to an end; `AjaxPaths.EndsExactly` says which those are. Keys are two type names with a space; lower-casing them and `dataFilter` are outside.
- Event types, `special` hooks, removing an empty list, and how selectors are matched in `handlers`: a test is a parameter.
- IPv4 netmask strings: `NetmaskStringToBits` is a literal table with mistyped entries. Prefix lengths outside 0..32 and 0..128, which the original does not check.
- Base64.Tables.Encode: bytes are 0..127, because any other index lies outside the table (`Base64.SignedIndexes`) and reading there has no meaning in C++; allocation failure and sizes near 2^32 are not modelled.
- UrlEncode.URLEncode: a buffer holds what is written: `*dstsz` places for the texts the count is right for, the whole encoding for the others. A missing `dstsz` is refused at once and is not modelled; with a buffer `dstsz` is at least 1.
- Slider.GetNearestValue: values are real numbers without rounding, and the list of allowed values is not empty.
- The drawing half of `setValue`, dragging, and the shared option values of a slider given as one number.
- The digits of the default locale in `DecimalFormat` are taken to be ASCII.
- Windows, LDAP, registry and HTTP code of the password mangler, the PHP pages, Prototype, the rest of script.aculo.us and the other plug-ins: foreign calls and user interface.
