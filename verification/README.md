# A model of BitBake's engine

BitBake reads recipes into a datastore, parses them in parallel worker processes, and works out
task dependencies, signatures and layer priorities from them. Its engine keeps much of this in
shared, lazily copied and cached structures that are meant to behave like something much simpler.
This project models those structures as they are and proves that they do, or exactly when.

## What is modelled

* **The datastore** (`bitbake/lib/bb/data_smart.py`). `FlatStore`, `OverrideChoice`, `StoreUpdates`
  and `Names` define a flat store: one map from names to values, flags and deferred operations, one
  override index, and a pure, uncached evaluator. A value is a sequence of literal letters and
  `${NAME}` references; a name is the sequence of its parts between colons. `Dictionaries` and
  `Datastore` are the objects: chains of dictionaries with tombstones, flag dictionaries copied when
  they are first written, operation lists and index lists shared between copies, overrides worked out
  on demand by a read that calls itself, and a cache emptied by each mutator. Every method is proved
  to do to the flat store what it should, and every read to give the evaluator's value. `CopyTree`
  lifts this to any run of operations over any tree of copies. `OverrideOrder`, `StoreLaws`,
  `OperationLaws`, `WriteLaws` and `Expansion` prove what the flat store promises.
* **Parallel parsing** (`bitbake/lib/bb/cooker.py`). `ParsePool` is a transition system: workers with
  a shared job counter, pending lists and queue feeders, and a server that reaps, gets and times out.
  One step is one access to something shared.
* **The signature stream** (`bitbake/lib/bb/cache.py`). `SiggenStream` is the de-duplicating encoder
  and decoder with any number of senders. `RecipeNames` is the packing of file name, class extension
  and multiconfig into one string.
* **Graph algorithms** (`bitbake/lib/bb/data.py`, `build.py`, `cooker.py`). `Dependencies`,
  `Signatures`, `TasksBetween` and `LayerPriority`, each proved against reachability (`Graphs`) or
  against demands that have one solution.
* **The log FIFO** (`bitbake/lib/bb/build.py`). `FifoSplitter`.
* **Copy-on-write histories** (`bitbake/lib/bb/COW.py`). `CowHistory` works on heap objects.

Side conditions that the code needs are stated as such. OVERRIDES has a literal value and no
variants (`Careful`), a store that has been copied is only read (`Legal`), and references are acyclic
where expansion is asked for (`Readable`). Where an expected property fails, there is a lemma or method
with an input: `PrefixHidesVariant`, `NoWorkersRaises`, `ZeroMakesOrderMatter`,
`BlankPatternHidesErrors`, `TwoChangesCanHide`, `SetAfterDelete`; and the exact condition is proved as an equivalence:
`WinnerIffDissolves`, `RaisesIffNoWorkers`, `OneChangeShows`, `PrioritiesDependOnOrder`, `HandleCollections`, `SetList`, and
likewise `UpdateIndexOk`, `DelVar`, `SetVarFlag`, `RestoresIffCovered`, `LeastIgnoresOrder`,
`RoundTripIff`, `RepackIff`, `VariantIff`, `TasksBetween`.

Six findings stand out. Splitting a bare lower-case name (`foo:append`) files it under its own name
cut by one letter. `delVar("OVERRIDES")` leaves the old overrides in force. A layer with the stated
priority 0 can make priorities depend on the order in which layers are listed, even its own. A layer
with an empty pattern wipes out the errors found before it, those of other layers' dependencies
included. Zero parser threads make the server report that recipes were not parsed although nothing
went wrong. Two changed dependencies can leave a task's hashed text as it was.

## Model

| member | source | states |
|---|---|---|
| OverrideChoice.ChooseVariant | bitbake/lib/bb/data_smart.py:806-829 | The rewriting loop over the active variants ends (every rewriting pass lowers the number of components), looks up no missing key, and yields the specified winner |
| OverrideChoice.WinnerIsActive | bitbake/lib/bb/data_smart.py:811-831 | Whatever the suffixes look like, a chosen variant is listed and has all its components in OVERRIDES |
| OverrideChoice.WinnerIffDissolves | bitbake/lib/bb/data_smart.py:811-831 | For every index list and OVERRIDES, a variant is chosen if and only if some active suffix dissolves: its last component can be cut out again and again, as text, meeting only overrides; this looks at one suffix at a time, and the winner has such a suffix |
| OverrideChoice.TidyVariantSuffices | bitbake/lib/bb/data_smart.py:811-831 | One active variant in whose suffix no component is a proper prefix of an earlier one (but the first) is enough, whatever the others look like |
| OverrideChoice.WinnerIffActive | bitbake/lib/bb/data_smart.py:811-831 | So a variant is chosen if and only if one is active, provided that some active one is like that if there are any |
| OverrideChoice.PrefixHidesVariant | bitbake/lib/bb/data_smart.py:826 | An active variant that is never chosen, because the textual replace of `:a` also cuts into `:ab` |
| OverrideChoice.WinnerIsLatest | bitbake/lib/bb/data_smart.py:819-829 | With single-component suffixes the variant whose override stands latest in OVERRIDES wins |
| OverrideOrder.WinnerIsCutLast | bitbake/lib/bb/data_smart.py:806-829 | Exactly which variant is read, for suffixes of any length none of whose components is a prefix of an earlier one (but the first): each component has the time at which the loop over OVERRIDES, repeated for ever, cuts it off, and the active variant with the greatest times, compared from its first component on, wins |
| OverrideOrder.MoreSpecificWins | bitbake/lib/bb/data_smart.py:819-829 | So a variant is not read when an active one extends its suffix |
| Expansion.ExpandTwice | bitbake/lib/bb/data_smart.py:109-119 | Expansion is idempotent, and exactly the references to variables without a value are left in its result |
| Expansion.ExpandConcat | bitbake/lib/bb/data_smart.py:453-485 | Expansion of two texts in a row is the expansion of each |
| Expansion.RefIsReplaced | bitbake/lib/bb/data_smart.py:109-119 | A reference is replaced by its variable's value wherever it stands, and stays when there is none |
| Names.OperationIsFirst | bitbake/lib/bb/data_smart.py:569-573 | A name is an operation exactly when a component "append", "prepend" or "remove" has no capital letter after it; the first such place gives base, kind and condition |
| Names.OldSyntaxIff | bitbake/lib/bb/data_smart.py:547-553 | A name is refused exactly when one of its components holds `_append`, `_prepend` or `_remove` and it does not start with `__anon_` |
| StoreLaws.AddSplitsExact | bitbake/lib/bb/data_smart.py:643-659 | The insertion loop adds exactly the pairs [r, o] with r = v:o at the splits it can reach, and makes no duplicates |
| StoreLaws.UpdateIndexOk | bitbake/lib/bb/data_smart.py:643-659 | The index keeps its shape if and only if the name is not a bare lower-case one, for which `rfind` returns -1 |
| StoreLaws.DropFromIndexExact | bitbake/lib/bb/data_smart.py:728-753 | After `delVar(r)` no list mentions r, because the removal loop reaches every split the insertion loop does; all other pairs stay, but for those of r's own list |
| StoreLaws.SetVarIndexOk | bitbake/lib/bb/data_smart.py:544-626 | An assignment or operation keeps the index in shape, except exactly an operation on a bare lower-case name |
| StoreLaws.AssignThenRead | bitbake/lib/bb/data_smart.py:593-624 | After a plain assignment outside parsing the variable reads as the value, whatever operations and variants it had |
| OperationLaws.ReadsAround | bitbake/lib/bb/data_smart.py:806-872 | A variable reads as its chosen variant's value, else its own, else a weak default, with the prepends whose conditions hold before it, last first, and the appends whose conditions hold after it, in order |
| OperationLaws.ExtendedReads | bitbake/lib/bb/data_smart.py:569-591 | From any state, with or without a value or variants: after any interleaving of `x:append`, `x:prepend`, `x:append:o` and `x:prepend:o` the variable reads as before, with the texts of those whose components are all in OVERRIDES around it |
| OperationLaws.AssignThenExtend | bitbake/lib/bb/data_smart.py:718-726 | After an assignment: the reversed prepends that hold, the value, and the appends that hold, in order |
| WriteLaws.SetFlagThenRead | bitbake/lib/bb/data_smart.py:755-772 | A flag that was set reads as its value; all other flags, the value, the operations and all other variables stay as they were |
| WriteLaws.WeakDefault | bitbake/lib/bb/data_smart.py:843-845 | A flag's weak default is read while the flag has no value, unless the reader wants none |
| WriteLaws.WeakValue | bitbake/lib/bb/data_smart.py:841-842 | The same for `_defaultval` and the variable's own value |
| WriteLaws.DelFlagThenRead | bitbake/lib/bb/data_smart.py:926-943 | A deleted flag has no value, and its weak default goes with it if the flag was there; everything else stays |
| WriteLaws.DelVarThenRead | bitbake/lib/bb/data_smart.py:728-753 | A deleted variable has no value, no flag and no variant, and all others stay as they were |
| WriteLaws.DelVarUnlists | bitbake/lib/bb/data_smart.py:728-753 | No index list mentions it any more, and all other pairs stay |
| WriteLaws.AssignDeletesActive | bitbake/lib/bb/data_smart.py:596-619 | A plain assignment deletes exactly the active variants and keeps the variable's flags; every other variable stays |
| WriteLaws.AssignWhileParsing | bitbake/lib/bb/data_smart.py:593-624 | While parsing an assignment only sets the value |
| WriteLaws.AssignLists | bitbake/lib/bb/data_smart.py:615-617 | An assigned variant is listed at each of its splits |
| WriteLaws.VariantReplacesValue | bitbake/lib/bb/data_smart.py:830-831 | The chosen variant's value is read in place of the variable's own |
| WriteLaws.OverridesAreTheText | bitbake/lib/bb/data_smart.py:490-512 | The overrides, joined by colons, are the text of OVERRIDES |
| Dictionaries.Level.Find | bitbake/lib/bb/data_smart.py:519-528 | The nearest binding in the chain, tombstones included |
| Dictionaries.Level.MakeShadowCopy | bitbake/lib/bb/data_smart.py:530-539 | A variable becomes bound at the top level with fresh flags, and the flat contents do not change |
| Dictionaries.Level.KeyList | bitbake/lib/bb/data_smart.py:1069-1087 | The keys whose nearest binding is not empty, apart from the skipped ones, for every pattern of tombstones and re-definitions |
| Dictionaries.OverrideData.UpdateOverrides | bitbake/lib/bb/data_smart.py:643-659 | Recreates each list before it writes it, so that lists shared with other stores keep their contents |
| Dictionaries.OverrideData.DropName | bitbake/lib/bb/data_smart.py:728-753 | The same for removal |
| Datastore.DataSmart.Copy | bitbake/lib/bb/data_smart.py:1013-1034 | A copy has the same flat contents, and a fresh dictionary on top of the origin's |
| Datastore.DataSmart.NeedOverrides | bitbake/lib/bb/data_smart.py:490-512 | Although the read of OVERRIDES calls back into it, the overrides end up as the evaluator's, in the first round; the cache then holds at most OVERRIDES |
| Datastore.DataSmart.GetVarFlag | bitbake/lib/bb/data_smart.py:786-924 | Ends on acyclic stores; the result, the parse result and every cache entry are what the uncached evaluator gives; the flat contents do not change |
| Datastore.DataSmart.ExpandWithRefs | bitbake/lib/bb/data_smart.py:453-485 | The loop of replacement passes ends and gives the evaluator's expansion |
| Datastore.DataSmart.ReadVarFlag | bitbake/lib/bb/data_smart.py:786-924 | The same between any two operations |
| Datastore.DataSmart.SetVar | bitbake/lib/bb/data_smart.py:544-626 | Does to the flat store what the specification says, writes nothing that another store reads, and leaves cache and overrides right |
| Datastore.DataSmart.DelVar | bitbake/lib/bb/data_smart.py:728-753 | The same; and the kept overrides are still right if and only if the variable is not OVERRIDES, or they were not worked out, or were empty |
| Datastore.DataSmart.SetVarFlag | bitbake/lib/bb/data_smart.py:755-784 | The same for a flag, including a default value that makes the name a variant, and exactly when the kept overrides are still right |
| Datastore.DataSmart.DelVarFlag | bitbake/lib/bb/data_smart.py:926-943 | The same for removing a flag, and when the kept overrides are still right |
| Datastore.DataSmart.Keys | bitbake/lib/bb/data_smart.py:1066-1101 | Yields, without repetition, exactly the variables with something in their nearest binding and those with an active variant |
| StoreUpdates.SetVarKeeps | bitbake/lib/bb/data_smart.py:544-626 | An assignment keeps the flat store sound, and the overrides unless it is OVERRIDES that is assigned |
| CopyTree.Run | bitbake/lib/bb/data_smart.py:544-1034 | Any run of writes, reads and copies over a tree of copies of any depth gives the answers and contents of stores that share nothing and cache nothing; and every store object that had been copied stands for the same flat store (bindings, flags, index lists) as before, although its objects are shared with the copies |
| CopyTree.RunFromNew | bitbake/lib/bb/data_smart.py:425-1034 | The same for every tree of copies that grows from a new store |
| CopyTree.IndexesStayOk | bitbake/lib/bb/data_smart.py:643-753 | Through any run, in every copy, each pair listed for v has the form v:o and no pair is listed twice |
| ParsePool.ExactlyOnce | bitbake/lib/bb/cooker.py:2098-2128 | In every reachable state, crashes, signals and full queues included, each job below the counter is in exactly one place and no job above it is anywhere |
| ParsePool.NoFalseError | bitbake/lib/bb/cooker.py:2312-2333 | With a worker, no disruption and only successful parses, no interleaving of exits, reaps, gets and time-outs makes the generator raise |
| ParsePool.RaisesIffNoWorkers | bitbake/lib/bb/cooker.py:2312-2333 | When all parses succeed, some undisturbed run raises if and only if there is something to parse and no worker |
| ParsePool.FinalCounts | bitbake/lib/bb/cooker.py:2336-2414 | When the generator ends, after any run at all, every parse has succeeded and been consumed once, no error is counted, parsed == toparse, parsed + cached == current == total, and virtuals is the sum of the result lengths |
| ParsePool.FailsIffBroken | bitbake/lib/bb/cooker.py:2336-2390 | In any run the server fails exactly when it has taken a broken result; that is the last it takes, one error is counted, and the workers are told to quit |
| ParsePool.RaisedMeansMissing | bitbake/lib/bb/cooker.py:2332-2333 | "Not all recipes parsed" is raised only when some job's result has not been taken |
| ParsePool.FewJobsAfterQuit | bitbake/lib/bb/cooker.py:2098-2110 | Once told to quit, only the workers that are at the job counter take one more job each |
| ParsePool.NoJobsAfterSignal | bitbake/lib/bb/cooker.py:2098-2110 | A worker that has got a signal takes no other job, unless it is at the job counter already |
| ParsePool.PutTakesNewest | bitbake/lib/bb/cooker.py:2119-2125 | The newest result is put first, and a refused one stays the newest |
| ParsePool.ResultsArePutAtOnce | bitbake/lib/bb/cooker.py:2112-2125 | What a worker still holds was refused by the queue before, but for one result |
| ParsePool.CanFinish | bitbake/lib/bb/cooker.py:2098-2128 | From every undisturbed state the generator can still reach its normal end |
| ParsePool.WorkIsBounded | bitbake/lib/bb/cooker.py:2098-2330 | In any run at all, crashes, signals and refused puts included, at most five steps for each job, four for each worker and one for each cached result get something done; all others only poll |
| SiggenStream.RecordRoundTrip | bitbake/lib/bb/cache.py:328-338 | The three fields of a record, with back-references across them and None values, are restored to equal values |
| SiggenStream.StreamRoundTrip | bitbake/lib/bb/cache.py:290-338 | For any number of senders and any interleaving, restoring never fails and the i-th record got from a process equals the i-th it sent |
| SiggenStream.EqualValuesAreOneObject | bitbake/lib/bb/cache.py:307-325 | Equal restored values are one interned object, whoever sent them and when |
| SiggenStream.StreamSendsOnce | bitbake/lib/bb/cache.py:290-304 | Over all records that a process sends after a reset, each value is sent in full exactly where it occurs first, and equal values, and only those, have equal numbers |
| SiggenStream.RestoresIffCovered | bitbake/lib/bb/cache.py:307-325 | Restoring avoids a KeyError if and only if every back-reference is in the table or given earlier in the list |
| SiggenStream.SiggenRecipeInfo.Save | bitbake/lib/bb/cache.py:290-304 | The loop over class attributes computes the encoder's function |
| SiggenStream.SiggenRecipeInfo.Restore | bitbake/lib/bb/cache.py:307-325 | The loop over class attributes computes the decoder's function, for the table of the given sender only |
| SiggenStream.RestoreStops | bitbake/lib/bb/cache.py:307-325 | A missing reference anywhere in a list makes the whole restoration fail |
| RecipeNames.PackedTexts | bitbake/lib/bb/cache.py:358-366 | The packed texts are `fn`, `virtual:C:fn`, `mc:M:fn` and `mc:M:virtual:C:fn` |
| RecipeNames.RoundTripIff | bitbake/lib/bb/cache.py:341-366 | `virtualfn2realfn(realfn2virtual(fn, cls, mc)) == (fn, cls, mc)` if and only if mc has no colon, fn has none under a class and does not start with "virtual:" without one, and does not look like a multiconfig name when bare |
| RecipeNames.RoundTrip | bitbake/lib/bb/cache.py:341-366 | It holds for file and multiconfig names without colons and any class extension |
| RecipeNames.RepackIff | bitbake/lib/bb/cache.py:341-366 | The other direction, `realfn2virtual` after `virtualfn2realfn`, holds if and only if the text does not start with "mc::" and the rest is neither "virtual:" with one colon nor "virtual::" with two |
| RecipeNames.VariantIff | bitbake/lib/bb/cache.py:358-379 | For mc without a colon, `variant2virtual(fn, "mc:M:C") == realfn2virtual(fn, C, M)` if and only if M is not empty and C does not start with a colon |
| RecipeNames.PlainVariantIff | bitbake/lib/bb/cache.py:358-379 | A variant without a multiconfig agrees with the class extension if and only if it does not look like one with a multiconfig |
| RecipeNames.VariantRoundTrip | bitbake/lib/bb/cache.py:341-379 | A variant's packed name unpacks to its parts |
| Dependencies.GenerateDependencies | bitbake/lib/bb/data.py:396-414 | The keys are exactly the tasks and what they reach, each with the given function's result, and the map is closed under its own edges |
| Signatures.GenerateDependencyHash | bitbake/lib/bb/data.py:416-449 | Misses no key; the dependencies of each task are what it reaches in one step or more, and its hash is of the value of the task and the sorted names and values of those, however sets are iterated |
| Signatures.EntryUnique | bitbake/lib/bb/data.py:420-447 | Dependencies and hashed text are determined by the two maps |
| Signatures.NonInterference | bitbake/lib/bb/data.py:420-447 | Two configurations that agree on a task and on what it reaches give it the same dependencies and hashed text |
| Signatures.EntryIsLaidOut | bitbake/lib/bb/data.py:420-447 | The hashed text is the value of the task, then the names of all it reaches in increasing order, each directly followed by its value |
| Signatures.OneChangeShows | bitbake/lib/bb/data.py:420-447 | When one value changes, of the task or of anything it reaches, the text stays the same exactly when that value's text does |
| Signatures.TwoChangesCanHide | bitbake/lib/bb/data.py:441-444 | Two changes can give the same text, because nothing separates names from values |
| TasksBetween.Walker.FollowChain | bitbake/lib/bb/build.py:1049-1066 | Reports a circular dependency if and only if some walk repeats a task; otherwise restores the chain and adds exactly the tasks on it and on arriving walks |
| TasksBetween.TasksBetween | bitbake/lib/bb/build.py:1041-1068 | A circular dependency is reported if and only if a cycle can be reached without passing the last task; otherwise the result holds, without duplicates, exactly the tasks on walks from the first to the last, the first task first and every other after one that it depends on |
| TasksBetween.TasksBetweenAcyclic | bitbake/lib/bb/build.py:1041-1068 | On an acyclic graph with another task there is no report, and the result is exactly what the first task reaches and what reaches the last |
| TasksBetween.ReportedCycleIsReal | bitbake/lib/bb/build.py:1054-1055 | A reported cycle is one that can be reached from the first task |
| TasksBetween.SameBetween | bitbake/lib/bb/build.py:1049-1066 | Looking only at chains that end at the last task loses nothing unless that task is on a cycle |
| LayerPriority.Priorities.CalcLayerPriority | bitbake/lib/bb/cooker.py:1259-1270 | Ends; sets the final priority of the layer and spoils no other; a KeyError happens if and only if a layer that is needed is not enabled |
| LayerPriority.RankedIffNoCycle | bitbake/lib/bb/cooker.py:1259-1270 | The condition under which the recursion is modelled holds if and only if no layer needs itself |
| LayerPriority.FinalIsFinal | bitbake/lib/bb/cooker.py:1259-1270 | A stated non-zero priority is kept, and every other layer gets 1 + the maximum of min_prio and its dependencies' final priorities |
| LayerPriority.FinalBySettings | bitbake/lib/bb/cooker.py:1187-1270 | The same in terms of the settings: a layer waits for its dependencies, and for those of its recommendations that are enabled |
| LayerPriority.PatternCases | bitbake/lib/bb/cooker.py:1274-1290 | An undefined or invalid pattern is an error, an empty one ends all errors, and both usable kinds list the layer |
| LayerPriority.FinalIsUnique | bitbake/lib/bb/cooker.py:1259-1270 | These demands have one solution, however the dependencies are ranked |
| LayerPriority.FinalsIgnoreRank | bitbake/lib/bb/cooker.py:1259-1270 | The way the acyclic dependencies are ranked plays no part in a layer's priority |
| LayerPriority.HandleCollections | bitbake/lib/bb/cooker.py:1173-1293 | The final priority of every layer with a usable pattern, in order; a KeyError exactly when a layer without a priority lacks a dependency; otherwise a CollectionError exactly when a broken pattern comes after the last empty one, or no pattern is empty and a dependency is at fault |
| LayerPriority.BlankPatternHidesErrors | bitbake/lib/bb/cooker.py:1280-1282 | A missing dependency that goes unreported, because an empty pattern resets the error flag |
| LayerPriority.LeastIgnoresOrder | bitbake/lib/bb/cooker.py:1187-1195 | min_prio does not depend on the order of the layers if and only if it is not the case that a zero and a positive but no negative priority are stated |
| LayerPriority.LeastIsMinimum | bitbake/lib/bb/cooker.py:1187-1195 | In those cases it is the minimum of the stated priorities |
| LayerPriority.PrioritiesDependOnOrder | bitbake/lib/bb/cooker.py:1187-1195 | Some other order of the layers gives some layer another priority if and only if a zero and a positive but no negative priority are stated, and some layer without one has only dependencies that are stated below the greatest stated priority |
| LayerPriority.ZeroMakesOrderMatter | bitbake/lib/bb/cooker.py:1187-1195 | Two layers, one stated as 0, whose priorities depend on the order |
| FifoSplitter.Fifo.ReadFifo | bitbake/lib/bb/build.py:493-530 | After each chunk, log and buffer are those of everything read so far; it raises exactly when a message does, which then stays in the buffer |
| FifoSplitter.ReadAll | bitbake/lib/bb/build.py:492-530 | However a stream is cut into chunks, only the whole of it matters |
| FifoSplitter.HandleMore | bitbake/lib/bb/build.py:493-530 | Going on with what is left over is like starting again with the whole stream |
| FifoSplitter.HandleCuts | bitbake/lib/bb/build.py:496-530 | The messages handled are the NUL-terminated pieces of the stream in order, up to the first that raises |
| FifoSplitter.CutsOnlyOnce | bitbake/lib/bb/build.py:496-530 | There is no other way to cut the stream like this |
| FifoSplitter.LeftoverFollowsLastNul | bitbake/lib/bb/build.py:496-530 | When no message raises, the buffer is the text after the last NUL and has none |
| FifoSplitter.CommandAndValue | bitbake/lib/bb/build.py:499-504 | A message is its command up to the first space and a value with all that follows; without a space the value is empty |
| FifoSplitter.TextCommands | bitbake/lib/bb/build.py:505-520 | The texts come through as they are, with the kind that the command names |
| FifoSplitter.DebugCommand | bitbake/lib/bb/build.py:521-525 | A debug message starts with its level, and one without a text raises |
| CowHistory.CowLevel.GetItem | bitbake/lib/bb/COW.py:61-105 | Gives what the nearest level has, as the level's own list unless only read, and changes what no level sees |
| CowHistory.CowLevel.OwnerIsNearest | bitbake/lib/bb/COW.py:61-72 | Every other level with a list is further up than the one that is found |
| CowHistory.CowLevel.SetList | bitbake/lib/bb/COW.py:54-59 | A list is seen from the level and from those below it without one in between, and all other lists stay; at each of these levels it can be read if and only if no plain value or deletion mark hides it |
| CowHistory.CowLevel.SetPlain | bitbake/lib/bb/COW.py:54-59 | An immutable value or a deletion hides every list of the key, and levels not below see nothing of it |
| CowHistory.SetAfterDelete | bitbake/lib/bb/COW.py:54-105 | A list set under a deleted key stays hidden |
| CowHistory.VariableHistory.Record | bitbake/lib/bb/data_smart.py:266-285 | The entry is added to what this history sees, once if asked so; only levels that share this level's list see it; the errors and the ignored cases |
| CowHistory.EntryIsKept | bitbake/lib/bb/data_smart.py:270-275 | An entry is recorded as it is, with "set" for its operation if it names none |
| CowHistory.EntryComesLast | bitbake/lib/bb/data_smart.py:279-285 | It comes last, all earlier entries stay, and it is left out exactly when it need not be repeated and is there |
| CowHistory.VariableHistory.Copy | bitbake/lib/bb/data_smart.py:248-251 | A copy sees what the original sees |
| CowHistory.Run | bitbake/lib/bb/COW.py:45-105 | No sequence of reads, records and further copies through a copy, to any depth, changes any object that existed before, so the original sees the same |

## Left out

- Datastore.DataSmart.GetVarFlag: a read with `parsing` set asks for no expansion, as in every caller; with both, the source caches the value without overrides and operations. The operation lists themselves are not read as flags.
- Datastore.DataSmart.SetVar: OVERRIDES and FILE get literal values, so `overridevars` never grows beyond these two (data_smart.py:628-641); `:remove`, renamed variables and the history record are not part of it.
- Datastore.DataSmart.SetVarFlag: no default value for a variant of OVERRIDES, and a literal one for OVERRIDES and FILE; the set of exported variables and the table of renamed ones, which copies share by design (data_smart.py:756-784), are not part of it.
- Datastore.DataSmart.NeedOverrides: the value of OVERRIDES is literal and its operations are unconditional, so the first of the five rounds settles it.
- CopyTree.Run: a store that has been copied is only read afterwards, and OVERRIDES is not deleted or stripped of flags during a run.
- SiggenStream.StreamRoundTrip: all senders start from a reset; pickling is the identity on the saved lists.
- ParsePool.CanFinish: says that an end can be reached; with `WorkIsBounded` only polling can go on for ever, but that a fair scheduler avoids it is not shown.
- LayerPriority.HandleCollections: a stated priority is a number (cooker.py:1190-1194), and whether a version constraint holds is given (cooker.py:1200-1247).
- TasksBetween.TasksBetween: each task is taken to have its list of dependencies.
- Signatures.GenerateDependencyHash: the digest is any function of the text; ignored variables are applied before.
- FifoSplitter.Fifo.ReadFifo: decoding of UTF-8 and of numbers are parameters that may fail; output is a list of events.
- CowHistory.VariableHistory.Record: the caller's file and line are given, and entries are values.
- Text such as `${${B}}`, where a reference is only complete after another is replaced, and `${@...}` Python expressions: a value is a sequence of letters and complete references.
- `:remove` operations, value filters, `renameVar`, `expandKeys`, `delVarFlags`, `setVarFlags`, `getVarFlags` and `get_hash` of the datastore.
- Nested copy-on-write dictionaries and sets, iteration and `__revertitem__` in COW.py.
- `build_dependencies` is a given function; code parsing, run queue, providers and fetchers are not part of this model.
- Files, locks, signals, process joining, event firing and the shutdown sequence.
