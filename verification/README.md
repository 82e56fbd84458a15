# powaur: a verified model of its dependency engine

powaur installs packages from the AUR. It reads the installed packages and the
repositories into hash tables, crawls from the targets to everything they depend
on, draws a graph of the dependencies, sorts it, and builds what has to be built,
dependencies first. This project models that engine and proves what it is for.

How the modules follow the program:

| module | part of the program |
|---|---|
| `AllocSize` | the growth policy of every growable structure, in 32-bit unsigned arithmetic |
| `Names` | the hash and the comparison of package names |
| `Sequences` | the position of an element, used by several modules |
| `Probing`, `OpenTable` | the open-addressing tables: `Probing` has the laws of a probe, `OpenTable` the table itself |
| `SearchTree`, `HashBst` | the table from a name to the ordered tree of its providers |
| `Stack` | the growable stack |
| `Digraph`, `GraphModel`, `Graph` | depth-first search and topological sort: the walk on values, what a graph holds, the graph in the heap |
| `PackageDb`, `HashDb` | the package databases, and turning a name into a package (`normalize_package`) |
| `CrawlModel`, `Crawl` | the crawl of the dependencies (`build_dep_graph`) |
| `Install` | from the sorted graph to the install list (`upgrade_pkgs`) |
| `Fetch` | fetching build scripts round by round (`powaur_get --deps`) |
| `Rewriting`, `Substitution` | substitution of shell variables (`substitute_vars`): on strings, and in place |
| `Scenarios` | runs of an upgrade on small databases, with unexpected results |

The main results:

* **Sorting.** `Graph.Graph.Toposort` returns -1 if and only if the graph has a
  cycle, self-loops included. Otherwise it pushes every vertex once, and
  popping gives each edge's source before its target. Every step keeps one
  invariant (`Digraph.StepKeeps`) and does one unit of a finite amount of work.
* **Tables.** Every insertion, with or without a rehash, is the insertion of a
  first-insert-wins map, probes always end, and no insertion is dropped below
  715827875 entries.
* **Providers.** The search of a tree finds the least provider that is present,
  whatever the order of insertion and however often the table was rehashed.
* **Names.** What a name is answered with is told, case by case and both ways, by
  membership in the tables and the byte order of names
  (`PackageDb.NormalizedInOrder`). Recorded origins are true and never change; a
  cache hit is what the skipped searches would have found; a name once returned is
  returned again.
  The answer may depend on what was asked before, and does exactly where a
  repository provider hides an installed one (`PackageDb.OrderMattersWhenHidden`).
* **Crawl.** Unless the download or the directory of a name that has to be fetched
  is not to be had, the crawl resolves the closure of its targets and draws exactly
  the edges from each dependency to what depends on it, one for every entry in the
  package's database or build script; when it stops, it is known at which required
  name and why. Where nothing is hidden a thorough crawl finds what the tables alone
  determine (`Crawl.ThoroughCrawlsAgree`).
* **Installation.** The list has no package twice, holds exactly the AUR packages of
  the graph that are outdated or not installed, and has every dependency, direct
  or not, before what depends on it: every line of a build script on the list is
  answered by a package that is available or built before. Whatever a crawl that is
  Done downloaded is on the list. Whether it is complete follows from the targets
  (`Install.CompleteByTargets`): for installed AUR packages it always is, also after
  a crawl that stopped at a name.
* **Fetching.** The rounds end whatever the downloads do, nothing that was asked
  for and is on disk is left unread, and queued is exactly what the scripts list and
  neither the installed packages, the repositories, a provider nor the disk supply.
* **Substitution.** The rewriting meant is given by laws over the characters of the
  text (`Rewriting.PlainReplaced`, `BracedReplaced`, `DollarPassed` and
  `NothingToReplace`). How a run in place ends is a function of the text, the values
  and what the buffer holds behind the text (`Rewriting.FateOf`). It follows the run to
  its end, also where the run has lost its terminator, takes old text for references
  and substitutes behind the end it has on record. Every run that returns leaves the
  single-pass rewriting in the buffer if and only if that function says so
  (`Substitution.SubstituteVars`); the others go round for ever or leave the buffer.
  In a buffer cleared behind the text, as all callers supply, the lengths of the
  values alone tell, unless the terminator is missing as the text ends
  (`Rewriting.LengthsDecide`): then it depends on the old text, and the run may end
  either way (`Rewriting.GrowthAfterShrinkingSpoils`, `Rewriting.RightAfterAll`).

Where the code falls short of its comments the model follows the code:

* `substitute_vars` never ends at a value as long as its reference, and writes no
  terminator after a longer value. The terminator may be there already, or come back
  (`Rewriting.RegainedByShrinking`, `Rewriting.RegainedByGrowing`); else old text
  stays at the end (`Rewriting.GrowthAfterShrinkingSpoils`) or is taken for a
  reference (`Rewriting.GrowthAfterShrinkingOverreaches`), after which the string can
  even be right in the end (`Rewriting.RightAfterAll`).
* `normalize_package` can answer the same question differently at different times
  (`PackageDb.HiddenProvider`).
* A failed crawl does not stop an upgrade (`Scenarios.FailedCrawlStillInstalls`): what
  is proved of the list is then proved of the packages that were resolved.
* A target that an installed package provides stays a vertex without an origin, and
  empties the whole list although the crawl succeeded
  (`Scenarios.ProvidedTargetEmptiesList`).
* `crawl_resolve` does not look at the result of normalising a dependency read from
  a build script. When that failed, the caller goes on with a null name; the
  model ends with the outcome `NullDependency` (`Scenarios.NullDependencyArises`).
* The comparator of the search for a prime wraps around. It orders only values
  within 2^31 of each other, and the search is right all the same.

Assumed of the surroundings: comparators and hashes are lawful (proved for the ones
the program uses, `HashDb.NameOpsLawful` and `HashDb.PairOpsLawful`); the number of
names a crawl can meet is below the capacity of the tables; the AUR is a finite
map from names to the dependencies in their build scripts, fixed during a run.
Downloads and changes of directory succeed or fail arbitrarily, and a ghost
field lists the names at which they failed. The sign of a byte above 127 is a parameter of the
hash.

## Model

| member | source | states |
|---|---|---|
| `AllocSize.UintCmpOrdersNearbyOnly` | hash.c:18-21 | the comparator has the right sign exactly for values within 2^31 of each other, and is zero exactly on equal ones |
| `AllocSize.FindPrime` | hash.c:27-27 | the binary search with that comparator still finds a size exactly when it is in the table of primes |
| `AllocSize.NewAllocSize` | hash.c:23-36 | the next prime after a listed one, else half as much again after sixteen more, wrapping around |
| `AllocSize.NextByTable` | hash.c:27-33 | after each prime but the last comes the one listed next, after every other size the wrapped half as much again |
| `AllocSize.GrowsIffNoOverflow` | hash.c:269-274 | the callers' test for a larger size is an exact overflow detector: it passes if and only if the size is at most 1431655749, and then adds at least 24 |
| `Names.Sdbm` | util.c:731-745 | the loop of shifts computes the string as a number in base 65599, modulo 2^32 |
| `Names.ShiftFormIsMultiplication` | util.c:741-741 | one step of shifts and a subtraction is a multiplication by 65599 and an addition, modulo 2^32 |
| `Names.PolyConcat` | util.c:731-745 | without the modulus, the number of a concatenation is that of its first part times 65599 to the length of the second, plus that of the second |
| `Names.HashConcat` | util.c:731-745 | the hash of a concatenation follows from the hashes of its parts |
| `Names.PolyOfByte` | util.c:731-745 | the number of one byte is that byte, read as signed or unsigned from 128 on, and that of no byte is zero: with concatenation this fixes the number of every string |
| `Names.CompareSigns` | hashdb.c:167-177 | comparison is zero exactly on equal names and changes sign when turned round |
| `Names.CompareTransitive` | hashdb.c:167-177 | comparison is transitive |
| `Names.CompareOrders` | hashdb.c:167-177 | comparison is negative if and only if the first name is a proper prefix of the second or has the smaller byte where they first differ |
| `Probing.FreeEndMeansAbsent` | hash.c:242-261 | a probe that stops at a free slot proves that no equivalent key is in the table |
| `Probing.UsedEndMeansPresent` | hash.c:242-261 | a probe that stops at a used slot found the only binding of an equivalent key |
| `Probing.FillKeeps` | hash.c:315-321 | filling the slot where a probe stopped keeps the slots from every home to its entry in use, no key in two slots, and adds one binding |
| `Probing.FreeSlotExists` | hash.c:308-309 | fewer bindings than slots leave a free slot |
| `Probing.ProbeStep` | hash.c:255-257 | passing a slot brings the probe one step further from home, round the end of the array, and it has not come full circle |
| `Probing.MovedOne` | hash.c:285-290 | during a rehash no entry meets an equivalent key that was moved before it |
| `Probing.NeverInserted` | hash.c:306-331 | after any insertions a key is present exactly if an equivalent one was inserted |
| `Probing.FirstInsertWins` | hash.c:306-331 | after any insertions a key is bound to the value of its first insertion, and by one entry only |
| `Probing.InsertAllSize` | hash.c:306-322 | insertions leave no more bindings than there were insertions |
| `Probing.KeysListed` | hash.c:165-181 | walking the slots lists every key once |
| `OpenTable.Table.constructor` | hash.c:115-143 | an empty table of 109 slots, valid |
| `OpenTable.Table.Walk` | hash.c:242-261 | the probe loop ends, at the key's entry or at the first free slot from its home |
| `OpenTable.Table.Lookup` | hash.c:242-261 | the slot is free if and only if no equivalent key is bound, else it holds the binding |
| `OpenTable.Table.EntryInsert` | hash.c:219-239 | insertion during a rehash: first insert wins |
| `OpenTable.Table.MoveSlot` | hash.c:285-290 | one step of a rehash moves one entry, with the hash computed anew or taken from the entry according to the kind of table |
| `OpenTable.Table.Rehash` | hash.c:275-293 | the new array holds exactly the bindings of the old one |
| `OpenTable.Table.Grow` | hash.c:266-294 | fails exactly when the size cannot grow, and then changes nothing; else the bindings are kept in an array of the next size |
| `OpenTable.Table.Reserve` | hash.c:308-313 | after it, the table is less than half full, unless it is full to half and cannot grow |
| `OpenTable.Table.Insert` | hash.c:306-322 | first insert wins, except that nothing is inserted into a half full table that cannot grow |
| `OpenTable.Table.FindOrInsert` | hash.c:745-764 | the entry of an equivalent key, made with the given value if there was none; nothing exactly when the table cannot grow |
| `OpenTable.Table.Search` | hash.c:324-331 | the binding of an equivalent key, if and only if there is one |
| `OpenTable.Table.Pos` | hash.c:333-344 | the slot of an equivalent key, or -1 if and only if there is none |
| `OpenTable.Table.ToList` | hash.c:165-181 | every key of a plain table once, and nothing for the other kinds |
| `OpenTable.Table.NeverStuckBelowCapacity` | hash.c:308-313 | with fewer than 715827875 entries no insertion is dropped |
| `SearchTree.SortedInsertAscends` | hash.c:532-567 | putting a value in its place keeps the values in strictly ascending order |
| `SearchTree.SortedInsertMembers` | hash.c:532-567 | and adds that value and no other |
| `SearchTree.AscendingUnique` | hash.c:532-567 | ascending values are determined by which values they are |
| `SearchTree.FirstSomeIsLeast` | hash.c:510-529 | the first value accepted in ascending order is the least one accepted, and none is found only if none is accepted |
| `SearchTree.GraftInOrder` | hash.c:544-566 | hanging a node where the walk falls off the tree puts its value in its place in the order |
| `SearchTree.GraftKids` | hash.c:560-566 | and changes one link of one node that was there |
| `SearchTree.Tree.Descend` | hash.c:540-558 | the walk meets the value, or ends at the node and side where it has to be hung |
| `SearchTree.Tree.Hang` | hash.c:560-566 | hanging a node in place keeps the tree proper and adds the value in order |
| `SearchTree.Tree.Insert` | hash.c:532-567 | insertion into the linked tree is insertion into the ascending sequence of its values |
| `SearchTree.NodeSearch` | hash.c:510-529 | the recursive walk gives the first accepted value in ascending order |
| `HashBst.AddAllValues` | hash.c:604-611 | after any insertions the values of a key are those inserted for it, each once, ascending |
| `HashBst.InsertionOrderIrrelevant` | hash.c:604-622 | neither order nor repetition of insertions shows in the values of a key |
| `HashBst.InsertInto` | hash.c:766-766 | inserting into one tree leaves the trees of the other keys as they are |
| `HashBst.HashBst.Insert` | hash.c:745-767 | adds the value to the values of its key and changes nothing else, through rehashes too; drops it exactly when the table cannot grow |
| `HashBst.HashBst.Entry` | hash.c:748-764 | the tree of a key, made empty if there was none |
| `HashBst.HashBst.TreeSearch` | hash.c:613-622 | the first accepted value of the key in ascending order, or nothing |
| `Stack.Stack.Grow` | graph.c:287-292 | room is doubled, contents kept |
| `Stack.Stack.Push` | graph.c:294-301 | the contents gain the element on top, through growth too |
| `Stack.Stack.Pop` | graph.c:303-310 | the top is taken off and handed over |
| `Stack.Stack.Peek` | graph.c:312-319 | the top is handed over; on an empty stack the caller keeps what it had |
| `Digraph.BeginKeeps` | graph.c:179-186 | entering a white root establishes what the search keeps |
| `Digraph.FinishKeeps` | graph.c:189-195 | turning the top of the path black keeps it: all its successors were black |
| `Digraph.EnterKeeps` | graph.c:208-211 | entering a white successor keeps it: gray vertices are exactly the path, linked by the edges last scanned |
| `Digraph.GrayClosesCycle` | graph.c:197-207 | a gray successor closes a cycle along the path |
| `Digraph.StepKeeps` | graph.c:187-212 | every turn keeps the invariant and leaves one unit of work less: edges not scanned plus vertices not black |
| `Digraph.AllDone` | graph.c:235-244 | when no vertex is white and the path is empty, every vertex is finished, after all its successors |
| `Digraph.PathDescends` | graph.c:189-195 | in a finish order every path goes towards vertices finished earlier |
| `Digraph.FinishOrderAcyclic` | graph.c:227-245 | a finish order of all vertices excludes every cycle |
| `GraphModel.WithVertexAdds` | graph.c:143-162 | adding a vertex adds its name, no edge, and keeps names distinct and edges inside |
| `GraphModel.WithEdgeAdds` | graph.c:164-174 | adding an edge adds its two ends and that one edge |
| `GraphModel.BuildLinks` | graph.c:143-174 | a graph built by any sequence of insertions of vertices and edges has exactly the edges inserted |
| `GraphModel.BuildNames` | graph.c:143-174 | and exactly the vertices inserted, alone or as ends of edges |
| `GraphModel.FinishOrderPops` | graph.c:227-245 | popping a finish order of all vertices meets each name once, the source of every edge before its target |
| `GraphModel.ChainOrdered` | graph.c:227-245 | and the start of every chain of edges before its end |
| `Graph.Vertex.AddEdge` | graph.c:67-87 | the edge is appended unless listed; gives up exactly when the list is full and cannot grow |
| `Graph.Vertex.NextEdge` | graph.c:89-92 | the successor at the cursor, which moves on by one |
| `Graph.Graph.VindexLookup` | graph.c:94-100 | the index gives the position of every vertex and -1 for every other name |
| `Graph.Graph.AddVertex` | graph.c:143-162 | the vertex is there afterwards, once; array, lists and index agree |
| `Graph.Graph.AddEdge` | graph.c:164-174 | both ends and the edge are there afterwards, once |
| `Graph.Graph.Link` | graph.c:170-173 | the list of a vertex in the graph never has to give up |
| `Graph.Graph.FinishTop` | graph.c:189-195 | the position found through the index is that of the vertex on top, which turns black and is recorded |
| `Graph.Graph.ScanTop` | graph.c:197-211 | reports a cycle exactly if the next successor is gray, and enters it if it is white |
| `Graph.Graph.Turn` | graph.c:187-212 | each turn of the loop is a step of the walk, with less work left, or has met a cycle |
| `Graph.Graph.Dfs` | graph.c:177-216 | ends; -1 only with a cycle, else the finish order has grown and the root is no longer white |
| `Graph.Graph.Toposort` | graph.c:227-245 | -1 if and only if there is a cycle, else a finish order of all vertices is pushed |
| `Graph.Graph.GetVertexData` | graph.c:218-225 | the name at a position, if the position is one of a vertex |
| `PackageDb.FindProviderLeast` | hashdb.c:179-186 | the provider found is in the table and comes before every other one that is, byte by byte; none is found if and only if none is in the table |
| `PackageDb.NormalizedInOrder` | query.c:198-291 | the rule for a normalisation is, in every case and in both directions, the sequence of questions above, told by membership in the tables and the order of names |
| `PackageDb.SearchInOrder` | query.c:225-265 | a name is found outside the AUR exactly if an installed package or a repository package provides it or it is one of the repositories |
| `PackageDb.RepositoriesInOrder` | hashdb.c:135-140 | entering the concatenation of the repositories gives each name the package of the first repository that has it, and all its providers |
| `PackageDb.HashPackages` | hashdb.c:70-105 | the table has the first package of each name, and each name its providers, ascending; nothing else is added or lost |
| `PackageDb.HashedAgain` | hashdb.c:136-140 | entering one list after another is entering their concatenation |
| `PackageDb.OfferedAgain` | hashdb.c:136-140 | the same for what they provide |
| `PackageDb.NormalizeKeeps` | query.c:187-291 | origins stay true and none changes; every name returned has one |
| `PackageDb.NormalizeIdempotent` | query.c:187-291 | a name once returned is returned again at any later time and level, unless a download then needed fails |
| `PackageDb.RunKeeps` | query.c:187-291 | the same along every run of normalisations |
| `PackageDb.RunIdempotent` | query.c:187-291 | in every run from a state with true origins, such as one with targets marked outdated, a name returned earlier is returned again, with the same origin |
| `PackageDb.OrderMattersWhenHidden` | query.c:198-265 | in every state with true origins a name leads where it led at the start, if and only if it is not hidden by a recorded repository package |
| `PackageDb.HiddenProvider` | query.c:257-265 | an example in which the order of two questions changes an answer |
| `PackageDb.NothingHidden` | query.c:225-265 | nothing is ever hidden if no repository package that is not installed has an installed provider |
| `HashDb.NameOpsLawful` | hashdb.c:21-30 | hash and comparison of names are lawful, exact and a total order |
| `HashDb.PairOpsLawful` | hashdb.c:161-177 | those of package entries are lawful, and only the name counts |
| `HashDb.PutIsTableInsert` | hashdb.c:17-30 | insertion into the tables of names is insertion into a map where the first wins |
| `HashDb.HashDb.constructor` | hashdb.c:12-41 | a database of which nothing has been asked, consistent |
| `HashDb.HashDb.NormalizePackage` | query.c:187-291 | the answer, and what is recorded, follow the order of the questions: recorded, installed, least installed provider by the installed packages' account, then by the repositories', then the repository package of that name, then the least repository provider, and only then the AUR; origins and cache stay true; it fails only by a failed download |
| `HashDb.HashDb.SearchAur` | query.c:267-291 | nothing for an up-to-date AUR package at the immediate level, else a download, recorded if it succeeds |
| `HashDb.CacheHit` | query.c:219-223 | in every consistent state a hit is what the four skipped searches would have given, and nothing new would have been recorded |
| `HashDb.RecordKeeps` | query.c:225-265 | recording a provider keeps origins and cache true |
| `HashDb.BuildHashdb` | hashdb.c:107-159 | the tables are those of the installed packages and of the repositories, the first repository with a name winning; the AUR packages are the installed ones no repository has; nothing without installed packages |
| `HashDb.HashSyncs` | hashdb.c:135-140 | a name has the package of the first repository that has it, the first of that name in it; and as providers the packages of every repository that offer it |
| `HashDb.ComputeAur` | hashdb.c:142-152 | the installed packages no repository has, each with its origin |
| `CrawlModel.ChompsVersion` | query.c:15-32 | a version is cut off exactly unless a `<` or `=` is followed by a mark looked for before it |
| `CrawlModel.ChompsAtStrongest` | query.c:15-32 | what is cut off starts at the first of the strongest marks in the string, whatever comes before and after it |
| `CrawlModel.ChompsNothing` | query.c:15-32 | a name without a version stays as it is |
| `CrawlModel.FailureFetches` | query.c:267-287 | a normalisation fails only at a name that has to be fetched, which the tables alone tell |
| `CrawlModel.NormalizedDownloads` | query.c:267-287 | a normalisation downloads at most the name it returns, and only a name that has to be fetched |
| `CrawlModel.ScriptsAreFetched` | query.c:327-385 | the packages whose build scripts are read are exactly those that have to be fetched |
| `CrawlModel.NormalizedAnswers` | query.c:187-291 | what is returned is where the tables alone lead from the name, or the name itself when it is hidden |
| `CrawlModel.PlainAnswerInOrder` | query.c:198-265 | where the tables alone lead: the name if installed, the least installed provider, the name if in the repositories, the least repository provider, or the name |
| `CrawlModel.FetchesByTables` | query.c:267-287 | to be fetched are the installed AUR packages out of date, at the thorough level all of them, and the names that are neither installed, in the repositories, nor provided |
| `CrawlModel.HiddenByTables` | query.c:198-265 | a name is hidden if and only if it was recorded as a repository package and an installed package provides it |
| `CrawlModel.DepNamesListed` | query.c:322-397 | which list of dependencies is read follows from the tables alone, whatever was recorded |
| `CrawlModel.DepNamesComplete` | query.c:322-418 | the list has every entry of the package in the database it is from, in order and without versions, or every entry of its build script as it is |
| `CrawlModel.ExplainsInFull` | query.c:303-419 | the dependencies of a name are one for each entry that its package lists, in order |
| `CrawlModel.ExplainsPlainly` | query.c:303-419 | where nothing is hidden, the dependencies of a name are determined by the tables alone |
| `CrawlModel.CrawlingResolves` | query.c:513-544 | resolving a name keeps everything resolved or waiting needed, and loses nothing needed |
| `CrawlModel.CrawlingEnds` | query.c:513-544 | with nothing waiting, the resolved names are the closure of the targets |
| `CrawlModel.CrawlingRequires` | query.c:513-519 | what waits next on the worklist and all that was resolved is in every set closed under what is followed |
| `CrawlModel.DepNamesInside` | query.c:351-397 | dependencies stay inside a finite set of names fixed before the crawl |
| `Crawl.NormalizeAll` | query.c:351-364 | normalises one name after the other, from state to state; fails or leaves a gap exactly where a download failed |
| `Crawl.ListDependencies` | query.c:327-418 | every entry the package lists in the database it is from, without its version, or in its build script, is normalised in turn; a gap is left only in those of a build script, and a failure is that of the directory or of a listed name |
| `Crawl.CrawlResolve` | query.c:303-419 | one dependency for every entry that the name's package lists in its database or build script, each normalised in turn; both places where it would give up for want of an origin or an entry are unreachable; it fails or leaves a gap exactly if something outside failed, and the name that failed tells which of the two |
| `Crawl.ShouldWeContinueResolving` | query.c:426-447 | followed are all dependencies at the thorough level, at the other exactly those downloaded |
| `Crawl.LinkDeps` | query.c:527-536 | one edge from each dependency to the package, and the right ones on the worklist; whatever was downloaded before among the dependencies is followed, and whatever is downloaded meanwhile |
| `Crawl.AddImmediateDeps` | query.c:453-476 | exactly the new dependencies of a package to be installed are listed, each once |
| `Crawl.ResolveName` | query.c:521-541 | resolving one name draws its edges and nothing else; or it stops, unresolved for want of the name, its directory or a listed dependency, or with a gap for want of a dependency in its build script |
| `Crawl.Turn` | query.c:513-544 | each turn resolves one more name, or takes one off the worklist and resolves no other |
| `Crawl.BuildDepGraph` | query.c:478-551 | ends; when Done, the names resolved are the least set with the targets and what is followed; every resolved name has a dependency for every entry its package lists, in order, and an edge from each; no other edges are drawn, also after a failed name; when not Done, the name it stopped at is required and not resolved, and the name that failed tells why; when Done, whatever it downloaded was resolved |
| `Crawl.ToldInFull` | query.c:521-536 | every entry listed for a resolved name has its dependency, and every dependency its edge |
| `Crawl.FailureMeansFetch` | query.c:478-551 | a crawl that is not Done met a name that has to be fetched, so without one it is Done |
| `Crawl.ThoroughFollowsAll` | query.c:432-435 | a thorough crawl resolves the closure under all dependencies |
| `Crawl.ThoroughCrawlsAgree` | query.c:478-551 | where nothing is hidden, two thorough crawls of the same targets in any order and from any states resolve the same names to the same dependencies |
| `Install.SelectedMembers` | sync.c:482-506 | selected are exactly the packages recorded as from the AUR that are outdated or not installed |
| `Install.SelectedOrdered` | sync.c:465-507 | selection keeps the order and repeats nothing |
| `Install.SelectedInstallable` | sync.c:455-512 | from a topological order the list selected has dependencies first, also those through packages that are not on it |
| `Install.DependenciesComeFirst` | sync.c:455-512 | every dependency of a resolved package on the list needs no installation, or is on the list before it |
| `Install.ScriptRead` | query.c:377-418 | the dependencies of a resolved package to be installed are those of its own build script, all of them |
| `Install.ScriptsComeFirst` | sync.c:455-512 | each line of the build script of a resolved package on the list is answered by a package that is installed, in the repositories or up to date, or that is on the list before it |
| `Install.ResolvedInGraph` | query.c:527-536 | every resolved name is a vertex: a target, or a dependency of a resolved name |
| `Install.DownloadsAreListed` | sync.c:482-506 | nothing is downloaded in vain: whatever a crawl that is Done downloaded is on a complete list |
| `Install.InstalledAreResolved` | sync.c:518-581 | after a crawl that is Done every package on the list was resolved, or was marked outdated beforehand |
| `Install.TopoGetTargets` | sync.c:455-512 | the selection of the popped names in order; nothing if one of them has no origin |
| `Install.SeedTargets` | sync.c:546-552 | the targets become outdated and vertices, without edges |
| `Install.CircularMeansSelfDependent` | sync.c:557-561 | the sort fails exactly when a package depends on itself, directly or through others |
| `Install.SortAndList` | sync.c:557-565 | the sort's verdict, and the list from its order |
| `Install.ResolvedRecorded` | query.c:513-544 | every resolved name is a target or has an origin, and every dependency has one, also after a crawl that stopped at a name |
| `Install.CompleteByTargets` | sync.c:465-473 | the list is complete if and only if every target has an origin; a resolved target that the tables lead to itself has one, and where it is not hidden only such a target has |
| `Install.CompleteForeseen` | sync.c:465-473 | so the caller can tell beforehand: complete if all targets are installed AUR packages, or, after a crawl that is Done, if the tables lead every target to itself; incomplete if one is led elsewhere and nothing can be hidden |
| `Install.UpgradePkgs` | sync.c:518-581 | from the targets to the list: -1 exactly with a cycle in the graph of the crawl; else complete exactly when every vertex, and exactly when every target has an origin; and then without repetition, dependencies first: each line of the build script of a resolved package on it is answered by a package that needs no installation or is earlier on the list; and whatever a crawl that is Done downloaded is on it |
| `Scenarios.FailedCrawlStillInstalls` | sync.c:554-568 | every run on a certain database fails to crawl and has the package on the list all the same |
| `Scenarios.ProvidedTargetEmptiesList` | sync.c:465-473 | every run on a certain database crawls without failure and without a cycle and has an empty list |
| `Scenarios.NullDependencyArises` | query.c:403-414 | an example in which a dependency read from a build script cannot be had and the crawl goes on to a null name |
| `Fetch.SatisfiedByTables` | package.c:419-456 | a dependency is passed over exactly if it is installed, in the repositories, or provided by an installed or by a repository package |
| `Fetch.Fetcher.ResolveDependencies` | package.c:387-480 | exactly the dependencies listed by a script on disk of one of the packages that are not installed, not in the repositories, not provided by an installed or a repository package, and not on disk, each once |
| `Fetch.Fetcher.GetResolve` | download.c:236-251 | ends whatever the downloads do; only AUR scripts asked for are added; what was asked for is on disk and was read, or its download failed; whatever was queued is listed by a script read and was neither installed, in the repositories, provided, nor on disk; every dependency of a script read is one of those or was queued |
| `Fetch.RoundGained` | download.c:239-239 | a round adds only scripts that were asked for and forgets none |
| `Fetch.RoundNeeded` | download.c:240-240 | a round queues only what a script read needs, and all of it |
| `Fetch.RoundSettled` | download.c:238-242 | a round leaves to be fetched or read only what it queues |
| `Fetch.RoundShrinks` | download.c:240-242 | what is queued is not on disk, and a round in which nothing arrived is the last |
| `Rewriting.RewriteKeepsDone` | package.c:106-119 | text inserted is never looked at again |
| `Rewriting.RewriteNothing` | package.c:91-95 | a text without references to known variables is left alone |
| `Rewriting.RewriteFits` | package.c:102-103 | the result is never longer than the buffer allows |
| `Rewriting.PlainRef` | package.c:121-130 | a name after a dollar sign is read as far as its characters go |
| `Rewriting.BracedRef` | package.c:79-90 | a name in braces is read up to the closing brace |
| `Rewriting.WordLetters` | package.c:122-122 | names are made of the underscore and the letters and digits of ASCII, listed one by one |
| `Rewriting.PlainReplaced` | package.c:121-160 | a dollar sign and the longest word of those characters after it: an unknown name stays, a longer value that does not fit ends the rewriting, else the value takes the place of both and the rewriting goes on behind it |
| `Rewriting.BracedReplaced` | package.c:79-119 | the same for whatever stands in braces after a dollar sign |
| `Rewriting.DollarPassed` | package.c:83-127 | a dollar sign before any other character, and empty braces, are passed over |
| `Rewriting.NothingToReplace` | package.c:76-82 | without a dollar sign, at one at the end and at braces never closed the rest stays as it is |
| `Rewriting.RewriteShifts` | package.c:74-160 | what was put out before only takes room: behind it the rewriting is that of the rest alone |
| `Rewriting.ViewAgrees` | package.c:76-134 | of what is read inside a text nothing depends on what is behind it, save a dollar sign or a plain name at its end |
| `Rewriting.AccidentExact` | package.c:76-103 | a string that goes on in old text is the rewriting only by one kind of accident |
| `Rewriting.OldTextSpoils` | package.c:76-134 | where old text is read and nothing known is met in it, the run ends right exactly by that accident |
| `Rewriting.TurnKeeps` | package.c:76-160 | behind the end on record every turn brings the run further in the buffer, or leaves it less room before it, so it ends unless it is caught at one reference |
| `Rewriting.AstrayTurns` | package.c:100-119 | one substitution there: nothing is moved, the value is written over what follows, and a shorter one writes a terminator at the end on record |
| `Rewriting.LengthsDecide` | package.c:74-160 | in a cleared buffer, unless the terminator is missing as the text ends or before a plain reference to a known variable at its end, the run ends right if and only if no value met has the length of its reference and, if it stops at a value that does not fit, the terminator is there |
| `Rewriting.GrowingFinishes` | package.c:100-108 | values longer than their references always work in a cleared buffer |
| `Rewriting.ShrinkingFinishes` | package.c:109-117 | values shorter than their references always work |
| `Rewriting.SameLengthSticks` | package.c:100-119 | an example of a value as long as its reference |
| `Rewriting.RegainedByShrinking` | package.c:100-117 | an example of a terminator lost and written again by a shorter value |
| `Rewriting.RegainedByGrowing` | package.c:100-108 | an example of a terminator lost and met again by a longer value |
| `Rewriting.GrowthAfterShrinkingSpoils` | package.c:140-157 | an example of a terminator lost for good: the string is not the rewriting |
| `Rewriting.GrowthAfterShrinkingOverreaches` | package.c:140-157 | an example of old text read as a reference, whose value spoils the string |
| `Rewriting.RightByAccident` | package.c:121-134 | an example of a string that is the rewriting although the terminator is lost |
| `Rewriting.RightAfterAll` | package.c:140-157 | an example of a run that substitutes in old text behind the end on record and still leaves the rewriting |
| `Rewriting.RightInFullBuffer` | package.c:100-117 | the same in a buffer that was not cleared and has no terminator left |
| `Substitution.StrChr` | package.c:76-76 | finds the first such character before the terminator |
| `Substitution.ScanName` | package.c:121-124 | the end of the longest name from a position |
| `Substitution.ScanRef` | package.c:76-134 | reads in the buffer the reference that is next, and tells when it would have to read behind the buffer for it |
| `Substitution.ShiftUp` | package.c:104-106 | shifting from the end moves the rest of the text up unharmed, and nothing when there is no rest |
| `Substitution.ShiftDown` | package.c:112-113 | shifting from the front moves it down unharmed |
| `Substitution.Expand` | package.c:100-108 | the buffer with a reference replaced by a longer value, moved or written over, without a terminator |
| `Substitution.Contract` | package.c:109-117 | the buffer with a reference replaced by a shorter value, and a terminator at the end on record |
| `Substitution.PhaseReplaces` | package.c:96-119 | after a substitution, in the text meant or beyond it, the buffer is that of the next step towards the same end |
| `Substitution.Substitute` | package.c:96-119 | one substitution in the buffer is that step |
| `Substitution.PhaseFails` | package.c:76-134 | at a value of its reference's length the run never ends; where no terminator or no room is left it leaves the buffer |
| `Substitution.PhaseEnds` | package.c:76-111 | where the run returns, the string in the buffer is the rewriting if and only if the run is Finished |
| `Substitution.SubstituteVars` | package.c:67-163 | whether the run returns, never ends or leaves the buffer is given by the text, the values and what follows the text in the buffer; and so is, for every run that returns, whether it leaves the single-pass rewriting, in which each reference is replaced as the laws of `Rewriting` say character by character |
| `Substitution.CaughtForever` | package.c:118-119 | the reference met again is the same one |

## Left out

- HashDb.HashDb.NormalizePackage: the tables of the database are `map` and `set` fields with first-insert-wins insertion, not `Table` objects; `HashDb.PutIsTableInsert` and the contracts of `OpenTable` and `HashBst` connect the two. An insertion dropped because a table of the database cannot grow is therefore not part of it.
- HashDb.BuildHashdb: the names a package provides arrive without their versions; `strtrim_ver`, which cuts them, is not part of this model, and neither is the missing local database.
- PackageDb.HashPackages: the same holds here, and the 1024 bytes at which a provided name is cut off are not modelled.
- Crawl.CrawlResolve: strings are values, while the program passes a buffer it reuses as a key (query.c:353-363); the build script on disk is taken to be the one in the AUR; dependencies longer than a path are not cut off.
- Crawl.ShouldWeContinueResolving: a normalisation that fails here gives a null name, which is looked up among the downloaded ones; the model takes it not to be found.
- Crawl.BuildDepGraph: after the outcome `NullDependency` nothing is said of the graph; a failure to set up the network library, before which nothing is done, is not modelled; the list kept for printing is specified by `Crawl.AddImmediateDeps` alone.
- Crawl.NormalizeAll: strings are values, while the program normalises the dependencies of a database entry through one buffer that it reuses.
- Crawl.LinkDeps: stops at a missing dependency, where the program goes on with a null name.
- Crawl.ThoroughCrawlsAgree: only for the thorough level; at the immediate level what is followed depends on what was downloaded before.
- Install.UpgradePkgs: working directories, the debugging output and the installation of the listed packages one after the other (`topo_install`).
- Substitution.SubstituteVars: the run is not followed once it would read or write behind the buffer; letters and digits are those of ASCII.
- Rewriting.LengthsDecide: says nothing of the texts that the lengths leave open; of those `Rewriting.FateOf` tells.
- Crawl.ListDependencies: the build script on disk is the one in the AUR; a directory without one is not entered.
- Fetch.Fetcher.ThreadpoolDlExtract: one run of the worker threads puts any of its jobs on disk; their interleaving is not modelled, since the lock is local to each worker and excludes nothing.
- Graph.Graph.AddVertex: the growable array of vertices and the adjacency lists are sequences together with the size allocated for them; the copying of a reallocation is not modelled. The number of vertices is bounded by the capacity of the index.
- Names.CompareSigns: the test of `pkgpair_cmp` for null entries is not modelled; a null key marks a free slot and is never compared.
- HashDb.PairOpsLawful: the same test.
- Stack.Stack.Grow: the doubling of a signed size may overflow in the program; here it is unbounded.
- Stack.Stack.Push: the doubling of a signed size may overflow in the program; here it is unbounded.
- Stack.Stack.Pop: the guard in the program tests the capacity and never holds; the model demands a stack that is not empty, as every caller does.
- Tables whose values may be null pointers: a null value stored in a map from key to value would read as absent.
- `hash_walk`, the functions that free memory, exhaustion of memory: memory management only.
- `powaur_crawl` and `print_topo_order`: printing, with an uninitialised flag; the functions they call are modelled.
- `parse_bash_array`, `parse_pkgbuild`, configuration and options: line parsing with loosely defined results.
- `get_outdated_pkgs`, version comparison and everything else done by libalpm, curl, JSON and archive libraries: foreign calls; sequences and arbitrary outcomes stand for their results.
