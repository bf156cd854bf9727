# A model of Breezy's revision engine

Breezy keeps history as a graph of revisions. This project models the parts of it that decide
about ancestry, attribute lines to revisions, keep several branches in step, and search
history, and proves what they promise.

- **The graph** (`Keys`, `Sequences`, `Dag`, `Frontier`, `NodeTable`, `GdfoWalk`, `Propagation`, `Growth`,
  `HeadSearch`, `TopoOrders`, `GcOrder`, `GcPlaces`, `KnownGraphs`). `KnownGraph` is an in-memory graph with ghosts, child
  links, a greatest distance from the origin ("gdfo") kept up to date while nodes are added, a
  search for heads that is cut off by it, a cache of heads, and two topological sorts. The class
  works on node objects in the heap; `Contents()` is its value, `ParentMap()` the graph it stands
  for. `Dag` holds the one definition of reachability, acyclicity, heads and left-hand distance
  that all the other parts use.
- **Annotation** (`Blocks`, `Blame`, `MergeAnnotations`, `AnnotatorState`, `AnnotationSchedule`,
  `FlatAnnotations`, `Annotators`, `AnnotatorCalls`, `Reannotate`, `ReannotateParents`). The
  annotator collects the texts it needs, counts their uses, merges the annotations of the parents in
  place and evicts what is not needed any more; `AnnotatorCalls` says which calls can follow one
  another. `Blame` says what an annotation is without reference to how it is computed.
- **Bound branches** (`Tips`, `Branches`, `Commits`, `BoundBranches`, `BranchRuns`, `LoneProcess`).
  `Branches` and `Commits` are the objects one process works with. `BoundBranches` is a state machine
  of any number of processes that commit, pull and push in small steps, with an unlocked comparison of
  tips, write locks, and an interruption possible between any two steps; `BranchRuns` proves what holds
  in all its runs. Both are specified by the functions of `Tips`, and `LoneProcess` shows that a process
  nobody comes between ends where the objects do.
- **Merge-sorted walks** (`MergeSorted`), **searches** (`Logarithms`, `BisectMulti`, `BisectLogs`,
  `BisectRuns`, `BisectFiles`) and **two stateful machines** (`CommandLines`, `CommandParts`,
  `Splitters`, `ChunkWriters`).

## Conventions

Keys are non-empty tuples of byte strings, compared lexicographically; the null revision is a key
of its own. The parts of the system that are not modelled appear as parameters with a contract: the
patience matcher (`Blame.ValidMatcher`, `Reannotate.ValidPolicy`), the record stream of a versioned
file (`AnnotatorState.ValidFile`), the revision graph of a repository (`Branches.ValidGraph`), the
merge sort (`MergeSorted.IsMergeSorted`), the content lookup (`BisectMulti.Truthful`) and the
compressor (`ChunkWriters.Faithful`). Errors that the code raises are values of `Result` or
`Outcome`.

A method is proved against a specification function or states its result outright, and lemmas say what
the specification functions mean in terms of their inputs alone (`Keys.KeyLessIff`,
`GcPlaces.AllPlaced`, `MergeSorted.KeptMember`, `CommandParts.WordsAreTokens` and the like); predicates that
name the state between two iterations of a loop (`Rest`, `Searching`, `Growing`, `Annotating`,
`Filtering` and the like) are the loop invariants.

Nine claims one might expect do not hold of the code. The model keeps the code's behaviour, shows an
input for each and says exactly when the claim holds:

- A cycle does not always make `topo_sort` raise (`TopoOrders.CycleMayBeSilent`). Whether it raises is
  decided by whether a node has only parents that reach a cycle (`KnownGraph.TopoSort`), and the order
  is complete exactly if the graph is acyclic (`TopoOrders.CompleteIffAcyclic`).
- Adding a node does not always terminate: a ghost that is filled in with its own child as parent raises
  its distance without end (`Growth.FilledGhostNeverEnds`). On a graph without cycles passing the new
  distance on comes to an end exactly if there is no cycle afterwards either (`Growth.AddEndsIff`); a ghost
  filled in with itself as parent is such a case. A new key that is its own parent is not: its distance is
  still missing when it is compared, which raises half way (`KnownGraph.AddNode`).
- Keys may be kept as heads that are ancestors of others, if a cycle lies between and the search stops in
  it (`HeadSearch.HeadMissed`). `KnownGraph.Heads` gives the answer on any graph, and
  `HeadSearch.HeadsRightIff` says when it is right: always if none of the keys leads into a cycle
  (`HeadSearch.UnreachedAreHeads`).
- An annotator cannot always be asked again: it forgets the texts of parents, but not that it knows them
  (`AnnotatorCalls.SecondCallMayFail`). After one revision a second can be annotated exactly if what it
  adds hangs on to the history of the first by the first alone, or it is a root of that history
  (`AnnotatorCalls.SecondCallIff`, `AnnotatorCalls.AnnotateBoth`); for any
  further call `Annotators.Annotator.Annotate` says it in terms of what is known and cached.
- A commit into a branch without revisions from a tree that has parents records the number 1
  (`Tips.StartingOverMiscounts`); the number is right exactly if this is not the case
  (`Tips.CommitIsNumbered`, `BranchRuns.NumbersStayRightIff`).
- A walk in merge order that ends with what the stop merged may lose ancestors of the start
  (`MergeSorted.MergesMayFallApart`). It keeps them all exactly if each is led to by one before it
  (`MergeSorted.KeepsAncestorsIff`), as with all other rules, and if the stop is an ancestor of the start
  (`MergeSorted.KeptHangsTogether`).
- A bisection without any "no" may stop at the first revision without trying it
  (`BisectRuns.StopsUntested`), exactly if one or two revisions are left (`BisectRuns.StopsUntestedIff`).
  So `bisect run` ends at the first revision that says yes exactly if that is the first of all or is more
  revisions away from it than are left untried (`BisectRuns.Run`).
- A pull into a bound branch reads the tip of the source twice. If it moves in between, the branch may
  get ahead of its master (`Tips.MovingSourceGetsAhead`); `Tips.UpdatedApartIff` says when it does not.
  The runs of `BranchRuns` assume, as the command does by locking the source, that it does not move.
- A pull from the master itself bypasses the master, so that a revision the master does not have puts the
  branch ahead (`Tips.PullingAheadOfMaster`), unless the branch diverged from it
  (`Tips.PulledFromMasterIff`). The runs of `BranchRuns` have exactly the pulls for which this condition
  holds.

## Model

| member | source | states |
|---|---|---|
| `KnownGraphs.KnownGraph.constructor` | breezy/_known_graph_py.py:61-96 | From any items with distinct keys, in any order, the graph stands for exactly that parent map, with mirrored child links and found distances, whether it has cycles or not |
| `KnownGraphs.KnownGraph.FindGdfo` | breezy/_known_graph_py.py:104-133 | On any graph a node gets a distance exactly if it is a root, a ghost or the child of a node that reaches no cycle, and the distance of every node that reaches no cycle is its longest chain |
| `Dag.GdfoIsLongestPath` | breezy/_known_graph_py.py:104-133 | The greatest distance from the origin exceeds n exactly if some chain of n parents starts at the key |
| `Dag.LabelsAreGdfo` | breezy/_known_graph_py.py:104-133 | A labelling that chains attest and that rises along every edge can only be the longest distances |
| `KnownGraphs.KnownGraph.AddNode` | breezy/_known_graph_py.py:135-199 | On a graph without cycles, before and after: adding a new key or filling in a ghost terminates, extends the parent map by exactly that entry and keeps distances the longest paths and every remembered heads answer right; a known key with other parents is refused and nothing changes; a new key that is its own parent raises where it is compared, with the parents before it linked |
| `KnownGraphs.KnownGraph.PropagateGdfo` | breezy/_known_graph_py.py:187-199 | On any graph, with cycles too, the loop does the turns of `Propagation.Turns` until the queue is empty, whenever that happens at all |
| `Growth.AddEndsIff` | breezy/_known_graph_py.py:135-199 | On a graph without cycles the loop that begins when the parents are linked comes to an end exactly if the graph has no cycle with the new node |
| `Growth.FilledGhostNeverEnds` | breezy/_known_graph_py.py:187-199 | A ghost filled in with its own child as parent, for which the queue is never empty |
| `Propagation.EndsIff` | breezy/_known_graph_py.py:187-199 | From any state between two turns the queue becomes empty exactly if the graph has no cycle |
| `Propagation.ComesToRestIff` | breezy/_known_graph_py.py:187-199 | Distances that no edge raises any more exist exactly if the graph has no cycle |
| `KnownGraphs.GdfoDependsOnGraph` | breezy/_known_graph_py.py:104-199 | Two graphs with the same parent map have the same keys and distances, however their nodes were added: building at once and adding one by one agree |
| `Growth.GrowHeads` | breezy/_known_graph_py.py:135-199 | Adding a node that was no ghost leaves the heads of every set of known keys as they were |
| `KnownGraphs.KnownGraph.Heads` | breezy/_known_graph_py.py:201-255 | On any graph the answer, cached or not, is the keys to which no chain leads on which the search does not stop, or a missing distance that it has to compare; if no key leads into a cycle it is exactly those that are not strict ancestors of another, with the null revision counting only when it is alone; an unknown key is reported |
| `KnownGraphs.KnownGraph.FindHeads` | breezy/_known_graph_py.py:228-255 | The walk that stops at the least distance of a candidate sees exactly what such chains lead to, on any graph, or meets a key without a distance |
| `KnownGraphs.HeadsFromGrounded` | breezy/_known_graph_py.py:228-255 | If no candidate leads into a cycle the walk needs no missing distance and its only answer is the heads by plain reachability |
| `HeadSearch.HeadsRightIff` | breezy/_known_graph_py.py:228-255 | On any graph the answer is the heads exactly if to every candidate below another leads a chain on which the search does not stop, and to none of the others one that goes round a cycle |
| `HeadSearch.ReachedIffBelow` | breezy/_known_graph_py.py:247-251 | If no ancestor that leads into a cycle stops the search, it comes to exactly the candidates that are ancestors of one |
| `HeadSearch.HeadMissed` | breezy/_known_graph_py.py:247-252 | A graph of five keys with all distances found in which the search stops within a cycle and keeps an ancestor of the other key |
| `Dag.HeadsCharacterised` | breezy/_known_graph_py.py:201-216 | The heads are the only antichain among the keys asked for such that each of these is in it or an ancestor of one of its members |
| `Dag.HeadsDominate` | breezy/_known_graph_py.py:201-216 | Every key asked for is a head or an ancestor of one |
| `Dag.HeadsOfPair` | breezy/_known_graph_py.py:201-255 | The heads of two keys decide which is an ancestor of the other |
| `Dag.AcyclicIffGrounded` | breezy/_known_graph_py.py:257-266 | A graph is acyclic exactly if all chains of parents are bounded |
| `KnownGraphs.KnownGraph.TopoSort` | breezy/_known_graph_py.py:257-289 | It raises exactly if some key has parents all of which reach a cycle; otherwise it emits exactly the non-ghosts that reach no cycle, each once and after its parents |
| `TopoOrders.CompleteIffAcyclic` | breezy/_known_graph_py.py:257-289 | An order that was returned contains every non-ghost exactly if the graph is acyclic |
| `TopoOrders.AcyclicIsNotStuck` | breezy/_known_graph_py.py:262-264 | On an acyclic graph nothing is reported as a cycle |
| `TopoOrders.CycleMayBeSilent` | breezy/_known_graph_py.py:262-264 | A graph with a cycle that is not reported but left out of the order |
| `KnownGraphs.KnownGraph.GcSort` | breezy/_known_graph_py.py:291-333 | On any graph exactly the non-ghosts without a cycle among their descendants and themselves, each once and after its children, so none is lost exactly if the graph is acyclic; tips in ascending order of prefix and key, each last child followed at once by one of the parents it completes, and these in ascending order; grouped by prefix in sorted order if parents share the prefix of their children |
| `GcOrder.OrderDependsOnGraph` | breezy/_known_graph_py.py:291-333 | The order depends on the parent map only, not on the order in which nodes or child links were added |
| `GcOrder.OrderIsGrouped` | breezy/_known_graph_py.py:304-313 | Where parents share the prefix of their children the order is sorted by prefix |
| `GcOrder.EmittedIsOrdered` | breezy/_known_graph_py.py:311-333 | Emitting what has no children left gives, children first and each once, exactly the non-ghosts without a cycle below them |
| `GcPlaces.AllPlaced` | breezy/_known_graph_py.py:311-333 | Taking from the end of a list sorted in reverse, and putting what becomes ready on top of it, puts out tips and the parents completed by one key in ascending order, and goes down before it goes on |
| `Dag.GroundedIffNoCycle` | breezy/_known_graph_py.py:291-333 | The chains from a key are bounded exactly if no key that they reach lies on a cycle |
| `Keys.KeyOrder` | breezy/_known_graph_py.py:312-318 | Tuples of byte strings are strictly and totally ordered |
| `Keys.KeyLessIff` | breezy/_known_graph_py.py:312-318 | Where two keys first differ the lesser component decides, and a proper beginning is less |
| `Keys.StrLessIff` | breezy/_known_graph_py.py:312-318 | Where two byte strings first differ the lesser byte decides, and a proper beginning is less |
| `Keys.SortedCanonical` | breezy/_known_graph_py.py:312-318 | Sorting depends on the elements only |
| `Blame.BlameIff` | breezy/_annotator_py.py:141-227 | A key is blamed for a line exactly if matching blocks lead through parents to a line of that key which none of its own parents has; it is then an ancestor or the annotated key, and its text has the very line |
| `Blame.BlamedInOrder` | breezy/_annotator_py.py:183-202 | The keys blamed for a line are listed in ascending order, each once |
| `Blame.BlameIsJustified` | breezy/_annotator_py.py:141-227 | From a blamed key back to the path of matching lines |
| `Blame.BlameIsComplete` | breezy/_annotator_py.py:141-227 | Whoever introduced a line that matching steps lead to is blamed for it |
| `Blame.TraceKeepsLine` | breezy/_annotator_py.py:132-152 | Matching steps follow parents and keep the text of the line |
| `Blame.ParentOrderIrrelevant` | breezy/_annotator_py.py:216-227 | The order in which parents are listed makes no difference to the origins of a line |
| `Blocks.MatchIsEqual` | breezy/_annotator_py.py:137-139 | A line matched along valid blocks equals the line it is matched with |
| `Blocks.MatchInBlock` | breezy/_annotator_py.py:137-139 | A line within a block is matched with the line as far into the other side of it |
| `Blocks.MatchMisses` | breezy/_annotator_py.py:137-139 | A line in no block is not matched |
| `MergeAnnotations.UpdateFromFirstParent` | breezy/_annotator_py.py:141-152 | Copying a parent's annotations along the blocks into an unattributed text is merging them |
| `MergeAnnotations.UpdateFromOtherParents` | breezy/_annotator_py.py:154-202 | The in-place merge, with its skipped blocks and its memo, merges every matched line and no other |
| `MergeAnnotations.MergeLine` | breezy/_annotator_py.py:179-202 | The memo of the last pair never changes what a line is merged to |
| `MergeAnnotations.PartialStep` | breezy/_annotator_py.py:183-202 | Merging one parent more keeps the annotation the sorted duplicate-free union of what the matching parents say, or the key itself if none matches |
| `AnnotatorState.CollectRound` | breezy/_annotator_py.py:61-90 | A round of the search for needed keys keeps it within the ancestry of the requested key, with the parents of what is done that are not known as what comes next |
| `AnnotatorState.CollectEnd` | breezy/_annotator_py.py:61-91 | When nothing more is needed, what was collected is exactly the requested key and its ancestors, without those that were known before |
| `Annotators.Annotator.GetNeededKeys` | breezy/_annotator_py.py:44-91 | After any calls before, the texts to extract and to annotate are exactly those of the key and its ancestors up to the known ones, the key alone if it is known itself, and none if it is cached; each counter is the number of new uses as a parent, plus one for every key asked for |
| `Annotators.Annotator.UpdateNeededChildren` | breezy/_annotator_py.py:37-42 | Every mention as a parent is counted |
| `Annotators.Annotator.AddSpecialText` | breezy/_annotator_py.py:229-242 | The history to be annotated has the text and its parents afterwards; a text whose key was not known leaves all that was annotated right and counted, and is what is still to be annotated |
| `Annotators.Annotator.RecordAnnotation` | breezy/_annotator_py.py:204-214 | Each mention of a parent is counted off once, a parent is evicted from both caches exactly when its count falls to zero on the way, and it is there to be evicted |
| `Annotators.Annotator.AnnotateOne` | breezy/_annotator_py.py:216-227 | The annotation recorded is the closed form of all parents, unless one of them is not cached, which is reported |
| `AnnotationSchedule.ParentsCached` | breezy/_annotator_py.py:121-139 | When a text is annotated, a parent's text and annotation are cached exactly if the parent was cached or annotated before in this call |
| `AnnotationSchedule.MakeSchedule` | breezy/_annotator_py.py:93-119 | The stream and the text added by hand come parents first, and each is wanted by the caller or a parent of one that comes later |
| `AnnotationSchedule.AnnotateNext` | breezy/_annotator_py.py:204-227 | After each text the caches hold exactly the texts with a use still to come or asked for by some call, and the counters exactly these uses |
| `AnnotationSchedule.StillNeeded` | breezy/_annotator_py.py:204-214 | What has just been annotated is needed by a child to come or by a caller |
| `AnnotationSchedule.AnnotateEnd` | breezy/_annotator_py.py:244-260 | At the end the caches hold what earlier calls asked for and the requested key, and nothing else |
| `AnnotationSchedule.AnnotateAgain` | breezy/_annotator_py.py:204-227 | A known text that is annotated again uses up the cached parents that earlier calls asked for |
| `AnnotatorState.AddedIsConsistent` | breezy/_annotator_py.py:229-242 | A text added by hand under a new key leaves every cached annotation right in the longer history |
| `Annotators.Annotator.Annotate` | breezy/_annotator_py.py:244-260 | After any calls before, it succeeds exactly if all texts it has to annotate are there and none has a parent that was evicted; then it gives the closed form of the annotation and the lines, caches exactly what it says and knows exactly the annotated keys more; else it names a missing text or an evicted parent |
| `AnnotatorCalls.FirstCallIff` | breezy/_annotator_py.py:244-260 | A new annotator can annotate a key exactly if all its ancestors have texts |
| `AnnotatorCalls.SecondCallIff` | breezy/_annotator_py.py:61-90 | After a call for one key the condition for a second is: the same key, or a known key without parents, or one whose new ancestors have texts and no parent among the known ones but the first key |
| `AnnotatorCalls.AnnotateBoth` | breezy/_annotator_py.py:44-260 | Of two calls on a new annotator each succeeds exactly under these conditions, and the second gives the closed form as well |
| `AnnotatorCalls.SecondCallMayFail` | breezy/_annotator_py.py:61-90 | In a chain of three, the middle one can be annotated, but not after the last |
| `FlatAnnotations.FlatKey` | breezy/_annotator_py.py:294-306 | The key chosen for a line is a head of its annotation, the least one when there is no tie breaker |
| `Annotators.Annotator.AnnotateFlat` | breezy/_annotator_py.py:280-307 | Every line is kept and attributed to a head of its origins in the whole history, so never to an ancestor of another origin |
| `Reannotate.ReannotateOne` | breezy/annotate.py:278-294 | Each line comes from the parent's matching line or is new |
| `Reannotate.FromParentIs` | breezy/annotate.py:278-294 | A line within a block is the parent's line there with its origin, and a line in none is new |
| `Reannotate.ResolveLine` | breezy/annotate.py:377-400 | Two claims to a line are settled as the code does |
| `Reannotate.ResolveGivesHead` | breezy/annotate.py:377-400 | What the left side calls new is the right side's; equal claims stand; a dispute goes to the new revision without heads, and with them to a head, the lesser of two unless a tie breaker chooses; the text is kept |
| `Reannotate.ResolveIsStable` | breezy/annotate.py:390-400 | Swapping the two sides changes nothing when both claim the line, so criss-cross merges settle |
| `ReannotateParents.FindMatchingUnannotatedLines` | breezy/annotate.py:328-401 | Every line of a gap is settled with its match in the gap of the other parent, or kept |
| `ReannotateParents.ReannotateAnnotated` | breezy/annotate.py:404-455 | Every line is settled with its counterpart: the line it matches as annotated, else the one it matches as plain text between the same blocks |
| `ReannotateParents.CounterpartHasText` | breezy/annotate.py:404-455 | A line is only ever settled with a line of the same text |
| `ReannotateParents.CounterpartIs` | breezy/annotate.py:426-455 | The counterpart is the line in the same block of equal annotated lines, or the match of the plain text between the same two blocks |
| `ReannotateParents.Agree` | breezy/annotate.py:256-274 | With three parents or more a line goes to the one origin that is claimed, if there is exactly one, whatever the order of the parents |
| `ReannotateParents.AgreedIff` | breezy/annotate.py:256-274 | The origin is one that some parent claims while every other parent claims it too or calls the line new, or else the new revision |
| `ReannotateParents.ReannotateText` | breezy/annotate.py:217-275 | For any number of parents the texts returned are the new lines in order, and each origin is the new revision or the origin some parent gives to an identical line; with one parent the matched line, with two each line decided between the first parent's and its counterpart in the second, which has it if the first has not, with more the one origin claimed |
| `Tips.HeadsDecide` | breezy/branch.py:1458-1472 | Which of two revisions is behind the other, the null revision included, is read off their heads |
| `Tips.UpdatedIsUniqueHead` | breezy/branch.py:2290-2312 | An update goes to the unique head of the old tip and the revision asked for, stays with its number if it has that revision, and fails exactly if neither descends from the other |
| `Tips.UpdatedBothIs` | breezy/branch.py:2346-2368 | Master and branch each move exactly if what they are asked for is ahead of them, and a master that diverged stops the branch too |
| `Tips.UpdatedBothKeepsBehind` | breezy/branch.py:2331-2368 | Updating the master and then the bound branch to one revision keeps the branch behind its master, also if the second update fails |
| `Tips.UpdatedApartIff` | breezy/branch.py:2346-2368 | If the two updates see different revisions the branch stays behind exactly if the master diverged from the first or the branch from the second, or the master has the second, or the second is an ancestor of the first, to which the master moves |
| `Tips.MovingSourceGetsAhead` | breezy/branch.py:2346-2368 | A commit to the source between the two updates puts the branch ahead of its master |
| `Tips.PulledFromMasterIff` | breezy/branch.py:2331-2368 | A pull from the master itself, which the master does not take part in, leaves the branch behind exactly if the master has the revision or the branch diverged from it |
| `Tips.PullingAheadOfMaster` | breezy/branch.py:2331-2340 | Pulling a child of the master's tip from the master puts the branch ahead |
| `Tips.CatchesUp` | breezy/branch.py:2331-2340 | A branch behind its master never diverges from it, and pulling from the master brings it up to date |
| `Tips.CommitIsAhead` | breezy/commit.py:588-590 | A commit that passes the check descends from the tip it replaces |
| `Tips.CommitIsNumbered` | breezy/commit.py:588-598 | The number recorded is the left-hand distance exactly unless the tip was null and the tree had parents |
| `Tips.StartingOverMiscounts` | breezy/commit.py:588-598 | A tree with a parent committed into an empty branch is numbered 1 instead of 2 |
| `Tips.CommitKeepsSound` | breezy/commit.py:369-391 | A new revision with present parents keeps the history acyclic and without ghosts |
| `Branches.Branch.CheckIfDescendantOrDiverged` | breezy/branch.py:1438-1472 | True, false or diverged according to ancestry |
| `Branches.Branch.UpdateRevisions` | breezy/branch.py:2272-2312 | Without overwriting the tip moves as `Updated` says or the call fails with the tip unchanged; with overwriting it moves to the revision asked for, unless that is the tip of an empty source |
| `Branches.Branch.Pull` | breezy/branch.py:2314-2368 | The master first, then the branch, or the branch alone when the source is the master, the branch is unbound or the pull is local; a failing master leaves the branch alone; both are asked for the source's tip with its number, or for the given revision with its left-hand distance |
| `Branches.Branch.BasicPush` | breezy/branch.py:2436-2459 | A push moves the tip like a pull, with the same number, and does nothing if the tip is the revision asked for |
| `Branches.Branch.Push` | breezy/branch.py:2370-2434 | A push into a bound branch goes to the master first; both are asked for the same as in a pull |
| `Branches.Branch.Check` | breezy/branch.py:1255-1284 | Nothing is reported exactly if the number of the tip is its left-hand distance |
| `Commits.Commit.CheckBoundBranch` | breezy/commit.py:520-561 | Refused if local without a master, if the master is bound itself, or if the tips differ; otherwise the branch to extend is settled |
| `Commits.Commit.CheckOutOfDateTree` | breezy/commit.py:563-598 | Refused exactly if the tip is neither null nor the first of the tree's parents; the new number is one more, and there is none on top of a left parent that the repository does not have |
| `Commits.Commit.UpdateBranches` | breezy/commit.py:447-480 | Master and branch both end at the new revision |
| `Commits.Commit.Run` | breezy/commit.py:308-397 | It succeeds exactly if the branch is level with its master, or has one and the commit is local, and the target's tip is null or the first parent of the tree; then the revision has the tree's parents, descends from the tip it replaces and becomes the tip of both branches as `Tips.Committed` says; otherwise nothing changes |
| `BoundBranches.StepKeepsInv` | breezy/commit.py:308-480 | Every small step of every process keeps the invariant of locks, tips and activities, and moves tips only ahead |
| `BoundBranches.OthersUnmoved` | breezy/commit.py:558-561 | While a process holds the write lock of its target, the tip it checked there stays |
| `BranchRuns.BoundNeverAhead` | breezy/branch.py:2331-2421 | In every reachable state of any number of committing, pulling and pushing processes, after interruptions and failures too, a bound branch's tip is its master's tip or an ancestor of it; of the pulls from the master itself it excludes exactly those that put the branch ahead at once |
| `BranchRuns.NothingIsLost` | breezy/commit.py:447-480 | What was once the tip of a branch stays in its history for the rest of the run |
| `BranchRuns.CommitReplacesItsParent` | breezy/commit.py:552-598 | In every run a commit that moves a branch has the tip it replaces as left parent, or replaces null, although the tips were compared before the master was locked |
| `BranchRuns.UpdateGoesToTheHead` | breezy/branch.py:2272-2312 | In every run a pull or push moves a branch to the unique head of its tip and the revision, or finds two heads and moves nothing |
| `BranchRuns.CompareMayBeStale` | breezy/commit.py:552-561 | A run in which the master has moved after the unlocked comparison, so that the check under the lock is needed |
| `BranchRuns.NumbersStayRightIff` | breezy/commit.py:588-598 | Moving a branch to a commit keeps all recorded numbers right exactly unless the commit starts over |
| `BranchRuns.NumbersAreDistances` | breezy/branch.py:1269-1284 | In every run without such a commit all branches record the left-hand distance of their tip in every state |
| `LoneProcess.CommitAlone` | breezy/commit.py:308-480 | The steps of one commit with no other process between them end with both tips as `Tips.Committed` says, as `Commits.Commit.Run` does, or with nothing changed |
| `LoneProcess.UpdateAlone` | breezy/branch.py:2314-2434 | The steps of one pull or push through the master end with the tips of `Tips.UpdatedBoth`, as `Branches.Branch.Pull` and `Push` do |
| `LoneProcess.UpdateDirectly` | breezy/branch.py:2314-2368 | The steps of one pull into a branch alone end with the tip of `Tips.Updated` |
| `MergeSorted.AncestorComesLater` | breezy/branch.py:603-608 | The present ancestors of a revision come after it in merge order |
| `MergeSorted.FilterStartNonAncestors` | breezy/branch.py:603-648 | Of any list exactly the first is yielded, the parents of yielded ones and all that comes after a yielded mainline revision, in the order of the list |
| `MergeSorted.KeepsAncestorsIff` | breezy/branch.py:603-648 | These are exactly the ancestors of the first if and only if each of them has a yielded one before it that leads to it |
| `MergeSorted.KeptHangsTogether` | breezy/branch.py:520-524 | What the first filter leaves meets this condition under all rules, under the one with merges if the stop is an ancestor of the start |
| `MergeSorted.OwnIsWhole` | breezy/branch.py:564-574 | What the start has and the stop has not consists of ancestors of the start only |
| `MergeSorted.MergesMayFallApart` | breezy/branch.py:585-648 | A list in merge order of which the two filters together lose an ancestor of the start |
| `MergeSorted.FilterMergeSortedRevisions` | breezy/branch.py:532-601 | Exactly the nodes from the start on that the rule keeps, in the order of the list |
| `MergeSorted.KeptMember` | breezy/branch.py:549-601 | Without a stop all; those with no stop up to them, or before them; with merges those before the stop's left parent that are not after it or are its ancestors; or what is in the ancestry of the start and not of the stop |
| `MergeSorted.KeptIsPicked` | breezy/branch.py:549-601 | What is kept stands in the list from the start on, in this order |
| `MergeSorted.ParentOfKeptIff` | breezy/branch.py:622-645 | From a revision on, another is an ancestor of it exactly if an ancestor before it in merge order has it as a parent |
| `MergeSorted.KeepMerged` | breezy/branch.py:585-599 | A revision after the stop is a parent of one that was kept exactly if it is an ancestor of the stop |
| `MergeSorted.IterMergeSortedRevisions` | breezy/branch.py:456-530 | For all rules and both directions: of the nodes that the rule keeps exactly the start and its ancestors, in merge order or backwards, under the rule with merges if the stop is an ancestor of the start; without common ancestry the second filter drops nothing |
| `Sequences.BackwardsAt` | breezy/branch.py:525-528 | Going forward each revision is as far from the end as it was from the beginning |
| `BisectMulti.NearNext` | breezy/bisect_multi.py:52-58 | A probe that is sent on stays inside the content and within the last step and one for each halving of its key, then gets one nearer each round |
| `BisectMulti.SortOut` | breezy/bisect_multi.py:54-63 | Every answer is found, dropped or sent on once |
| `BisectMulti.BisectMultiBytes` | breezy/bisect_multi.py:46-64 | Every key with a value comes out with it as often as it was asked for, and nothing else; at most 2*floor(log2(size/2))+2 rounds (one for tiny content); all probes inside the content |
| `BisectLogs.Scan` | breezy/bisect.py:135-178 | The range is from the newest "no" to the oldest "yes" above it, with the middle of what is between, or a revision has two verdicts and there is no such range |
| `BisectLogs.BisectLog.FindRangeAndMiddle` | breezy/bisect.py:122-178 | The same for the left-hand history of a revision |
| `BisectLogs.MiddleHalves` | breezy/bisect.py:166-174 | Whatever the answer on the middle, at most half of the revisions between, rounded down, are left |
| `BisectLogs.MiddleSplits` | breezy/bisect.py:166-174 | As many of the revisions between are newer than the middle as are older, or one more; it is the high end if there are none |
| `BisectLogs.LefthandIs` | breezy/bisect.py:135-137 | Each revision of the history is followed by its first parent, and the last has none |
| `BisectLogs.LefthandCounts` | breezy/bisect.py:135-137 | The history is as long as the left-hand distance says |
| `BisectLogs.MarksAre` | breezy/bisect.py:144-150 | The verdicts on a revision are those of its lines with "yes" or "no", and there is more than one exactly if two lines have one |
| `BisectLogs.BisectLog.SetStatus` | breezy/bisect.py:185-192 | A second verdict on a revision is refused; once done nothing is added |
| `BisectLogs.BisectLog.Bisect` | breezy/bisect.py:241-261 | From the tip on, while the middle is a merge at an end, the descent goes on from its first parent but for the low end; it terminates with the range of the last one, or with a revision of two verdicts, and is done exactly if the middle is at an end |
| `BisectLogs.Descends` | breezy/bisect.py:246-254 | Every turn of the descent moves to a strict ancestor |
| `BisectRuns.Answer` | breezy/bisect.py:326-343 | On linear history the answer is on the middle and becomes an end of the range, at most half of what was between is left, and the log is done exactly if nothing is left to choose |
| `BisectRuns.RunBisect` | breezy/bisect.py:431-450 | From a "yes" on, with monotone answers, the bisection ends within floor(log2 n)+1 answers: with a "no" below on the first revision that says yes, without one there or on the first of all, according to `Found` |
| `Logarithms.FloorLog2Is` | breezy/bisect.py:166-174 | The bound on the answers is the exponent of the greatest power of two that is not more |
| `BisectRuns.Run` | breezy/bisect.py:387-450 | The whole command from an empty log: it ends on the newest revision if that says no, else on the first that says yes exactly if that is the first of all or farther from it than what is left untried |
| `BisectRuns.StopsUntestedIff` | breezy/bisect.py:159-174 | Without a "no" the search stops at the first revision untested exactly if one or two revisions are left |
| `BisectRuns.StopsUntested` | breezy/bisect.py:159-174 | With two revisions and a "yes" on the newer one, the older one is the answer and was not tried |
| `BisectFiles.LoadUndoesSave` | breezy/bisect.py:198-216 | A saved log is loaded as it was |
| `BisectFiles.Load` | breezy/bisect.py:198-205 | The entries of all lines, or the first line that is not two words |
| `BisectFiles.EntriesAre` | breezy/bisect.py:198-205 | Every line has two words, which are its entry, or the first that has not is reported |
| `BisectFiles.FieldsAre` | breezy/bisect.py:203-205 | The words of a line are what stands between blanks |
| `BisectFiles.Save` | breezy/bisect.py:207-216 | One line for each entry |
| `CommandLines.SplitUndoesJoin` | breezy/cmdline.py:82-113 | Quoting any list of arguments and joining them with spaces is undone by splitting, with single quotes allowed or not |
| `CommandLines.ArgumentsAreRecovered` | breezy/cmdline.py:167-169 | The arguments that come out are the arguments that went in |
| `CommandParts.WordsAreTokens` | breezy/cmdline.py:49-164 | A word written as any sequence of bare text, backslashes, escaped quotes and quoted text is the token that says the same, with half the backslashes before each quote, and quoted if quoted text comes before any bare text; white space separates words |
| `CommandParts.SameCharacters` | breezy/cmdline.py:133-138 | Single quotes are quotes only where allowed, and white space is a fixed set of characters |
| `CommandLines.PlainWordsAreTokens` | breezy/cmdline.py:49-63 | Words without quotes, backslashes and white space are the tokens, none of them quoted |
| `CommandLines.NoTokenMeansNoInput` | breezy/cmdline.py:151-164 | There is no token only if no input is left |
| `CommandLines.EscapeScans` | breezy/cmdline.py:66-113 | An escaped text between double quotes is read as the text |
| `Splitters.PushbackSequence.Next` | breezy/cmdline.py:34-38 | The first of the pending characters, those put back before the rest |
| `Splitters.PushbackSequence.Pushback` | breezy/cmdline.py:42-43 | The character comes next |
| `Splitters.Splitter.ProcessBackslash` | breezy/cmdline.py:88-118 | Counting backslashes one by one and putting back what follows reads a whole run at once |
| `Splitters.Splitter.GetToken` | breezy/cmdline.py:151-164 | The state machine yields the next token of the specification and leaves exactly the rest; without a token the input is consumed |
| `Splitters.Split` | breezy/cmdline.py:167-169 | The texts of all tokens, none dropped |
| `ChunkWriters.ChunkWriter.Write` | breezy/chunk_writer.py:196-275 | When an item is refused, what the compressor in use was told, and all counters afterwards; the output is always that of a compressor told exactly the accepted items, and a refusal closes the chunk for unreserved writes |
| `ChunkWriters.ChunkWriter.CourseIs` | breezy/chunk_writer.py:206-273 | Which of the six ways an item goes, told by the sizes alone: the space is the chunk without what is reserved for others, and the margins are 10 bytes and 100 before the first packing anew |
| `ChunkWriters.CourseEffects` | breezy/chunk_writer.py:206-275 | What a compressor is told on each way, how the counters go on, and which ways refuse the item or close the chunk |
| `ChunkWriters.FeedsAt` | breezy/chunk_writer.py:181-186 | Packing anew feeds the items one by one with nothing between them |
| `ChunkWriters.ChunkWriter.RecompressAllBytesIn` | breezy/chunk_writer.py:167-194 | A new compressor fed the accepted items and perhaps one more |
| `ChunkWriters.ChunkWriter.Finish` | breezy/chunk_writer.py:123-152 | The chunk has exactly the size asked for, null bytes after the stream, and the stream decompresses to the accepted items; it fails exactly with the length of a stream that is too long |
| `ChunkWriters.PackChunk` | breezy/chunk_writer.py:123-275 | For any sequence of reserved and other writes the chunk decompresses to the items not refused, in order, also after bytes went to a discarded compressor, and after one refusal only reserved writes succeed |

## Left out

- KnownGraphs.KnownGraph.AddNode: a graph that has a cycle before the call is not modelled; from one without, the calls that close a cycle are excluded, as they do not end (`Growth.AddEndsIff`).
- KnownGraphs.KnownGraph.Heads: if a key asked for has no distance itself, whether it is compared depends on the order in which the keys are taken, so the contract allows both the answer and the error.
- KnownGraphs.KnownGraph.GcSort: keys that are plain strings are not modelled, all keys are tuples.
- The lists of nodes to visit hold keys where the code holds the node objects filed under them.
- `merge_sort`, `get_parent_keys` and `get_child_keys` of the graph; the merge sort appears by its contract only.
- Annotators.Annotator.Annotate: at most the requested key is a special text that is not annotated yet, and nothing is promised for calls after one that failed, or after a special text that hides another text of the versioned file.
- Annotators.Annotator.AnnotateFlat: the graph for heads is built for each call, not remembered between calls.
- The text of a special text is given as lines; splitting it is not modelled.
- The null revision is no key of a text (`AnnotateFlat` requires it).
- Reannotate.ReannotateOne: a hint about matching blocks has to be valid, as the code assumes.
- Printing annotations, and expanding them with revision data.
- All branches share one repository, into which fetching has put what is needed; ghosts as parents in commits, tags, hooks, nested trees, lossy pushes and stacked repositories.
- Which changes a commit records, and commits without changes: only the new revision's id and parents matter.
- Local commits, overwriting and uncommit do not occur in the runs of `BranchRuns`, as they are meant to take branches out of step; `Commits.Commit.Run` and `Branches.Branch.Pull` model the first two.
- A lock that an interrupted process leaves behind is released with the interruption; a process that never goes on is the other case.
- In the runs a pull from the master itself is of a revision that the master has or that the branch diverged from; all others put the branch ahead (`Tips.PulledFromMasterIff`).
- A master that is bound itself: `Branches.Branch.Pull` and `Push` do not go on to its master, and `Commits.Commit.Run` never refuses for it; `Commits.Commit.CheckBoundBranch` has that refusal.
- Commits.Commit.Run: all parents are present, so the new revision has a number; formats that store no revision numbers are not modelled.
- BisectMulti.BisectMultiBytes: final results are told apart from the answers -1, +1 and False, which in the code a final result equal to 1 would not be.
- BisectRuns.RunBisect: a script that gives up, and the last call of the script after the bisection is done.
- Working-tree switching in bisection, the subcommands around it, and a left-hand history that ends in a ghost.
- BisectFiles.Load: bytes are characters, and decoding the status is not modelled.
- ChunkWriters.ChunkWriter.Finish: that the stream never gets too long rests on the behaviour of the compression library; it is an error outcome here.
- Lock counting, caches of tip information and the UTF-8 cache.
