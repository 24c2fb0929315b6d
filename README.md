# Glymour structure learner in Dafny

This project models the core of Glymour, a Ruby library that learns the
structure of a Bayesian network with the PC algorithm. It covers three parts.

- **The graph layer.** A graph is a vertex list plus adjacency lists. It
  covers `complete_graph`, `remove_edge`, `make_directed`, and the
  `GraphAlgorithms` mix-in: `adjacent_either` ("Aab"), `verts_on_paths`
  ("Uab"), a depth-first enumeration of simple paths, and `non_transitive`
  (open triples). It also covers the list combinators `PowerSet#power_set`
  and `cartprod`.
- **`LearningNet`.** This is a class whose fields `net`, `directed_edges`
  and `n` are updated in place.
  - `step` runs one PC round over the edge list taken at its start.
  - `learn_structure` repeats `step` until a round removes nothing, then
    orients colliders.
  - `compatible_orientations` lists the acyclic orientations of the learned
    skeleton.
  - The chi-square independence test is a parameter `indep(a, b, cond)`: a
    deterministic oracle about which nothing else is assumed.
- **Variable bookkeeping** from lib/stats_module.rb. A `VariableContainer`
  names its unnamed variables. A `Variable` normalises its name and classes
  a row's value into intervals. `coindependent?` sanitises booleans to 0/1
  before handing values to R.

The older revision, structure_learning_module.rb, is modelled beside the
current one (module `Legacy`), so the places where the two differ can be
stated and proved.

`Hash.new` with a shared default array is modelled literally in module
`DefaultHashes`. Modules `PC` and `LearningNets` use the evidently intended
per-vertex direction sets instead.

Ruby's method lookup decides what the learner can call. `make_directed`
(lib/glymour.rb:231) is an instance method of module `StructureLearning`,
which `LearningNet` does not include. `remove_edge` (lib/glymour.rb:17-26)
returns a graph without the `GraphAlgorithms` methods. The `LearningNet`
class models the learner as evidently intended: every net answers the
`GraphAlgorithms` methods and `make_directed` is in reach. The `...AsWritten`
functions of `LearningNets` model what the code does as it stands: it raises
NoMethodError. The older revision is treated the same way in `Legacy`.

Each imperative routine is a method proved against a specification function:
- `power_set!`, which consumes its receiver;
- the shared path accumulator of `verts_on_paths`;
- the nested loops of `non_transitive` and `cartprod`;
- the edge loop of `step`;
- the triple loop of `learn_structure`;
- the subset loop of `compatible_orientations`;
- the naming loop of `VariableContainer#initialize`;
- the early-exit loop of `location_in_interval`.

Lemmas then state the properties of those specification functions.

Files, in dependency order:
- ruby.dfy: nil and raised exceptions.
- seqs.dfy: `uniq`, `&`, `select`, `flatten`, sub-lists.
- graphs.dfy
- paths.dfy
- triples.dfy
- combinatorics.dfy
- acyclic.dfy
- pc.dfy
- learning_net.dfy
- legacy.dfy
- default_hash.dfy
- stats.dfy

## Model

| member | source | states |
|---|---|---|
| Seqs.Uniq | lib/glymour.rb:193 | `uniq`: the result repeats nothing, holds exactly the elements of the input, and is no longer |
| Seqs.UniqFirstOccurrences | lib/glymour.rb:193 | `uniq` lists the elements in the order of their first occurrences: wherever an element of the result occurs in the input, every element listed before it has already occurred |
| Seqs.Intersect | lib/glymour.rb:256 | `a & b`: duplicate-free, and `x` is in it exactly when `x` is in both lists |
| Seqs.UniqIsSubseq | lib/glymour.rb:193 | `uniq` keeps the input's order: its result is an order-preserving sub-list of the input |
| Seqs.IntersectIsSubseq | lib/glymour.rb:256 | `a & b` lists its elements in the order of `a` |
| Graphs.CompleteGraphAdjacency | lib/glymour.rb:7-15 | adj(v) is the vertex list with `v` removed, order kept. It is an order-preserving sub-list, `v` is not its own neighbour, `u` is adjacent exactly when `u != v`, and adjacency is symmetric |
| Graphs.CompleteGraphPairs | lib/glymour.rb:7-15 | on distinct vertices the complete graph has \|vs\|·(\|vs\|−1) adjacency pairs |
| Graphs.CompleteGraphEdgeCount | lib/glymour.rb:7-15 | on distinct vertices the edge list of the complete graph holds \|vs\|·(\|vs\|−1)/2 edges |
| Graphs.RemoveEdge | lib/glymour.rb:17-26 | same vertex list. `u` stays adjacent to `x` exactly when it was and is neither endpoint of `e`. No list grows |
| Graphs.RemoveEdgeAdjacency | lib/glymour.rb:21 | each new list is an order-preserving sub-list of the old one. `target` is no longer adjacent to `source`, and no vertex lists either endpoint |
| Graphs.RemoveEdgeShrinks | lib/glymour.rb:17-26 | the adjacency-pair count never grows, and strictly drops when `target` was a neighbour of the vertex `source` |
| Graphs.MakeDirected | lib/glymour.rb:231-239 | same vertex list. `y` follows `x` exactly when both are vertices and `y` is among the directions recorded for `x` (none when `x` has no entry) |
| Graphs.AdjacentEither | lib/glymour.rb:192-194 | "Aab" is duplicate-free and holds exactly adj(a) ∪ adj(b). The older revision's copy (structure_learning_module.rb:26-28) is identical |
| Graphs.EdgesFacts | lib/glymour.rb:254 | the edge list taken by `step` holds only real adjacencies, covers every adjacency in one direction or the other, and never lists an unordered pair twice |
| SimplePaths.PathCollector.Visit | lib/glymour.rb:199-208 | one call appends exactly the simple paths below `c` to the shared accumulator. It terminates on cyclic graphs, by the vertices not yet on the path |
| SimplePaths.PathCollector.VisitAll | lib/glymour.rb:203-207 | the neighbour loop appends, in adjacency order, the paths found below each neighbour |
| SimplePaths.PathsAreSimplePaths | lib/glymour.rb:199-210 | a list is recorded by the search exactly when it is a simple, adjacency-following path from `s` to `t` |
| SimplePaths.VertsOnPathsMembers | lib/glymour.rb:209 | "Uab" repeats no vertex, and `v` is in it exactly when `v` lies on some simple path from `s` to `t` |
| SimplePaths.VertsOnPathsSelf | lib/glymour.rb:200-201 | from `t` to itself the result is `[t]` |
| SimplePaths.VertsOnPathsEmpty | lib/glymour.rb:199-210 | the result is empty exactly when no simple path joins `s` to `t` |
| SimplePaths.VertsOnPaths | lib/glymour.rb:199-210 | the method with a fresh accumulator returns the specification's list. It is duplicate-free, holds exactly the vertices on simple paths, is `[t]` from `t`, and is empty exactly when `t` is unreachable |
| OpenTriples.AllTriplesMembers | lib/glymour.rb:217-223 | the nested loops push exactly the two-step walks `u, v, w` from the listed vertices |
| OpenTriples.NonTransitiveMembers | lib/glymour.rb:214-227 | the result holds exactly the triples with `v` in adj(u), `w` in adj(v) and `w` not in adj(u). `(u, v, u)` is included for every two-way adjacency when `u` is not its own neighbour |
| OpenTriples.NonTransitive | lib/glymour.rb:214-227 | the method builds, in vertex/adjacency order, the list the specification defines |
| OpenTriples.PushAllTriples | lib/glymour.rb:217-223 | the outer loop pushes every two-step walk, vertex by vertex. The older revision's loop (structure_learning_module.rb:51-57) is the same |
| OpenTriples.PushTriplesFrom | lib/glymour.rb:218-222 | the middle loop appends the triples from `u`, in adjacency order, to the list so far |
| OpenTriples.PushTriplesAt | lib/glymour.rb:219-221 | the inner loop appends `[u, v, w]` for every `w`, in order |
| OpenTriples.RejectClosed | lib/glymour.rb:224-226 | `reject` keeps, in order, the triples whose ends are not adjacent |
| Combinatorics.PowerSetSize | lib/glymour.rb:172-178 | the power list has exactly 2^\|s\| entries |
| Combinatorics.PowerSetExactly | lib/glymour.rb:172-178 | a list is an entry exactly when it is an order-preserving sub-list of `s`. The older revision's copy (structure_learning_module.rb:11-16) is the same code |
| Combinatorics.PowerSetSound | lib/glymour.rb:172-178 | every entry of the power list is an order-preserving sub-list of `s` |
| Combinatorics.PowerSetComplete | lib/glymour.rb:172-178 | every order-preserving sub-list of `s` is an entry of the power list |
| Combinatorics.PowerSetBounds | lib/glymour.rb:172-178 | `[]` and `s` itself are entries, and every entry is no longer than `s` and draws its elements from `s` |
| Combinatorics.ArrayList.PowerSetBang | lib/glymour.rb:172-178 | `power_set!` returns the power list of the receiver's old contents and leaves the receiver empty |
| Combinatorics.ArrayList.PowerSetCopy | lib/glymour.rb:180-182 | `power_set` returns the power list, 2^\|s\| entries, and leaves the receiver unchanged, since it works on a clone |
| Combinatorics.Cartprod | lib/glymour.rb:28-40 | the `while` loop returns the Cartesian product of the argument lists, with as many tuples as the product of their lengths |
| Combinatorics.ExtendAll | lib/glymour.rb:33-37 | one round of the nested loops extends every tuple so far by every element of the next list, in order |
| Combinatorics.CartProdSize | lib/glymour.rb:28-40 | the product has the product of the lengths as its size |
| Combinatorics.CartProdMembers | lib/glymour.rb:28-40 | a tuple is in the product exactly when it has one entry per argument list, each drawn from that list |
| Acyclicity.AcyclicHasNoCycle | lib/glymour.rb:329 | a graph that passes the acyclicity check has no directed cycle |
| Acyclicity.NoCycleIsAcyclic | lib/glymour.rb:329 | a graph with no directed cycle passes the acyclicity check |
| Acyclicity.AcyclicMeaning | lib/glymour.rb:329 | the acyclicity check passes exactly when the listed vertices carry no directed cycle |
| PC.ValidSubsetsMeaning | lib/glymour.rb:263 | a subset is valid exactly when it is an order-preserving sub-list of "Aab & Uab" with `n + 1` elements and neither endpoint |
| PC.RoundShrinks | lib/glymour.rb:253-274 | a round keeps the vertex list, never adds an adjacency or adjacency pairs, and changes nothing when it reports no removal |
| PC.RoundProgress | lib/glymour.rb:252-277 | over edges that are real adjacencies, a round reporting a removal strictly lowers the adjacency-pair count |
| PC.RoundOverEdges | lib/glymour.rb:254-276 | the round over the net's own edge list has all the above properties |
| PC.RoundRemovesOnlyTested | lib/glymour.rb:259-272 | an adjacency disappears only through an edge of the round sharing that endpoint, judged on the graph at its turn. That edge had more than `n` candidates, and the oracle reported independence given a valid subset |
| PC.AddDirection | lib/glymour.rb:298-299 | `directed_edges[x] << y` adds `y` to the targets of `x` and changes no other vertex's targets |
| PC.OrientMonotone | lib/glymour.rb:291-301 | the orientation pass keeps every existing direction. Every direction it adds goes from an end of a passing triple to its middle vertex |
| PC.OrientCovers | lib/glymour.rb:295-300 | every passing triple has both `a -> b` and `c -> b` recorded |
| PC.OrientIdempotent | lib/glymour.rb:291-301 | running the pass again adds nothing |
| PC.OrientsWithoutCandidate | lib/glymour.rb:295-297 | when `b` is not a candidate for `a`, `c`, the `all?` is vacuous and the triple is oriented |
| PC.DegenerateTripleOriented | lib/glymour.rb:291-297 | a triple `(u, v, u)`, which `non_transitive` lets through, is always oriented when `u` is not its own neighbour |
| PC.OrientationMeaning | lib/glymour.rb:318-326 | the map for one subset keeps the fixed directions. It orients every edge in the subset `source -> target` and every other edge `target -> source`, and adds nothing else |
| PC.CompatFromMeaning | lib/glymour.rb:313-330 | at most one graph is kept per subset, and each kept graph is acyclic and is the directed graph of some listed subset's orientation |
| PC.CompatFromComplete | lib/glymour.rb:313-330 | conversely, the directed graph of every listed subset's orientation that passes the acyclicity check is kept |
| PC.CompatibleMeaning | lib/glymour.rb:308-333 | at most 2^\|edges\| graphs are returned, none has a directed cycle, and each is the orientation of a subset of the edges over the net's vertices. Conversely, the orientation of every subset of the edges that has no directed cycle is returned |
| PC.CompatibleComplete | lib/glymour.rb:306-333 | the orientation of any order-preserving sub-list of the edges, when it carries no directed cycle over the net's vertices, is among the returned graphs |
| PC.CompatibleOrientsEveryEdge | lib/glymour.rb:318-328 | in every returned graph each skeleton edge points one way or the other |
| LearningNets.CandidatesOf | lib/glymour.rb:256 | the search with a fresh accumulator, intersected with "Aab", yields the specified candidate list |
| PC.CandidatesMeaning | lib/glymour.rb:256 | a vertex is a candidate for `a`, `b` exactly when it is adjacent to `a` or `b` and lies on a simple path from `a` to `b` |
| LearningNets.TestEdge | lib/glymour.rb:255-268 | the edge test holds exactly when the edge is removable, and only when there are more than `n` candidates |
| LearningNets.AnyIndependent | lib/glymour.rb:263-268 | the `select`/`reject`/`any?` chain holds exactly when the oracle reports independence for some valid subset |
| LearningNets.TestCollider | lib/glymour.rb:292-297 | the collider test matches its specification, and holds whenever `b` is not a candidate |
| LearningNets.RunRound | lib/glymour.rb:254-274 | with every net answering the `GraphAlgorithms` methods, the edge loop over the captured list, testing each edge on the net as updated so far, computes the specified round |
| LearningNets.OrientFor | lib/glymour.rb:315-326 | the direction map for one subset keeps the fixed directions and orients every edge as its membership in the subset says |
| LearningNets.OrientColliders | lib/glymour.rb:291-301 | the orientation pass over the open triples only adds directions, each from an end of a passing triple to its middle vertex |
| LearningNets.OrientEach | lib/glymour.rb:291-301 | the loop over the listed triples computes the specified orientation |
| LearningNets.KeepAcyclic | lib/glymour.rb:313-330 | with `make_directed` in reach, the loop over the subsets keeps, in order, the acyclic candidate graphs |
| LearningNets.ConsiderSubset | lib/glymour.rb:314-329 | with `make_directed` in reach, one subset appends its directed graph exactly when that graph is acyclic |
| LearningNets.LearningNet.constructor | lib/glymour.rb:244-249 | the net starts complete on the variables, with no direction and `n = -1` |
| LearningNets.LearningNet.Step | lib/glymour.rb:252-277 | with every net answering the `GraphAlgorithms` methods, `n` rises by exactly one, and the net only loses adjacencies. A `true` result strictly lowers the adjacency-pair count. A `false` result leaves the net unchanged and settled |
| PC.SkeletonFacts | lib/glymour.rb:284-287 | the net and `n` in effect when `step` first reports no removal (`PC.SkeletonOf`, which ends by the pair count) are settled for that `n`, with `n` past its start, the same vertices, only lost adjacencies and no more adjacency pairs |
| PC.SkeletonWithoutIndependence | lib/glymour.rb:284-287 | with an oracle that never reports independence, the loop stops after one step with the net unchanged and `n` raised by one |
| PC.RoundWithoutIndependence | lib/glymour.rb:254-274 | with an oracle that never reports independence, a round removes nothing |
| LearningNets.LearningNet.Skeleton | lib/glymour.rb:284-287 | with every net answering the `GraphAlgorithms` methods, the `begin ... end while step` loop terminates, by the pair count. The net and `n` it leaves are exactly `PC.SkeletonOf` of the starting ones: the net in effect when `step` first reports no removal. The directions are left alone |
| LearningNets.LearningNet.LearnStructure | lib/glymour.rb:280-304 | with every net answering the `GraphAlgorithms` methods, it returns exactly the net of `PC.SkeletonOf` from the starting net and `n`, which is settled and shrunk from the initial one. The directions only grow, and they are the orientation of the open triples of the final net |
| LearningNets.LearningNet.CompatibleOrientations | lib/glymour.rb:308-333 | with `make_directed` in reach, the result is the specified list: at most 2^\|edges\| graphs, none with a cycle, each an orientation of a subset of the edges, and every cycle-free orientation of a subset of the edges among them |
| LearningNets.RoundAsWrittenMeaning | lib/glymour.rb:254-274 | as written, a round on the initial net raises NoMethodError at the first edge after a removal, because `@net.adjacent_either` (line 256) is then called on the graph `remove_edge` returned (line 270). Otherwise it is the specified round |
| LearningNets.RoundAsWrittenPlain | lib/glymour.rb:256 | on a net without the `GraphAlgorithms` methods, a round over a non-empty edge list raises NoMethodError |
| LearningNets.CollidersAsWrittenMeaning | lib/glymour.rb:291-301 | as written, the collider pass raises ArgumentError exactly when some triple has its middle vertex among the candidates of its ends, since line 296 passes `a` as the threshold. Otherwise it directs the edges as the intended pass does, whatever the oracle |
| LearningNets.OpenTripleTested | lib/glymour.rb:293-297 | the middle vertex of an open triple is a candidate for its ends exactly when the ends differ, so the `all?` calls `coindependent?` exactly then |
| LearningNets.CollidersAsWrittenOnNet | lib/glymour.rb:291-301 | on a net, the pass as written raises ArgumentError exactly when the net has an open triple with distinct ends |
| LearningNets.LearnStructureAsWrittenRaises | lib/glymour.rb:280-304 | as written, `learn_structure` raises exactly when its first round removes an edge or the net has an open triple with distinct ends. The first case gives NoMethodError, the second (with no removal) ArgumentError at line 296 |
| LearningNets.LearnStructureAsWrittenOk | lib/glymour.rb:280-304 | when it does return, the net is unchanged and settled for `n + 1`, every open triple has equal ends, and the directions are the orientation of its open triples |
| LearningNets.LearnStructureRaisesOnPath | lib/glymour.rb:296 | on the net `1 - 2 - 3` with an oracle that never reports independence, `learn_structure` raises ArgumentError |
| LearningNets.LearnStructureRaisesAfterRemoval | lib/glymour.rb:270 | on a complete net with two or more variables and an oracle that always reports independence, `learn_structure` raises NoMethodError |
| LearningNets.CompatibleAsWrittenRaises | lib/glymour.rb:328 | as written, `compatible_orientations` raises NoMethodError, because the power list is never empty and `make_directed` is not in reach |
| Legacy.OldVisit | structure_learning_module.rb:33-43 | the older search returns the specified list. When `c != t` that list is only the vertices of the accumulator it was handed, because what its recursive calls find is dropped |
| Legacy.OldVertsOnPaths | structure_learning_module.rb:33-43 | the older `verts_on_paths(s, t)` is `[t]` when `s == t` and `[]` otherwise, whatever the graph |
| Legacy.OldVertsOnPathsLosesPaths | structure_learning_module.rb:39 | when a simple path joins distinct `s`, `t`, the older result is empty while the current one holds both ends |
| Legacy.OldCompleteGraph | structure_learning_module.rb:67-68 | `complete_graph(n)` for an integer has the vertices `1..n` |
| Legacy.OldCompleteGraphAdjacency | structure_learning_module.rb:67-75 | in it adj(x) is every other vertex in ascending order |
| Legacy.OldDirectedAdjacent | structure_learning_module.rb:78-85 | the neighbour walk of the older `make_directed` succeeds exactly when there are no vertices, the vertex has an entry, or the hash has a default. Otherwise it raises NoMethodError on nil |
| Legacy.OldDirectedAdjacentMeaning | structure_learning_module.rb:82 | on success the neighbours are, in list order, the listed vertices in the vertex's entry or else in the default, which agrees with the hash view without a reset |
| Legacy.OldInitRaises | structure_learning_module.rb:88-89 | as written, the older `initialize` raises NoMethodError whatever the variables |
| Legacy.OldNonTransitive | structure_learning_module.rb:48-62 | the older `non_transitive` returns `[]` when there is no two-step walk, and otherwise raises NoMethodError |
| Legacy.OldNonTransitiveRaises | structure_learning_module.rb:58-60 | on a complete graph with two or more vertices there is a two-step walk, so the older `non_transitive` raises |
| Legacy.OldIntersection | structure_learning_module.rb:101 | the method computes the older "Aab & Uab", which is empty whenever the endpoints differ |
| Legacy.OldIntersectEmpty | structure_learning_module.rb:101 | the older "Aab & Uab" is empty between distinct endpoints |
| Legacy.OldCounterSettles | structure_learning_module.rb:99-116 | reading line 108's `n` as `@n`, the counter goes from -1 to 0 on the first edge and then stays put; from 0 or more it never moves |
| Legacy.OldStepRaisesOnFirstNet | structure_learning_module.rb:108 | as written, the first step on the initial complete net raises NameError |
| Legacy.OldRound | structure_learning_module.rb:99-116 | the older edge loop advances the counter once per edge that is not skipped |
| Legacy.OldLearningNet.constructor | structure_learning_module.rb:88-94 | with `complete_graph` in reach and taking a list, the net starts complete, with an empty direction hash and `@n = -1` |
| Legacy.OldLearningNet.Step | structure_learning_module.rb:97-118 | the older step removes nothing, returns false, and advances `@n` once per edge that is not skipped |
| Legacy.OldLearningNet.LearnStructure | structure_learning_module.rb:121-142 | the loop body runs once, so the net is kept as it was. The method returns it only when there is no two-step walk, and otherwise raises NoMethodError |
| Legacy.OldCompatRunKeepsNothing | structure_learning_module.rb:152-168 | from a hash with no key, each subset pushes onto the shared default an endpoint that then points to itself, so no graph is kept and no key is stored |
| Legacy.OldCompatibleKeepsNothing | structure_learning_module.rb:146-171 | with `make_directed` in reach, the older `compatible_orientations` on a net with an edge returns no graph, since the older `make_directed` does not reset the default |
| Legacy.SelfLoopCyclic | structure_learning_module.rb:167 | a vertex that reads itself as a neighbour fails the acyclicity check |
| DefaultHashes.Push | lib/glymour.rb:298-299 | `h[x] << y` stores no new key. On a missing key it appends to the shared default, which every missing key then reads |
| DefaultHashes.OrientAsWrittenStoresNothing | lib/glymour.rb:291-301 | as written, the orientation pass stores no key, so every vertex reads the one default array. It holds the middle vertex of every passing triple |
| DefaultHashes.ColliderReadsEverywhere | lib/glymour.rb:298-299 | after the pass, every vertex, the collider included, reads as pointing to each collider |
| DefaultHashes.PushAllKeys | lib/glymour.rb:318-326 | the edge loop of `compatible_orientations` stores no key |
| DefaultHashes.View | lib/glymour.rb:231-239 | `make_directed` over the hash: `y` follows `x` exactly when both are vertices and `y` is in `h[x]` |
| DefaultHashes.EdgelessAcyclic | lib/glymour.rb:329 | a graph with no adjacency passes the acyclicity check |
| DefaultHashes.CompatRunEdgeless | lib/glymour.rb:313-330 | with `make_directed` in reach, from a hash with no key, every subset leaves no key and an empty default, and its graph is kept |
| DefaultHashes.CompatibleAsWrittenEdgeless | lib/glymour.rb:308-333 | with the hash semantics as written and `make_directed` in reach, the method returns 2^\|edges\| graphs, each over the net's vertices and with no edge at all, and leaves the hash empty |
| Statistics.NormalizeClean | lib/stats_module.rb:28 | the stored name has no whitespace, is no longer than the given one, and is empty only when the given one is |
| Statistics.NormalizeKeepsClean | lib/stats_module.rb:28 | a name without whitespace is stored as given |
| Statistics.NormalizeIdempotent | lib/stats_module.rb:28 | normalising twice is normalising once |
| Statistics.NormalizeKeepsLetters | lib/stats_module.rb:28 | every character other than whitespace and underscore survives, in order |
| Statistics.NormalizeAppend | lib/stats_module.rb:28 | a name split after a character other than whitespace normalises part by part |
| Statistics.NormalizeRun | lib/stats_module.rb:28 | a maximal run of whitespace between two other characters becomes exactly one underscore, and the two sides normalise independently |
| Statistics.StoredName | lib/stats_module.rb:28 | a missing name stays missing, and a given one is stored without whitespace |
| Statistics.NatToStringInjective | lib/stats_module.rb:14 | different counters are written differently |
| Statistics.DefaultNameInjective | lib/stats_module.rb:14 | different counters give different default names |
| Statistics.AssignNamesAt | lib/stats_module.rb:11-15 | a named variable keeps its name. An unnamed one gets "unnamed_variable" followed by one more than the number of unnamed variables before it |
| Statistics.UnnamedNumbering | lib/stats_module.rb:14 | unnamed variables are numbered consecutively from 1, in list order, among the unnamed ones only |
| Statistics.AssignNamesMeaning | lib/stats_module.rb:11-15 | named variables keep their names, and no two unnamed variables get the same name |
| Statistics.Location | lib/stats_module.rb:54-61 | the least index whose boundary is at least the value, or -1 when the value exceeds every boundary. The result always lies in [-1, \|intervals\|) |
| Statistics.Variable.constructor | lib/stats_module.rb:22-29 | the name is stored normalised, the intervals start unset, and the class count and extractor are kept |
| Statistics.Variable.Adopt | lib/stats_module.rb:12-14 | the variable points to the container. It keeps a given name, or takes the next default name and advances the counter |
| Statistics.Variable.LocationInInterval | lib/stats_module.rb:54-61 | the early-exit loop returns the least index whose boundary is at least the block's value, or -1 |
| Statistics.Variable.ValueAt | lib/stats_module.rb:40-42 | with intervals set, it returns the interval index; otherwise the raw extractor value |
| Statistics.VariableContainer.constructor | lib/stats_module.rb:7-16 | every variable points to the new container, and the names are exactly those the naming rule assigns |
| Statistics.GlymourValueAtDiverges | lib/glymour.rb:79-96 | with a non-empty interval list, no call depth is enough for lib/glymour.rb's `value_at`, because it and `location_in_interval` call each other without end. With an empty list it returns -1 |
| Statistics.Sanitize | lib/stats_module.rb:72-78 | length and order are preserved, true becomes 1, false becomes 0, every other value is kept, and no boolean is left |
| Statistics.SanitizeLaws | lib/stats_module.rb:72-78 | sanitising is idempotent and distributes over concatenation |

## Left out

- The chi-square test in R (lib/glymour.rb:116-165, lib/stats_module.rb:66-118) is replaced by the oracle parameter `indep`. The p-value threshold 0.05 is ignored. The call at lib/glymour.rb:296 passes no threshold, so `a` is taken as the threshold and the comparison at line 145 or 164 raises ArgumentError. The intended members (`LearningNets.TestCollider`, `LearningNets.OrientColliders`, `PC.Orient`) call `indep(a, c, subset)` instead; `LearningNets.CollidersAsWritten` models the raise (see Findings).
- `puts` logging, including the duplicate oracle call inside it at lib/glymour.rb:265-266. This is I/O, and the duplicate call is irrelevant for a deterministic oracle.
- RGL is not part of this model. `net.edges` is an explicit assumption (`Graphs.Edges`): one pair per unordered adjacency, the first met in vertex-then-adjacency order. `acyclic?` is restated as peeling off sources (`Acyclicity.Acyclic`), which is proved to pass exactly when there is no directed cycle.
- The PC algorithm keeps raising `n` until it exceeds |V|−2 whatever the removals. `learn_structure` stops at the first round that removes nothing (lib/glymour.rb:284-287), and the model follows the code.
- The orientation test (lib/glymour.rb:295-297) asks for "independent" on every subset containing `b`, which is vacuously true when there is none. The classical collider rule has the opposite polarity. The model follows the code.
- `non_transitive` does not exclude `u == w`. The model keeps such triples, and `PC.DegenerateTripleOriented` shows that they are always oriented.
- Seqs.Flatten: flattens one level only, while Ruby's `flatten` (lib/glymour.rb:209, structure_learning_module.rb:42) is recursive. The two agree when no vertex is itself an Array, as the learner's `Variable` vertices never are. A graph with an Array vertex, such as `[5]` in spec/structure_learning_spec.rb:44, would have that vertex split into its elements by Ruby's `verts_on_paths`; the model keeps it whole.
- `remove_edge` (lib/glymour.rb:21) strips both endpoints from every adjacency list, not just the one edge. The model follows the code; no corrected version is given.
- `Hash` default aliasing in `LearningNet`. The PC and LearningNets modules use a per-vertex `map<V, set<V>>`, copied afresh for every subset in `compatible_orientations`. The literal behaviour is modelled separately in `DefaultHashes` (see Findings).
- Floating point: `to_intervals` / `set_intervals` (lib/glymour.rb:74-77, lib/stats_module.rb:34-38), including the `set_intervals` call in `VariableContainer#initialize` (lib/stats_module.rb:13). Interval boundaries are taken as a given list of reals, and the extractor block is real-valued.
- `values` and its ActiveRecord branch (lib/stats_module.rb:44-51), `learning_row` (lib/glymour.rb:100-112) and `GraphToBayesNet#to_bn`. Table access is not modelled, `learning_row` is unused by the learner, and `to_bn` wraps a library that is not part of this model.
- `attr_reader :number_unnamed` (lib/stats_module.rb:4) reads an instance variable that is never set, because the counter is a local. It is not modelled.
- lib/glymour.rb keeps its own earlier copy of `VariableContainer` and `Variable` (lines 44-97). It is the one whose `value_at` diverges (see Findings). Otherwise only the stats_module.rb copy is modelled.
- The older `initialize` also stores the data table (structure_learning_module.rb:92). It is not modelled.
- The older `compatible_orientations` (structure_learning_module.rb:146-171) differs from the current one: its `make_directed` (lines 78-85) does not reset the default, so every vertex without a key reads the shared array. It is modelled with the hash semantics only (`Legacy.OldCompatibleOrientations`). A PC-style per-vertex version of it is not given.
- The older `learn_structure` calls `verts_on_path` (structure_learning_module.rb:131), a method that does not exist. The older `non_transitive` always raises first on a net with a two-step walk, so this call is never reached and is not modelled.
- The older `complete_graph` on a vertex outside the set is not modelled.
- The examples in the repository's own specs (an 8-vertex graph, random data) are not restated as concrete lemmas.
- LearningNets.RunRound: promises the specified round only for nets that answer the `GraphAlgorithms` methods. As written, the first edge tested after a removal raises NoMethodError (`LearningNets.RoundAsWrittenMeaning`).
- LearningNets.LearningNet.Step: same assumption as RunRound. As written, a step that removes an edge raises at the next edge, and the step after a removal raises at once (`LearningNets.RoundAsWrittenPlain`).
- LearningNets.LearningNet.Skeleton: same assumption. As written, the loop raises once an edge has been removed (`LearningNets.LearnStructureAsWrittenRaises`), so it only returns when the first round removes nothing.
- LearningNets.LearningNet.LearnStructure: same assumption, and it reads line 296 as `indep(a, c, subset)`. As written, it raises NoMethodError exactly when the first round removes an edge. Otherwise it raises ArgumentError when the net has an open triple with distinct ends (`LearningNets.LearnStructureAsWrittenRaises`), and it returns only as `LearningNets.LearnStructureAsWrittenOk` states.
- LearningNets.TestCollider: reads line 296 as `indep(a, c, subset)`. As written, the call raises ArgumentError whenever a subset is tested (`LearningNets.CollidersAsWrittenMeaning`).
- LearningNets.OrientColliders: same reading as TestCollider.
- LearningNets.CollidersAsWritten: raises ArgumentError, which is what the comparison raises for `Variable` vertices. A vertex without a `values` method, such as an Integer, would raise NoMethodError at line 125 before the comparison. The R calls before the comparison are taken to return.
- LearningNets.KeepAcyclic: assumes `make_directed` is in reach of `LearningNet`. As written, line 328 raises NoMethodError on the first subset (`LearningNets.CompatibleAsWrittenRaises`).
- LearningNets.ConsiderSubset: same assumption as KeepAcyclic.
- LearningNets.LearningNet.CompatibleOrientations: same assumption as KeepAcyclic.
- DefaultHashes.CompatRunEdgeless: describes the shared-default semantics with `make_directed` in reach. As written, the first subset raises NoMethodError (`LearningNets.CompatibleAsWrittenRaises`).
- DefaultHashes.CompatibleAsWrittenEdgeless: same assumption as CompatRunEdgeless.
- Legacy.OldLearningNet.constructor: assumes `complete_graph` is in reach and builds the complete graph on the variable list. As written, `initialize` raises NoMethodError (`Legacy.OldInitRaises`), so the states that `Legacy.OldLearningNet.Step` and `Legacy.OldLearningNet.LearnStructure` start from are never reached.
- Legacy.OldLearningNet.Step: its starting state is never reached as written (see the constructor).
- Legacy.OldLearningNet.LearnStructure: its starting state is never reached as written (see the constructor).
- Legacy.OldCompatibleKeepsNothing: describes the older `compatible_orientations` with `make_directed` in reach. As written, it is unreachable there too, and no older net is ever built.
- Statistics.Variable.LocationInInterval: requires the intervals to be set. In Ruby, calling it with no intervals raises NoMethodError on nil.
- Statistics.VariableContainer.constructor: requires the listed `Variable` objects to be distinct. Aliased entries in the Ruby list would be named once and then keep that name. It does not call `set_intervals`.

## Findings

| source | as written | input that shows it | evidently intended | confidence | as-written member | corrected member |
|---|---|---|---|---|---|---|
| structure_learning_module.rb:39 | the recursive call does not pass `paths`, so every path found below the start is lost | any graph with a simple path between distinct `s` and `t`, e.g. the complete graph on `[1, 2]` with `s = 1`, `t = 2` | every vertex on a simple path from `s` to `t` is returned, as lib/glymour.rb:205 does | not executed | Legacy.OldVertsOnPathsLosesPaths | SimplePaths.VertsOnPathsMembers |
| structure_learning_module.rb:108 | the bare `n` is neither a local nor a method, so the first edge not skipped raises NameError (reached only once `initialize` is repaired, see the row for line 89) | the initial complete net on two or more variables, with `@n = -1` | `@n`, as line 104 reads it | not executed | Legacy.OldStepRaisesOnFirstNet | Legacy.OldLearningNet.Step |
| structure_learning_module.rb:59 | `triple.first.adjacent_vertices` calls a graph method on a vertex and raises NoMethodError | any graph with a two-step walk, e.g. the complete graph on `[1, 2]` | `adjacent_vertices(triple.first)`, as lib/glymour.rb:225 does | not executed | Legacy.OldNonTransitiveRaises | OpenTriples.NonTransitiveMembers |
| lib/glymour.rb:298-299 | `directed_edges[a] << b` on a missing key appends to the shared default array (set at line 247) and stores no key | any net with one triple that passes the orientation test | `a -> b` and `c -> b` recorded for `a` and `c` only | not executed | DefaultHashes.ColliderReadsEverywhere | PC.OrientMonotone |
| lib/glymour.rb:315-316 | `current_orientation` is `@directed_edges` itself, and line 233 resets its default to a fresh empty array before the graph is read (with `make_directed` in reach, see the row for line 328) | any net with at least one edge | each subset yields the graph orienting every edge by that subset | not executed | DefaultHashes.CompatibleAsWrittenEdgeless | PC.CompatibleOrientsEveryEdge |
| lib/glymour.rb:91 | `location_in_interval` calls `value_at`, which calls `location_in_interval` again while intervals are set | any variable whose interval list is non-empty | compare the block's value, as lib/stats_module.rb:56 does | not executed | Statistics.GlymourValueAtDiverges | Statistics.Variable.LocationInInterval |
| lib/glymour.rb:296 | `coindependent?(a, c, *subset)` passes no threshold, so `a` becomes `p_val`, and `observed_p > p_val` (line 145 or 164) compares a Float with a `Variable` and raises ArgumentError at the first tested subset | the net `1 - 2 - 3` with an oracle that never reports independence: the open triple `(1, 2, 3)` has the subset `[2]` to test | `coindependent?(0.05, a, c, *subset)`, orienting `a -> b <- c` for a passing triple | not executed | LearningNets.LearnStructureRaisesOnPath | PC.OrientCovers |
| lib/glymour.rb:270 | `remove_edge` returns a plain graph without the `GraphAlgorithms` methods, so `@net.adjacent_either` (line 256) raises NoMethodError at the next edge, or `final_net.non_transitive` (line 291) does | a complete net on two variables and an oracle that reports every pair independent | the net keeps the `GraphAlgorithms` methods after a removal | not executed | LearningNets.LearnStructureRaisesAfterRemoval | LearningNets.LearningNet.Skeleton |
| lib/glymour.rb:328 | `make_directed` is an instance method of module `StructureLearning`, which `LearningNet` does not include, so the first subset raises NoMethodError | any net, since the power list always holds the empty subset | the directed graph of each orientation is built | not executed | LearningNets.CompatibleAsWrittenRaises | PC.CompatibleMeaning |
| structure_learning_module.rb:89 | `complete_graph` is not in reach of the older `LearningNet`, and on a list `n.integer?` (line 68) would raise as well, so `initialize` raises NoMethodError | any table and variable list | the net starts as the complete graph on the variables | not executed | Legacy.OldInitRaises | Legacy.OldLearningNet.constructor |
