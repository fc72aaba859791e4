# CodeFabric in Dafny

A model of the parts of CodeFabric that carry its strongest guarantees, with proofs of those
guarantees. `dafny verify dfyconfig.toml` checks everything.

- **Common graph analysis.** `Digraph`, `FixedPoint`, `CallSummaries`, `SummaryConvergence` and
  `CallAnalysis` define the call graph, the snapshot fixed point and what a complete summary means;
  `SummaryPass` is the imperative pass, `Reachability` the breadth-first search and
  `ControlDependence` the post-dominator walk, which `CfgAnswers` applies to every owner. `Census` is
  the completeness bookkeeping around all of them, over the progress rows of `CensusTally` and the
  inputs, facts and counts of `CensusFacts`; `CensusReport` says what its report means for the input.
- **Identity.** `Cbef` is the CBEF-v1 value format, `CbefCanonical` and `CbefRoundTrip` its two round
  trips, `CbefRecord` the record layer, `CbefCodec` the cursor and buffer loops. `TypeInterner` holds
  type terms and the tables that bind identities, `TypeIdentity` what such an identity stands for,
  `PathCodec` the workspace path bytes and `PathViews` all views of a path.
- **Inventory.** `Merkle` defines the directory-tree digest, `MerkleFlat` what the flat loop computes,
  `MerkleOrder` how far that depends on order, `MerkleLoop` the loop itself and `MerkleBinding` what a
  root digest determines. `InventoryStore` holds the rebuild and advance transactions, and
  `InventoryBinding` what their digests say about the rows.
- **Git candidates.** `GitPayload`, `GitVector`, `GitTable`, `GitCache`, `GitPlanner`, `GitPlans` and
  `GitTransparency`: the payload codec, the state-vector preimage, the persistent table, the bounded
  list before it, the planner, which plan is made when, and the proof of when the cache changes no
  plan.
- **Protocols.** `Freshness` (threads over shared watermarks and a notifier), `RuntimeImages`
  (processes over a locked and leased image cache), `DiskHeadroom` (reservations) and
  `InventoryUpload` (chunked uploads).
- **Shared.** `Prelude` (results and limits), `Bytes` (counters, order, sorted lists) and `Utf8`.

Conventions: identifiers of the graph analysis are ranks, so that their order is the order of the
texts. Bytes are numbers below 256. Hashes are either free constructors, which makes them
collision-free, or function parameters. Unicode normalization is a parameter that must map text to
text; UTF-8 validity and ASCII lowering are concrete. petgraph's immediate post-dominators, strongly
connected components and schedules are parameters with the contract that the analysis relies on.
SQL tables are maps and a transaction works on a copy that replaces them only on success. Git, the
file system, clocks and time-outs are arbitrary answers.

Where a promised property does not hold of the code as it stands, the model keeps the code:

- The inventory digest depends on the order of the leaves exactly when a top-level name occurs both
  with and without a leading slash (`MerkleBinding.OrderIrrelevantIff`), so a rebuild and an advance
  may then publish different digests for the same rows (`InventoryBinding.RebuildMatchesIff`). Equal
  digests still mean equal inventories (`MerkleBinding.RootBindsLeaves`).
- Advancing an inventory from a generation to itself first deletes the rows it then copies
  (`InventoryStore.LostExactlyWhen` says exactly when nothing is lost by that).
- Change invalidation keeps effects and resources unconditionally, but exhausting the iteration bound
  changes the completeness of callables it does not list
  (`CallAnalysis.UnaffectedKeepsCompletenessIff`, `CallAnalysis.ExhaustionEscapesInvalidation`). With
  as many iterations as callables it cannot be exhausted (`CallAnalysis.AlwaysConverges`).
- The candidate cache key omits the old HEAD tree (`GitTransparency.HeadTreeNotTransparent`); requests
  that agree on it are safe (`GitTransparency.AllTransparentWhenOldTreesAgree`).
- The state-vector preimage writes an absent index count as the largest 64-bit number
  (`GitVector.PreimageBinds`), so captured states are told apart only below that count.
- The type table compares shapes only, so whatever the digest function, some workspaces and contexts
  share an identity (`TypeIdentity.EveryDigestConfusesContexts`); not within a run whose preimages the
  identities tell apart (`TypeIdentity.IdentityStandsForOneType`).
- The empty component list and the list of one empty component share their canonical path bytes
  (`PathCodec.CanonicalInjective`).
- An image that an interrupted removal left incomplete (`RuntimeImages.InterruptedRemoval`) keeps its
  observation from being acquired (`RuntimeImages.IncompleteImageBlocks`) until a collection for
  another one removes it (`RuntimeImages.CollectionRemoves`); with a complete image or with room for a
  new one the attempt succeeds (`RuntimeImages.AttemptSucceeds`).

## Model

| member | source | states |
|---|---|---|
| CallAnalysis.CompleteSummaryIsExact | src/common_derived_analysis.rs:1601-1806 | Under any value bound and iteration bound, a summary emitted as complete equals the union of local seeds over everything reachable by exact calls; nothing reachable has an unresolved call, missing or truncated locals, or recursion |
| CallAnalysis.CompleteExactlyWhenClean | src/common_derived_analysis.rs:1601-1806 | With at least as many iterations as callables, and for every value bound, a summary is complete if and only if both inputs are covered, every call from what it reaches is exact, nothing it reaches is recursive or has missing or truncated locals, and all effects and all resources it reaches fit into one row |
| CallAnalysis.EveryRowIsJust | src/common_derived_analysis.rs:1741-2117 | Every row of every run, complete or not, converged or not: nothing but values of reached callables, at most the bound, among them the first local ones; and if all that is reached fits, exactly the values at most as many calls away as there are iterations |
| CallAnalysis.RowsReachAll | src/common_derived_analysis.rs:2005-2117 | With as many iterations as callables, every row whose reached values fit holds all of them, recursive and unresolved callables included |
| CallAnalysis.CalleesHeldUnlessFull | src/common_derived_analysis.rs:2025-2096 | At convergence a row holds all that the row of any callee holds, unless it is full |
| SummaryPass.DeriveSummaries | src/common_derived_analysis.rs:1601-1818 | The whole imperative pass: every callable, complete or not, is emitted with the row of the fixed point, which is just; every callable emitted as complete has exact effects and resources and reaches only clean callables |
| SummaryPass.SummaryState.PropagateSummaries | src/common_derived_analysis.rs:2005-2103 | The snapshot fixed point computes the same rows, exhaustion flag and iteration count for every schedule that lists each callable once |
| SummaryPass.SummaryState.AbsorbOne | src/common_derived_analysis.rs:2025-2096 | One caller absorbs one snapshot row: values within the bound, incompleteness on a refused value or an incomplete callee, and whether anything changed |
| SummaryPass.InsertValues | src/common_derived_analysis.rs:2043-2068 | Inserting offered values stops at the bound and reports a refused value exactly when one did not fit |
| SummaryPass.SeedSummaries | src/common_derived_analysis.rs:1601-1771 | The seeded rows are the truncated local sets, incomplete exactly where calls, coverage, recursion, missing or oversized locals demand it |
| SummaryPass.RecursiveInComponent | src/common_derived_analysis.rs:1646-1692 | A callable is on a call cycle exactly when its component has another member or it calls itself |
| SummaryPass.UnresolvedCallers | src/common_derived_analysis.rs:1601-1640 | The callers with an unresolved call, and no others |
| SummaryPass.BuildAdjacency | src/common_derived_analysis.rs:1563-1599 | Adjacency and reverse-caller maps are the call graph and its converse |
| SummaryPass.CallerClosure | src/common_derived_analysis.rs:2105-2117 | The work queue returns exactly the callables from which some starting callable is reachable |
| SummaryConvergence.RoundsCountEdges | src/common_derived_analysis.rs:2019-2102 | If all that a callable reaches fits into one row, then after k rounds its row holds exactly the seeds within k call edges |
| SummaryConvergence.EnoughIterations | src/common_derived_analysis.rs:2019-2103 | With recursive callables seeded incomplete, as many iterations as callables never report exhaustion, whatever is truncated: values and marks travel along simple call chains only |
| SummaryConvergence.CompleteIffReachedFits | src/common_derived_analysis.rs:2005-2117 | With that many iterations a row ends complete exactly when it reaches no row seeded incomplete and all that it reaches fits into one row |
| CallAnalysis.AlwaysConverges | src/common_derived_analysis.rs:1601-2103 | For every input and every value bound, a run with at least as many iterations as callables converges, in no more iterations than there are callables |
| SummaryConvergence.ValueChain | src/common_derived_analysis.rs:2019-2102 | A value that is new in a row after k rounds has come along k calls, through k + 1 different callables that all hold it, truncation or not |
| SummaryConvergence.MarkChain | src/common_derived_analysis.rs:2019-2102 | A mark that is new after k rounds has come along k calls through k + 1 different callables, first as a refused value and then as a mark |
| SummaryConvergence.RunsAgree | src/common_derived_analysis.rs:2005-2117 | Two runs whose seeds differ only at callers of one callable end with the same rows and the same marks everywhere else, whether or not they converge |
| CallAnalysis.InvalidationIsSound | src/common_derived_analysis.rs:2271-2295 | If only the locals of x differ, every callable not listed for x keeps effects and resources, whether or not the runs converge; and its completeness if both converge or neither does |
| CallAnalysis.UnaffectedKeepsCompletenessIff | src/common_derived_analysis.rs:2271-2295 | An unlisted callable keeps its completeness if and only if both runs converge, or neither does, or it reaches a row that is incomplete anyway |
| CallAnalysis.InvalidationIsCompleteWithin | src/common_derived_analysis.rs:2271-2295 | With at least as many iterations as callables, an unlisted callable keeps effects, resources and completeness |
| CallAnalysis.ExhaustionEscapesInvalidation | src/common_derived_analysis.rs:1784-1804 | A concrete input where exhaustion changes the completeness of a callable that invalidation does not list |
| SummaryPass.AffectedBy | src/common_derived_analysis.rs:2271-2280 | The invalidation queue returns exactly the changed callable and its transitive callers |
| Reachability.Distances | src/common_derived_analysis.rs:1896-1911 | Breadth-first search yields exactly the other reachable callables with their shortest distances, or 4294967295 where those are longer |
| Reachability.ReachFrom | src/common_derived_analysis.rs:1875-1954 | Each source contributes all its pairs or an unknown row; the contributing sources are the longest prefix whose pairs fit the bound |
| Reachability.DeriveReachability | src/common_derived_analysis.rs:1867-1955 | The same over all callables in identifier order |
| ControlDependence.ControlDependences | src/common_derived_analysis.rs:1346-1382 | The runner walk terminates and reports y on x exactly when y depends on x through some edge, on every graph; the virtual exit is never reported |
| ControlDependence.DependsWhenAllReachExit | src/common_derived_analysis.rs:1346-1382 | When every node reaches an exit, the report means: a non-self edge leads to a node that y post-dominates and y does not strictly post-dominate the source |
| ControlDependence.DependentsOfEdge | src/common_derived_analysis.rs:1346-1377 | One edge: exactly the nodes that depend on its source through it |
| ControlDependence.StrictPostDominators | src/common_derived_analysis.rs:1302-1344 | The emitted post-dominators are exactly the strict ones among real nodes |
| Census.Analyze | src/common_derived_analysis.rs:684-729 | For every accepted input whose sums fit 64 bits, the final row of each family and the derived facts are exactly determined: completed units, open units inherited from the inputs, one more for lost facts; control-flow answers are the real ones, completeness flags come from the coverage rows, every row balances, a complete row lost no derived fact, and a full store has kept the facts of the first owners and stages |
| Census.AnalysisState.InsertFact | src/common_derived_analysis.rs:598-605 | A derived fact is stored while there is room, otherwise its family is marked as having lost facts; nothing else changes |
| Census.AnalysisState.DeriveCfg | src/common_derived_analysis.rs:1143-1385 | Control-flow families are completed exactly where an owner has one entry and an exit and the node reaches the entry or an exit, unknown elsewhere, and all unknown when a bound is hit; the derived facts are exactly the answers of the dominator trees, and those of the owners that come first are stored first |
| CfgAnswers.Answer | src/common_derived_analysis.rs:1251-1377 | From the dominator trees of every owner with usable roots: exactly the real strict dominators, strict post-dominators and dependents of each node and edge |
| CfgAnswers.ControlFactsIff | src/common_derived_analysis.rs:1346-1377 | A control dependence is derived exactly for the dependent pairs of some owner with usable roots |
| CfgAnswers.NodeFactsIff | src/common_derived_analysis.rs:1251-1344 | A dominator or post-dominator is derived exactly where it strictly dominates or post-dominates a node that is reached |
| CfgAnswers.DominatorsIff | src/common_derived_analysis.rs:1251-1296 | In terms of the given rows: y strictly dominates x exactly if some route along edges leads from an entry to x and every such route passes y |
| CfgAnswers.PostDominatorsIff | src/common_derived_analysis.rs:1297-1344 | Likewise on the routes from x to an exit |
| CfgAnswers.RootedIff | src/common_derived_analysis.rs:1198-1250 | An owner has usable roots exactly if it has one entry, no second one, and some exit |
| Census.AnalysisState.DeriveOwner | src/common_derived_analysis.rs:1200-1383 | One owner accounts for each of its nodes twice and each of its edges once, and derives its facts only with usable roots |
| Census.AnalysisState.DeriveData | src/common_derived_analysis.rs:1411-1447 | Every staged data-dependence row is requested, completed and derived |
| Census.AnalysisState.DeriveCalls | src/common_derived_analysis.rs:1469-1818 | Call families complete every resolved call, component member, source within the pair bound and complete summary, and leave every unresolved call open; all is unknown when a bound is hit |
| Census.AnalysisState.DeriveReachable | src/common_derived_analysis.rs:1867-1955 | The longest prefix of sources whose pairs fit the bound is completed with all its pairs; every other source is unknown |
| Census.AnalysisState.EmitSummaries | src/common_derived_analysis.rs:2120-2211 | Each callable is completed in each of the three summary families exactly if its summary is complete, and unknown otherwise; all summary facts are derived |
| Census.AnalysisState.AddGap | src/common_derived_analysis.rs:2300-2368 | An input's remainder and unknown units are requested again of exactly the families it feeds, and the balance is kept |
| Census.AnalysisState.ReportExhaustion | src/common_derived_analysis.rs:711-729 | Every family that lost facts gets one unknown request, and no other does |
| CensusTally.GapExact | src/common_derived_analysis.rs:2345-2365 | Saturating addition is exact and keeps the balance as long as the requests stay below the 64-bit limit |
| CensusTally.GapKeepsBalanceIff | src/common_derived_analysis.rs:2345-2365 | Beyond the limit the balance survives exactly if nothing is completed and all open units are of one kind |
| Census.CompleteIff | src/common_derived_analysis.rs:562-566 | A family's last row is complete exactly when all its work is done, nothing was open upstream and no fact was lost |
| CensusReport.RequestedRows | src/common_derived_analysis.rs:684-729 | The units requested of every family, in terms of the given input: what it lists, what the coverage of the right inputs leaves open, and one for lost facts |
| CensusReport.CompletedRows | src/common_derived_analysis.rs:684-729 | The units completed of the data and call families, in the same terms |
| CensusReport.CompletedCfgRows | src/common_derived_analysis.rs:1143-1385 | The units completed of the control-flow families: edges of owners with one entry and an exit, and those of their nodes that are reached |
| CensusReport.DataFactsIff | src/common_derived_analysis.rs:1411-1447 | A data dependence is derived exactly for a given row, complete exactly as the coverage of the rows is |
| CensusReport.CallFactsIff | src/common_derived_analysis.rs:1571-1600 | A call edge is derived exactly for a resolved call, and as complete |
| CensusReport.MemberFactsIff | src/common_derived_analysis.rs:1646-1692 | A membership is derived exactly for the members of each component, complete exactly if every call is resolved and call coverage is complete |
| CensusReport.PairFactsIff | src/common_derived_analysis.rs:1867-1955 | A reachable pair is derived exactly for what the search found, with its distance and the completeness of the topology |
| CensusReport.SummaryFactsIff | src/common_derived_analysis.rs:2120-2211 | Effects, resources and summaries are derived exactly as the rows have them, for every callable, with its completeness |
| CensusFacts.CallsCount | src/common_derived_analysis.rs:1571-1640 | For accepted calls, distinct resolved rows and unresolved calls together are all calls |
| Census.ValidateCalls | src/common_derived_analysis.rs:853-894 | Accepts exactly the call lists with one caller per site and no target observed twice |
| Census.ValidateCfg | src/common_derived_analysis.rs:818-842 | Accepts exactly the graphs whose nodes are distinct per owner and whose edges stay inside their owner |
| CbefCanonical.ReencodeTyped | src/identity.rs:396-651 | Re-encoding any accepted typed value gives its bytes back |
| CbefRoundTrip.DecodeOfEncode | src/identity.rs:396-651 | Decoding an encoded value gives its canonical form: strings normalized, sets sorted without repeats, maps sorted by encoded key |
| CbefRoundTrip.CanonSet | src/identity.rs:464-480 | A canonical set lists the canonical members once each in ascending order of their encodings |
| CbefRoundTrip.CanonMap | src/identity.rs:434-452 | A canonical map lists each canonical entry once, none lost, in ascending order of the encoded keys |
| CbefRoundTrip.MapRefusedIff | src/identity.rs:434-452 | A map is refused for its keys exactly when two of them share an encoding |
| CbefRoundTrip.LeafEncodesIff | src/identity.rs:404-428 | A number is encoded exactly if it has 1, 2, 4, 8 or 16 bytes, a path exactly if its platform is 1, 2 or 3 and its length fits four bytes; the right error otherwise |
| CbefRoundTrip.CanonIsCanonical | src/identity.rs:396-480 | Canonical form is idempotent, well typed, and encodes like the value itself |
| CbefRoundTrip.EqualBytesIffEqualCanon | src/identity.rs:396-480 | Two encodable values share their bytes exactly when they share a canonical form |
| CbefRoundTrip.SetBytesIffSameMembers | src/identity.rs:464-480 | Two sets share their bytes exactly when the same member encodings occur in both |
| CbefRoundTrip.MembersOrderIrrelevant | src/identity.rs:464-480 | Reordering or repeating set members leaves the encoding as it is |
| Utf8.WellFormedIff | src/identity.rs:551-558 | Text is accepted exactly if it is the UTF-8 encoding of a sequence of Unicode scalar values |
| CbefRoundTrip.NormalizedIsText | src/identity.rs:367-381 | Normalization turns text into text |
| CbefRoundTrip.NormalizedBy | src/identity.rs:367-381 | Only ASCII lowering fails, exactly beyond ASCII; it lowers letter by letter and once is enough; the verbatim rules change nothing, and the others apply their own Unicode form |
| CbefRecord.ReencodeRecord | src/identity.rs:487-691 | For every accepted byte string b, encoding the decoded record gives b back |
| CbefRecord.DecodeOfEncodeRecord | src/identity.rs:487-691 | Decoding an encoded record gives the record with every value canonical |
| CbefRecord.PrefixFree | src/identity.rs:659-691 | No accepted record is a proper prefix of another |
| CbefRecord.EqualRecordBytes | src/identity.rs:487-511 | Encodable records share their bytes exactly when they share a canonical form |
| CbefRecord.RecordStarts | src/identity.rs:487-511 | Every encoded record starts with CFID, version 1, its domain and its field count |
| CbefRecord.RecordEncodesIff | src/identity.rs:487-511 | A record encodes exactly if its tags are two-byte numbers from one up in ascending order, two bytes can count its fields, and every value encodes |
| CbefCodec.DecodeValue | src/identity.rs:533-547 | The cursor decoder computes the decoding function, errors included |
| CbefCodec.DecodePayloadBytes | src/identity.rs:549-610 | Every type code is decoded, or refused with the right error, as the decoding function says |
| CbefCodec.DecodeSequenceBytes | src/identity.rs:612-629 | The two-pass list and set loop: framing, order check and values |
| CbefCodec.DecodeMapBytes | src/identity.rs:631-651 | The map loop: ascending keys, framing and values |
| CbefCodec.DecodeRecordBytes | src/identity.rs:659-691 | The record loop computes the record decoding function |
| CbefCodec.EncodeRecordBytes | src/identity.rs:487-511 | The record encoder's tag checks and buffer loop compute the encoding function |
| Bytes.BigEndianRoundTrip | src/identity.rs:383-394 | Fixed-width big-endian numbers read back |
| Bytes.SortDistinctMeaning | src/identity.rs:469-472 | Sorting without repeats is strictly ascending, keeps only given items and loses no key |
| Bytes.SortKeepsAllIff | src/identity.rs:434-472 | Sorting without repeats keeps every item exactly if no two share a key |
| TypeInterner.CanonicalBytes | src/identity.rs:2136-2155 | The in-place rewrite of list fields and the record encoding give the canonical term bytes |
| TypeInterner.EqualTermBytes | src/identity.rs:2136-2155 | Terms share canonical bytes exactly when they have one constructor and fields with equal tags and canonical values; only unions and intersections compare lists by the encodings of their members, without order or repeats |
| TypeInterner.TermStarts | src/identity.rs:2136-2155 | Canonical bytes are a version byte 1, the constructor counted from one, and a record of the type domain with as many fields |
| TypeInterner.ReorderedMembers | src/identity.rs:2136-2155 | Members of a union or intersection may be reordered or repeated without changing the bytes |
| TypeInterner.TypeTable.Intern | src/identity.rs:2170-2236 | One intern: the identity, a collision error or an encoding error, and the table afterwards |
| TypeInterner.SameIdSameBytes | src/identity.rs:2199-2236 | Over any sequence of interns and any digest function, two successes with one identity had equal canonical bytes |
| TypeInterner.SameIdSameType | src/identity.rs:2136-2236 | Hence they are one type: the same constructor and the same fields, up to the order of union and intersection members |
| TypeInterner.TypeRecordEncodes | src/identity.rs:2199-2224 | A type identity can be derived exactly for shapes shorter than 4 GiB |
| TypeInterner.TypePreimage | src/identity.rs:2199-2224 | That preimage byte by byte: CFID, version 1, domain 11, four fields with tags 1 to 4, namely workspace, context, shape version 1 and shape, each with type and length |
| TypeInterner.PreimageBindsType | src/identity.rs:2199-2224 | The preimage of a type identity determines workspace, context and shape |
| TypeInterner.Idempotent | src/identity.rs:2199-2236 | A request that succeeded once succeeds again with the same identity |
| TypeIdentity.RefusedExactlyWhen | src/identity.rs:2199-2236 | Over any run and any digest function, a request that encodes is refused exactly when an earlier success holds its identity for other canonical bytes, and otherwise gets its identity |
| TypeIdentity.NeverRefused | src/identity.rs:2199-2236 | If the identities tell the preimages of the run apart, no request is refused: each succeeds exactly if its canonical bytes exist and are shorter than 4 GiB |
| TypeIdentity.IdentityStandsForOneType | src/identity.rs:2136-2236 | Then two successes share an identity exactly when workspace and context agree and the terms are one type |
| TypeIdentity.SomeDigestTellsApart | src/identity.rs:2199-2224 | For every run of fewer than 256^16 requests there is such a digest function |
| TypeIdentity.EveryDigestConfusesContexts | src/identity.rs:2225-2235 | For every digest function and every type there are two different pairs of workspace and context that both get one identity, because the table compares shapes alone |
| TypeInterner.IdentityRegistry.Register | src/identity.rs:1665-1680 | Registering binds an identity to its digest and preimage, or reports a collision and changes nothing |
| TypeInterner.SameIdSameEvidence | src/identity.rs:1665-1680 | Registrations of one identity that both succeed carry the same digest and preimage |
| TypeInterner.RegisteredIff | src/identity.rs:1665-1680 | A registration succeeds exactly when it carries the evidence first registered for its identity |
| PathCodec.EncodeComponentBytes | src/identity.rs:1855-1878 | The escaping loops for text and other components, and the lossy flag |
| PathCodec.DecodeComponentBytes | src/identity.rs:1880-1905 | The unescaping cursor loop, malformed and lower-case escapes included |
| PathCodec.CanonicalBytes | src/identity.rs:1934-1942 | Escaped components joined by slashes; lossy exactly if some component is no text |
| PathCodec.ComponentRoundTrip | src/identity.rs:1855-1905 | Unescaping gives back any component, whichever escaping rule applied |
| PathCodec.PlainStays | src/identity.rs:1855-1878 | Bytes that need no escape stay as they are, in text and in other components |
| PathCodec.PathRoundTrip | src/identity.rs:1996-2007 | Decoding canonical bytes gives back any non-empty component list; the empty list comes back as one empty component |
| PathCodec.AcceptedIsCanonical | src/identity.rs:1996-2007 | Every accepted path is the canonical form of what it decodes to |
| PathCodec.CanonicalInjective | src/identity.rs:1934-1942 | Canonical bytes tell all component lists apart, except the empty list and one empty component |
| PathViews.FromComponents | src/identity.rs:1913-1988 | Raw, canonical, comparison and display bytes of any component list; only the reserved platform is refused, and the display conversion never fails |
| PathViews.EncodedIsClean | src/identity.rs:1855-1878 | Escaping leaves no slash and no control byte, and of a component that is no text only visible ASCII |
| PathViews.CanonicalIsText | src/identity.rs:1934-1942 | Canonical bytes are always valid UTF-8, also when a component is not |
| PathViews.DisplayIsText | src/identity.rs:1943-1957 | The display is always valid UTF-8, and the raw path where every component is text |
| PathViews.RawSplitsIff | src/identity.rs:1922-1932 | Raw bytes give the components back exactly when there are some and none holds a slash |
| MerkleLoop.AddAncestors | src/inventory.rs:1106-1111 | Stopping at the first known ancestor still inserts the directory and all its ancestors |
| MerkleLoop.MerkleFromLeaves | src/inventory.rs:1101-1139 | The deepest-first loop returns the one digest of the leaves, which for distinct relative paths in any order is that of the directory tree |
| MerkleOrder.OrderIsIrrelevant | src/inventory.rs:1118-1136 | Every deepest-first order of the directories gives the same digest, for any leaves |
| MerkleOrder.SortedAlike | src/inventory.rs:1127-1128 | Two lists of children sort alike exactly when they have the same children of each name in the same order |
| MerkleOrder.AlikeSameRoot | src/inventory.rs:1101-1139 | Leaves that agree in each directory and name share the digest |
| MerkleFlat.FlatIsTree | src/inventory.rs:1101-1139 | For any deepest-first order of the directories, the flat digest is the tree digest |
| MerkleBinding.RootsBind | src/inventory.rs:1101-1182 | Two inventories of distinct paths, with the path hashed into each leaf, share a root exactly when they hold the same leaves and list leaves of one top-level name in the same order |
| MerkleBinding.RootHolds | src/inventory.rs:1101-1182 | Exactly the leaf digests can be read off the root digest, whatever the paths |
| MerkleBinding.RootBindsLeaves | src/inventory.rs:1101-1182 | Equal roots mean the same paths and leaf fields, for any paths, leading slashes and repeats included |
| MerkleBinding.OrderIrrelevantIff | src/inventory.rs:1101-1139 | The root does not depend on the order of the leaves exactly when no top-level name occurs both with and without a leading slash |
| MerkleBinding.PreimageInjective | src/inventory.rs:1172-1187 | What is hashed for a directory determines its children |
| Merkle.ParentIsHigher | src/inventory.rs:1118-1136 | A directory is always deeper than its parent, so it is digested first |
| Merkle.SortByNameAscends | src/inventory.rs:1127-1128 | The stable sort by name lists distinct children in one ascending order, a file before a directory of the same name |
| InventoryStore.Store.Persist | src/inventory.rs:855-913 | A rebuild replaces one generation's rows by the records and publishes the digest of the records as given, or changes nothing |
| InventoryStore.Store.Advance | src/inventory.rs:922-1027 | An advance stores the prior rows minus removals under the upserts and publishes the digest of the stored rows in path order, or changes nothing |
| InventoryStore.OverlayAt | src/inventory.rs:961-1016 | Row by row: the last upsert wins and keeps classification and Git fields of a surviving row; other rows survive unless removed |
| InventoryStore.LostExactlyWhen | src/inventory.rs:943-960 | Advancing a generation onto itself loses the prior rows, except exactly when each was removed or upserted with fresh classification and Git fields |
| InventoryStore.PersistedDigest | src/inventory.rs:1029-1067 | The digest read back is that of the rows in ascending path order; it is refused exactly if a content digest has not 32 bytes or a code leaves 16 bits |
| InventoryStore.InventoryDigest | src/inventory.rs:1092-1099 | The digest of a record list is that of its leaves in the given order |
| InventoryBinding.DigestBindsRows | src/inventory.rs:1029-1067 | Two stored generations have one digest exactly when they list the same paths with the same content (32 zeros counting as none), length, kind, classification and inclusion, for any paths |
| InventoryBinding.RebuildMatchesIff | src/inventory.rs:1092-1099 | A rebuild publishes what an advance to the same rows publishes exactly when the records give the two spellings of a top-level name in byte order |
| InventoryBinding.RelativeDigest | src/inventory.rs:1029-1067 | For relative paths the stored digest is that of the directory tree |
| InventoryBinding.LeafPreimageInjective | src/inventory.rs:1152-1170 | What is hashed for a file determines path, content, length, kind, classification and inclusion |
| InventoryStore.ApplyUpserts | src/inventory.rs:961-1016 | Removals and upserts give the overlay, unless a length exceeds the bound |
| GitPayload.DecodeOfEncode | src/git_state.rs:1446-1567 | Decoding an encoded candidate payload gives the candidates back |
| GitPayload.EncodeOfDecode | src/git_state.rs:1446-1567 | Every accepted payload is the encoding of what it decodes to |
| GitPayload.PayloadEncodesIff | src/git_state.rs:1446-1478 | Candidates are encoded exactly if there are at most 100,000 with paths of at most a mebibyte; the payload starts with CFGC1, the rescan flag and the count |
| GitPayload.EncodePayloadBytes | src/git_state.rs:1446-1478 | The encoder's budget checks and buffer loop |
| GitPayload.DecodePayloadBytes | src/git_state.rs:1504-1567 | The decoder's loop, refusing every malformed payload |
| GitVector.PreimageBinds | src/git_state.rs:1400-1434 | What is digested tells state vectors apart, except an absent index count from the largest one |
| GitVector.PreimageLayout | src/git_state.rs:1400-1434 | Where each part of a state vector stands in the digested bytes, with the marks of present objects and index |
| GitCache.CandidateCache.Get | src/git_state.rs:293-353 | A hit in the list moves its entry to the newest place; otherwise a readable row of the table that verifies is promoted; everything else is a miss that changes nothing |
| GitCache.CandidateCache.Put | src/git_state.rs:360-423 | A fenced, encodable set becomes the newest entry of the list, and a row of the table if the store can be written; the right error otherwise |
| GitCache.LookupIff | src/git_state.rs:293-353 | A lookup finds candidates exactly if the key names the worktree and the digest of the given state, and the entry in the list, or else the row of a readable table with a 32-byte digest, is whole; a hit becomes the newest entry, a miss outside the list changes nothing |
| GitCache.EntryForIff | src/git_state.rs:360-378 | Candidates are refused exactly if the key is not of their state, there are more than 100,000, or a path is too long; what is accepted decodes to them |
| GitCache.CachedIsFound | src/git_state.rs:293-434 | What was just put is found again, through encoding, digest and trimming |
| GitCache.StoredIsFound | src/git_state.rs:293-422 | So is what was put into the table, if fewer rows than allowed come before it, when the list has lost it |
| GitTable.InsertedIsBounded | src/git_state.rs:389-422 | No write takes any workspace over its row bound, and a row that stays displaces none of a later generation |
| GitTable.TrimmedKeepsFirst | src/git_state.rs:410-419 | What is retained is retained together with everything before it in the order of generation, digest, topology and mode |
| GitTable.TrimmedKeepsAsMany | src/git_state.rs:410-419 | Trimming leaves exactly as many rows as there were, or as many as are allowed if that is less, and touches no other workspace |
| GitCache.CandidateCache.PushL1 | src/git_state.rs:425-434 | After every operation the list is the newest part of everything touched |
| GitCache.TouchedMeaning | src/git_state.rs:293-434 | That is: each touched key once, with its last entry, ordered by last touch |
| GitCache.NewestOfTouch | src/git_state.rs:425-434 | Trimming to capacity after each touch loses nothing that trimming once at the end would keep |
| GitPlanner.Planner.MakePlan | src/git_state.rs:587-784 | The planner with and without a cache and a store: every fallback, both state captures, the budget, and both tiers afterwards |
| GitPlanner.CollectPaths | src/git_state.rs:753-759 | The planned paths are the current and prior paths of all candidates |
| GitTransparency.StatusIsTransparent | src/git_state.rs:587-784 | Each status-mode plan with a steady scan equals the plan made without the cache, apart from the hit flag; earlier scans may fail, be cancelled or be overtaken, as long as those that succeed are true of the state they name and the hash has no collision among the states of the run |
| GitTransparency.RunIsTransparent | src/git_state.rs:587-784 | The same in either mode, if the scan of the turn would find what earlier turns found in the same workspace, topology, mode and state; both tiers may start with what earlier turns left behind, or with detectable damage |
| GitTransparency.StatusPlansAreTrue | src/git_state.rs:587-784 | Every status plan, hit or not, steady or not, lists exactly what the scan finds in the state it names, which is the state held after the turn |
| GitTransparency.PlanNamesItsScan | src/git_state.rs:587-784 | Every Git plan lists exactly the paths of a scan made in its own mode, workspace and topology of the state it names, which still held after the turn, within the budget |
| GitTransparency.EveryPlanStems | src/git_state.rs:587-784 | With any digest function, every plan is the uncached one or reuses what an earlier turn computed under the same key |
| GitTransparency.TurnKeepsHonest | src/git_state.rs:293-422 | Whatever a turn writes to either tier is what it computed, under the key of the state its scan named |
| GitTransparency.LeftBehind | src/git_state.rs:293-422 | Whatever a run leaves in both tiers, and the table alone after a restart, holds only what its turns computed, so that the results above go on across restarts |
| GitTransparency.DigestTellsApart | src/git_state.rs:1400-1434 | A hash without collisions among the preimages of a run's captured states tells those states apart |
| GitTransparency.AllTransparentWhenOldTreesAgree | src/git_state.rs:587-784 | If what was found in the place of a moved-HEAD request came from its own old HEAD tree, the cache does not change its plan either |
| GitTransparency.HeadTreeReuses | src/git_state.rs:201-214 | After a HEAD move, the second plan in one state reuses the first one's candidates whatever its own diff |
| GitTransparency.HeadTreeTransparentIff | src/git_state.rs:201-214 | For two such requests, the reused plan equals the uncached one exactly if the second scan would succeed with the same verdict and the same planned paths |
| GitTransparency.HeadTreeNotTransparent | src/git_state.rs:201-214 | A concrete pair of requests over well-typed states where the cached HEAD-tree plan differs from the uncached one |
| GitPlans.PlanIsFenced | src/git_state.rs:734-765 | A Git plan names the state captured after the scan, the worktree, topology and acceleration of the snapshot, and keeps its path budget |
| GitPlans.StatusPlanIff | src/git_state.rs:587-784 | A status plan is made exactly when the request reaches the scan, HEAD has not moved (same repository and worktree, other HEAD tree), and the scan stands: no rescan, unchanged state, within budget; it names the paths of the scan |
| GitPlans.HeadTreePlanIff | src/git_state.rs:587-784 | After a HEAD move a plan is made exactly when both scans succeed in one state and stand together, and it names the paths of both |
| GitPlans.MergeAscends | src/git_state.rs:706-709 | Merged candidates are in order of path, prior path and origin, without repeats |
| GitPlans.IsolatedPlanIff | src/git_state.rs:587-605 | Without a rescan, fewer watched paths than the threshold are planned exactly as they are, and only then, without a look at Git |
| GitPlans.InventoryPlanIff | src/git_state.rs:587-784 | The inventory is walked exactly when neither the watched paths nor the scans give a plan; such a plan names no path and no state and has a reason, and no other plan has one |
| GitPlans.ReasonIff | src/git_state.rs:587-730 | Each reason before and during the scans is given exactly when the answer it names is the first to fail |
| GitPlans.LateReasonIff | src/git_state.rs:731-765 | Each reason after the scans, likewise |
| GitPlans.FallbackShows | src/git_state.rs:507-530 | Every fallback shows the acceleration that its error or the state calls for |
| GitPlans.CachedPlanIff | src/git_state.rs:648-664 | With a cache, the plan is finished from what the cache offers for the captured state, and nothing is written; without an offer it is the uncached plan |
| GitPlans.CachedIffPlanned | src/git_state.rs:648-773 | A turn caches its candidates exactly if the fence was verified, the cache offered nothing and the plan stands; they are then found under the state the scan named; any other turn leaves the table as it is, and the list too without a verified fence |
| GitTransparency.RunPlanKinds | src/git_state.rs:587-784 | In any cached run: isolated plans exactly for few paths, with those paths and both tiers unchanged; inventory plans exactly with a reason |
| GitPlans.VerifyMeaning | src/git_state.rs:478-505 | The re-check passes exactly if the plan names no state, or the state is unchanged and every path now dirty was planned |
| Freshness.StepKeeps | src/freshness.rs:61-157 | Every atomic action of every thread keeps the invariant |
| Freshness.Watermarks | src/freshness.rs:61-75 | In every run reconciled never exceeds admitted, and both only grow |
| Freshness.NoLostWakeup | src/freshness.rs:139-157 | A parked waiter whose condition holds was notified, or some writer is between its store and its notify |
| Freshness.NotifyWakes | src/freshness.rs:72-102 | That writer's next action wakes the waiter |
| Freshness.NotifiedReturns | src/freshness.rs:139-157 | A woken waiter whose target is reconciled and whose source is available returns Current by its own four actions |
| Freshness.AwaitedAnswer | src/freshness.rs:121-157 | A waiting query that answers Current sees everything reconciled that was admitted when it began |
| Freshness.ImmediateAnswer | src/freshness.rs:105-137 | An immediate query reads the flag, what is reconciled and what is admitted at three steps of its own in this order; it answers unavailable exactly if the flag was set at the first, and otherwise current or stale by comparing the other two, strictly or with the matching state; current means that at its last step nothing admitted is unreconciled |
| Freshness.AwaitedOutcome | src/freshness.rs:139-157 | A waiting query ends unavailable exactly at the check of the flag, current exactly at the check of the watermark, and stale exactly when its time is up |
| Freshness.ChecksPassed | src/freshness.rs:139-157 | A waiting query passes a check only while its condition does not hold |
| Freshness.ReconcileTakesEffect | src/freshness.rs:70-88 | Once a reconciliation is done, everything up to its watermark that was admitted when it began is reconciled |
| Freshness.FlagTakesEffect | src/freshness.rs:90-102 | Marking sets the flag and restoring clears it and then reconciles, at steps of the writer |
| Freshness.ReconciledWasAsked | src/freshness.rs:70-88 | Nothing is reconciled beyond a watermark that some writer passed in |
| Freshness.CanBegin | src/freshness.rs:61-157 | A thread at rest can begin any operation; it can admit one change, or all up to a watermark, and no fewer than before |
| Freshness.ReadsAlone | src/freshness.rs:105-137 | An undisturbed immediate query ends with the answer for the state it finds |
| Freshness.WaitsAlone | src/freshness.rs:139-157 | An undisturbed waiting query answers at once if it can, and otherwise parks with the watermark admitted at its beginning |
| Freshness.ReconcilesAlone | src/freshness.rs:70-88 | An undisturbed reconciliation raises the watermark as far as it is admitted and wakes every registered waiter |
| Freshness.FlagsAlone | src/freshness.rs:90-102 | A writer that marks can set the flag and goes on to notify; one that restores can clear it and goes on to reconcile |
| RuntimeImages.StepKeeps | src/provider_runtime.rs:88-205 | Every action of every process, crash and release included, keeps the cache invariant |
| RuntimeImages.LiveImagesAreSafe | src/provider_runtime.rs:88-205 | In every reachable state each live runtime image is published, complete and the one acquired, the retained image included; at most eight images of at most 96 GiB each, and 192 GiB in all, are published |
| RuntimeImages.LeasedImageUnchanged | src/provider_runtime.rs:247-292 | No action removes or overwrites the image behind a handle that stays alive |
| RuntimeImages.AcquireHolds | src/provider_runtime.rs:179-205 | A successful acquire holds a lease on an existing, complete image with the wanted observation |
| RuntimeImages.AcquiredAsAsked | src/provider_runtime.rs:88-205 | In every run, whatever a process acquires by either path is a live, complete image of exactly the observation for which it began the attempt, and for which it has asked ever since |
| RuntimeImages.InspectKeeps | src/provider_runtime.rs:262-280 | Collection counts leased and wanted images and singles out for removal only one that nobody holds and nobody wants, and keeps the invariant |
| RuntimeImages.CollectionRemoves | src/provider_runtime.rs:255-297 | In every run, when collection is over every image left is the wanted one or has been leased since the lock was taken |
| RuntimeImages.AttemptSucceeds | src/provider_runtime.rs:88-205 | From every reachable state with the lock free, steps of the process alone acquire the observation it asks for, if its image is there and complete, or if fewer than eight others are leased and leave room for the capture |
| RuntimeImages.IncompleteImageBlocks | src/provider_runtime.rs:88-205 | A wanted image that an interrupted removal left incomplete stays so for the whole attempt, which cannot succeed |
| RuntimeImages.InterruptedRemoval | src/provider_runtime.rs:262-280 | A collection can be interrupted while it removes any image that is neither leased nor wanted, and then leaves it incomplete |
| RuntimeImages.ReuseIsPossible | src/provider_runtime.rs:97-102 | In every reachable state a process whose retained image has the wanted observation can be handed a clone of it without the lock |
| RuntimeImages.PublishKeeps | src/provider_runtime.rs:118-177 | Publishing by rename adds one complete new image, leaves all others as they are, adds exactly its bytes, and keeps the invariant |
| RuntimeImages.CrashKeeps | src/provider_runtime.rs:353-377 | A crash at any point releases the lock and exactly the leases of its process, leaves all images, and keeps the invariant |
| RuntimeImages.AcquireIsPossible | src/provider_runtime.rs:88-205 | In an empty cache any observation can be captured, published and acquired |
| DiskHeadroom.RoundedIsLeast | src/disk_headroom.rs:139-144 | The rounded size is the least positive multiple of the allocation unit that covers the request |
| DiskHeadroom.RoundsExactlyWhen | src/disk_headroom.rs:139-144 | Rounding fails exactly when the intermediate sum leaves 64 bits |
| DiskHeadroom.GrantedIff | src/disk_headroom.rs:132-166 | A request is granted exactly when what is in flight, its rounded size and 128 MiB (16 MiB for control) together are available; the right error otherwise |
| DiskHeadroom.Headroom.TryReserveGrowth | src/disk_headroom.rs:132-166 | A reservation succeeds with the rounded permit or reports the right error and changes nothing |
| DiskHeadroom.Headroom.Release | src/disk_headroom.rs:188-200 | Dropping a live permit gives back exactly its bytes and cannot underflow |
| DiskHeadroom.RunBalances | src/disk_headroom.rs:132-200 | Over any run, what is in flight is the sum of live permits and no release underflows |
| DiskHeadroom.RunKeepsFloor | src/disk_headroom.rs:132-166 | Data permits never exceed the largest sample seen minus 128 MiB, also when samples fall |
| DiskHeadroom.ControlAdmitted | src/disk_headroom.rs:132-166 | So, unless an earlier sample was larger, a control request is admitted whenever control growth plus its rounded size is at most 112 MiB |
| InventoryUpload.AnalyzeRequest.ReceiveInventory | src/pyrefly_inventory_stream.rs:20-114 | An upload succeeds exactly on chunks 0, 1, 2, ... within all bounds and a matching end marker, and commits their concatenation; every error leaves the request unchanged and is the one that the first offending arrival calls for |
| InventoryUpload.Assemble | src/pyrefly_inventory_stream.rs:54-113 | The receive loop accepts exactly the complete streams and assembles both lists in order; otherwise the first arrival that is no good chunk decides the error |
| InventoryUpload.SendInventory | src/pyrefly_service.rs:1150-1188 | The sender's chunks and end marker |
| InventoryUpload.SentIsAccepted | src/pyrefly_service.rs:1150-1188 | Whatever the sender packs within the limits is accepted and comes out as it went in |
| InventoryUpload.SeparatePackingFits | src/pyrefly_inventory_stream.rs:71-82 | Full chunks of up to 16,384 modules and 16,384 changed ids, packed separately, fit the 512-chunk cap |

## Left out

- Diagnostic texts of unknown rows, fact provenance columns and Arrow batches: the census counts units and facts, not messages.
- petgraph's own algorithms, BLAKE3 and the Unicode tables: contracts and symbolic hashes stand for them.
- Weak memory: `Freshness` interleaves atomic actions in one total order, and its counters do not wrap at 64 bits.
- Capture of a runtime image: copying is one step that keeps to the room it was given; observation and manifest files are part of the image value.
- The adapter's own scanning through gix, and changes that other processes make to the cache table.
- Public identity strings, recipe identities, schema tables, configuration and the daemon's wiring: one-branch facts beside the rest.
- The inventory walker and its inclusion policy.
- Census.AnalysisState.DeriveCfg: which facts of a single owner are lost to the row bound is left open; which owners and stages lose any is not.
- Census.Analyze: execution proof pins of coverage rows and repeated local semantics, which are refused, are not modelled; local semantics are a map.
- ControlDependence.ControlDependences: the classical dependence of a loop header on itself through a self edge is not reported by the code and so not by the model.
- RuntimeImages.LiveImagesAreSafe: the 192 GiB bound relies on the capture keeping to the size it is given.
- GitTransparency.StatusIsTransparent: says nothing about plans after a HEAD move, for which it is false without the condition of `GitTransparency.AllTransparentWhenOldTreesAgree`.
- GitTable.InsertedIsBounded: rows that tie in generation, digest, topology and mode are excluded, because a state digest belongs to one worktree.
- GitTable.TrimmedKeepsAsMany: excludes the same ties.
- PathViews.FromComponents: decomposition and case folding of the comparison key are one function parameter.
- InventoryUpload.AnalyzeRequest.ReceiveInventory: decoding errors of single commands are one transport failure.
