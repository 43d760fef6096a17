# StrataDiff verification model

This project models the parts of StrataDiff whose correctness is an argument across functions, and proves what they
promise. `dafny verify dfyconfig.toml` checks all of it.

The primary part is the ordered structural matcher (`src/matcher.rs`). It maps two syntax trees onto each other,
asserts a pair of children only when every maximum ordered alignment contains it, and otherwise reports what is left open.

| files | what they cover |
|---|---|
| Syntax, Serials, Buckets, UniquePairs, Sorting, Uniqueness, Finite, Wrappers, Strings | trees, the two equalities and what they read, hash buckets, sorting, keys, sizes, strings |
| Chains, Alignment | ordered alignments as sets of cells; the dynamic program and its tests, for every matrix size |
| ShapeClasses, Connectivity, DisjointSets, CandidateGroups | shape classes and compatibility groups |
| Interaction, Components, StableCore, RegionCore | cutting a region into components and reporting each of them |
| Mappings, Claims, MappingState, ShapePairs | the mapping, what its claims say, its mutable state and the invariant every step keeps |
| GlobalAnchors, Regions, Visits, ExactChildrenPass, Worklist | the global pass and the worklist |
| Ambiguities, NonCrossing, Origins, Changes, Matcher | what a completed run guarantees |
| Ledgers, Ingest, Confluence, Intake, DeliveryOrders | the review ledger and its ingest |
| HeadHistory, Reconciliation, ActiveReviews | head transitions and standing reviews |
| RawGroups, RawEvaluation, RawAdapter | raw relation groups of the benchmark and the evaluator's checks on them |
| Globs, CivilDates, Utf16 | workflow filters, civil dates, UTF-16 boundaries |

## How to read it

* A definition that the program computes with and a theorem speaks of is also described by the fields of the trees,
  payloads and records alone, and the two are proved equivalent, in lemmas whose names end in `Exactly` or `Exact`. Two
  nodes *read alike* when the marks of their subtrees in preorder agree (`Serials.SameSerial`).
* A run of the matcher is recorded as a ghost trace, one `Visit` for each relation of the worklist. Every state of the
  trace is the one the step before it left (`Visits.InSequence`, `Worklist.Successive`). `Worklist.Completed` says what
  the trace has to do with the final mapping; the theorems of `Matcher`, `Ambiguities`, `Origins` and `NonCrossing` are
  about every completed run.
* What a region reports is tied to a `RegionCore.Division` of it: its groups, its components, the places where it was
  cut, and what each component contributed.
* `Mappings.Invariant` is the whole-run invariant: both maps are mutual inverses, every recorded claim is true, exact
  subtrees are mapped whole, shape pairs hang below non-exact mapped pairs, and below any node but the root mapped
  children stay below the counterpart of their parent.
* Node ids are positions and a parent's id is smaller than its children's, as both parsers number them
  (`crates/stratadiff-core/src/syntax.rs:422-511` and `:280-345`), so the root is 0. Digests are arbitrary integers: every
  statement holds for colliding digests too. Only the statement that no global anchor is lost assumes that equal syntax
  has equal digests and sizes (`GlobalAnchors.FaithfulDigests`).
* HMAC, SHA-256, Ed25519, JSON decoding and the field validators of the ledger are deterministic functions
  (`Ledgers.Primitives`, `Ingest.Gateway`). Confluence assumes that signing with a key satisfies verification with its
  public key, that one public key belongs to one key, and that digests are well formed (`Confluence.Lawful`).
* Rust iterates hash maps in no fixed order; where the program does, the model picks keys in any order.

## What the proofs say about the code

* A relocation is only ever reported for a direct child of the root, and a model-forced update likewise; deeper nodes
  never leave the counterpart of their parent (`Matcher.RelocationsAreTopLevel`, `Matcher.UpdatesAreTopLevel`). The
  documentation describes relocations without this restriction; the model follows the code.
* `suggested_update` is never reported (`Matcher.NothingSuggested`).
* In a filter pattern the slash after `**` belongs to the run, so `**` followed by a slash also matches no slash at all
  (`Globs.FirstToken`).
* A force push back to a commit already seen makes the head history unacceptable for good
  (`HeadHistory.ReturnIsFinal`, with a concrete history in `HeadHistory.ForcePushBack`).
* The conditions on the records of a ledger do not depend on their order, but its validity does: the snapshot digests
  the ordered lists (`Ledgers.ReorderedValid`, `Ledgers.OrderCanMatter`).

## Model

| member | source | states |
|---|---|---|
| Syntax.ShapeSymmetric | crates/stratadiff-core/src/syntax.rs:646-677 | shape equality of two subtrees does not depend on the side they are read from |
| Syntax.ShapeTransitive | crates/stratadiff-core/src/syntax.rs:646-677 | shape equality carries over across three trees, so a class of shapes may be tested against any one member |
| Syntax.SubtreesNest | crates/stratadiff-core/src/syntax.rs:422-511 | two subtrees that share a node are nested |
| Syntax.SiblingsDisjoint | crates/stratadiff-core/src/syntax.rs:422-511 | the subtrees of two children of one node share nothing |
| Serials.SyntaxExactly | crates/stratadiff-core/src/syntax.rs:613-644 | two nodes are syntactically equal exactly when their languages agree and their subtrees read alike in preorder: kinds, flags, numbers of children, fields of the children, and the bytes of the leaves |
| Serials.ShapeExactly | crates/stratadiff-core/src/syntax.rs:646-677 | two nodes are equal in shape exactly when the same holds with kinds by class and the bytes of leaves only in files without a grammar |
| Serials.ClassIsNormalized | crates/stratadiff-core/src/syntax.rs:563-575 | the class of a kind is decided by the first of identifier, string, integer, float, number and comment that it contains |
| Chains.MaximumDecomposes | src/matcher.rs:580-646 | a set is a maximum ordered alignment of blocks lying one after another exactly when its part in every block is one of that block |
| Chains.PairDecomposes | src/matcher.rs:450-463 | a pair is in every (some) optimum of the whole exactly when it is in every (some) optimum of its own block |
| Chains.OptimumDecomposes | src/matcher.rs:580-646 | the optimum of the whole is the sum of the optima of the blocks |
| Chains.ResidualExact | src/matcher.rs:485-557 | the ordered choices of the required number of possible pairs are exactly the sets that complete the forced pairs to a maximum alignment |
| Chains.MaximumIsResolution | src/matcher.rs:485-557 | every maximum alignment is the forced pairs plus one such choice |
| Chains.ResidualLeavesChoice | src/matcher.rs:549-550 | when a possible pair is left, the required number is positive and smaller than the number of possible pairs (both debug assertions) |
| Chains.MaximumExists | src/matcher.rs:879-899 | every candidate set has a maximum ordered alignment |
| Chains.PairOfImage | src/matcher.rs:580-646 | dropping children without candidates changes no membership in optima |
| Alignment.PrefixScoreIsOptimum | src/matcher.rs:879-899 | every prefix cell is the size of a largest ordered alignment of the first rows and columns, at every matrix size |
| Alignment.SuffixScoreIsOptimum | src/matcher.rs:901-916 | every suffix cell is the size of a largest ordered alignment of the remaining rows and columns |
| Alignment.AlignmentPrefixScores | src/matcher.rs:879-899 | the loop fills exactly the prefix scores, with the forbidden cell blanked |
| Alignment.AlignmentSuffixScores | src/matcher.rs:901-916 | the backward loop fills exactly the suffix scores |
| Alignment.AlignmentScore | src/matcher.rs:918-921 | the corner cell is the optimum of the matrix without the forbidden cell |
| Alignment.OccursExactly | src/matcher.rs:923-934 | prefix plus one plus suffix reaches the optimum exactly when some maximum alignment contains the pair |
| Alignment.ForcedExactly | src/matcher.rs:936-945 | forbidding the pair lowers the optimum exactly when every maximum alignment contains it |
| Alignment.CandidateOccursInOptimum | src/matcher.rs:923-934 | the table test decides membership in some optimum |
| Alignment.CandidateIsForced | src/matcher.rs:936-945 | a pair is forced exactly when its group is a singleton and every optimum contains it |
| Buckets.BuildBuckets | src/matcher.rs:652-661 | every bucket holds exactly the ids with its key, in their order |
| ShapeClasses.VerifiedShapeClasses | src/matcher.rs:709-753 | the classes are two-sided and pairwise disjoint; two ids share a class only if kind, field and shape digest agree and their subtrees read alike up to kinds of one class, and every such pair of the region does share one |
| Buckets.KeyExactly | src/matcher.rs:648-650 | two ids have one key exactly when kind and digest agree, of the shape for regions and of the syntax elsewhere, and, except among whole subtrees, the field |
| Claims.CanMapExactly | src/matcher.rs:87-121 | the two recursive conflict tests hold exactly when at every position below the two nodes the numbers of children agree and both ends are free or mapped to each other, and for identical subtrees the kinds agree |
| CandidateGroups.CompatibleExactly | src/matcher.rs:774-790 | the alignment may use a pair exactly when kind, field and shape digest agree, the subtrees read alike up to kinds of one class, and nothing at or below the pair is mapped elsewhere |
| Connectivity.AddEdge | src/matcher.rs:692-706 | connectivity after one more edge, the reference for both union-find structures |
| Connectivity.MergeRepresents | src/matcher.rs:692-706 | giving two classes one label accounts for exactly the new edge |
| DisjointSets.RankFits | src/matcher.rs:672-707 | a root of rank r has at least two to the r members, so the rank of a machine-sized forest stays below 64 and fits a byte |
| DisjointSets.DisjointSets.constructor | src/matcher.rs:678-683 | at first every vertex is its own class |
| DisjointSets.DisjointSets.Find | src/matcher.rs:685-690 | find terminates, returns the root of the class and compresses the path without changing any class |
| DisjointSets.DisjointSets.Union | src/matcher.rs:692-706 | union adds exactly one edge to the represented graph and keeps ranks and sizes in step |
| CandidateGroups.ScanClass | src/matcher.rs:774-790 | the scan joins exactly the compatible pairs of a class and marks exactly the vertices they touch |
| CandidateGroups.ConnectivityAgrees | src/matcher.rs:755-838 | scanning class by class finds the same connected components as the whole compatibility graph of the region |
| CandidateGroups.VerifiedCandidateGroups | src/matcher.rs:755-838 | groups are non-empty on both sides and disjoint; two ids of equal kind, field and shape digest that read alike up to kinds of one class and meet no conflict share a group, and all members of a group are alike so; a group is exactly one chain of such pairs unless it has more than 16,384 pairs, and the unscanned groups are exactly the classes of that size, whole |
| Interaction.CutExactly | src/matcher.rs:619-632 | the closing test of the sweep holds exactly where whole groups fill a prefix of both sides |
| Interaction.InteractionSpans | src/matcher.rs:599-645 | the sweep yields consecutive non-empty intervals that cover both sides, are made of whole groups, and are the finest such cut; nothing is left over at the end |
| Interaction.SpansSeparate | src/matcher.rs:580-646 | candidates of different intervals never interact, so the intervals decompose the matrix into ordered blocks |
| Components.OrderedInteractionComponents | src/matcher.rs:580-646 | the components are consecutive non-empty slices of the active children of both sides, use them all up and end at exactly the places where the region can be cut; each is whole groups, its optima and membership tests agree with those of the region, and the region optimum is the sum of the component optima |
| Components.ComponentIndivisible | src/matcher.rs:619-632 | a component cannot be divided: wherever its two lists are split, some group has a member on either side of the split |
| Components.ComponentOptima | src/matcher.rs:450-463 | the optimum of the region is the sum of the optima of its components |
| StableCore.CandidateMatrix | src/matcher.rs:470-483 | the matrix of a component marks exactly its compatible pairs |
| StableCore.BoundedComponentStableCore | src/matcher.rs:465-578 | exactly the singleton pairs of every optimum are asserted; the rest is one ambiguity over exactly the endpoints left open, with an abstention exactly when a possible pair belongs to a duplicate group and an exact constraint otherwise |
| StableCore.AlignedIsScanned | src/matcher.rs:755-838 | a component small enough to align holds no group whose scan was cut short, so its groups are whole components of the can-map graph |
| StableCore.ExactConstraintEncodes | src/matcher.rs:549-557 | the listed pairs and the required number of an exact constraint encode precisely the maximum alignments of the component |
| StableCore.OversizedAlignmentAmbiguities | src/matcher.rs:844-877 | a component above the limit asserts nothing and is one ambiguity over all its endpoints; the cause is the scan limit exactly when one of its groups was not scanned, else the component limit |
| RegionCore.BoundedOrderedStableCore | src/matcher.rs:436-463 | for a whole region: a pair is asserted exactly when every optimum of the region contains it, its group is a singleton and its component can be aligned; exactly the ids left open are named ambiguous; the components are the finest slices; pairs of some optimum are asserted or ambiguous, and no endpoint is reported twice |
| RegionCore.SmallRegionAsserts | src/matcher.rs:436-463 | in a region of at most 64 children per side a pair is asserted exactly when every maximum ordered alignment of the region contains it and no other pair the index proposes and the comparison confirms involves either end |
| RegionCore.RegionAsserts | src/matcher.rs:436-463 | the same for a region of any size, for pairs whose component has at most 64 children per side; no other pair is asserted |
| RegionCore.ForcedOrdered | src/matcher.rs:436-463 | asserted pairs of a region neither share an endpoint nor cross |
| RegionCore.ExactAmbiguityEncodes | src/matcher.rs:485-557 | an exact ambiguity of a region encodes, with the pairs the region asserted, precisely the maximum alignments of one of its components |
| Mappings.WithPairConsistent | src/matcher.rs:53-85 | recording a pair keeps the two maps mutual partial inverses with one fact and one relation per mapped node |
| Mappings.RelationsBounded | src/matcher.rs:269-272 | relations never outnumber the nodes |
| Mappings.AncestorsMapped | src/matcher.rs:269-326 | a node mapped by shape, or given, has all its ancestors mapped, none of them exactly |
| Mappings.AfterAncestorsMapped | src/matcher.rs:269-326 | and so has its counterpart on the after side |
| Mappings.ExactSubtreeMapped | src/matcher.rs:138-183 | everything below an exactly mapped node is exactly mapped to its counterpart |
| Mappings.OnlyExactBelowUnmapped | src/matcher.rs:138-183 | whatever is mapped below an unmapped node is mapped exactly |
| Mappings.SyntaxEqualBelow | crates/stratadiff-core/src/syntax.rs:613-644 | syntactic equality holds all the way down the isomorphic paths |
| Claims.SerialBelow | crates/stratadiff-core/src/syntax.rs:613-644 | nodes at the same position below two nodes that read alike read alike |
| Claims.RelationsTruthful | src/matcher.rs:138-183 | every recorded claim is true of the files: byte equality and syntactic equality of nodes that read alike, with the same source bytes and digest or not, and equality of shape of nodes that read alike up to kinds of one class |
| Mappings.CanMapEqualFrame | src/matcher.rs:87-107 | compatibility depends only on what lies below the two nodes |
| MappingState.MappingState.constructor | src/matcher.rs:42-51 | a new state maps nothing and is consistent |
| MappingState.MappingState.MapPair | src/matcher.rs:53-85 | the state and the answer after recording a pair, for free, equal and conflicting ends |
| MappingState.MappingState.MapEqualSubtree | src/matcher.rs:123-136 | all or nothing: true means every isomorphic pair is mapped with a true claim and nothing else changed, false means nothing changed; true exactly when compatible and equal |
| MappingState.MappingState.MapEqualSubtreeUnchecked | src/matcher.rs:138-183 | the recursion maps exactly the pairs on isomorphic paths |
| MappingState.EqualSubtreeKeepsInvariant | src/matcher.rs:123-183 | mapping equal subtrees keeps the whole-run invariant |
| ShapePairs.ShapePairKeepsInvariant | src/matcher.rs:290-303 | recording an asserted shape pair keeps the whole-run invariant |
| ShapePairs.FreeChildNotBelow | src/matcher.rs:269-285 | a free child of a mapped node never lies below a free child of another mapped node |
| UniquePairs.FindUniquePairs | src/matcher.rs:947-978 | the pairs are exactly those whose key occurs once on each side, that is, ids alike in kind, digest and field with no other like them on either side; they share no endpoint |
| GlobalAnchors.CandidateExactly | src/matcher.rs:208-245 | the candidates of the global pass are the pairs of nodes other than the roots, of three nodes or more, of one kind and syntax digest, with no other such node in their files |
| GlobalAnchors.AddGlobalExactAnchors | src/matcher.rs:208-260 | the pass keeps the invariant and maps nothing but globally unique equal pairs and what lies below them, by position; where digests are faithful every globally unique equal pair ends up mapped |
| GlobalAnchors.CandidateMappable | src/matcher.rs:246-259 | taken largest first, an unmapped candidate never meets a conflict |
| Regions.OrderedAlignmentRegions | src/matcher.rs:339-403 | the barriers are exactly the places where a child is mapped as identical to a child and that cross no other such place, by increasing rows and columns; before, between and after them lie the regions, each with exactly the children there that have no counterpart, in their order |
| Regions.RegionsOrdered | src/matcher.rs:381-402 | of two regions the earlier lies wholly before the later on both sides |
| ExactChildrenPass.MapExactChildren | src/matcher.rs:274-285 | exactly the unique identical pairs of unmapped children that met no conflict are mapped, with what lies below them by position and nothing else; finished rounds stay as they were |
| ExactChildrenPass.TraceKept | src/matcher.rs:269-326 | work under one mapped pair leaves alone what is free under the others |
| Visits.SolveRegion | src/matcher.rs:286-304 | every asserted pair finds both ends free, so the debug assertion holds; the new mapping is the old one with exactly the asserted pairs recorded in order |
| Worklist.VisitRelation | src/matcher.rs:269-326 | one round: exact children, barriers, then each region solved in the very mapping the one before left; its groups are those the regions report |
| Worklist.AddLocalRelations | src/matcher.rs:262-337 | the worklist terminates and visits every relation once; every round starts from the mapping the one before left, from the given mapping to the final one; every shape pair and group comes from a region of some round; groups come out sorted by parents and first members |
| NonCrossing.RoundOrdered | src/matcher.rs:269-326 | the barriers and asserted pairs under one mapped pair form an order-preserving injection |
| Ambiguities.AmbiguousStayFree | src/matcher.rs:304-323 | an endpoint placed in a group is never mapped later, and its parents are mapped to each other |
| Ambiguities.NoNodeInTwoGroups | src/matcher.rs:304-323 | no node belongs to two groups |
| Ambiguities.GroupsExactly | src/matcher.rs:304-323 | the groups of a run are exactly the ambiguities of its solved regions, with the parents whose round solved them |
| Changes.DropIsInverted | src/matcher.rs:1024-1052 | a drop between neighbouring positions means two mapped children changed order |
| Changes.InvertedIsDrop | src/matcher.rs:1024-1052 | two mapped children that changed order show up as a drop between neighbours |
| Changes.MappedPositions | src/matcher.rs:1024-1052 | the neighbour test on the collected positions decides whether any two mapped children changed order |
| Changes.DeriveChanges | src/matcher.rs:998-1147 | the list holds exactly the changes of the mapping, each once: formatting only when the roots read alike and the bytes differ, an update for a shape pair below no other whose ends do not read alike, relocations, order changes, deletes and inserts by the parents and counterparts of their nodes; ordered by before id, after id and kind, missing ids last |
| Matcher.MatchTrees | src/matcher.rs:186-206 | the result reports a completed run that started from the given pair and globally unique pairs only, and its changes by the fields of the trees and of the mapping; with faithful digests no global anchor is lost on the way |
| Matcher.BeforeConserved | src/matcher.rs:1109-1124 | just below a mapped node a before node is exactly one of mapped, ambiguous and deleted |
| Matcher.AfterConserved | src/matcher.rs:1125-1140 | just below a mapped node an after node is exactly one of mapped, ambiguous and inserted |
| Matcher.UnmappedAccounted | src/matcher.rs:1109-1124 | every unmapped before node lies in a deleted or ambiguous subtree just below its nearest mapped ancestor |
| Matcher.UnmappedAfterAccounted | src/matcher.rs:1125-1140 | every unmapped after node lies in an inserted or ambiguous subtree just below its nearest mapped ancestor |
| Matcher.RelocationsAreTopLevel | src/matcher.rs:1054-1080 | a relocation is reported exactly for a child of the root mapped exactly to something that is no child of the root |
| Matcher.UpdatesAreTopLevel | src/matcher.rs:1081-1104 | an update is reported exactly for a child of the root mapped by shape to a node that does not read alike |
| Matcher.FormattingReported | src/matcher.rs:1005-1018 | formatting only is reported exactly when the two files read alike and differ in their bytes |
| Matcher.ReportedTruthful | src/matcher.rs:186-206 | every reported relation is true of the files it relates |
| Matcher.GroupsReported | src/matcher.rs:304-337 | the reported groups are exactly the ambiguities of the solved regions, none empty on either side, by increasing parents and first members |
| Matcher.ShapeTop | src/matcher.rs:1081-1087 | every shape pair lies below a shape pair that is a child of the root |
| Matcher.NothingSuggested | src/matcher.rs:1098-1104 | no suggestion is ever reported |
| Matcher.RelationsAreTheMapping | src/matcher.rs:186-206 | the reported relations are the mapping, one per mapped before node, in increasing order |
| Origins.ExactOrigin | src/matcher.rs:208-285 | whatever is mapped exactly at the end lies, by position, at or below a globally unique pair, or a pair that was unique among the unmapped children of a mapped pair when its round began |
| Matcher.ExactRelationOrigin | src/matcher.rs:208-285 | the same for every relation reported as identical |
| Matcher.ShapeRelationForced | src/matcher.rs:286-303 | every relation reported as equal in shape is in every maximum ordered alignment of its region, in the mapping that region was solved against |
| Matcher.ReportedGroupEncodes | src/matcher.rs:304-323 | every reported group with an exact constraint encodes precisely the maximum alignments of its component, in the mapping its region was solved against |
| Uniqueness.ApartIsUnique | src/ledger.rs:699-706 | whether records have different keys does not depend on their order |
| Strings.StringLeExactly | src/ledger.rs:845-856 | the order of strings is decided by the first place where they differ, and a proper prefix comes first |
| Strings.LowerAsciiExactly | src/ledger.rs:764-766 | strings agree in lower case exactly when they agree letter by letter but for the case of A to Z |
| Sorting.SortCanonical | src/ledger.rs:845-856 | sorting by different keys forgets the order of arrival |
| Ledgers.Validate | src/ledger.rs:658-843 | the validator accepts exactly the ledgers that are sound record by record: at most 10,000 signed deliveries and 1,000 receipts with different ids and sources, every record announced by the one delivery it names, dismissals consistent with the receipts of their reviews, every announced fact recorded, and a signed snapshot with the counts and the digest of the ordered lists |
| Ledgers.ValidExactly | src/ledger.rs:658-843 | the order-independent conditions used for ingest, with the snapshot, are that soundness |
| Ledgers.ReorderedValid | src/ledger.rs:1361-1393 | a valid ledger with its records in another order is valid exactly when the reordered lists still have the signed digest |
| Ledgers.OrderCanMatter | src/ledger.rs:1361-1393 | one ledger that is valid in one order and not in another |
| Ledgers.ValidateReceipts | src/ledger.rs:699-731 | receipts are accepted exactly when ids and sources are unique and each matches its signed delivery |
| Ledgers.ValidateDismissals | src/ledger.rs:732-776 | dismissals are accepted exactly when each matches its delivery and contradicts no receipt |
| Ledgers.ValidateCoverage | src/ledger.rs:803-840 | a delivery is covered exactly when its announced fact is recorded |
| Intake.IngestGithubWebhook | src/ledger.rs:252-386 | a request is applied exactly when it is authentic, speaks for the ledger's identity, brings a new delivery, and carries a fact: then that delivery and one record are added, none for a comment, with every field the payload's, an approval exactly for the state approved in any case; the lists are in order, the snapshot is renewed and signed, and the ledger is sound; it is a duplicate exactly when a delivery of that id, kind and payload is recorded; else it is refused |
| Intake.FactExactly | src/ledger.rs:421-494 | the derived fact is the receipt, dismissal or observation whose every field is the payload's field of that name, or nothing for a comment |
| Intake.AppliedExactly | src/ledger.rs:252-386 | the result of an applied request, field by field, in both directions |
| Ingest.IngestDelivery | src/ledger.rs:360-385 | a new delivery is signed, appended, sorted, re-signed and validated |
| Ingest.InsertReviewReceipt | src/ledger.rs:906-928 | refused exactly for a different receipt of the same review or one receipt too many; otherwise the receipts are the old ones, in their places, and this one; uniqueness and the limit of 1000 are kept |
| Confluence.NewStep | src/ledger.rs:364-385 | a new delivery is accepted exactly when the ledger body with it is valid and the revision can grow |
| Confluence.HoldsWithout | src/ledger.rs:658-843 | a valid body stays valid without its newest delivery |
| Confluence.IngestConfluent | src/ledger.rs:252-386 | two deliveries with different ids succeed in one order exactly when they succeed in the other, with the identical ledger |
| Confluence.IngestIdempotent | src/ledger.rs:346-358 | a delivery recorded in a ledger, at any time in the run, changes nothing if kind and payload agree and is refused otherwise |
| Confluence.TakenAfter | src/ledger.rs:346-385 | a delivery that succeeds is recorded in the ledger it leaves |
| Confluence.TakenKept | src/ledger.rs:252-386 | a recorded delivery stays recorded whatever is taken in after it |
| DeliveryOrders.ArrivalOrderIrrelevant | src/ledger.rs:252-386 | any arrival order of the same distinct deliveries succeeds or fails alike and leaves the identical ledger |
| DeliveryOrders.RepeatsIrrelevant | src/ledger.rs:346-358 | a run with repeated deliveries, at any distance and received at any time, ends like the run in which each arrives once |
| DeliveryOrders.AtLeastOnce | src/ledger.rs:252-386 | two runs over the same requests, in any order and with any repetitions, succeed or fail alike and leave the identical ledger |
| HeadHistory.CheckHistory | src/ledger.rs:605-650 | success exactly when the distinct transitions are none or one simple path that ends at the head |
| HeadHistory.WalkBack | src/ledger.rs:633-646 | the backward walk terminates and reports a cycle only when no path exists |
| HeadHistory.PathIsUnique | src/ledger.rs:605-650 | an accepted history has one path |
| HeadHistory.NextTransition | src/ledger.rs:605-650 | one more transition from the head is accepted exactly when it leads to a commit not seen before |
| HeadHistory.ReturnIsFinal | src/ledger.rs:605-650 | once the head has returned to a commit already seen, every history that keeps these transitions is refused, for every head |
| HeadHistory.ForcePushBack | src/ledger.rs:605-650 | a push and the force push that takes it back are such a history |
| Reconciliation.ReconcileCurrentHead | src/ledger.rs:591-656 | a ledger is reconciled exactly when both ids are 40 or 64 lower-case hexadecimal digits, it is sound, and its observed transitions are none or the neighbours of one path through different commits that ends at the head |
| Reconciliation.AcceptanceIgnoresOrder | src/ledger.rs:591-656 | arrival order and repeated transitions do not matter |
| Reconciliation.ReturnStaysRefused | src/ledger.rs:591-656 | no later list of observations that keeps such a return is ever accepted |
| ActiveReviews.ActiveReceipts | src/ledger.rs:522-589 | for any ledger, the result is exactly the receipts than which no event of their reviewer is later, by submission time, review and kind, and no earlier one in the list as late, with every dismissal of the reviewer placed; by increasing reviewer |
| ActiveReviews.SurvivingIsActive | src/ledger.rs:522-589 | with one receipt per review that is: the reviewer's latest event, whatever the list order |
| ActiveReviews.LaterRetires | src/ledger.rs:549-577 | a receipt is not active when its reviewer has a receipt submitted later, or a dismissal placed later |
| ActiveReviews.LaterOfTwo | src/ledger.rs:549-557 | of two receipts of one reviewer the one with the larger character at the first difference of the times is the only active one; at equal times, the one of the larger review |
| ActiveReviews.DismissedInValidLedger | src/ledger.rs:522-589 | in a validated ledger a dismissed review is never active |
| ActiveReviews.ValidHasOneReceiptPerReview | src/ledger.rs:699-706 | a validated ledger meets the reduction's assumption |
| ActiveReviews.DismissalOnlyRemoves | src/ledger.rs:555-577 | a further dismissal never makes a receipt active and touches only its reviewer |
| ActiveReviews.OrderIrrelevant | src/ledger.rs:522-589 | the order of the records does not matter |
| RawGroups.FindRoot | src/diffbenchmark_case.rs:457-469 | the root is found and the path compressed without changing any root |
| RawGroups.UnionRoots | src/diffbenchmark_case.rs:449-455 | both classes get the smaller root and no other root changes |
| RawGroups.UnionWithEndpointOwner | src/diffbenchmark_case.rs:436-447 | linking every relation to the first owner of its endpoint keeps the forest in step with shared endpoints |
| RawGroups.OwnersConnectShared | src/diffbenchmark_case.rs:387-409 | links through owners connect exactly what chains of shared endpoints connect |
| RawGroups.RawGroupAssignments | src/diffbenchmark_case.rs:387-434 | same id exactly when linked by shared endpoints, the id is the smallest index of the component, Multi exactly when it has a second relation |
| RawEvaluation.InsertRawGroupEndpoints | src/diffbenchmark_eval.rs:675-693 | endpoints are inserted exactly when none was listed before |
| RawEvaluation.PrepareRawMultiGroups | src/diffbenchmark_eval.rs:566-644 | the evaluator accepts exactly the well-grouped oracles and indexes every endpoint by its one group |
| RawAdapter.RejectDuplicateInfo | src/diffbenchmark_case.rs:373-385 | refused exactly when two records carry the same info, which are named |
| RawAdapter.CoverageAddsUp | src/diffbenchmark_case.rs:335-339 | every record is scored or excluded exactly once |
| RawAdapter.OracleAccepted | src/diffbenchmark_case.rs:229-371 | the oracle the adapter builds never triggers a raw-group error in the evaluator |
| RawAdapter.AdaptCategory | src/diffbenchmark_case.rs:215-371 | distinct infos always adapt; every record is scored or excluded once, in order: scored exactly when it parsed, both ends resolve and their roles agree, with the keys of its ends and the number of its group if it shares one; else excluded with its index and the parse failure, the ends that failed or the two roles |
| Globs.GlobMatchesAt | src/doctor_workflow.rs:906-943 | every filled memo cell is right, the recursion terminates on the two indices |
| Globs.GlobMatches | src/doctor_workflow.rs:899-904 | the matcher decides the split language of the pattern |
| Globs.OrderedPathSelected | src/doctor_workflow.rs:881-893 | selection is the polarity of the last matching pattern |
| Globs.EvaluateRefFilters | src/doctor_workflow.rs:828-845 | unknown exactly when an ignore starts with an exclamation mark or a pattern behind one is empty or holds one of [ ] + { } and the backslash; else excluded exactly when there are includes and the last that matches is negated or none does, or when an ignore matches |
| Globs.EvaluatePathFilters | src/doctor_workflow.rs:847-879 | unknown exactly then or without paths; else excluded exactly when there are includes and they select no path, or there are ignores and every path matches one |
| Globs.OnePathIsARef | src/doctor_workflow.rs:828-879 | for a single path both filters decide alike |
| Globs.MorePathsStayIncluded | src/doctor_workflow.rs:847-879 | more changed paths never stop what fewer would start |
| CivilDates.YearOfEraExact | src/github_ownership.rs:1122-1124 | the year of the era is the one whose days contain the day |
| CivilDates.CivilIsDate | src/github_ownership.rs:1113-1136 | every day has a valid proleptic Gregorian date |
| CivilDates.NextDay | src/github_ownership.rs:1113-1136 | the next day has the calendar successor |
| CivilDates.EpochDate | src/github_ownership.rs:1113-1136 | day 0 is 1970-01-01 |
| CivilDates.DatesIncrease | src/github_ownership.rs:1113-1136 | later days have later dates |
| CivilDates.SupportedRange | src/github_ownership.rs:1114-1135 | a date is returned for exactly the days of the years 0 to 9999 |
| CivilDates.CountOfCivil | src/github_ownership.rs:1113-1136 | an independent day count maps the date of every day back to the day |
| CivilDates.CivilOfCount | src/github_ownership.rs:1113-1136 | every valid date is the date of its count |
| Utf16.NewBoundaryMap | src/diffbenchmark.rs:232-241 | the table holds the byte length at every boundary and the marker inside every surrogate pair |
| Utf16.Utf16LengthExact | src/diffbenchmark.rs:235-237 | the length of a scalar in code units is that of its one encoding, itself or a pair of surrogates (section 2.1 of RFC 2781) |
| Utf16.Utf8LengthExact | src/diffbenchmark.rs:238-238 | the length in octets is that of its shortest encoding (section 3 of RFC 3629) |
| Utf16.ByteOffsetExact | src/diffbenchmark.rs:243-252 | an offset is answered exactly when a scalar prefix has that many UTF-16 units, with its UTF-8 length; each error has its exact cause |
| Utf16.SplitsAreInsidePairs | src/diffbenchmark.rs:243-252 | the refused offsets up to the end are those inside a surrogate pair |
| Utf16.ByteOffsetsIncrease | src/diffbenchmark.rs:243-252 | answers increase strictly |
| Utf16.IndexCandidates | src/diffbenchmark.rs:152-168 | the index counts every candidate and remembers a position of it |
| Utf16.UniqueIndexIsScan | src/diffbenchmark.rs:212-217 | the index answers a position exactly when a linear scan finds the candidate there and nowhere else |
| Utf16.ResolvedIsUnique | src/diffbenchmark.rs:182-210 | a node is resolved to a candidate exactly when that is the only candidate of its role and byte range, moved past leading comments only for a declaration with no candidate of its own range |

## Left out

- Evidence strings of relations, detail strings of changes and reasons of ambiguities: constants attached to what is modelled.
- Numbering of groups and the order of groups inside a component: labels only; the component lists the same children.
- The shortcut that returns early when a region has no group at all: the general path gives the same empty outcome.
- Machine overflow of counts of nodes, children and pairs: they are bounded by the number of nodes in memory.
- GlobalAnchors.AddGlobalExactAnchors: does not say which of two conflicting anchors wins when equal syntax has different digests, because the code leaves that to digest accidents.
- The relation between syntax hashes and syntax: the parser's hashing is not modelled; digests are arbitrary.
- The field validators, timestamps and identities of the ledger: one-branch checks, kept as functions in Ledgers.Primitives and Ingest.Gateway.
- Which of several errors a refused ledger, oracle or history reports first: only success and failure are characterised, except in Ingest and Intake, where errors are exact.
- Parsing, the JDT and tree-sitter role tables, and `skip_leading_java_trivia`: the resolver takes the skipping as a function.
- `touched_by`, `is_incident` and the scores of `evaluate_category`: set expressions and ratios over indexes proved here.
- `get_paginated` and its request budget: a page loop with counters around network calls.
- `classify_workflow_trigger`, the doctor reports, permission tables and Markdown rendering: decision tables without a cross-function argument.
- Git, process, file, clock and network access; JSON, base64 and cryptography.
