# A verified model of the campaign engine's decision logic

This project models the parts of the repository that decide things, and proves what those
decisions mean. `dafny verify dfyconfig.toml` checks all of it.

1. **The exploit capability graph** (`internal/chainengine`, `internal/capabilities`).
   Findings grant and require capability labels. Two explicit-stack searches walk the graph:
   one proposes chains, the other enumerates the paths from an attacker baseline to a
   terminal capability and ranks them by length and capital. Both terminate, and both are
   shown equal to a declarative set of paths: sound, complete, without repeats, in a
   declared order, caps included. The link join and the gates that turn a member list into a stored chain agree
   with the searches, and the chain store keeps its invariants over every run.
   Files: `Ordering`, `Capabilities`, `Findings`, `StackSearch`, `ChainSearch`,
   `ChainTheorems`, `CapabilityLinks`, `LinkAgreement`, `TerminalSearch`, `TerminalTheorems`,
   `TerminalRanking`, `ReportTheorems`, `Materialize`, `MaterializeTheorems`,
   `DerivedTheorems`, `SearchMeaning`, `SearchOrder`, `ProposalOrder`, `ProposalMeaning`,
   `LinkOrder`, `ReportMeaning`, `StoreMeaning`.
2. **The code-anchor join** (`internal/anchorlink`). Surface rows, plan priorities and
   findings are resolved onto model paths and accumulated per key. The accumulation equals an
   order-free relational definition. When the result is determined by the artifacts, when a
   function-level anchor implies a path-level one, and when the pattern query of an anchor's
   key reaches everything the anchor holds, are each characterized by the model paths and
   the key.
   Files: `Text`, `AnchorModel`, `PathText`, `Convergence`, `ConvergenceTheorems`,
   `AnchorQuery`, `AnchorQueryTheorems`, `AnchorMeaning`, `QueryMeaning`.
3. **The bounty gate** (`internal/bounty`). Fifteen checks append rows and blockers, waivers
   answer some failures, the rows collapse and a verdict is computed. The verdict is
   characterized over all fifteen checks at once, and over two runs with different waivers.
   Files: `BountyGate`, `BountyTheorems`, `VerdictMeaning`.
4. **Two Python kernels.** `entropy_gate.py`: its reader for a restricted subset of TOML
   v1.0.0 inverts printing, from values up to documents with nested headers, comments and
   arrays spread over lines, and its ratchet never loosens along passing runs.
   `minicertora-scorecard.py`: its two exclusion laws, join and roll-up account for every
   line, and excluded or reordered lines leave no trace.
   Files: `MiniToml`, `MiniTomlTheorems`, `MiniTomlLines`, `MiniTomlDocuments`,
   `MiniTomlTables`, `MiniTomlScalars`, `Ratchet`, `RatchetTheorems`, `RatchetMeaning`,
   `Scorecard`, `ScorecardTheorems`, `ScorecardMeaning`.

Code that loops or changes state in the source is a method here, proved against a
specification function or predicate; the theorems are about those specifications. A search
loop, for instance, is proved to return `Proposals(NodesOf(all), minLength)`, and
`ChainTheorems` says which paths that is. The modules whose names end in `Meaning` restate the
results of each part over the decoded records alone, with the source's constants written out
and without the functions the methods are proved against.

## Where the code and its words differ

The model follows the code. The lemmas named here give an input, or say exactly when the
promise is kept.

- `NormalizeLabels` is documented to drop empty labels, but a value of dashes alone is not
  blank and normalizes to the empty label, which is kept (`Capabilities.EmptyLabelKept`). A
  super-finding loses that label again (`MaterializeTheorems.SuperFindingLabels`).
- `TerminalReport` is documented to give the shortest path per terminal capability, but a row is
  filed under the first of its labels only. A finding that grants two hides the second
  (`ReportTheorems.SecondTerminalMissing`), and the liveness sentence with it when
  "liveness_loss" is the second (`HiddenLiveness`). The promise holds for every store and
  baseline exactly when no confirmed finding grants two terminal labels
  (`ShortestPerCapabilityIff`); `LivenessSurfacesIff` says when the sentence is right.
- A terminal annotation is checked to be granted by its member, not to be terminal: any
  granted label is stored (`MaterializeTheorems.NonTerminalStored`, `AnyGrantAccepted`). What
  is stored is a terminal capability exactly when the claim is one (`StoredTerminalIff`).
- `Convergences` is documented to give the same anchors for the same artifacts. Two model
  paths "x" and "x#" make two keys with the same path and function, so the sort leaves the
  order the map happened to yield. The promise holds for an index exactly when it has no such
  pair of paths (`ConvergenceTheorems.DeterminedIff`).
- A `#` in a model path makes the key of one of its functions split in the wrong place
  (`ConvergenceTheorems.HashBreaksFunctionKeys`, `FunctionLawIff`).
- The query of an anchor's key is meant to return what the anchor counts. A path that ends in
  `:<digits>` makes its own key a question about that line
  (`AnchorQueryTheorems.DigitTailLosesMembers`), and a path with a `#` is never selected by its
  key (`HashNeverSelects`). The query covers the anchor exactly when the key selects its own
  site and no path with a `#` shares it (`CoverageExact`): for a bare path, when it has neither
  a `#` nor such a tail (`BareCoverageExact`); for a function, see `FunctionSelects`.
- `normalizePath` is described as dropping "any leading /"; it drops one, and its result may
  change when it is normalized again (`PathText.SlashKept`, `NormalizeFixedIff`).
- `effectiveChecks` is there so that no refusal comes without a reason. A malformed
  exploitability record still does (`BountyTheorems.SilentRefusal`, `SilentRefusalExact`).
- "extractable_usd > 0" counts a negative integer below the 64-bit range as positive
  (`BountyTheorems.NegativeExtractable`).
- At its severity floor an accepted risk is to leave no record, but nothing removes one that an
  earlier run made: it survives a higher severity (`BountyTheorems.OutlivesSeverity`), the end
  of the policy entry (`OutlivesPolicy`), and stands beside a submission-ready verdict
  (`ReadyThoughAccepted`). `StaleExact` says when.
- The advisories a check raises are appended to the ones saved by the run before, so they
  repeat from run to run (`BountyTheorems.RerunRepeats`).
- The baseline "only goes down" for runs that exit 0 (`RatchetTheorems.CommandsNeverRaise`). A
  capture taken in a blocked run, or by `baseline --write`, raises a ceiling exactly when it
  records more (`HookRaisesIff`, `BaselineRaisesIff`), and the debt it blocked passes the next
  time (`CaptureUnblocks`).
- A multi-line array in the restricted TOML ends at the first line that ends in a bracket, an
  inner one included: an array of arrays with a break after an inner one is misread in silence
  (`MiniTomlDocuments.InnerBracketCuts`), though its one-line form is not (`OneLineWhole`). All
  lines are taken exactly when no earlier line ends in a bracket (`MiniTomlLines.TakesAllIff`),
  as when each element has a line and a comma of its own (`MiniTomlDocuments.SpreadAssigns`).
- The scorecard's `refusal_lines` counts a line once for every case it ties
  (`ScorecardTheorems.RefusalLinesExact`).

## Model

| member | source | states |
|---|---|---|
| Capabilities.NormalizeIdempotent | internal/capabilities/capabilities.go:59-61 | Normalizing a normalized label changes nothing, and every normalized label is canonical: lower-case words joined by underscores, no spaces, dashes or capitals. |
| Capabilities.NormalizeIdentifies | internal/capabilities/capabilities.go:59-61 | Two spellings normalize alike exactly when the texts between their dashes, blanks and underscores, capitals read as small letters, are the same list. |
| Capabilities.NormalizeWord | internal/capabilities/capabilities.go:59-61 | A spelling without dashes and blanks is normalized by reading 'A'..'Z' as 'a'..'z', and by nothing else. |
| Capabilities.NormalizeSplits | internal/capabilities/capabilities.go:59-61 | At any dash or blank the normal forms of the two sides are joined by one underscore, a side without a word leaving no trace; with the row above this fixes every normal form. |
| Capabilities.RespelledAlike | internal/capabilities/capabilities.go:59-61 | Replacing capitals by small letters and dashes by spaces leaves the normal form unchanged. |
| Capabilities.NormalCharacters | internal/capabilities/capabilities.go:59-61 | No character of a normal form is in 'A'..'Z', a dash or a blank. |
| Capabilities.CanonicalFixed | internal/capabilities/capabilities.go:59-61 | A canonical label is its own normal form, and its only word unless it is empty. |
| Capabilities.CanonicalExact | internal/capabilities/capabilities.go:59-61 | A label is its own normal form exactly when it is canonical. |
| Capabilities.NormalizeLabels | internal/capabilities/capabilities.go:65-79 | Returns, sorted and without repeats, the normal forms of the values that are not blank. |
| Capabilities.LabelListed | internal/capabilities/capabilities.go:65-79 | A label other than the empty one is among the results exactly when some value normalizes to it. |
| Capabilities.EmptyLabelKept | internal/capabilities/capabilities.go:65-79 | The empty label is among the results exactly when some value consists of dashes and blanks, at least one dash; the comment above the function says empty labels are dropped. |
| Capabilities.RoleRoundTrip | internal/capabilities/capabilities.go:88-106 | A role survives `RoleLabel` then `RoleFromLabel`, normalized, exactly when its normal form is not empty; otherwise no role is reported. |
| Capabilities.RoleLabelExact | internal/capabilities/capabilities.go:88-106 | A label is a role's exactly when its normal form is "role_" and something behind it. |
| Capabilities.TerminalLabels | internal/capabilities/capabilities.go:128-163 | A label is terminal exactly when its normal form is one of the asset or liveness labels of the vocabulary. |
| Capabilities.SixTerminals | internal/capabilities/capabilities.go:128-163 | The terminal labels are six spellings, and "liveness_loss" is the one liveness label. |
| ChainSearch.RunExists | internal/chainengine/chainengine.go:221-265 | The proposal search terminates on every stack: each pop-and-expand lowers a potential over the frames left, even when a successor is pushed once per shared capability. |
| ChainSearch.RunUnique | internal/chainengine/chainengine.go:221-265 | The visiting order is determined: from one stack, two complete runs pop the same frames in the same order. |
| ChainSearch.FindChains | internal/chainengine/chainengine.go:207-268 | The explicit-stack search returns exactly the proposal list of the frame order it visits: dedup by member set, length bound, cap at 500 with early stop. |
| ChainSearch.Turn | internal/chainengine/chainengine.go:225-264 | One popped frame: emits at most one proposal, marks its member key, stops at the cap, pushes the successors below length 5. |
| ChainSearch.PushSuccessors | internal/chainengine/chainengine.go:250-264 | The two push loops leave on the stack, in order, one frame per held capability and unvisited finding that requires it. |
| ChainTheorems.NodesExact | internal/chainengine/chainengine.go:162-177 | The node table holds the live findings with their normalized labels, and one node per id. |
| ChainTheorems.OrderExact | internal/chainengine/chainengine.go:221-265 | The frames popped are exactly those of the simple paths of length at most 5 in which each later member requires something an earlier one grants. |
| ChainTheorems.MemberKeyExact | internal/chainengine/chainengine.go:271-275 | Two member lists share a member key exactly when one rearranges the other, for ids without a bar. |
| ChainTheorems.ProposalsSound | internal/chainengine/chainengine.go:207-268 | Every proposal is such a path of length `minLength`..5, reported with the union of its members' grants; never more than 500. |
| ChainTheorems.ProposalsDistinct | internal/chainengine/chainengine.go:232-246 | No two proposals have the same member set, the cap reached or not. |
| ChainTheorems.ProposalsComplete | internal/chainengine/chainengine.go:207-268 | Below the cap, the member set of every such path is proposed. |
| SearchMeaning.ProposedChain | internal/chainengine/chainengine.go:162-268 | In terms of the records: every proposal lists open findings, none twice, each later one recording as required a label that an earlier one records as granted, between `minLength` and 5 of them, with exactly the labels they grant, sorted; never more than 500. |
| SearchMeaning.ChainProposed | internal/chainengine/chainengine.go:162-268 | And below 500 every such list of findings has its members proposed. |
| ProposalOrder.SearchInOrder | internal/chainengine/chainengine.go:214-265 | The search first visits the chains in one fixed order: a chain before its continuations, starts in node order, and where two chains part, the one whose next member shares the greater greatest label, or shares the same and comes later. |
| ProposalMeaning.ProposalsInOrder | internal/chainengine/chainengine.go:207-268 | The proposals are listed in that order, said of the records and their load order. |
| ProposalMeaning.ChainListed | internal/chainengine/chainengine.go:207-268 | At the cap or below it: every chain of an admitted length has its member set proposed, and of all its arrangements the one visited first; or the list holds 500 chains, all visited before it. |
| SearchMeaning.RecasingChangesNothing | internal/chainengine/chainengine.go:162-177 | Writing labels with capitals changes neither node table, and so neither search. |
| CapabilityLinks.AppendId | internal/chainengine/chainengine.go:103-112 | Adds an id to the entry of its label, or opens a new entry at the end; no other entry changes. |
| CapabilityLinks.BuildCapabilityIndex | internal/chainengine/chainengine.go:76-98 | Each of the two indexes holds its labels in the order in which the finding list first meets them, each once, with the live findings that carry it in finding order. |
| CapabilityLinks.FindLinks | internal/chainengine/chainengine.go:129-152 | Yields the join of the two indexes, label by label: exactly the triples (a, b, label) with a and b different, the label granted by a and required by b, each once. |
| CapabilityLinks.JoinedExact | internal/chainengine/chainengine.go:129-152 | The join of the two indexes is exact and free of repeats. |
| ReportMeaning.LinkMeans | internal/chainengine/chainengine.go:129-152 | A link is listed exactly when an open finding records its label as granted and another open finding records it as required. |
| ReportMeaning.CarriersMean | internal/chainengine/chainengine.go:76-98 | An index entry lists the ids of the open findings that record its label, in load order. |
| LinkOrder.LinksInOrder | internal/chainengine/chainengine.go:129-152 | The links stand in the order in which their labels are first required, the smaller first within one finding, and for one label by granting and then by requiring finding in load order. |
| LinkAgreement.PairsAreLinks | internal/chainengine/chainengine.go:76-268 | Below the cap, the two-member proposals are exactly the unordered endpoints of the links. |
| TerminalSearch.RunExists | internal/chainengine/terminal.go:193-215 | The terminal search terminates for every finding set, baseline and depth bound: path simplicity bounds the frames still to come. |
| TerminalSearch.FindTerminalChainsMode | internal/chainengine/terminal.go:178-229 | Returns the enumerated rows sorted by length and capital and cut at 500. |
| TerminalSearch.SearchFrom | internal/chainengine/terminal.go:191-215 | The stack loop emits, for one starting finding, the rows of the frames it visits, each path key once. |
| TerminalTheorems.NodesExact | internal/chainengine/terminal.go:128-143 | The nodes are the admitted findings with their labels and capital, one per id; hypotheses only in hypothesis mode. |
| TerminalTheorems.OrderExact | internal/chainengine/terminal.go:193-215 | The frames visited are exactly the simple paths whose first member needs only the baseline and whose later members need only the baseline and earlier grants, within max(1, `maxDepth`). |
| TerminalTheorems.OrderDistinct | internal/chainengine/terminal.go:193-215 | No path is visited twice. |
| SearchMeaning.RowPath | internal/chainengine/terminal.go:37-88 | In terms of the records: every row found is that of distinct admitted findings, each requiring only the baseline and what earlier ones grant, the last granting one of the six terminal labels; its five money fields are the sums of the members' own figures, a required sum that is absent read from the flat field, a value that is no number as 0, and net at risk is required minus recoverable. |
| SearchMeaning.PathRow | internal/chainengine/terminal.go:178-261 | And every such list of findings, single or within the depth bound, has its row. |
| SearchMeaning.RowsReturned | internal/chainengine/terminal.go:217-229 | The rows returned are at most 500 of the rows found, by length and then cost, and one left out is no better than any of 500 that are in. |
| SearchOrder.RowsRanked | internal/chainengine/terminal.go:190-229 | The whole order of the rows: by length, then cost, and ties in the order in which the depth-first search visits their paths, by the order the findings were loaded in. |
| SearchOrder.CutRowOutranked | internal/chainengine/terminal.go:226-229 | A row the cap cuts off ranks behind every row returned in that order. |
| TerminalRanking.NothingSuppressed | internal/chainengine/terminal.go:238-251 | With unique ids the `seen` map never suppresses a row. |
| TerminalRanking.EnumerationExact | internal/chainengine/terminal.go:178-261 | Before sort and cap there is exactly one row for each reachable path of an admitted length whose last member grants a terminal capability, and no other row. |
| TerminalRanking.TerminalsExact | internal/chainengine/terminal.go:242-250 | The terminals of a node are its granted terminal capabilities in increasing order. |
| TerminalRanking.RowNamesGrant | internal/chainengine/terminal.go:233-261 | A row names a terminal capability that its last finding grants. |
| TerminalRanking.BreakdownIsSum | internal/chainengine/terminal.go:37-61 | Each field of a row's breakdown is the sum of that field over the path's members, net at risk being required minus recoverable. |
| TerminalRanking.RankingKeepsBest | internal/chainengine/terminal.go:217-229 | The rows returned are in rank order, nothing is lost below the cap, and every dropped row ranks no better than every kept one. |
| TerminalRanking.RankingStable | internal/chainengine/terminal.go:217-229 | Rows that tie on length and capital keep the order in which the search met them. |
| TerminalRanking.KeptRowHolds | internal/chainengine/terminal.go:178-229 | Every returned row is the row of a reachable terminal path. |
| TerminalRanking.BestByTerminal | internal/chainengine/terminal.go:289-300 | The `best` map holds, per first label, the first row of the sorted list with that label. |
| TerminalRanking.TerminalReport | internal/chainengine/terminal.go:274-305 | Splits the rows by length, lists in label order the first row of every label that comes first in some row, which no row with that first label beats, and flags liveness exactly when a first label is a liveness one. |
| ReportMeaning.ReportSplit | internal/chainengine/terminal.go:274-330 | The report lists the rows returned, single findings and then longer paths, and is live exactly when some row's label is "liveness_loss". |
| ReportMeaning.ReportBest | internal/chainengine/terminal.go:289-305 | Each row singled out is the first one listed for its label, and no row of that label is shorter, or as short and cheaper. |
| TerminalRanking.ShortestOverall | internal/chainengine/terminal.go:274-305 | Each shortest row is no longer, and at equal length no dearer, than any enumerated row with the same first label, the ones beyond the cap included. |
| TerminalRanking.MissingOnlyByCap | internal/chainengine/terminal.go:217-305 | A label that comes first in an enumerated row is missing from the report only when the cap is full of rows that rank no worse. |
| ReportTheorems.ShortestPerCapabilityIff | internal/chainengine/terminal.go:271-305 | Over every store drawn from the findings and every baseline, the report has, for each path found and each terminal capability it ends in, a row for that capability which is no worse, the cap aside, exactly when no confirmed finding grants two terminal capabilities. |
| ReportTheorems.SecondTerminalMissing | internal/chainengine/terminal.go:271-305 | One confirmed finding that grants "drain_treasury" and "steal_pending_rewards": its row lists both and no report has a shortest row for the second. |
| ReportTheorems.LivenessSurfacesIff | internal/chainengine/terminal.go:305-330 | The liveness sentence is there just when a returned path ends in a liveness terminal, over every store drawn from the findings and every baseline, exactly when no confirmed finding grants "liveness_loss" beside one of the two asset labels that sort before it. |
| ReportTheorems.HiddenLiveness | internal/chainengine/terminal.go:305-330 | A confirmed finding that does, alone, returns a row that lists "liveness_loss", and the sentence is missing. |
| Materialize.ChainStore.MaterializeChain | internal/chainengine/materialize.go:56-144 | One call refuses at the first failing gate and changes nothing, or stores exactly one chain document and, in the proven mode only, exactly one super-finding. |
| Materialize.ChainStore.LoadMembers | internal/chainengine/materialize_members.go:24-63 | Loads the members in order; refuses an unknown id, then an unconfirmed member of a proven chain, then bad pins. |
| StoreMeaning.GateMeans | internal/chainengine/materialize.go:56-144 | The first gate that fails, over the records: too few, a member neither CONFIRMED nor CHAIN in a proven chain, pins that differ or are missing, two neighbours without a shared label, a level outside E0..E7, a stored signature, a claim no member grants or with an unknown or negative figure. |
| StoreMeaning.MissingRefused | internal/chainengine/materialize_members.go:24-63 | A member whose id no finding has is refused as such. |
| StoreMeaning.DocMeans | internal/chainengine/materialize_links.go:19-91 | The chain stored: its ids, links between neighbours with their least shared label, and in an unproven chain the granting member's strongest level, the weakest member's strongest level as floor, and the claimed terminal, by default at the last member. |
| StoreMeaning.DerivedDocMeans | internal/chainengine/materialize_terminal.go:21-53 | An unproven chain stored without a claim carries the terminal its members derive, or none. |
| Materialize.CheckPins | internal/chainengine/materialize_pricing.go:78-112 | A proven chain needs all members on one non-null pin; an unproven one needs every member pinned. |
| Materialize.ChainLinks | internal/chainengine/materialize_links.go:19-51 | Succeeds exactly when each member grants something the next requires, with one link per consecutive pair carrying the least shared capability. |
| Materialize.ChainFloor | internal/chainengine/materialize_links.go:71-91 | The floor is the minimum over members of their maximum evidence level; an unknown level fails. |
| Materialize.BestEvidenceLevel | internal/chainengine/materialize_links.go:56-67 | The strongest known evidence level of a finding, E0 when there is none. |
| Materialize.ChainBlastRadius | internal/chainengine/materialize_pricing.go:12-26 | The widest radius among the members. |
| Materialize.DerivedTerminal | internal/chainengine/materialize_terminal.go:21-53 | The claim of the first ranked row whose path covers exactly the members. |
| DerivedTheorems.DerivedExact | internal/chainengine/materialize_terminal.go:21-53 | For distinct members and below the cap, a terminal is derived exactly when at most five of them can be executed in some order, hypotheses included, with a terminal label at the end; it is the least terminal label of the last member of the cheapest order, the one visited first among equals. |
| DerivedTheorems.RepeatsDeriveNothing | internal/chainengine/materialize_terminal.go:21-53 | A member list that names a finding twice derives no terminal. |
| Materialize.ChainStore.ChainDuplicate | internal/chainengine/materialize_terminal.go:57-70 | Finds a duplicate exactly when a stored chain carries the signature. |
| Materialize.ChainStore.TerminalAnnotation | internal/chainengine/materialize_members.go:67-110 | Accepts a terminal exactly when its capability is not empty, its `via` member is in the chain and grants it, and its breakdown is well-formed; whether the label is a terminal one is not tested. |
| Materialize.ChainCapabilities | internal/chainengine/materialize_doc.go:62-74 | The super-finding carries the union of its members' grants and of their requirements. |
| StoreMeaning.SuperMeans | internal/chainengine/materialize_doc.go:62-100 | The super-finding is a CHAIN record with the labels some member records as granted and as required, sorted, and the first member's figures and pin. |
| StoreMeaning.RadiusMeans | internal/chainengine/materialize_pricing.go:12-60 | Its radius is the widest of the five-step ladder that a member claims, and empty when none claims one. |
| StoreMeaning.LivenessRadiusMeans | internal/chainengine/materialize_pricing.go:34-60 | For a liveness terminal it is "bridge-canonical" when a member claims that, and "protocol-solvency" otherwise. |
| MaterializeTheorems.SignatureIgnoresOrder | internal/chainengine/chainengine.go:27-36 | A chain signature ignores the order of the members. |
| MaterializeTheorems.SignatureExact | internal/chainengine/chainengine.go:27-36 | Two lists of stored ids share a signature exactly when one rearranges the other. |
| MaterializeTheorems.NoTwoChainsAlike | internal/chainengine/materialize.go:56-144 | After any run of materializations and outside edits of findings, no two stored chains have the same member multiset. |
| MaterializeTheorems.ReorderingRefused | internal/chainengine/materialize_terminal.go:57-70 | Every reordering of a stored chain is refused, in either mode and whatever happened to the findings since. |
| MaterializeTheorems.DuplicateMeansSameMembers | internal/chainengine/materialize_terminal.go:57-70 | Only a rearrangement of a stored chain is refused as a duplicate. |
| MaterializeTheorems.EveryChainWasProven | internal/chainengine/materialize_members.go:24-63 | Every stored chain was stored by a step at which its members existed, were continuous, had the recorded floor, and, when proven, were all CONFIRMED or CHAIN on one non-null pin. |
| MaterializeTheorems.FindingsGrowth | internal/chainengine/materialize.go:93-144 | Over any run of materializations the findings already there never change, and those added are, one for one and in order, the super-findings of the proven chains stored, made from the members as they were at the storing step. |
| MaterializeTheorems.SuperFindingLabels | internal/chainengine/materialize_doc.go:62-100 | A super-finding offers later searches exactly what its members offer together, except the empty label. |
| MaterializeTheorems.LivenessFloor | internal/chainengine/materialize_pricing.go:34-60 | Pricing a liveness terminal never narrows the blast radius and never leaves it below protocol solvency. |
| MaterializeTheorems.MaterializableIsProposed | internal/chainengine/materialize_links.go:19-51 | Two to five distinct live findings that pass the continuity gate have their member set among the proposals, when the search is below its cap. |
| MaterializeTheorems.DerivedTerminalPasses | internal/chainengine/materialize_terminal.go:21-53 | The terminal an unproven chain derives for itself always passes the terminal check. |
| MaterializeTheorems.StoredTerminalIff | internal/chainengine/materialize_members.go:67-110 | A stored terminal is a terminal capability exactly when the caller's claim is one, or the caller made none. |
| MaterializeTheorems.AnyGrantAccepted | internal/chainengine/materialize_members.go:67-110 | A request the gates accept is still accepted when it claims any label its last member grants as the terminal. |
| MaterializeTheorems.NonTerminalStored | internal/chainengine/materialize_members.go:67-110 | Two confirmed findings joined by the label "x" are stored with "x" as their terminal, and "x" is no terminal label. |
| AnchorModel.NameCitationsExact | internal/anchorlink/anchorlink.go:212-219 | A name cites exactly the paths that carry it, ambiguous exactly when there are two. |
| AnchorModel.CitedInModel | internal/anchorlink/anchorlink.go:212-244 | Every path a name or component cites is a model path. |
| AnchorMeaning.ComponentExact | internal/anchorlink/anchorlink.go:212-262 | A component cites a path exactly when the model carries it as a name there, ambiguous when also elsewhere; or it is no name but a machine's, dir "/" base, and the path is parent "/" file with parent equal to dir or ending in "/" dir, not ambiguous. |
| AnchorMeaning.RowExact | internal/anchorlink/query.go:192-228 | A row cites its contract at its consumer and asserter and each sibling at its line, a site without function and line left out. |
| AnchorMeaning.ResolvesExact | internal/anchorlink/anchorlink.go:270-285 | A file resolves to its own model path, or to the longest one it ends with behind a slash. |
| AnchorModel.ResolveFilePath | internal/anchorlink/anchorlink.go:270-285 | Returns the exact model path, or the longest one the file ends with at a segment boundary, or nothing when there is none. |
| AnchorModel.ResolvesOnce | internal/anchorlink/anchorlink.go:270-285 | A file resolves to at most one path. |
| PathText.SlashKept | internal/anchorlink/anchorlink.go:302-310 | Normalizing drops one leading slash: "//a" becomes "/a", and the result starts with a slash exactly when the text without white space and leading "./" starts with two. |
| PathText.NormalizeBackslash | internal/anchorlink/anchorlink.go:302-310 | A backslash reads as a slash. |
| PathText.NormalizeWhite | internal/anchorlink/anchorlink.go:302-310 | White space at either end goes. |
| PathText.NormalizeDot | internal/anchorlink/anchorlink.go:302-310 | A leading "./" goes, and a blank behind it stays. |
| PathText.NormalizeSlash | internal/anchorlink/anchorlink.go:302-310 | One leading slash goes, and nothing else of a clean text. |
| PathText.NormalizePlain | internal/anchorlink/anchorlink.go:302-310 | A text without any of these is its own normal form. |
| PathText.NormalizeFixedIff | internal/anchorlink/anchorlink.go:302-310 | Normalizing twice gives the same as once exactly when the first result starts with neither a slash, nor "./", nor white space. |
| Convergence.AddNote | internal/anchorlink/convergence.go:78-101 | One contribution updates its key's accumulator, in the one list of its store, without repeats, and no other key. |
| Convergence.AddRow | internal/anchorlink/convergence.go:102-108 | A row contributes, for each coordinate that counts, to the bare path and to the path with the function. |
| Convergence.AddPriority | internal/anchorlink/convergence.go:109-116 | A priority contributes to the bare path of each component citation that counts. |
| Convergence.AddFinding | internal/anchorlink/convergence.go:117-132 | A finding contributes to the path each affected file resolves to, bare and with its function. |
| Convergence.PinPaths | internal/anchorlink/convergence.go:66-77 | The pinned paths are exactly those some finding's affected file resolves to. |
| Convergence.CollectAnchors | internal/anchorlink/convergence.go:133-151 | Whatever order the map yields its keys in, one anchor comes out for each key with two stores. |
| Convergence.Convergences | internal/anchorlink/convergence.go:65-159 | Reports a key exactly when at least two stores contribute a member, with exactly the contributing ids, sorted by path and function. |
| AnchorMeaning.PriorityMemberExact | internal/anchorlink/convergence.go:109-116 | A priority is a member of a key exactly when one of its components leads to that path, unambiguously or on a path some finding pins. |
| AnchorMeaning.RowMemberExact | internal/anchorlink/convergence.go:102-108 | A row is a member of a path it cites, or of the path and function of the site, under the same condition. |
| AnchorMeaning.FindingMemberExact | internal/anchorlink/convergence.go:117-132 | A finding is a member of each path an affected file resolves to, bare and with its function. |
| AnchorMeaning.AnchorsExact | internal/anchorlink/convergence.go:65-159 | Over the contracts, machine names and stores alone: a key is reported exactly when two of the stores have a member of it, with its parts, its stores and the members' ids, ordered by path and then function. |
| ConvergenceTheorems.MembersGrow | internal/anchorlink/convergence.go:65-159 | Adding rows, priorities or findings takes no member away from any key. |
| ConvergenceTheorems.AnchorsGrow | internal/anchorlink/convergence.go:65-159 | Adding artifacts removes no anchor. |
| ConvergenceTheorems.OrderFree | internal/anchorlink/convergence.go:65-159 | Permuting or repeating rows, priorities or findings changes nothing that may be reported. |
| ConvergenceTheorems.OutputDetermined | internal/anchorlink/convergence.go:152-158 | For one set of artifacts, the output sequence is determined exactly when no two converging keys are "x" and "x#". |
| ConvergenceTheorems.DeterminedIff | internal/anchorlink/convergence.go:152-158 | Over an index, the same artifacts always give the same anchors in the same order exactly when no two model paths are "x" and "x#"; with such a pair, two outputs for one set of artifacts are exhibited. |
| ConvergenceTheorems.NoManufacturedAnchor | internal/anchorlink/anchorlink.go:212-219 | A path that every name shares with another path, and that no finding pins, has no anchor, bare or with a function. |
| ConvergenceTheorems.FunctionKeysSound | internal/anchorlink/convergence.go:102-132 | With model paths free of "#", a function-level anchor involves only surface and findings, and its bare path has an anchor with at least its members. |
| ConvergenceTheorems.HashBreaksFunctionKeys | internal/anchorlink/convergence.go:138-141 | A "#" in a model path breaks that law: one row and one finding on it give an anchor whose path part has none. |
| ConvergenceTheorems.FunctionLawIff | internal/anchorlink/convergence.go:65-159 | Over every index the function-level law holds for all artifacts exactly when no model path contains "#". |
| AnchorQuery.BuildModel | internal/anchorlink/anchorlink.go:84-122 | The index holds exactly the contracts that have a name and a path, by normalized path, plus the sorted paths and the machine names. |
| AnchorQuery.AnchorStore.Open | internal/anchorlink/anchorlink.go:84-122 | A new store holds that index and no artifacts. |
| AnchorQuery.AnchorStore.Index | internal/anchorlink/anchorlink.go:128-131 | Wires the three stores and leaves the index alone. |
| AnchorQuery.AnchorStore.Query | internal/anchorlink/query.go:65-105 | Answers the matched rows with their dispositions, the matched open priorities and the matched findings, each in store order; an empty pattern answers nothing. |
| QueryMeaning.QueryExact | internal/anchorlink/query.go:65-148 | The rows, open priorities and findings answered are exactly those with a site, target or affected file on a path t that is the pattern's p, ends in "/" p, or is what p ends in behind a slash, and with its function and line; each row with its disposition. |
| QueryMeaning.PathQuery | internal/anchorlink/query.go:65-148 | So for a normalized pattern without "#" and ":digits". |
| QueryMeaning.BaseNamesApart | internal/anchorlink/query.go:261-270 | A base name does not reach a longer base name that ends in it. |
| QueryMeaning.RowsInOrder | internal/anchorlink/query.go:65-105 | The rows are answered in store order, each once. |
| QueryMeaning.PrioritiesInOrder | internal/anchorlink/query.go:65-105 | So are the open priorities, |
| QueryMeaning.FindingsInOrder | internal/anchorlink/query.go:65-105 | and the findings. |
| QueryMeaning.PatternReads | internal/anchorlink/query.go:231-256 | "<path>#<function>:<line>" reads back as its three parts, each of the last two optional. |
| QueryMeaning.FunctionLineReads | internal/anchorlink/query.go:231-256 | A line behind the function is the pattern's, and the path keeps its own tail; |
| QueryMeaning.PathLineReads | internal/anchorlink/query.go:231-256 | a line behind the path is, when the function gives none; |
| QueryMeaning.HugeLineReads | internal/anchorlink/query.go:231-256 | and a number beyond 64 bits reads as no line. |
| QueryMeaning.EmptyQuery | internal/anchorlink/query.go:65-105 | A blank pattern answers nothing. |
| AnchorQuery.RowMatches | internal/anchorlink/query.go:108-122 | A row matches when one of its resolved sites matches the path, function and line of the pattern. |
| AnchorQuery.FindingMatches | internal/anchorlink/query.go:125-148 | A finding matches through one affected entry, by its normalized file or its resolved path. |
| AnchorQuery.RowDisposition | internal/anchorlink/query.go:157-169 | The status of the first priority that claims the row, undispositioned without one. |
| AnchorQuery.LineInRange | internal/anchorlink/query.go:285-301 | A line is inside exactly when it lies between two of the listed lines. |
| AnchorQuery.PriorityTargets | internal/anchorlink/anchorlink.go:166-175 | The model paths of the components, each once, sorted. |
| AnchorQueryTheorems.KeyParsesIff | internal/anchorlink/query.go:231-256 | The key of a path and function parses back to them exactly when the path is normalized and neither part has a ":digits" tail or a trailing space. |
| AnchorQueryTheorems.CleanSelects | internal/anchorlink/query.go:231-256 | A key that parses back to its path and function selects its own site, which is what `QueryCovers` asks of it. |
| AnchorQueryTheorems.QueryCovers | internal/anchorlink/query.go:65-148 | Querying the key of a reported anchor returns every row and finding member and every open priority member, when the key selects its own site and no model path with a "#" shares the key. |
| AnchorQueryTheorems.CoverageExact | internal/anchorlink/query.go:65-148 | Over any index, the query of a site's key covers the key for all artifacts exactly when the pattern read from the key selects that site and no model path with a "#" is the path of a site with the same key. |
| AnchorQueryTheorems.HashNeverSelects | internal/anchorlink/query.go:231-256 | A path that contains "#" is never selected by its own key, nor by the key of one of its functions. |
| AnchorQueryTheorems.BareCoverageExact | internal/anchorlink/query.go:231-256 | Over any index, the query of a normalized bare path covers it for all artifacts exactly when the path has neither a "#" nor a ":digits" tail. |
| AnchorQueryTheorems.FunctionSelects | internal/anchorlink/query.go:231-256 | The key of a function on a normalized path selects its site exactly when the function reads as itself or as nothing, and the path has no ":digits" tail, or only a zero one beside a function that is still read. |
| AnchorQueryTheorems.DigitTailLosesMembers | internal/anchorlink/query.go:245-250 | Every indexed normalized path without "#" and with a ":digits" tail, a zero one included, is misread: one finding on it is a member of its anchor and the query of that anchor's key does not return it. |
| BountyGate.Gate.Check1 | internal/bounty/gate_eligibility.go:11-19 | Appends the row and blocker of the confirmed-status clause. |
| BountyGate.Gate.Check2 | internal/bounty/gate_eligibility.go:22-41 | Passes on the active pin, fails on another, is unknown without one. |
| BountyGate.Gate.Check3 | internal/bounty/gate_eligibility.go:47-71 | Passes when any scope target is in scope; unknown without a target. |
| BountyGate.Gate.Check4 | internal/bounty/gate_eligibility.go:79-106 | Fails on an exclusion, unless the accepted risk has the same pattern. |
| BountyGate.Gate.Check5 | internal/bounty/gate_eligibility.go:109-121 | Passes on an established severity, else asks for human review. |
| BountyGate.Gate.Check6 | internal/bounty/gate_evidence.go:27-60 | Appends the evidence row and the three optional clauses in order; an unknown level aborts. |
| BountyGate.Gate.Check6Economic | internal/bounty/gate_evidence.go:81-101 | Passes on a quantified impact that reaches the numeric floor when there is one. |
| BountyGate.Gate.Check6ExploitContract | internal/bounty/gate_evidence.go:157-174 | Passes when some evidence has a runnable type. |
| BountyGate.Gate.Check7 | internal/bounty/gate_ladder.go:41-82 | Only for CONFIRMED: passes on a complete or waived ladder. |
| BountyGate.Gate.Check8 | internal/bounty/gate_claim.go:16-49 | Only with a USD figure: passes on a resolvable price row. |
| BountyGate.Gate.Check9 | internal/bounty/gate_claim.go:52-65 | Passes without claim drift. |
| BountyGate.Gate.Check10 | internal/bounty/gate_ladder.go:113-157 | Passes when the ladder is waived or every assumed precondition is addressed by a removed one. |
| BountyGate.Gate.Check11 | internal/bounty/gate_fork.go:26-56 | Passes on a proven fork PoC or a waiver. |
| BountyGate.Gate.Check12 | internal/bounty/gate_patch.go:22-54 | The three patch modes, the waiver and the advisory; an unknown mode aborts. |
| BountyGate.Gate.Check13 | internal/bounty/bounty.go:182-251 | Passes without an accepted risk; a capped one fails outright; otherwise it is recorded and fails unless waived. |
| BountyGate.Gate.Check14 | internal/bounty/bounty.go:262-337 | The paid-exploitability clause, an integer below the 64-bit range counting as extractable: a fail row, then the waiver's pass row or a blocker; a malformed value fails without either. |
| BountyGate.Gate.Check15 | internal/bounty/bounty.go:355-401 | The adversarial-game clause of a liveness finding, with the same pair of rows. |
| BountyGate.Gate.Run | internal/bounty/bounty.go:405-416 | Runs the fifteen checks in order; aborts exactly on an unknown level or patch clause. |
| BountyGate.EffectiveChecks | internal/bounty/bounty.go:80-97 | Keeps the last row of each check name at its own position; a list without repeats is returned as it is. |
| BountyGate.EvaluateBountyGate | internal/bounty/bounty.go:422-478 | The verdict computed from the effective rows and the blockers, with the stored, in-code and raised advisories and the accepted risk on record, this run's or an earlier one's; none when a check errs. |
| BountyTheorems.EffectiveContents | internal/bounty/bounty.go:80-97 | A row is effective exactly when it is the last of its check. |
| BountyTheorems.OneEffectiveRow | internal/bounty/bounty.go:80-97 | The effective rows keep every check name, once. |
| BountyTheorems.EffectiveRow | internal/bounty/bounty.go:405-454 | Over all fifteen checks: the effective row of a check exists exactly when it is asked, and passes exactly when the finding meets it or a waiver answers it. |
| BountyTheorems.BlockersAreFailures | internal/bounty/bounty.go:80-97 | A blocker stands exactly where a non-pass effective row does, except the malformed exploitability row. |
| BountyTheorems.RowsDecide | internal/bounty/bounty.go:448-454 | Submission-ready holds exactly when every effective row passes; the blocker list adds nothing. |
| BountyTheorems.ReadyExact | internal/bounty/bounty.go:405-454 | Submission-ready holds exactly when every check asked is met or waived. |
| BountyTheorems.EligibleExact | internal/bounty/bounty.go:437-447 | Eligible exactly when the finding is CONFIRMED, not excluded, and in scope or without a recorded target. |
| BountyTheorems.ReadyMeansConfirmed | internal/bounty/bounty.go:405-454 | A submission-ready finding is CONFIRMED and eligible. |
| VerdictMeaning.MetExact | internal/bounty/bounty.go:405-416 | Each clause is the recorded fact it names, in literals: levels E0..E7 with E4 as default, tiers T3 and T4, the six runnable evidence types, 40 characters of recommendation, 200 of argument, amounts that count as numbers, texts that contain one another. |
| VerdictMeaning.ReadyMeans | internal/bounty/bounty.go:405-454 | Submission-ready exactly when every clause that applies is met, or excused by a waiver of its stage for the finding or for all. |
| VerdictMeaning.EligibleMeans | internal/bounty/bounty.go:437-447 | Eligible exactly when CONFIRMED, not excluded but by the accepted pattern, and in scope or without any recorded component. |
| VerdictMeaning.RowMeans | internal/bounty/bounty.go:405-454 | The row a clause ends up with: pass, or unknown without snapshot or component, human review without a severity, and fail otherwise. |
| VerdictMeaning.EveryRowMeans | internal/bounty/bounty.go:262-401 | Before the collapse there is one more kind: the failure in front of an excused payment or adversary clause. |
| VerdictMeaning.ChecksOrdered | internal/bounty/bounty.go:405-416 | The rows stand in the order of the checks, such a failure in front of its pass. |
| VerdictMeaning.BlockersMean | internal/bounty/bounty.go:405-416 | The blockers are the standing clauses, but for a payment answer that is no boolean. |
| VerdictMeaning.BlockersOrdered | internal/bounty/bounty.go:405-416 | They too stand in the order of the checks. |
| VerdictMeaning.AbortMeans | internal/bounty/bounty.go:405-416 | No verdict exactly for a level outside E0..E7, recorded or required, or a patch clause other than none given, "verification", "prose" and "none". |
| VerdictMeaning.RecordMeans | internal/bounty/bounty.go:182-227 | The acceptance on record afterwards is the matching pattern's, unless the severity reaches its floor; then it stays what it was. |
| VerdictMeaning.BandsRank | internal/bounty/policy.go:114-128 | Low, medium, high and critical rank strictly upwards: an acceptance with such a floor is void, under every waiver and without record, exactly for a finding of that band or above. |
| VerdictMeaning.UnbandedIsBelow | internal/bounty/policy.go:114-128 | A severity that is none of the four is below all of them. |
| VerdictMeaning.AdvisoriesMean | internal/bounty/bounty.go:459-478 | The advisories: those stored, or the code's acknowledgement in their place, and behind them a found bypass, or fewer than 3 mutations, of a patch the program does not gate on. |
| BountyTheorems.SilentRefusalExact | internal/bounty/bounty.go:301-307 | A refusal without any blocking reason happens exactly when the exploitability is malformed and every other check passes. |
| BountyTheorems.SilentRefusal | internal/bounty/bounty.go:301-307 | A confirmed finding that meets every other check, with an exploitability record whose `paid` is not a boolean, is refused under every waiver table with no blocking reason. |
| BountyTheorems.NegativeExtractable | internal/bounty/bounty.go:262-297 | A confirmed finding with a negative integer amount and no exploitability record is blocked for it exactly when the amount does not fit 64 bits and no waiver answers. |
| BountyTheorems.RerunRepeats | internal/bounty/bounty.go:459-478 | Running the gate again on its own saved verdict gives the same advisories exactly when the code acknowledges the finding or the checks raise none. |
| BountyTheorems.WaiversAreMonotone | internal/bounty/bounty.go:144-160 | Over two runs: enlarging the waiver table keeps submission-ready, adds no blocker and never changes eligibility. |
| BountyTheorems.WaiversSuffice | internal/bounty/bounty.go:182-401 | Some waiver table makes a finding submission-ready exactly when every failing check is one a waiver may answer. |
| BountyTheorems.CappedRiskFails | internal/bounty/bounty.go:193-207 | An accepted risk whose severity reaches its floor fails under every waiver table, and the record on the finding stays what it was. |
| BountyTheorems.StaleExact | internal/bounty/bounty.go:182-227 | The finding carries an acceptance this run did not make exactly when an earlier run recorded one and now no pattern matches or the severity reaches the floor. |
| BountyTheorems.OutlivesSeverity | internal/bounty/bounty.go:182-227 | Two runs: a risk recorded below its floor stays on record after the severity rises to the floor, while the check fails. |
| BountyTheorems.OutlivesPolicy | internal/bounty/bounty.go:182-227 | Two runs: a recorded risk stays on record after its pattern leaves the policy, while the check passes. |
| BountyTheorems.ReadyThoughAccepted | internal/bounty/bounty.go:182-227 | A concrete finding is submission-ready under every waiver table and still recorded as an accepted risk. |
| MiniToml.StripComment | pre-commit-gate/entropy_gate.py:319-335 | Drops what follows the first unquoted "#", then trailing space. |
| MiniToml.SplitItems | pre-commit-gate/entropy_gate.py:405-431 | Returns the stripped, non-blank pieces between top-level commas. |
| MiniToml.MiniValue | pre-commit-gate/entropy_gate.py:375-402 | The recursive value reader with its loops over elements and table pieces. |
| MiniToml.MiniToml | pre-commit-gate/entropy_gate.py:338-372 | The line loop: headers, assignments, continued arrays, and the inputs that raise. |
| MiniToml.ReadValue | pre-commit-gate/entropy_gate.py:367-370 | An unfinished array takes in the following lines, comments stripped, as the `Continued` the array laws of `MiniTomlLines` speak of, and leaves the position after them. |
| MiniTomlTheorems.JoinPieces | pre-commit-gate/entropy_gate.py:405-431 | Joining the raw pieces with commas gives the text back. |
| MiniTomlTheorems.PiecesOfJoin | pre-commit-gate/entropy_gate.py:405-431 | Splitting undoes joining quote-closed, bracket-balanced pieces without a top-level comma. |
| MiniTomlTheorems.ItemsOfJoin | pre-commit-gate/entropy_gate.py:405-431 | Splitting the comma-join of trimmed such items returns those items. |
| MiniTomlLines.UncommentedExact | pre-commit-gate/entropy_gate.py:319-335 | The text kept holds no unquoted "#" and ends where the first one stands. |
| MiniTomlLines.CommentDropped | pre-commit-gate/entropy_gate.py:319-348 | Indentation, trailing blanks and a comment leave no trace: what is read of a line is its text, for a trimmed text that closes its quotes. |
| MiniTomlLines.TakesAllIff | pre-commit-gate/entropy_gate.py:367-370 | An array broken over lines, the last of which ends in a bracket, is taken from all of them, as its one-line text, exactly when no line before the last ends in one. |
| MiniTomlLines.StopsEarly | pre-commit-gate/entropy_gate.py:367-370 | It stops at the first line that ends in a bracket, whatever follows. |
| MiniTomlLines.BrokenIsOneLine | pre-commit-gate/entropy_gate.py:362-372 | When no line before the last ends in a bracket, the broken array reads in any reader state exactly as its one-line form does. |
| MiniTomlLines.BrokenIsCut | pre-commit-gate/entropy_gate.py:362-372 | Otherwise the text up to the first such line is assigned, and the lines behind it are read as lines of their own. |
| MiniTomlDocuments.SpreadAssigns | pre-commit-gate/entropy_gate.py:362-372 | In any reader state an array printed one element per line with trailing commas assigns its value. |
| MiniTomlDocuments.InnerBracketCuts | pre-commit-gate/entropy_gate.py:367-370 | The lines `k = [["s"]` and `, ["t"]]` assign the array of one bare text `["s"`; the second line is dropped without an error. |
| MiniTomlDocuments.OneLineWhole | pre-commit-gate/entropy_gate.py:375-431 | On one line the same text is the array of the two arrays. |
| MiniTomlTheorems.IntParses | pre-commit-gate/entropy_gate.py:398-399 | Every integer reads back from its decimal text. |
| MiniTomlTheorems.StrParses | pre-commit-gate/entropy_gate.py:379-382 | Between two quotes of one kind, double or single, any text reads back as it stands. |
| MiniTomlScalars.StripExact | pre-commit-gate/entropy_gate.py:376 | Stripping takes blanks and the characters 9 to 13 and 28 to 31 from both ends, and nothing else. |
| MiniTomlScalars.NumeralReads | pre-commit-gate/entropy_gate.py:398-399 | Groups of figures joined by single underscores, bare or behind a sign, read as the number their figures write. |
| MiniTomlScalars.DecimalReads | pre-commit-gate/entropy_gate.py:398-399 | One figure is its distance from '0', and one more behind a number makes ten of it and adds. |
| MiniTomlScalars.IntExact | pre-commit-gate/entropy_gate.py:396-402 | Nothing else reads as an integer. |
| MiniTomlScalars.WordReads | pre-commit-gate/entropy_gate.py:396-402 | A text that opens no other form is `true`, `false`, a number, or itself. |
| MiniTomlScalars.TableLastChar | pre-commit-gate/entropy_gate.py:386-392 | The last character of an inline table is taken for its brace, whatever it is. |
| MiniTomlTheorems.RoundTrip | pre-commit-gate/entropy_gate.py:375-431 | Parsing the printed text of a value gives the value back, for integers, booleans, strings without one of the two quotes, and arrays of these or of inline tables, nested to any depth. |
| MiniTomlTheorems.RoundTripElement | pre-commit-gate/entropy_gate.py:383-394 | The same for the inline tables and values that stand as array elements. |
| MiniTomlDocuments.LineAssigns | pre-commit-gate/entropy_gate.py:362-372 | In any state of the reader, a printed "key = value" line, indented and commented or not, assigns its value at its key. |
| MiniTomlDocuments.QuotedKeyAssigns | pre-commit-gate/entropy_gate.py:364-371 | A key between double quotes assigns as the text it encloses. |
| MiniTomlLines.LineSkipped | pre-commit-gate/entropy_gate.py:345-363 | A line that is blank behind its comment, or neither header nor assignment, is skipped. |
| MiniTomlLines.DoubleBracketRaises | pre-commit-gate/entropy_gate.py:349-353 | The header of an array of tables raises. |
| MiniTomlLines.TakesToTheEnd | pre-commit-gate/entropy_gate.py:367-370 | An array that no line ends takes every line there is. |
| MiniTomlDocuments.HeaderOpens | pre-commit-gate/entropy_gate.py:353-361 | In any state, a "[a.b.c]" header opens the table at that path and makes it current. |
| MiniTomlDocuments.HeaderStripped | pre-commit-gate/entropy_gate.py:354-360 | Blanks inside the brackets of a header and around its dots are not part of the path. |
| MiniTomlTables.OpenDeep | pre-commit-gate/entropy_gate.py:354-360 | A header opens every table its path still lacks, |
| MiniTomlTables.OpenAgain | pre-commit-gate/entropy_gate.py:354-360 | changes nothing when its name is there, |
| MiniTomlTables.OpenBlocked | pre-commit-gate/entropy_gate.py:354-360 | and raises when a name before its last carries a value that is no table. |
| MiniTomlTables.AssignIff | pre-commit-gate/entropy_gate.py:371 | An assignment raises exactly when there is no table at the current path. |
| MiniTomlTables.DocumentRoundTrip | pre-commit-gate/entropy_gate.py:338-372 | A printed document reads back as its table: one-line and spread-out assignments, indented and commented or not, under headers nested to any depth. |
| Ratchet.RunChunks | pre-commit-gate/entropy_gate.py:1152-1201 | A death in any chunk makes the check fatal whatever the other chunks do; else an error match skips it; else the summed count or worst exit decides. |
| Ratchet.Conclude | pre-commit-gate/entropy_gate.py:1111-1225 | What a finished attempt of a check comes to. |
| Ratchet.JudgeResults | pre-commit-gate/entropy_gate.py:1500-1576 | The loop that sorts results into findings, metrics and tooling errors, and counts the languages that really ran. |
| Ratchet.RunStructural | pre-commit-gate/entropy_gate.py:1469-1601 | The structural layer, with one tooling error for every staged language that no check evaluated. |
| Ratchet.Report | pre-commit-gate/entropy_gate.py:1791-1837 | Exit 2 with any tooling error, else 1 with a blocking finding, else 0. |
| Ratchet.Hook | pre-commit-gate/entropy_gate.py:1711-1768 | The two layers, the refusals of a capture, the exit code and the file written. |
| Ratchet.Command | pre-commit-gate/entropy_gate.py:1604-1768 | The hook command: exit 0 when told to skip or nothing is staged, 2 when what is staged cannot be read or the other tool is missing, else what the two layers say; only the layers write the baseline. |
| Ratchet.Baseline | pre-commit-gate/entropy_gate.py:1840-1877 | The `baseline` command: refused exactly without a configured staged language, or on a write, without force, with a tooling error or no metric; otherwise exit 0, writing only when asked. |
| RatchetTheorems.CrashBreaks | pre-commit-gate/entropy_gate.py:1043-1060 | A crash in any process of a check breaks the check. |
| RatchetTheorems.SkippedNeverEvaluates | pre-commit-gate/entropy_gate.py:1504-1550 | A check counts as evaluated only when it really ran without a crash. |
| RatchetTheorems.PassExact | pre-commit-gate/entropy_gate.py:1469-1837 | The hook exits 0 exactly when no check is broken, none is above its ceiling or otherwise violated, every staged language was evaluated, and nothing else blocks. |
| RatchetTheorems.CommandPassExact | pre-commit-gate/entropy_gate.py:1604-1768 | The command exits 0 exactly when it is told to skip, nothing is staged, or every staged file could be read and the layers pass. |
| RatchetTheorems.PassMeansChecked | pre-commit-gate/entropy_gate.py:1469-1601 | A hook that exits 0 means no process of any check died, every staged language had a check that was not skipped and ran at least one process, and no measured repo metric is above its ceiling. |
| RatchetMeaning.ResultMeans | pre-commit-gate/entropy_gate.py:1043-1225 | Over exit codes and counts: a check refuses exactly when it is required and missing, some judged process was killed by a signal or exited above 1 undeclared, or it failed with nothing counted; and works exactly when it ran without that and without its error pattern. |
| RatchetMeaning.DeathRefuses | pre-commit-gate/entropy_gate.py:1043-1060 | One judged process killed by a signal, or exiting above 1 with an undeclared code, makes the hook exit 2, and an unforced capture leaves the file alone. |
| RatchetMeaning.DeclaredCodeJudged | pre-commit-gate/entropy_gate.py:1043-1060 | A declared code by itself does not: a counting check with a finding and only such codes is judged by its count. |
| RatchetMeaning.HookMeans | pre-commit-gate/entropy_gate.py:1469-1837 | The exit code of the hook is 2 when a check refuses, a staged language has no working check, the other layer errs or a capture would record nothing; else 1 when a count is over its ceiling or a finding blocks; else 0. |
| RatchetMeaning.HookWrites | pre-commit-gate/entropy_gate.py:1711-1768 | It writes exactly when asked and either forced or with all of that in order. |
| RatchetMeaning.CaptureMeans | pre-commit-gate/entropy_gate.py:1377-1409 | A capture leaves at each key the count of the last check that measured it, and otherwise the integer that was there. |
| RatchetMeaning.BaselineMeans | pre-commit-gate/entropy_gate.py:1840-1877 | When the `baseline` command is refused, in the same terms. |
| RatchetMeaning.CommandMeans | pre-commit-gate/entropy_gate.py:1604-1710 | The exits 0 and 2 in front of the layers. |
| RatchetTheorems.MeasuredWithin | pre-commit-gate/entropy_gate.py:1554-1573 | In such a run every measured repo metric is at or below its baseline, an absent one reading as 0. |
| RatchetTheorems.CaptureMerges | pre-commit-gate/entropy_gate.py:1397-1409 | Loading what a capture wrote gives the measured metrics and every other usable entry unchanged. |
| RatchetTheorems.CaptureRaisesIff | pre-commit-gate/entropy_gate.py:1397-1409 | A write raises some ceiling exactly when it records a metric above its ceiling. |
| RatchetTheorems.HookRaisesIff | pre-commit-gate/entropy_gate.py:1711-1768 | A hook raises a ceiling exactly when it captures, unrefused, a run with a metric above its ceiling; it then does not exit 0. |
| RatchetTheorems.BaselineRaisesIff | pre-commit-gate/entropy_gate.py:1840-1877 | The `baseline` command raises a ceiling exactly when it writes, unrefused, a run with a metric above its ceiling. |
| RatchetTheorems.CaptureUnblocks | pre-commit-gate/entropy_gate.py:1711-1768 | One lint finding and no baseline: the capturing hook exits 1, its capture raises the ceiling from 0 to 1, and the same hook then exits 0. |
| RatchetTheorems.CeilingsNeverRise | pre-commit-gate/entropy_gate.py:1397-1409 | Along any run of hooks that exit 0, capturing or not, no ceiling rises and no entry is lost. |
| RatchetTheorems.CommandsNeverRaise | pre-commit-gate/entropy_gate.py:1604-1877 | Along any run of hook commands that exit 0, each followed or not by a `baseline --write` of what it measured, no ceiling rises and no entry is lost. |
| RatchetTheorems.UnmeasuredKept | pre-commit-gate/entropy_gate.py:1397-1409 | An entry that no hook of the run measures keeps its value. |
| RatchetTheorems.CapturedBound | pre-commit-gate/entropy_gate.py:1554-1573 | Once captured by a passing hook, a metric is never larger in a later passing hook. |
| Scorecard.ScreenLines | scripts/minicertora-scorecard.py:367-381 | Keeps exactly the lines of a printed shape and counts the rest. |
| Scorecard.CaseIndex | scripts/minicertora-scorecard.py:552-562 | The index gives, for every key, exactly the cases it ties. |
| Scorecard.TieCollision | scripts/minicertora-scorecard.py:565-582 | Hits exactly when the rule and the file stem tie disjoint non-empty sets of cases. |
| Scorecard.ScreenTieCollisions | scripts/minicertora-scorecard.py:590-614 | Keeps exactly the lines without a collision and counts the rest. |
| Scorecard.ScoreCase | scripts/minicertora-scorecard.py:641-673 | The verdict columns and refusal reasons of one case from the lines tied to it. |
| Scorecard.Score | scripts/minicertora-scorecard.py:617-703 | The rows of the roll-up in class order, and every count of the statistics. |
| ScorecardTheorems.InsertExcluded | scripts/minicertora-scorecard.py:321-614 | Inserting an excluded line anywhere leaves the rows unchanged. |
| ScorecardTheorems.OrderFree | scripts/minicertora-scorecard.py:617-703 | Permuting the lines leaves the rows unchanged. |
| ScorecardTheorems.RowExact | scripts/minicertora-scorecard.py:675-693 | Each row holds the totals of its class, and a class has a row exactly when a case has it. |
| ScorecardTheorems.ColumnsAddUp | scripts/minicertora-scorecard.py:675-693 | Every column sums over the rows to its total over the cases. |
| ScorecardTheorems.Accounting | scripts/minicertora-scorecard.py:641-703 | Class counts sum to the cases and histogram counts to the refusal lines. |
| ScorecardTheorems.LinesAccounted | scripts/minicertora-scorecard.py:634-703 | Each count of the statistics is the number of lines read of one kind: without a printed shape, shaped but colliding, scored and tying a case, scored and tying none. |
| ScorecardTheorems.RefusalLinesExact | scripts/minicertora-scorecard.py:641-655 | The refusal statistic counts pairs of a refusing line and a case position it ties: it is never below the number of refusing tied lines, and equals it exactly when none of them ties two positions of the case list. |
| ScorecardTheorems.VerdictsExclude | scripts/minicertora-scorecard.py:656-671 | No case counts in both proven_silence and clean_agreed, and a case in either is neither detected nor refused. |
| ScorecardMeaning.ColumnsMean | scripts/minicertora-scorecard.py:641-673 | Each column of a case: a joined line reports VIOLATED; all joined lines, at least one, are PROVEN under a bad or under a clean gold outcome; a joined line is UNKNOWN with one of the seventeen refusal reasons. |
| ScorecardMeaning.JoinExact | scripts/minicertora-scorecard.py:517-549 | A line joins a case by its rule, for want of one by its contract, for want of both by its file, when that is the case's id, program, record, file stem or a key mapped to it. |
| ScorecardMeaning.PrintedExact | scripts/minicertora-scorecard.py:321-381 | The three printed shapes, key by key. |
| ScorecardMeaning.ScoredMeans | scripts/minicertora-scorecard.py:565-614 | A line read reaches the join exactly when it is printed and its rule and its file do not name cases apart. |
| ScorecardMeaning.RowsOrdered | scripts/minicertora-scorecard.py:675-694 | The rows stand in class order, no class twice, |
| ScorecardMeaning.RowsCover | scripts/minicertora-scorecard.py:675-694 | one for each class that occurs; |
| ScorecardMeaning.RowCells | scripts/minicertora-scorecard.py:675-694 | each cell is the number of cases of the class that count in its column; |
| ScorecardMeaning.RowHistogram | scripts/minicertora-scorecard.py:675-694 | and the histogram counts, per reason, the pairs of a case of the class and a joined line that refuses for it. |
| ScorecardTheorems.ScoredExact | scripts/minicertora-scorecard.py:565-614 | A line read is scored exactly when it has a printed shape and its rule and its results file, when each names a case, name one together. |

## Left out

- Files, JSON schemas, event logging, clocks and id minting: records arrive decoded, chain and finding ids arrive fresh.
- Run: waivers, ladder, fork status, price row, severity rule, exclusion and accepted-risk matches, liveness and claim-drift predicates enter the gate as values; an error raised while one of them is fetched also aborts the gate and is not modelled, unlike an unknown evidence level or patch clause, which are.
- EvaluateBountyGate: the acceptance score stored beside the verdict, a number computed elsewhere, and the saving of the finding.
- MaterializeChain: a refusal by the JSON schema, and a write or log that fails between the saved super-finding and the chain document.
- TerminalReport: the list of stored chain files at the end of the report.
- Rendered text: check details, remediation strings, notes, excluded-line messages, TSV and JSON output.
- The names of the ladder axes, which appear in a detail text only.
- TextSignature: the hash is taken to be injective, and the text canonicalization in front of it is not part of this model beyond lower-casing and white space.
- MiniValue: float literals in the restricted TOML come back as `Bare` text, together with words the reader does not recognize.
- Floating-point rounding: USD amounts are reals.
- Characters: labels, paths and TOML text are sequences of characters with ASCII case mapping; Unicode case folding is not modelled.
- ChainReport, CapabilityDelta, RowTargets and FindingTargets: views over what is modelled.
- The narrative, title and evidence fields of a super-finding.
- Plain filters and lookups (node tables, label lookups, row citations, pattern splitting) are recursive functions rather than loops.
- DocumentRoundTrip: the assignments of a table stand in front of its sub-tables, and a printed document uses one spread layout, one element per line; other breaks are covered line by line by `BrokenIsOneLine` and `BrokenIsCut`.
- RoundTrip: the keys of inline tables are plain, that is non-empty and without quotes, brackets, commas, "#", "=" or white space; `QuotedKeyAssigns` covers quoted keys of assignments.
- Conclude: a check's count pattern is given by its result; regular expressions, processes and git are not modelled.
- Command: how staged files are sorted into languages and how git is asked; the results arrive as counts. The commands `doctor` and `init`.
- Scorecard inputs: JSON values that are not strings where strings are expected, and the duplicate and dangling entries of a class map, which are refused before scoring.
- internal/briefing, internal/cli, internal/adapter, internal/archetypes, internal/boundary, internal/backtest and cmd: views, argument handling, flat predicates and rankings by scores defined elsewhere.
