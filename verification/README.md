# A model of provider-routeros

This project models the parts of the RouterOS provider that decide what happens
to a router, and proves what they guarantee.

- **The menu reconciler** (`rest/menu.go`). `MenuPlan` is a plan as a function of
  the specification, the desired rows and one reading of the menu. `MenuDevice`
  is the router: an ordered menu of rows and what each step does to it, where
  any exchange may be refused, done, or done with the answer lost. `MenuApply`
  is one apply: plan, ask, mutate, read again, plan again, move. `MenuPlanner`
  and `MenuClient` are the same thing as it runs, loops over slices and steps
  against a router that changes, each method proved equal to the function it
  carries out. The theorems are in `MenuMatching` (the greedy pairing),
  `MenuOrdering` (the moves), `MenuMutation`, `MenuStructure` and
  `MenuForesight` (the structural phase, when it converges, and how that is told
  beforehand), `MenuSoundness`, `MenuConvergence` and `MenuRetaking` (what is
  left to do on a keyless ordered menu), `MenuSettling` (on all others),
  `MenuFrame` and `MenuAccounting`. `MenuMeaning` says what a plan and an apply
  are in rows, fields, identifiers and selectors alone. `MenuTwins` and `MenuStandoffs` hold the
  menus on which things go wrong.
- **The codecs** (`routeros/parse.go`, `rest/scalar/scalar.go`, `rest/query.go`):
  `Strconv`, `Intervals`, `IntervalUnits`, `Scalars`, `Percent`. Machine integers are modelled as
  such: reads are range checked, and sums wrap at 64 bits where Go's do.
- **The identity layer** (`config/`): `Identity`, `CommentIdentity`,
  `InterfaceIdentity`, `IdentityEffects`, `MoveSequence`. Row identifiers may change behind the
  provider's back at any time.
- **The concurrency guards**: `VersionGuard` and `GuardRuns`
  (`internal/routerosruntime`), `ConnectorCache` and `Fingerprint`
  (`native/internal/connection`), as interleaved atomic steps.

Four results are worth reading first. Each is about a property that does not hold
without a condition; the condition is exact, and an input that fails it is given.

*Convergence.* On a keyless ordered menu that tolerates rows nobody asked for, a
surplus row that says the same as a managed one can take its place in the next
pairing. `MenuConvergence.ApplyConvergesExact` says when a fresh plan after a
successful apply is empty with the same pairing: when nothing had to be moved, or
no such twin stood ahead of the row of the last desired one.
`MenuRetaking.ApplyEmptyExactly` says when it is empty at all: when the rows that
will serve next, told from the rows before the moves, come in order.
`MenuTwins.NeverSettles` is a menu of four rows on which every apply succeeds and
none converges, `MenuTwins.TakeoverSettles` one on which the takeover costs
nothing. Where the order plays no part, `MenuSettling.ApplySettlesExactly` is the
corresponding statement.

*Giving up.* An ordered apply can do all its writes and then refuse to go on,
because the second plan is ambiguous or still wants writes.
`MenuForesight.GivesUpExactly` gives the condition on the first plan and reading
that decides it, before anything is written; `AntichainGoesThrough` and
`KeyedGoesThrough` are conditions on the desired rows alone. In `MenuStandoffs`,
`OverlapGivesUp` ends ambiguous and `RefusedForGood` says that no later apply then
does anything; `NeverEnough` says that with an ignored desired row every apply
makes one more; `MergedGivesUp` is a keyed menu with proper keys and nothing
ignored that gives up all the same, because an update completes a selector.

*Sequences.* A raw identifier beside the comment of its own row is accepted and
not undone. `MoveSequence.RestoreExactly` says exactly when translating a resolved
sequence back gives the entries, `AliasAccepted` is such a sequence, and
`AliasedIsStuck` says that after its write every later read and write is refused.

*Durations.* A negative duration prints as nothing.
`Intervals.DurationRoundTripExact` says which durations survive printing and
reading.

## Model

| member | source | states |
|---|---|---|
| MenuPlan.ResolveStep | rest/menu.go:172-189 | the pairing goes on exactly when all rows still eligible for the desired row say the same; it then takes the first of them, and otherwise stops at that very index |
| MenuMatching.ResolveIsGreedy | rest/menu.go:172-189 | every pairing the loop produces satisfies the declarative definition of greedy: each choice clear, each the first eligible row |
| MenuMatching.GreedyIsResolve | rest/menu.go:172-189 | and conversely: a pairing that satisfies the definition is the one the loop produces, so the definition characterises it |
| MenuMatching.MatchesAreRows | rest/menu.go:226-264 | every match is a row of the reading with an identifier, unclaimed at the time, not ignored and recognised by its desired row |
| MenuMatching.MatchedInjective | rest/menu.go:172-189 | no row is claimed by two desired rows |
| MenuMatching.ListingOrderIrrelevant | rest/menu.go:226-290 | keyless: over two listings of the same rows, every prefix of the pairing stops at the same index or matches rows of equal content, and leaves equal contents open |
| MenuMatching.PlanPermutationInvariant | rest/menu.go:155-190 | keyless: permuting the device rows changes neither whether and where a plan is refused nor what the row matched to each desired row says |
| MenuMeaning.PairedExactly | rest/menu.go:172-248 | each desired row gets the first row in device order that has an identifier no earlier one took, that no selector selects and that has its key or else all its fields; without a key all such rows differ in their identifier only |
| MenuMeaning.RefusedExactly | rest/menu.go:155-183 | a plan is refused exactly for a missing policy, then for an empty selector, then at a desired row for which rows are left that differ in more than their identifier; the refusal lists all of these in device order |
| MenuMeaning.SelectedUntouched | rest/menu.go:226-264 | a row with all the fields of one selector is matched by no desired row and named by no step of any plan, not even as an anchor |
| MenuMeaning.SelectedSurvives | rest/menu.go:397-455 | and it is there as it was after every apply, however that went |
| MenuMeaning.DeletedExactly | rest/menu.go:210-216 | the deletes of a plan are, under prune alone, exactly the unmatched addressable rows that differ from every selector in some field |
| MenuMeaning.PlanInOrder | rest/menu.go:191-222 | a plan is the writes of the desired rows in desired order, one each at most and each that is due, then the deletes in device order, then moves; a write creates the row as wanted or sets exactly the fields that differ |
| MenuMeaning.MovedExactly | rest/menu.go:337-372 | the moves are none, one listing every row where all are managed, or each managed row before its successor, last pair first, and when each is the case |
| MenuOrdering.SettleStep | rest/menu.go:363-371 | one anchored move is never refused for a missing row, settles exactly one more managed row and leaves every unmanaged row on its side of the block |
| MenuOrdering.PairwiseSettles | rest/menu.go:337-372 | in every run of the backward moves, complete or cut short, the managed rows from some place on stand together in order, that place is given by the number of exchanges (one less certain when the last went unheard), and the unmanaged rows above and below are unchanged |
| MenuOrdering.PairwiseSucceeds | rest/menu.go:363-371 | the router has no reason of its own to refuse any of these moves |
| MenuOrdering.OneMoveArranges | rest/menu.go:359-361 | with every row managed the single block move gives the same menu as the pairwise moves would |
| MenuOrdering.PlacePermutes | rest/menu.go:467-473 | a move of distinct known rows permutes the menu: no row is lost, doubled or changed |
| MenuOrdering.PlaceKeepsOthers | rest/menu.go:467-473 | a move leaves the rows it does not list exactly as they were and in the same order |
| MenuOrdering.ArrangedHave | rest/menu.go:337-372 | in the arrangement the managed rows come exactly in desired order |
| MenuOrdering.OrderingPhase | rest/menu.go:337-372 | however the ordering phase ends it has only permuted the menu and kept the unmanaged rows in order; when it succeeds the menu is the arrangement, or nothing was out of order |
| MenuMutation.RunWrites | rest/menu.go:191-208 | the acknowledged writes turn the menu into the old rows with the planned updates, followed by one row per unmatched desired row, in desired order and under new distinct identifiers |
| MenuMutation.MutationPhase | rest/menu.go:191-216 | the same with the deletes: exactly the open, unclaimed rows are gone under prune |
| MenuStructure.TargetInAfter | rest/menu.go:191-216 | the row meant for each desired row is in the mutated menu, under its identifier |
| MenuStructure.AfterOthers | rest/menu.go:210-216 | every other addressable row was there before, unchanged and unclaimed; under prune it is an ignored one |
| MenuStructure.ReadyConverges | rest/menu.go:413-439 | when every intended row can be recognised again and no rival is observably different, the second plan is not ambiguous, matches every desired row to its intended row and holds only moves |
| MenuStructure.NewNotIgnored | rest/menu.go:413-439 | keyless: a converged menu has no new row that is ignored, since too few would be left to serve all desired rows |
| MenuStructure.StructuralPhaseExact | rest/menu.go:413-439 | and exactly then: without a key always, with a key when it is the unique field the specification demands |
| MenuForesight.ForeseenIsReady | rest/menu.go:413-439 | that condition is decided by the first plan and reading, as long as no selector names an identifier the router then gives a new row |
| MenuForesight.KeysStayUnique | rest/menu.go:191-216 | a key unique on the first reading, with distinct keys wanted and none held by a row that cannot be claimed, is unique after the writes |
| MenuForesight.GivesUpExactly | rest/menu.go:430-439 | an ordered apply whose writes went through ends as ambiguous or not converged only if the condition failed beforehand, and always then, without a key or with proper ones |
| MenuForesight.AntichainGoesThrough | rest/menu.go:397-455 | keyless: desired rows of which none says all a later one says, none of them ignored, never make an apply give up, as long as no selector names an identifier newly given |
| MenuForesight.KeyedGoesThrough | rest/menu.go:397-455 | keyed: desired rows that carry the key and contradict every selector never make an apply give up |
| MenuStandoffs.OverlapGivesUp | rest/menu.go:430-433 | two desired rows, one containing the other, on an empty menu: every exchange answered, both are made, and the apply ends ambiguous |
| MenuStandoffs.RefusedForGood | rest/menu.go:397-401 | after an ambiguous second plan no later apply of the same rows writes anything or changes the menu, however often and with whatever answers it is tried |
| MenuStandoffs.IgnoredGrows | rest/menu.go:226-264 | keyless: an apply with an ignored desired row leaves one more row saying what that one says, and fails if and only if the menu is ordered |
| MenuStandoffs.NeverEnough | rest/menu.go:226-264 | after any number of such applies there are at least that many more |
| MenuStandoffs.MergedGivesUp | rest/menu.go:203-208 | keys present, distinct, unique and held by no ignored row, and nothing wanted ignored, are not enough: an update can make its row ignored |
| MenuMeaning.MovePlaces | rest/menu.go:80-84 | a move takes the listed rows out and puts them back as listed, right before the anchor or at the end |
| MenuSoundness.ConvergedConforms | rest/menu.go:155-222 | a menu whose plan has no create, update or delete already holds every desired row, each in a row of its own, with nothing else open under prune |
| MenuSoundness.ConformsOrdered | rest/menu.go:440-446 | the ordering phase keeps that and puts the managed rows in desired order |
| MenuSoundness.ApplySound | rest/menu.go:397-455 | soundness of success: when an apply reports no error there is an injective assignment of desired rows to rows of the final menu that hold every field they set, increasing when ordered, leaving no other row open under prune |
| MenuMeaning.ApplyHolds | rest/menu.go:397-455 | the same with fields, identifiers and selectors written out |
| MenuMeaning.ReportedIsDone | rest/menu.go:424-454 | the steps put to the router are those of the reported plan up to the one that failed, and all of them on success |
| MenuMeaning.FailureNumbered | rest/menu.go:424-454 | the number in a failed apply is that of the step that failed, counted within its half |
| MenuMeaning.ReportedExactly | rest/menu.go:409-454 | the reported plan is the approved one where it makes and removes nothing or order does not matter, and then there is no second reading; else it is its writes followed by the moves of the second plan |
| MenuConvergence.PairingStableExact | rest/menu.go:268-290 | arranging a completely paired keyless menu keeps the pairing if and only if no twin of a claimed row stands ahead of the row of the last desired one |
| MenuConvergence.MovesSettleExact | rest/menu.go:337-372 | after the moves of a moves-only plan a fresh plan is empty with the same pairing, if and only if nothing was moved or no twin stood ahead |
| MenuConvergence.ApplyConvergesExact | rest/menu.go:397-455 | after a successful apply of a keyless ordered menu a fresh plan of the result is empty and pairs as reported, if and only if nothing had to be moved or no twin stood ahead of the row of the last desired one |
| MenuConvergence.ApplyConverges | rest/menu.go:397-455 | so always under prune, and under tolerate when no row left over is a twin of a managed one |
| MenuRetaking.RetakenPairs | rest/menu.go:172-189 | the pairing after the moves is told from the rows before them: each desired row takes the first row left that says what its row says, twins above the anchor first, then the managed rows |
| MenuRetaking.FreshPlanExact | rest/menu.go:337-372 | the plan after the moves holds moves only, has that pairing, and is empty if and only if those rows come in order |
| MenuRetaking.ApplyEmptyExactly | rest/menu.go:397-455 | after a successful apply of a keyless ordered menu a fresh plan moves rows at most, and is empty if and only if nothing had to be moved or those rows come in order |
| MenuSettling.ApplySettlesExactly | rest/menu.go:397-455 | after a successful apply of an unordered menu, or of one with proper keys, a fresh plan is made and empty if and only if the first plan and reading foresaw it |
| MenuTwins.NeverSettles | rest/menu.go:337-372 | the hypothesis is needed: on B, A, D against A, B, A, D every apply succeeds, moves rows, swaps the twins and leaves a plan that is not empty, for any number of applies |
| MenuTwins.TakeoverSettles | rest/menu.go:337-372 | but a twin ahead need not cost convergence: on A, X, D against A, A, D, X one apply moves rows and the next plan is empty, with the twin in the other row's place |
| MenuFrame.RunFrame | rest/menu.go:423-453 | any run of steps, wherever it stops, leaves the rows no step names as they were and in order |
| MenuFrame.PlanFrame | rest/menu.go:211-216 | no step of a plan names a row that some selector selects, or under tolerate an unclaimed one, not even as the anchor of a move |
| MenuFrame.ApplyFrame | rest/menu.go:397-455 | over every prefix of every apply, failed or not: rows that some selector selects, and under tolerate rows never claimed, keep their fields and relative order |
| MenuFrame.TolerateLosesNothing | rest/menu.go:211-216 | under tolerate every row present before an apply is present after it, wherever it stops |
| MenuFrame.ApprovalContains | rest/menu.go:390-455 | the creates, updates and deletes put to the router are a prefix of the approved plan's; a plan refused, not approved or never made leaves the router untouched, and the apply fails |
| MenuAccounting.Counts | rest/menu.go:103-109 | the tally counts the steps of each operation and lists no operation that does not occur |
| MenuAccounting.CountIs | rest/menu.go:101-109 | what is counted is the number of steps that create, update, delete or move |
| MenuAccounting.PlanAccounting | rest/menu.go:167-216 | creates plus matches is the number of desired rows; under prune claims, deletes and passive rows add up to the menu, under tolerate there is no delete |
| MenuAccounting.AfterSize | rest/menu.go:167-216 | under prune the mutated menu holds one row per desired row and the passive rows, no more |
| MenuPlanner.FindRow | rest/menu.go:479-486 | the loop finds the first row under the identifier, or the empty record |
| MenuPlanner.IsIgnored | rest/menu.go:250-264 | the loop tells exactly whether the row has all the fields of at least one selector |
| MenuPlanner.FindChanges | rest/menu.go:308-319 | the loop collects exactly the fields the device disagrees with, in whatever order the map is walked |
| MenuPlanner.ListCandidates | rest/menu.go:226-248 | the loop lists exactly the eligible rows in device order, only the first with a key |
| MenuPlanner.AreIndistinguishable | rest/menu.go:268-290 | the loop tells exactly whether the candidates differ in their identifier only |
| MenuPlanner.PairRows | rest/menu.go:172-189 | the matching loop computes the pairing the theorems are about, and the claims with it |
| MenuPlanner.PlanWrites | rest/menu.go:192-208 | the loop computes the creates and updates in desired order |
| MenuPlanner.PlanDeletes | rest/menu.go:210-216 | the loop computes the deletes in device order |
| MenuPlanner.PlanMoves | rest/menu.go:337-372 | the loops compute the order wanted, the order held and the moves between them |
| MenuPlanner.PairMoves | rest/menu.go:364-371 | the last loop computes the anchored moves, from the last pair back |
| MenuPlanner.PlanMenu | rest/menu.go:155-222 | the whole planner computes the plan the theorems are about, its refusals included |
| MenuClient.Router.List | rest/menu.go:146-153 | one reading of the menu, which may fail and changes nothing |
| MenuClient.Router.Perform | rest/menu.go:457-477 | one step changes the router as the device model says, and the client sees success only when the answer arrived |
| MenuClient.RunSteps | rest/menu.go:448-454 | steps are put to the router in order up to the first failure, and no further |
| MenuClient.ApplyMoves | rest/menu.go:430-446 | the ordering half as it runs leaves the router, the report and the log the theorems are about |
| MenuClient.ApplyMenu | rest/menu.go:397-455 | so does the whole apply, with and without an approval |
| Intervals.Duration | rest/scalar/scalar.go:42-60 | the loop returns the exact worth of the interval taken into int64, and fails exactly on text that is not an interval |
| Strconv.WrapIs | rest/scalar/scalar.go:42-60 | taking a sum into int64 changes it by a multiple of 2^64 only |
| Intervals.ParseDuration | routeros/parse.go:58-73 | the other copy agrees on every text, an error read as zero |
| Intervals.IntervalAppend | rest/scalar/scalar.go:42-60 | the worth of two intervals written one after the other is the sum of their worths |
| Intervals.ReorderedWorth | rest/scalar/scalar.go:42-60 | any reordering of the terms of an interval is worth the same |
| Intervals.MillisecondsWhole | rest/scalar/scalar.go:20-60 | a count followed by ms is that many milliseconds, whatever follows, never minutes |
| IntervalUnits.UnitsWorth | rest/scalar/scalar.go:20-27 | a decimal count within int64 and one of ms, s, m, h, d, w is worth that many times 10^6, 10^9, 60, 3600, 86400 or 604800 times 10^9 nanoseconds, plus whatever interval follows |
| IntervalUnits.CountRead | rest/scalar/scalar.go:42-60 | a count past int64 makes the whole text no interval |
| IntervalUnits.IntervalSplits | rest/scalar/scalar.go:20-60 | a text that is an interval is empty, or a count, one of the six units and an interval; nothing else is one |
| IntervalUnits.PrintedExactly | routeros/parse.go:75-97 | weeks, days below 7, hours below 24, minutes and seconds below 60 and milliseconds below 1000 are printed in this order, zeros left out; zero is 0s and a negative duration is nothing |
| Intervals.PrintDuration | routeros/parse.go:75-97 | the printing loop writes the text the round trips are about |
| Intervals.DurationRoundTrip | routeros/parse.go:41-97 | for every int64 duration that is not negative, reading the printed text gives it without what is below a millisecond, and without overflow |
| Intervals.DurationRoundTripExact | routeros/parse.go:58-97 | an int64 duration survives the round trip if and only if it is not negative and whole in milliseconds |
| Intervals.FormatDurationInjective | routeros/parse.go:75-97 | different whole numbers of milliseconds print differently |
| Scalars.ParseIntField | routeros/parse.go:102-120 | this copy of the integer reader agrees with the other on every text, an error read as zero |
| Scalars.IntRoundTrip | routeros/parse.go:102-122 | every int64, the minimum included, survives printing and reading |
| Scalars.IntOutOfRange | rest/scalar/scalar.go:105-117 | a printed number past int64 is refused, not wrapped |
| Scalars.HexRead | rest/scalar/scalar.go:81-129 | the hexadecimal form of every uint64 reads back, with either case of the mark |
| Scalars.DecimalRead | rest/scalar/scalar.go:81-129 | every text of decimal digits, leading zeros included, is read as the number it denotes, with either sign for a signed one, and refused past 64 bits |
| Scalars.NotNumbers | rest/scalar/scalar.go:105-129 | the empty text is zero; a sign or a hexadecimal mark alone is refused |
| Scalars.IDRoundTrip | rest/scalar/scalar.go:151-160 | the hexadecimal identifier of every uint32 reads back, and of no larger number |
| Scalars.IsIDExact | rest/scalar/scalar.go:132-160 | a text looks like an identifier if and only if it reads as one |
| Scalars.IDExactly | rest/scalar/scalar.go:132-160 | these texts are an asterisk and hexadecimal digits of either case denoting at most 2^32 - 1, and that is the number read |
| Scalars.BoolRoundTrip | routeros/parse.go:23-39 | a printed flag reads back |
| Scalars.BoolExactly | rest/scalar/scalar.go:67-72 | the texts that are set flags: the empty one, and true and yes in any mixture of cases as Unicode folds them |
| Scalars.FieldRoundTrip | rest/record.go:33-59 | a flag, duration or integer written into a row reads back from it, durations to the millisecond; an absent field is unset or zero |
| Percent.EscapedByte | rest/query.go:78-94 | every byte comes out as itself if unreserved in the sense of section 2.3 of RFC 3986, and as %XX otherwise |
| Percent.EscapedOne | rest/query.go:78-94 | with the characters written out: letters, digits, hyphen, period, underscore and tilde stand, every other byte is a percent sign and two upper-case hexadecimal digits |
| Percent.EscapeConcat | rest/query.go:78-94 | a value is escaped byte by byte |
| Percent.EscapeRoundTrip | rest/query.go:78-94 | decoding by section 2.1 of RFC 3986 gives every value back, so the output is unreserved characters and %XX only |
| Percent.EscapeInjective | rest/query.go:78-94 | different values escape differently, and no plus sign is left |
| MoveSequence.GatherComments | config/move_sequence.go:115-126 | the first loop files under each comment exactly the identifiers carrying it, in order, and nothing under the empty one |
| MoveSequence.ResolveSequence | config/move_sequence.go:115-152 | the second loop computes the resolution the theorems are about, with its first error |
| MoveSequence.ResolvesExactly | config/move_sequence.go:115-152 | a sequence resolves if and only if no entry is listed twice and every comment names one row or, leniently, none; the identifiers are those of the entries still present, in order |
| MoveSequence.ResolvedStandFor | config/move_sequence.go:115-152 | the identifiers handed upstream: an entry with an asterisk in front stands for itself, any other for the one row that carries it |
| MoveSequence.PresentExactly | config/move_sequence.go:128-150 | the entries still present are those that stand for something, in their order |
| MoveSequence.RefusedExactly | config/move_sequence.go:128-150 | the first entry that is listed twice, carried by no row when strict, or carried by several decides, and the refusal names it and their number |
| MoveSequence.DistinctExactly | config/move_sequence.go:128-150 | the identifiers are pairwise distinct if and only if no literal identifier aliases a listed comment |
| MoveSequence.RestoreExactly | config/move_sequence.go:175-186 | without aliasing, restoring any rearrangement or part of the identifiers gives the same rearrangement or part of the entries; restoring gives the entries back if and only if there is no aliasing |
| MoveSequence.WriteKeepsEntries | config/move_sequence.go:57-76 | a write over an upstream call that keeps its sequence leaves the caller's entries as they were if and only if it was refused or none aliases another |
| MoveSequence.AliasedIsStuck | config/move_sequence.go:57-98 | when one does the write leaves an entry twice, and every later write and read is refused, whatever the rows |
| MoveSequence.AliasAccepted | config/move_sequence.go:115-152 | an identifier listed with the comment of its row is accepted, and comes back as the comment twice |
| MoveSequence.ReadExactly | config/move_sequence.go:78-98 | a read that is not refused fails exactly when upstream does; what upstream leaves is translated back one by one, or stands as it is when upstream failed or found nothing |
| MoveSequence.WriteExactly | config/move_sequence.go:57-76 | a write that is not refused fails exactly when upstream does, and is translated back either way |
| MoveSequence.SelectionBack | config/move_sequence.go:175-186 | translated back one by one, a part or rearrangement of the identifiers is that part or rearrangement of the entries |
| MoveSequence.RefusedUntouched | config/move_sequence.go:57-98 | too short a list, an unreadable menu or an entry that cannot be resolved is refused with that reason, and the state stays |
| MoveSequence.Sequencer.RestoreSequence | config/move_sequence.go:175-186 | the loop rewrites the state entry by entry, leaving what it does not know |
| MoveSequence.Sequencer.Write | config/move_sequence.go:57-76 | the upstream call sees identifiers, the state is translated back whether or not the call failed, and a refusal leaves the state alone |
| MoveSequence.Sequencer.Read | config/move_sequence.go:78-98 | lenient; nothing is translated back when the read fails or the resource is gone |
| Identity.ResolveByField | config/comment_identity.go:194-207 | the lookup finds the one row carrying the value, none, or refuses when several do or the menu cannot be read |
| CommentIdentity.Session.CreateRow | config/comment_identity.go:97-117 | the new menu, resource and verdict of a create, errors included; comments stay distinct, and success leaves one row carrying the comment |
| CommentIdentity.Session.ReadRow | config/comment_identity.go:119-139 | the same of a read, which writes nothing |
| CommentIdentity.Session.UpdateRow | config/comment_identity.go:141-167 | the same of an update; comments stay distinct, and success writes all the resource asks for into the one row that carried the old comment |
| CommentIdentity.Session.DeleteRow | config/comment_identity.go:169-182 | the same of a delete; comments stay distinct, and success leaves no row carrying the comment |
| CommentIdentity.EventDistinct | config/comment_identity.go:97-218 | one callback, however it ends, or one removal or recreation at the router keeps the comments distinct |
| CommentIdentity.RunDistinct | config/comment_identity.go:97-218 | so does every run of any length |
| CommentIdentity.CreateIdentifies | config/comment_identity.go:97-117 | a create that succeeds leaves the comment as the identity of exactly one row, which holds what the resource asks for |
| CommentIdentity.UpdateIdentifies | config/comment_identity.go:141-167 | so does an update, a rename included, all the resource asks for is then in the one row that carried the old comment, and no other row changes |
| CommentIdentity.ReadIdentifies | config/comment_identity.go:119-139 | a read that succeeds writes nothing, and keeps the identity and takes over what the row says if and only if one carries it, else clears the resource |
| CommentIdentity.AmbiguityRefused | config/comment_identity.go:97-218 | when several rows carry the comment a resource is known by, or the one it asks for, every callback that looks that one up fails and nothing is written |
| CommentIdentity.NeverAmbiguous | config/comment_identity.go:194-207 | from distinct comments no run leads to an ambiguous lookup |
| CommentIdentity.DeleteForgets | config/comment_identity.go:169-182 | a delete that succeeds removes exactly the row carrying the comment, if any, and clears the resource |
| CommentIdentity.SurvivesChurn | config/comment_identity.go:119-139 | a resource finds its row again after the row came back under another identifier |
| InterfaceIdentity.Session.CreateRow | config/interface_identity.go:63-90 | the new menu, resource and verdict of a create: add, adopt or refuse; one row per interface and the router's own rows are kept, and success leaves one row on the interface |
| InterfaceIdentity.Session.ReadRow | config/interface_identity.go:92-112 | the same of a read, which writes nothing |
| InterfaceIdentity.Session.UpdateRow | config/interface_identity.go:114-145 | the same of an update |
| InterfaceIdentity.Session.DeleteRow | config/interface_identity.go:147-170 | the same of a delete: remove or release, and never one of the router's own |
| InterfaceIdentity.EventKeeps | config/interface_identity.go:63-170 | one callback or one change at the router keeps one row per interface and exactly the router's own rows |
| InterfaceIdentity.RunKeeps | config/interface_identity.go:63-170 | so does every run of any length: a default row is never removed, however often it was adopted, renamed or released |
| InterfaceIdentity.CreateAdoptsOrAdds | config/interface_identity.go:63-90 | a create succeeds by adding one row on a free interface or by writing all the resource asks for into a default row in place; the interface is then the identity of exactly one row |
| InterfaceIdentity.UpdateIdentifies | config/interface_identity.go:114-145 | an update that succeeds, a rename included, leaves the interface as the identity of exactly one row, with all the resource asks for written into the one that had the old, and no other row changed |
| InterfaceIdentity.DeleteReleasesOrRemoves | config/interface_identity.go:147-170 | a delete that succeeds forgets the resource and removes the row carrying the interface unless it is the router's own |
| IdentityEffects.CommentCreate | config/comment_identity.go:97-117 | exactly when a create succeeds, the row it adds field by field, and the resource it leaves |
| IdentityEffects.CommentRead | config/comment_identity.go:119-139 | exactly when a read succeeds, and what the resource then says |
| IdentityEffects.CommentUpdate | config/comment_identity.go:141-167 | exactly when an update succeeds, the one row it writes and what into, and the resource it leaves, a failure included |
| IdentityEffects.CommentDelete | config/comment_identity.go:169-182 | exactly when a delete succeeds, the row it removes, and the resource it leaves |
| IdentityEffects.InterfaceCreate | config/interface_identity.go:63-90 | exactly when a create adds, adopts or refuses, the row it adds or writes into, and the resource it leaves |
| IdentityEffects.InterfaceRead | config/interface_identity.go:92-112 | exactly when a read succeeds, and what the resource then says |
| IdentityEffects.InterfaceUpdate | config/interface_identity.go:114-145 | exactly when an update succeeds, the one row it writes and what into, and the resource it leaves |
| IdentityEffects.InterfaceDelete | config/interface_identity.go:147-170 | exactly when a delete removes, releases or fails, and the resource it leaves |
| VersionGuard.NextKeeps | internal/routerosruntime/provider.go:86-117 | every atomic step of a callback, Configure or Close keeps the invariant: locks held by exactly who is where they are held, and what each goroutine relies on |
| VersionGuard.BodySeesItsVersion | internal/routerosruntime/provider.go:86-117 | in every interleaving a callback body runs only while the global version is its own client's, and never beside another body |
| VersionGuard.OneClientPerKey | internal/routerosruntime/cache.go:45-83 | all Configures of a key that ever succeed return the same client and version |
| VersionGuard.VersionIsConfigured | internal/routerosruntime/cache.go:45-83 | in every interleaving what a Configure returns was made for its key by a step that configured it: that step's client and the version the router had there |
| VersionGuard.ConfigureAfterClose | internal/routerosruntime/cache.go:45-112 | a Configure not past its check when the cache closes is refused, however the run goes on |
| VersionGuard.NoDeadlock | internal/routerosruntime/cache.go:45-112 | in every reachable state, as long as some goroutine is not done, some goroutine can take a step |
| GuardRuns.CallRuns | internal/routerosruntime/provider.go:86-117 | with the lock free a callback runs its body under its own version and gives the lock back |
| GuardRuns.CallRefused | internal/routerosruntime/provider.go:109-117 | without a client it is refused and touches neither lock nor version |
| GuardRuns.ConfigureRuns | internal/routerosruntime/cache.go:59-83 | the first Configure of a key stores and returns the client made, with its version, or nothing when that fails |
| GuardRuns.ConfigureAnswers | internal/routerosruntime/cache.go:59-66 | a later one returns what is stored, and after Close it is refused; neither touches the version |
| GuardRuns.CloseRuns | internal/routerosruntime/cache.go:86-112 | Close leaves the cache closed and empty, and a second one changes nothing |
| GuardRuns.ClosedIsEmpty | internal/routerosruntime/cache.go:86-112 | in every interleaving a closed cache holds no client once the cache lock is free |
| ConnectorCache.NextKeeps | native/internal/connection/providerconfig.go:90-125 | every atomic step of a Connect keeps the invariant |
| ConnectorCache.OnePlacePerClient | native/internal/connection/providerconfig.go:90-125 | in every interleaving every HTTP client ever built is in exactly one place: with one Connect, cached under one key, or closed |
| ConnectorCache.AnswerMatchesSettings | native/internal/connection/providerconfig.go:90-125 | every menu a Connect returns was built from settings with the fingerprint returned |
| ConnectorCache.QuietCache | native/internal/connection/providerconfig.go:90-125 | when every Connect has returned, each HTTP client still open is a cached one |
| ConnectorCache.OneClientPerSettings | native/internal/connection/providerconfig.go:104-125 | as long as the settings under a key stay the same, all its Connects return one client in every interleaving, and it is never closed |
| ConnectorCache.ConnectReuses | native/internal/connection/providerconfig.go:90-96 | a client cached for the same settings is returned and nothing else happens |
| ConnectorCache.ConnectReplaces | native/internal/connection/providerconfig.go:98-124 | otherwise a new one is built, cached and returned, and the one it replaces is closed |
| ConnectorCache.ConnectFails | native/internal/connection/providerconfig.go:98-109 | when building fails nothing is cached, replaced or closed |
| Fingerprint.WriteParts | native/internal/connection/providerconfig.go:239-250 | the loop writes the length-prefixed stream of the parts |
| Fingerprint.LowByteLast | native/internal/connection/providerconfig.go:239-245 | lengths are written most significant byte first |
| Fingerprint.StreamInjective | native/internal/connection/providerconfig.go:239-250 | different lists of parts never give the same stream, whatever bytes they hold |

## Left out

- HTTP, TLS, JSON and the classification of errors (`rest/client.go`, `rest/error.go`): an exchange is one step of the device that is refused, done, or done unheard.
- Another writer during one apply, and values the router stores differently from how they were sent: a menu changes only by the steps of the apply, and sent fields are stored as they are.
- The texts of errors, `Step.Why` and `MenuSpec.Path`; the map from desired index to identifier is a sequence with the empty text for no entry.
- MenuStructure.StructuralPhaseExact: with a key the converse asks that the key tells the rows of the mutated menu apart. The source demands a key the router itself enforces unique, and KeysStayUnique derives it from the first reading. ReadyConverges, the direction a caller relies on, asks for neither.
- MenuForesight.GivesUpExactly: asks that no ignore selector names an identifier the router then gives a new row, and with a key goes both ways for proper keys other than `.id`. Which identifiers the router gives cannot be told beforehand.
- Upstream Terraform callbacks, `schema.ResourceData` and upjet: taken by contract, which is to act on the row whose identifier the resource carries, and to end refused, unheard or well.
- Events at the router fall before or after a callback of the identity layer, never between its lookup and its write.
- A callback of the identity layer that fails after its lookup leaves the row identifier in the resource, as the code does; what the framework then makes of it is not modelled.
- A connector's menu that was already returned can be closed later, by a Connect that finds other settings under its key; what the holder of it then sees is not modelled.
- SHA-256: the streams before it are proved injective, the hash is taken to be.
- `normalizeConfiguration` and the validation before Configure: only the key it results in takes part.
- A panic in a callback body, and the errors of closing single clients in Close.
- `Record.FloatOK` and `scalar.Float`: floating point parsing.
- The schema tables of `config/`, `config/factory_identity.go`, `config/policy_expansion.go` and `config/certificate_removal.go`: finite data, and smaller variants of the wrappers modelled here.
- Generated code (`apis/`, `internal/controller/`, `routeros/routeros.go`), `hack/`, `schema/` and `gen/`.
- The controllers above the reconciler: they add when to call it, not what it does.
