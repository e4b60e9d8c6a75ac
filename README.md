# Election registry — a verified Dafny model

This project models the validation-and-consistency core of a small C++
election system: the `ElectionSystem` class (`election.h`, `election.cpp`)
and its two record types `Candidate` and `Voter`. The system keeps a
registry of candidates and voters. Each registry has admitted ("valid") and
rejected ("invalid") lists. Three uniqueness indices hold the candidate IDs,
the party symbols and the Aadhaar IDs in use. A vote ledger (`votesSet`) maps
each candidate ID to a vote count. An operator adds, amends, repairs and
removes records, casts votes and views results.

Layout:

- `validators.dfy` (`Validators`): the field validators, as functions with
  exact iff-characterisations. A rejection returns a `Reason` instead of
  writing `errorMessage`.
- `records.dfy` (`Records`): the `Candidate` and `Voter` classes with their
  setters, and the record values they hold.
- `prompts.dfy` (`Prompts`): operator input as a finite sequence of tokens
  (a line, a key or an integer). Also the accept / retry / go-back loop that
  every field entry of the source uses.
- `registry.dfy` (`RegistryModel`): the registry state as a value, the
  `std::find_if` searches, and the invariants (`Consistent`, `Covered`).
- `csv.dfy` (`Csv`): the line format of `Candidate.csv` and `Voter.csv`,
  the per-line load rules, and the round trip through the files.
- `tally.dfy` (`Tally`): `ShowResult`'s ledger update and its
  descending ranking.
- `workflows.dfy` (`Workflows`): one specification function per operator
  operation. Each maps a registry and the operator's answers to the new
  registry, the outcome and the unread answers.
- `election.dfy` (`Election`): the `ElectionSystem` class. Its fields are
  those of `election.h:26-38`. Each method is written with the source's
  loops and is proved to produce exactly what its specification function
  says (`State()` is the registry value the object holds).
- `admission_facts.dfy`, `maintenance_facts.dfy`, `repair_facts.dfy`,
  `voting_facts.dfy`: lemmas about the specification functions. They show
  which invariants each operation keeps and where the source breaks them.

Outcomes. A call returns `Returned(b)` with the source's bool result. When
the input runs out it ends with `EndOfInput`, where the source calls
`exit(0)` (or its input helpers loop forever). Where C++ leaves the
behaviour undefined it ends with `Undefined` and the model stops. There are
three such places: erasing `end()` of a set, indexing past the end of a
vector, and reading an uninitialised `bool`.

Invariants. `Consistent` requires four things. The indices equal exactly the
keys of the admitted records. IDs, symbols and Aadhaar IDs are unique among
admitted records. Every ledger key is an indexed ID. Each admitted
candidate's count equals its ledger entry, where a missing entry reads as 0.
`Covered` is the weaker candidate-side invariant that the source actually
keeps: the indices contain the admitted keys but may hold stale or orphan
ones.

The model follows the code as written, including where it breaks the
invariants. Lemmas exhibit each break:

- Stale symbols: `RemoveCandidate` and a symbol change in `ModifyCandidate`
  keep the old symbol in `symbolSet`.
- Lost Aadhaar ID: a cancelled Aadhaar change in `ModifyVoter` drops the
  voter's Aadhaar ID from `checkAadhar`. That voter can then be added a
  second time. Removing that voter reaches `erase(end())`.
- Orphan index entries: a cancelled repair leaves orphan entries in
  `idSet` and `checkAadhar`. An orphan candidate ID lets a ballot through
  that counts nothing. An orphan Aadhaar ID makes `CastVote` read an
  uninitialised `bool`.
- Missing ledger entries: `AddCandidate` and a candidate repair create no
  ledger entry. A repaired candidate with loaded votes therefore goes back
  to 1 on its next vote, unless `ShowResult` ran first.
- Off by one: the choice guard of `FillMissingVoterInfo` accepts one past
  the end of the list.
- Dropped records: a completed candidate repair drops invalid records that
  already pass every check.
- CSV round trip: a written candidate line does not load back as the same
  record if a field holds a comma.

The model keeps these behaviours of the code as written:

- The region code has no length bound.
- Removal leaves the symbol in the index.
- A cancelled repair can leave index entries behind.
- The ledger is not always in agreement with the candidates' counts.

## Model

| member | source | states |
|---|---|---|
| `Validators.ValidateCandidateID` | election.cpp:88-113 | accepted iff the ID is not in idSet, has 3 to 5 characters, a digit and a letter; "already exists" iff the ID is in idSet (checked first); format reason iff fresh and malformed; the third test's reason is never returned (dead branch) |
| `Validators.ValidateCandidateName` | election.cpp:122-145 | accepted iff 2 to 20 characters, all letters; length reason iff the length is out of range, otherwise character reason |
| `Validators.ValidatePartySymbol` | election.cpp:155-184 | accepted iff the symbol is not in symbolSet and would pass as a candidate name; "already exists" iff it is in symbolSet |
| `Validators.ValidateRegionCode` | election.cpp:193-209 | accepted iff the code holds a digit and a letter; there is no length bound |
| `Validators.IsValidNumber` | election.cpp:219-246 | true iff the string is non-empty, all digits and its value fits an `int` |
| `Validators.Convert2Int` | election.cpp:256-269 | result is never negative; on the strings the loader passes it (a valid number or "0", election.cpp:310) it is their decimal value |
| `Validators.Int32Of` | election.cpp:1426-1427 | narrowing the 64-bit ledger value to `SetVotes`' `int`: equal to the value when it fits, congruent modulo 2^32 always |
| `Validators.IsValidAadhar` | election.cpp:393-406 | true iff exactly 12 digits with a first digit other than '0' |
| `Validators.IsValidStatus` | election.cpp:408-420 | true iff the status is "0" or "1" |
| `Validators.ValidatorExamples` | election.cpp:88-209 | "C1a", "Alice", "Red", "R1a" are accepted; "CC" is a format error; a second "C1a" is "already exists"; "012345678901" is not an Aadhaar ID and "123456789012" is |
| `Records.Candidate.constructor` | candidate.cpp:11-14 | stores ID, name, symbol, region and votes unchanged; votes default to 0 |
| `Records.Candidate.SetCandidateID` | candidate.cpp:23 | changes the ID only |
| `Records.Candidate.SetCandidateName` | candidate.cpp:24 | changes the name only |
| `Records.Candidate.SetPartySymbol` | candidate.cpp:25 | changes the symbol only |
| `Records.Candidate.SetRegion` | candidate.cpp:26 | changes the region only |
| `Records.Candidate.SetVotes` | candidate.cpp:27 | changes the vote count only |
| `Records.Voter.constructor` | voter.cpp:11-12 | stores the Aadhaar ID and the status; the status defaults to not voted |
| `Records.Voter.SetAadharID` | voter.cpp:16 | changes the Aadhaar ID only |
| `Records.Voter.SetVotingStatus` | voter.cpp:18 | changes the voting status only |
| `Prompts.Prompt` | election.cpp:541-555 | an answered value passes the field's check and consumes input; going back consumes at least a value and a key |
| `Prompts.PromptOutcome` | election.cpp:541-555 | an answered value is the last token read and passes the check; going back ends on the key 'n'; what is left is a suffix of the input |
| `Prompts.PromptRetries` | election.cpp:551-553 | only 'n' goes back: a rejected value followed by any other key asks again |
| `Prompts.PromptFirstTry` | election.cpp:544-547 | a value the check accepts at once is taken with no further prompt |
| `Prompts.Insist` | election.cpp:1220-1234 | the status loop of ModifyVoter answers only with a valid status and has no way back |
| `Prompts.InsistOutcome` | election.cpp:1220-1234 | its answer passes the check and what is left is a suffix of the input |
| `Prompts.Ask` | election.cpp:541-555 | the prompt loop computes exactly `Prompt` |
| `Prompts.AskUntil` | election.cpp:1220-1234 | the status loop computes exactly `Insist` |
| `RegistryModel.FindCandidate` | election.cpp:871-874 | the first position holding the ID; none iff no admitted candidate has it |
| `RegistryModel.FindVoter` | election.cpp:1304-1306 | the first position holding the Aadhaar ID; none iff no admitted voter has it |
| `RegistryModel.LastStatus` | election.cpp:1411-1416 | defined iff some voter has the Aadhaar ID |
| `RegistryModel.LastStatusIsLast` | election.cpp:1411-1416 | the status read is that of the last voter with the Aadhaar ID (the loop has no break) |
| `Csv.Split` | election.cpp:296-300 | a line splits into at least one field, none holding a comma |
| `Csv.SplitJoin` | election.cpp:1711-1715 | splitting a joined line gives back its comma-free fields |
| `Csv.JoinSplit` | election.cpp:296-300 | joining the fields of a line gives back the line |
| `Csv.DecimalString` | election.cpp:1714 | a written count is a non-empty run of digits whose value is the count |
| `Csv.CandidateRoundTrip` | election.cpp:1711-1715 | a written candidate line with comma-free fields and a non-negative count loads back as the same record |
| `Csv.CommaBreaksRoundTrip` | election.cpp:296-300 | the ID "a1," is accepted, and its written line loads back with the ID "a1" |
| `Csv.VoterRoundTrip` | election.cpp:1692-1693 | a written voter line loads back with its Aadhaar ID and a status giving the same flag |
| `Csv.LoadCandidateLineKeepsConsistent` | election.cpp:303-325 | loading one candidate line keeps the registry consistent |
| `Csv.LoadVoterLineKeepsConsistent` | election.cpp:356-379 | loading one voter line keeps the registry consistent |
| `Csv.LoadCandidatesKeepsConsistent` | election.cpp:290-326 | loading a candidate file keeps the registry consistent |
| `Csv.LoadVotersKeepsConsistent` | election.cpp:350-385 | loading a voter file keeps the registry consistent |
| `Csv.LoadedRegistryConsistent` | election.h:32-38 | whatever the two files hold, the loaded registry has exact indices, unique keys and an agreeing ledger |
| `Csv.CandidateFile` | election.cpp:1709-1716 | one written line per admitted candidate |
| `Csv.VoterFile` | election.cpp:1691-1694 | one written line per admitted voter |
| `Csv.CandidateFileReloads` | election.cpp:1702-1719 | loading a written file of writable candidates with unique, unindexed IDs and symbols admits exactly those candidates, in order: their IDs and symbols join idSet and symbolSet, each gets a ledger entry holding its count, other entries stay, and nothing else changes (nothing is parked) |
| `Csv.ParsedLinesLoad` | election.cpp:290-326 | lines that parse as fresh admissible candidates are all admitted in order, with their index and ledger entries, and nothing else changes |
| `Csv.VoterFileReloads` | election.cpp:1684-1698 | loading a written file of voters with valid, unique, unindexed Aadhaar IDs appends exactly those voters, in order, adds their IDs to checkAadhar, and changes nothing else |
| `Csv.RegistryReloads` | election.cpp:1684-1719 | writing a consistent registry whose candidates are writable and whose Aadhaar IDs are valid, then loading both files into an empty registry, gives the same candidate and voter lists, the same idSet, symbolSet and checkAadhar, and a ledger that reads the same for every ID; the invalid lists come back empty |
| `Tally.Synced` | election.cpp:1506-1508 | after the update loop the ledger's keys are its old keys plus every admitted ID |
| `Tally.SyncedAgrees` | election.cpp:1506-1508 | with unique IDs the updated ledger holds each candidate's count and keeps every other entry |
| `Tally.ShowResultRestoresLedger` | election.cpp:1506-1508 | on a registry that keeps the weaker invariant, the update puts the ledger back in agreement with every candidate |
| `Tally.Insert` | election.cpp:1513-1515 | inserting into a non-increasing ranking keeps it non-increasing and adds exactly the entry |
| `Tally.SortDescending` | election.cpp:1513-1515 | the ranking is non-increasing and a permutation of the entries |
| `Workflows.Slot` | election.cpp:688-719 | a repaired field passes its check; a field that already passed is kept without a prompt |
| `Workflows.AskSlot` | election.cpp:688-719 | the repair of one field computes exactly `Slot` |
| `Workflows.Defective` | election.cpp:645-660 | the records offered for repair are exactly the invalid records that fail a validator |
| `Election.ElectionSystem.constructor` | election.h:26-38 | a new system has empty lists, indices and ledger |
| `Election.ElectionSystem.FindCandidateIndex` | election.cpp:871-874 | the search loop computes exactly `FindCandidate` |
| `Election.ElectionSystem.FindVoterIndex` | election.cpp:1304-1306 | the search loop computes exactly `FindVoter` |
| `Election.ElectionSystem.PushValidCandidate` | election.cpp:317 | appends a copy of the record to the valid list and changes nothing else |
| `Election.ElectionSystem.PushInvalidCandidate` | election.cpp:324 | appends a copy of the record to the invalid list and changes nothing else |
| `Election.ElectionSystem.PushValidVoter` | election.cpp:369 | appends a copy of the voter to the valid list and changes nothing else |
| `Election.ElectionSystem.LoadCandidateRow` | election.cpp:303-325 | a line with an empty ID is skipped; a line passing ID, name, symbol and region checks is admitted, indexed and given its ledger entry; any other line is parked with indices and ledger unchanged |
| `Election.ElectionSystem.CandidateCsvCheck` | election.cpp:276-330 | loads every line in order; returns true iff the valid list is non-empty; a file that cannot be opened changes nothing and returns false |
| `Election.ElectionSystem.LoadVoterRow` | election.cpp:356-379 | a line is admitted iff its Aadhaar ID is valid and new and its status is "0" or "1"; otherwise a non-empty Aadhaar ID is parked with its status |
| `Election.ElectionSystem.VoterCsvCheck` | election.cpp:337-389 | loads every line in order; returns true iff the valid voter list is non-empty |
| `Election.ElectionSystem.EraseValidCandidate` | election.cpp:879 | removes the candidate at the position and nothing else |
| `Election.ElectionSystem.EraseValidVoter` | election.cpp:1311 | removes the voter at the position and nothing else |
| `Election.ElectionSystem.EnrolCandidate` | election.cpp:626-629 | indexes ID and symbol and appends the candidate, with no ledger entry |
| `Election.ElectionSystem.AddCandidate` | election.cpp:536-634 | computes exactly `Workflows.AddCandidate` |
| `Election.ElectionSystem.AddVoter` | election.cpp:1074-1134 | computes exactly `Workflows.AddVoter` |
| `Election.ElectionSystem.DropCandidate` | election.cpp:879-881 | removes the candidate, its ledger entry and its ID; the symbol stays |
| `Election.ElectionSystem.RemoveCandidate` | election.cpp:847-896 | computes exactly `Workflows.RemoveCandidate` |
| `Election.ElectionSystem.DropVoter` | election.cpp:1308-1311 | removes the Aadhaar ID from checkAadhar and the voter from the list |
| `Election.ElectionSystem.RemoveVoter` | election.cpp:1262-1317 | computes exactly `Workflows.RemoveVoter` |
| `Election.ElectionSystem.RenameCandidateAt` | election.cpp:975-981 | changes the name of the candidate at the position and nothing else |
| `Election.ElectionSystem.ResymbolCandidateAt` | election.cpp:1009-1015 | changes the symbol of the candidate at the position and adds the new symbol to symbolSet |
| `Election.ElectionSystem.RelocateCandidateAt` | election.cpp:1044-1048 | changes the region of the candidate at the position and nothing else |
| `Election.ElectionSystem.ModifyCandidate` | election.cpp:903-1066 | computes exactly `Workflows.ModifyCandidate` |
| `Election.ElectionSystem.EditField` | election.cpp:948-1047 | computes exactly `Workflows.EditCandidate` |
| `Election.ElectionSystem.SetAadharAt` | election.cpp:1188 | changes the Aadhaar ID of the voter at the position and nothing else |
| `Election.ElectionSystem.SetStatusAt` | election.cpp:1237 | changes the status of the voter at the position and nothing else |
| `Election.ElectionSystem.ModifyVoter` | election.cpp:1140-1256 | computes exactly `Workflows.ModifyVoter` |
| `Election.ElectionSystem.ReplaceAadharAt` | election.cpp:1162-1216 | computes exactly `Workflows.ReplaceAadhar` |
| `Election.ElectionSystem.LastVotingStatus` | election.cpp:1411-1416 | the status loop computes exactly `LastStatus` |
| `Election.ElectionSystem.SetVotesAt` | election.cpp:1427 | changes the count of the candidate at the position and nothing else |
| `Election.ElectionSystem.CastVote` | election.cpp:1323-1446 | computes exactly `Workflows.CastVote` |
| `Election.ElectionSystem.CastBallot` | election.cpp:1411-1444 | computes exactly `Workflows.Ballot` |
| `Election.ElectionSystem.CountVote` | election.cpp:1423-1438 | computes exactly `Workflows.Counted` |
| `Election.ElectionSystem.SetLedger` | election.cpp:1426 | changes the ledger entry only |
| `Election.ElectionSystem.MarkBallot` | election.cpp:1427-1433 | sets the candidate's count and marks the voter, nothing else |
| `Election.ElectionSystem.IndividualResult` | election.cpp:1452-1497 | computes exactly `Workflows.IndividualResult` |
| `Election.ElectionSystem.ShowResult` | election.cpp:1503-1523 | the ledger becomes `Synced`; the ranking is non-increasing and lists exactly the ledger's entries |
| `Election.ElectionSystem.RankLedger` | election.cpp:1511-1516 | the ranking is non-increasing and lists exactly the ledger's entries, each once |
| `Election.ElectionSystem.SyncLedger` | election.cpp:1506-1508 | the update loop computes exactly `Synced` |
| `Election.ElectionSystem.LedgerEntries` | election.cpp:1511 | lists exactly the ledger's entries, each once |
| `Election.ElectionSystem.DefectiveCandidates` | election.cpp:645-660 | fresh copies of exactly the offered records, in order |
| `Election.ElectionSystem.DefectiveRecords` | election.cpp:645-660 | the scan loop computes exactly `Defective` |
| `Election.ElectionSystem.CopyCandidates` | election.cpp:658 | fresh objects holding exactly the given records, in order |
| `Election.ElectionSystem.PromoteRepaired` | election.cpp:820-825 | appends the repaired record, replaces the invalid list by the offered records without the chosen one, and indexes ID and symbol |
| `Election.ElectionSystem.RepairCandidateAt` | election.cpp:680-719 | computes exactly `Workflows.RepairCandidate` |
| `Election.ElectionSystem.RepairNameAndSymbolAt` | election.cpp:722-788 | computes exactly `Workflows.RepairNameAndSymbol` |
| `Election.ElectionSystem.IndexId` | election.cpp:703 | adds the ID to idSet and changes nothing else |
| `Election.ElectionSystem.IndexSymbol` | election.cpp:771 | adds the symbol to symbolSet and changes nothing else |
| `Election.ElectionSystem.RepairRegionAt` | election.cpp:790-825 | computes exactly `Workflows.RepairRegion` |
| `Election.ElectionSystem.FillMissingCandidateInfo` | election.cpp:642-841 | computes exactly `Workflows.FillMissingCandidateInfo` |
| `Election.ElectionSystem.PromoteVoter` | election.cpp:1656-1659 | appends the repaired voter and removes the chosen invalid record |
| `Election.ElectionSystem.RepairVoterAt` | election.cpp:1548-1663 | computes exactly `Workflows.RepairVoter` |
| `Election.ElectionSystem.FillMissingVoterInfo` | election.cpp:1529-1681 | computes exactly `Workflows.FillMissingVoterInfo` |
| `Election.ElectionSystem.CheckCast` | election.cpp:1760-1764 | true iff there is at least one valid voter and one valid candidate |
| `Election.ElectionSystem.CheckCandidate` | election.cpp:1769-1772 | true iff there is at least one valid candidate |
| `Election.ElectionSystem.WriteCandidateDataToCSV` | election.cpp:1702-1719 | the lines are exactly `CandidateFile` of the valid list |
| `Election.ElectionSystem.WriteVoterDataToCSV` | election.cpp:1684-1698 | the lines are exactly `VoterFile` of the valid list |
| `Election.ElectionSystem.WriteResultDataToCSV` | election.cpp:1721-1740 | the rows are non-increasing and list exactly the ledger's entries |
| `AdmissionFacts.AddCandidateKeepsConsistent` | election.cpp:626-629 | AddCandidate keeps a consistent registry consistent |
| `AdmissionFacts.AdmitKeepsConsistent` | election.cpp:626-629 | admitting a fresh ID and symbol with no votes and no ledger entry keeps the registry consistent |
| `AdmissionFacts.AddCandidateOutcome` | election.cpp:553-629 | success appends one candidate with a fresh ID and symbol and 0 votes, indexes both and adds no ledger entry; going back changes nothing but may park one partial record with a fresh ID and blank region; running out of input changes nothing |
| `AdmissionFacts.AddVoterKeepsConsistent` | election.cpp:1100-1131 | AddVoter keeps a consistent registry consistent |
| `AdmissionFacts.AddVoterOutcome` | election.cpp:1100-1131 | success appends one voter with a valid, fresh Aadhaar ID who has not voted and indexes it; any other outcome changes nothing |
| `MaintenanceFacts.RemoveCandidateLeavesSymbol` | election.cpp:879-881 | removal erases the candidate, its ID from idSet and its ledger entry; symbolSet is unchanged, so the indices are no longer exact |
| `MaintenanceFacts.RemoveCandidateKeepsCovered` | election.cpp:847-896 | RemoveCandidate keeps the weaker invariant; any outcome but success changes nothing |
| `MaintenanceFacts.ModifyCandidateOutcome` | election.cpp:968-1050 | at most one field of at most one candidate changes; only symbolSet may grow; nothing else changes, and nothing at all unless it returns true |
| `MaintenanceFacts.ModifyCandidateKeepsCovered` | election.cpp:903-1066 | ModifyCandidate keeps the weaker invariant |
| `MaintenanceFacts.ModifySymbolKeepsOldSymbol` | election.cpp:1011-1012 | a symbol change adds the new symbol and keeps the old one, which no candidate holds |
| `MaintenanceFacts.LostAadharOnCancel` | election.cpp:1164-1213 | going back from a new Aadhaar ID leaves the voter listed while its Aadhaar ID is gone from checkAadhar |
| `MaintenanceFacts.ChooseVoterOutcome` | election.cpp:1153-1254 | the voter loop touches only the voter side and never reaches undefined behaviour on a consistent registry; a reported change rewrites one field of one voter (a valid Aadhaar ID no other voter holds, swapped in checkAadhar, or the voting status) and keeps the registry consistent; any other outcome leaves the voter list as it was |
| `MaintenanceFacts.ModifyVoterOutcome` | election.cpp:1140-1256 | ModifyVoter touches only the voter side and has no undefined behaviour on a consistent registry; a reported change rewrites one field of one voter and keeps the registry consistent; any other outcome leaves the voter list as it was |
| `MaintenanceFacts.RemoveVoterRemovesBoth` | election.cpp:1303-1316 | a listed voter leaves both the list and checkAadhar; an unlisted one leaves everything unchanged |
| `MaintenanceFacts.RemoveVoterKeepsConsistent` | election.cpp:1262-1317 | RemoveVoter keeps a consistent registry consistent and has no undefined behaviour on it |
| `MaintenanceFacts.RemoveAfterLostAadharIsUndefined` | election.cpp:1308-1310 | after a cancelled Aadhaar change, removing that voter erases a missing key |
| `RepairFacts.RepairCandidateOutcome` | election.cpp:680-825 | a completed repair promotes a record that passes every check, keeps its votes, keeps indices exact and keys unique, and keeps the ledger in agreement iff the record had no votes; otherwise both candidate lists are unchanged and the indices only grow |
| `RepairFacts.Promote` | election.cpp:820-825 | promotion keeps indices exact and keys unique whatever was inserted beforehand; the ledger agrees iff the record has no votes |
| `RepairFacts.FillMissingCandidateOutcome` | election.cpp:642-841 | on a consistent registry: the outcomes above, and the new invalid list holds only records that were invalid and failed a check |
| `RepairFacts.RepairOfferedOutcome` | election.cpp:680-825 | the repair of an offered record has the outcomes of `FillMissingCandidateOutcome` |
| `RepairFacts.RepairDropsPassingRecords` | election.cpp:823 | a completed repair drops every invalid record that already passed all checks |
| `RepairFacts.CancelledRepairLeavesOrphanId` | election.cpp:703 | an accepted replacement ID stays in idSet when the name is given up, with no candidate holding it |
| `RepairFacts.VoterChoicePastEnd` | election.cpp:1546-1549 | choosing one past the number of invalid voters is accepted and indexes past the end |
| `RepairFacts.FillMissingVoterOutcome` | election.cpp:1529-1681 | a completed repair admits one voter with a valid, fresh Aadhaar ID, removes exactly the chosen invalid record (the invalid list becomes `RemoveAt` of it at that position), keeps that record's Aadhaar ID when it was already valid and fresh and its status when it was already 0 or 1 (flag set iff "1"), and keeps the registry consistent; otherwise both voter lists are unchanged; only checkAadhar may grow |
| `RepairFacts.CancelledVoterRepairLeavesOrphan` | election.cpp:1556 | an Aadhaar ID indexed before the status is given up stays in checkAadhar with no voter holding it |
| `VotingFacts.BallotCountsOne` | election.cpp:1421-1438 | a ballot by a voter who has not voted, for an admitted candidate, adds exactly one to its ledger entry, copies the new entry into its count, marks the voter and changes nothing else |
| `VotingFacts.CastVoteOutcome` | election.cpp:1323-1446 | for the candidate ID and Aadhaar ID entered: going back changes nothing; an Aadhaar ID with no voter is undefined behaviour; an already-voted voter, or an ID with no candidate, returns true and changes nothing; otherwise that candidate's ledger entry goes up by one and becomes its count, the first voter with that Aadhaar ID is marked (one who had not voted, while Aadhaar IDs are unique), and nothing else changes |
| `VotingFacts.UniqueLastStatus` | election.cpp:1411-1416 | with unique Aadhaar IDs the status read is the voter's own |
| `VotingFacts.SecondBallotIsNoOp` | election.cpp:1411-1444 | with unique Aadhaar IDs, the same voter's next ballot changes nothing |
| `VotingFacts.LastStatusIgnoresEarlier` | election.cpp:1411-1416 | marking an earlier voter does not change what the last voter with the Aadhaar ID reports |
| `VotingFacts.DuplicateVoterVotesTwice` | election.cpp:1411-1433 | with two voters sharing an Aadhaar ID, the same ID can vote twice and the candidate gains two votes |
| `VotingFacts.LostAadharReadmitted` | election.cpp:1164-1166 | the Aadhaar ID lost by a cancelled change can be added again, leaving two voters with the same ID |
| `VotingFacts.CastVoteKeepsConsistent` | election.cpp:1323-1446 | CastVote keeps a consistent registry consistent and never reads the uninitialised status, while every count is below the int maximum |
| `VotingFacts.BallotKeepsConsistent` | election.cpp:1411-1444 | the ballot keeps a consistent registry consistent while every count is below the int maximum |
| `VotingFacts.CountedKeepsConsistent` | election.cpp:1421-1433 | the vote itself keeps a consistent registry consistent while the count is below the int maximum |
| `VotingFacts.OrphanIdBallotChangesNothing` | election.cpp:1423-1438 | an ID indexed with no candidate passes the check and the ballot changes nothing |
| `VotingFacts.OrphanAadharIsUndefined` | election.cpp:1411-1418 | an Aadhaar ID indexed with no voter makes the ballot read an uninitialised status |
| `VotingFacts.MissingEntryResetsCount` | election.cpp:1426-1427 | a candidate with no ledger entry gets the count 1 from its next vote, whatever it held |
| `VotingFacts.IndividualResultShowsVotes` | election.cpp:1452-1496 | on a consistent registry a count is shown iff a candidate ID was entered, and it is the count of the admitted candidate with that ID; the entry it may create keeps the registry consistent and nothing else changes |

## Left out

- Admin authentication (`AdminCsvCheck`, `CalculateCheckSum`, `GetAdminAuthenicate`, election.cpp:12-78, 506-529): a credential gate unrelated to the registry invariants.
- The menu loop of main.cpp: console dispatch only. Its gates `checkCast` and `checkCandidate` are modelled.
- Console input (`GetChoice`, `GetValidString`, `GetValidChar` and the inline `std::cin` reads): replaced by a finite sequence of typed tokens. An answer the source discards as unreadable changes no state, so it corresponds to leaving that token out. A token of the wrong kind is treated like end of input. Whitespace splitting by `std::cin >>` is not modelled.
- End of input: the source calls `exit(0)` or, in the input helpers, loops forever. The model ends the call with `EndOfInput` and what was changed so far stays changed.
- File streams (opening, reading and writing the four CSV files, the destructor's flush): the files are given and returned as sequences of lines. Only the line split and the line formats are modelled.
- Printed messages and `errorMessage`: replaced by the `Reason` of a rejection; menu listings and success messages are not modelled.
- `Validators.Convert2Int`: `std::stoi`'s whitespace and sign handling and its parsing of a digit prefix ("12abc" gives 12) are not modelled; the model gives 0 for any string that is not a valid number. `Stoi` accepts exactly non-empty digit strings whose value fits an `int`, which is all that `IsValidNumber` lets through, and the loader only passes such a string or "0" (election.cpp:310).
- Character classes are ASCII, as in the C locale.
- `std::sort` leaves ties in an unspecified order; `Tally.SortDescending` fixes one order, and the contracts of `Election.ElectionSystem.ShowResult` mention only the order of counts and the entries.
- Ledger values are `int64_t`: the model keeps them as unbounded integers, so a 64-bit overflow of `votesSet[id]++` is not modelled. The narrowing into `SetVotes`' 32-bit `int` is modelled by `Validators.Int32Of`.
- `VotingFacts.CastVoteKeepsConsistent`: assumes every count is below the `int` maximum, because the narrowing wraps a count of 2^31 around to a negative value.
- `VotingFacts.BallotKeepsConsistent`: assumes every count is below the `int` maximum, for the same reason.
- `VotingFacts.CountedKeepsConsistent`: assumes the voted-for count is below the `int` maximum, for the same reason.
- Candidate and voter getters are modelled as functions that read one field. They carry no contract, since their bodies are the whole statement.
