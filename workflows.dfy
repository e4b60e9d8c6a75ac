/**
 * The operator workflows of ElectionSystem (election.cpp:536-1681) as
 * functions from a registry and the operator's answers to the registry
 * after the call, what the call returned and the answers left over. The
 * class in election.dfy implements each of them with the source's loops
 * and is proved to compute exactly these results.
 */
module Workflows {
  import opened Wrappers
  import opened Validators
  import opened Records
  import opened Prompts
  import opened RegistryModel
  import opened Csv

  /**
   * How a call ends: it returns a bool; or the input runs out, where the
   * source calls exit(0); or it reaches behaviour C++ leaves undefined
   * (erasing `end()`, indexing past a vector, reading an uninitialised
   * bool), where the model stops.
   */
  datatype Status = Returned(result: bool) | EndOfInput | Undefined

  datatype Step = Step(registry: Registry, status: Status, rest: seq<Token>)

  /** The session ends on exhausted input; what was changed so far stays changed. */
  function Halt(r: Registry): Step { Step(r, EndOfInput, []) }

  // ---------------------------------------------------------------------------
  // The checks the prompts apply

  function IdCheck(idSet: set<string>): string -> bool { id => ValidateCandidateID(id, idSet) == Accepted }

  predicate NameOk(name: string) { ValidateCandidateName(name) == Accepted }

  function SymbolCheck(symbolSet: set<string>): string -> bool { s => ValidatePartySymbol(s, symbolSet) == Accepted }

  predicate RegionOk(code: string) { ValidateRegionCode(code) == Accepted }

  /** A valid Aadhaar ID not yet indexed. */
  function FreshAadhar(checkAadhar: set<string>): string -> bool { a => IsValidAadhar(a) && a !in checkAadhar }

  /** An ID some admitted candidate has. */
  function Listed(cs: seq<CandidateRecord>): string -> bool { id => FindCandidate(cs, id).Some? }

  function Member(keys: set<string>): string -> bool { k => k in keys }

  function Between(lo: int, hi: int): int -> bool { c => lo <= c <= hi }

  /**
   * One field of a repair: a value that passes its check is kept without a
   * prompt; any other value is asked for again.
   */
  function Slot(current: string, check: string -> bool, input: seq<Token>): (p: Prompted<string>)
    ensures p.Answered? ==> check(p.value) && |p.rest| <= |input|
    ensures p.Answered? && !check(current) ==> |p.rest| < |input|
  {
    if check(current) then Answered(current, input) else Prompt(input, AsLine, check)
  }

  /**
   * The shape of every field of a repair (for instance election.cpp:691-719):
   * an empty `if` branch when the current value passes, the prompt loop
   * otherwise.
   */
  method AskSlot(current: string, check: string -> bool, input: seq<Token>) returns (p: Prompted<string>)
    ensures p == Slot(current, check, input)
  {
    if check(current) {
      p := Answered(current, input);
    } else {
      p := Ask(input, AsLine, check);
    }
  }

  // ---------------------------------------------------------------------------
  // Admission

  /** Appends a record the operator gave up on. */
  function Park(r: Registry, c: CandidateRecord): Registry
  {
    r.(invalidCandidates := r.invalidCandidates + [c])
  }

  /** AddCandidate (election.cpp:536-634). */
  function AddCandidate(r: Registry, input: seq<Token>): Step
  {
    match Prompt(input, AsLine, IdCheck(r.idSet))
    case Exhausted => Halt(r)
    case Declined(rest0) => Step(r, Returned(false), rest0)
    case Answered(id, rest0) =>
      match Prompt(rest0, AsLine, NameOk)
      case Exhausted => Halt(r)
      case Declined(rest1) => Step(Park(r, CandidateRecord(id, "", "", "", 0)), Returned(false), rest1)
      case Answered(name, rest1) =>
        match Prompt(rest1, AsLine, SymbolCheck(r.symbolSet))
        case Exhausted => Halt(r)
        case Declined(rest2) => Step(Park(r, CandidateRecord(id, name, "", "", 0)), Returned(false), rest2)
        case Answered(symbol, rest2) =>
          match Prompt(rest2, AsLine, RegionOk)
          case Exhausted => Halt(r)
          case Declined(rest3) => Step(Park(r, CandidateRecord(id, name, symbol, "", 0)), Returned(false), rest3)
          case Answered(region, rest3) =>
            var r' := r.(validCandidates := r.validCandidates + [CandidateRecord(id, name, symbol, region, 0)],
                         idSet := r.idSet + {id},
                         symbolSet := r.symbolSet + {symbol});
            Step(r', Returned(true), rest3)
  }

  /** AddVoter (election.cpp:1074-1134). */
  function AddVoter(r: Registry, input: seq<Token>): Step
  {
    match Prompt(input, AsLine, FreshAadhar(r.checkAadhar))
    case Exhausted => Halt(r)
    case Declined(rest) => Step(r, Returned(false), rest)
    case Answered(aadhar, rest) =>
      Step(r.(checkAadhar := r.checkAadhar + {aadhar}, validVoters := r.validVoters + [VoterRecord(aadhar, false)]),
           Returned(true), rest)
  }

  // ---------------------------------------------------------------------------
  // Registry maintenance

  /** RemoveCandidate (election.cpp:847-897): the symbol stays in symbolSet. */
  function RemoveCandidate(r: Registry, input: seq<Token>): Step
  {
    if r.validCandidates == [] then Step(r, Returned(false), input)
    else
      match Prompt(input, AsLine, Listed(r.validCandidates))
      case Exhausted => Halt(r)
      case Declined(rest) => Step(r, Returned(false), rest)
      case Answered(id, rest) =>
        var k := FindCandidate(r.validCandidates, id).value;
        Step(r.(validCandidates := RemoveAt(r.validCandidates, k),
                votesSet := r.votesSet - {id},
                idSet := r.idSet - {id}),
             Returned(true), rest)
  }

  /** ModifyCandidate (election.cpp:903-1066). */
  function ModifyCandidate(r: Registry, input: seq<Token>): Step
  {
    var cs := r.validCandidates;
    if cs == [] then Step(r, Returned(false), input)
    else
      match Prompt(input, AsLine, Listed(cs))
      case Exhausted => Halt(r)
      case Declined(rest0) => Step(r, Returned(false), rest0)
      case Answered(id, rest0) =>
        var k := FindCandidate(cs, id).value;
        match Prompt(rest0, AsChoice, Between(1, 3))
        case Exhausted => Halt(r)
        case Declined(rest1) => Step(r, Returned(false), rest1)
        case Answered(choice, rest1) => EditCandidate(r, k, choice, rest1)
  }

  /** The field entry of ModifyCandidate once a field number 1 to 3 is chosen (election.cpp:948-1047). */
  function EditCandidate(r: Registry, k: nat, choice: int, input: seq<Token>): Step
    requires k < |r.validCandidates|
  {
    var cs := r.validCandidates;
    if choice == 1 then
      match Prompt(input, AsLine, NameOk)
      case Exhausted => Halt(r)
      case Declined(rest) => Step(r, Returned(false), rest)
      case Answered(name, rest) =>
        Step(r.(validCandidates := cs[k := cs[k].(name := name)]), Returned(true), rest)
    else if choice == 2 then
      match Prompt(input, AsLine, SymbolCheck(r.symbolSet))
      case Exhausted => Halt(r)
      case Declined(rest) => Step(r, Returned(false), rest)
      case Answered(symbol, rest) =>
        Step(r.(validCandidates := cs[k := cs[k].(symbol := symbol)], symbolSet := r.symbolSet + {symbol}),
             Returned(true), rest)
    else
      match Prompt(input, AsLine, RegionOk)
      case Exhausted => Halt(r)
      case Declined(rest) => Step(r, Returned(false), rest)
      case Answered(region, rest) =>
        Step(r.(validCandidates := cs[k := cs[k].(region := region)]), Returned(true), rest)
  }

  /** ModifyVoter (election.cpp:1140-1256). */
  function ModifyVoter(r: Registry, input: seq<Token>): Step
  {
    if r.validVoters == [] then Step(r, Returned(false), input) else ChooseVoter(r, input)
  }

  /**
   * The loop of ModifyVoter: pick a voter by position, then a field; a field
   * number other than 1 or 2 goes back to picking a voter.
   */
  function ChooseVoter(r: Registry, input: seq<Token>): Step
    decreases |input|
  {
    match Prompt(input, AsChoice, Between(1, |r.validVoters|))
    case Exhausted => Halt(r)
    case Declined(rest0) => Step(r, Returned(false), rest0)
    case Answered(choice, rest0) =>
      var k := choice - 1;
      if rest0 == [] || !rest0[0].Choice? then Halt(r)
      else if rest0[0].number == 1 then ReplaceAadhar(r, k, rest0[1..])
      else if rest0[0].number == 2 then
        match Insist(rest0[1..], AsLine, IsValidStatus)
        case Answered(status, rest1) =>
          var vs := r.validVoters;
          Step(r.(validVoters := vs[k := vs[k].(voted := status == "1")]), Returned(true), rest1)
        case _ => Halt(r)
      else ChooseVoter(r, rest0[1..])
  }

  /**
   * Field 1 of ModifyVoter (election.cpp:1161-1212): the old Aadhaar ID
   * leaves checkAadhar before the prompt and does not come back on 'n'.
   */
  function ReplaceAadhar(r: Registry, k: nat, input: seq<Token>): Step
    requires k < |r.validVoters|
  {
    var vs := r.validVoters;
    var former := vs[k].aadhar;
    if former !in r.checkAadhar then Step(r, Undefined, input)
    else
      var r1 := r.(checkAadhar := r.checkAadhar - {former});
      match Prompt(input, AsLine, FreshAadhar(r1.checkAadhar))
      case Exhausted => Halt(r1)
      case Declined(rest) => Step(r1, Returned(false), rest)
      case Answered(aadhar, rest) =>
        Step(r1.(checkAadhar := r1.checkAadhar + {aadhar}, validVoters := vs[k := vs[k].(aadhar := aadhar)]),
             Returned(true), rest)
  }

  /** RemoveVoter (election.cpp:1262-1317). */
  function RemoveVoter(r: Registry, input: seq<Token>): Step
  {
    if r.validVoters == [] then Step(r, Returned(false), input)
    else
      match Prompt(input, AsLine, IsValidAadhar)
      case Exhausted => Halt(r)
      case Declined(rest) => Step(r, Returned(false), rest)
      case Answered(aadhar, rest) =>
        match FindVoter(r.validVoters, aadhar)
        case None => Step(r, Returned(true), rest)
        case Some(k) =>
          if aadhar !in r.checkAadhar then Step(r, Undefined, rest)
          else Step(r.(checkAadhar := r.checkAadhar - {aadhar}, validVoters := RemoveAt(r.validVoters, k)),
                    Returned(true), rest)
  }

  // ---------------------------------------------------------------------------
  // Voting and results

  /** CastVote (election.cpp:1323-1446). */
  function CastVote(r: Registry, input: seq<Token>): Step
  {
    match Prompt(input, AsLine, Member(r.idSet))
    case Exhausted => Halt(r)
    case Declined(rest0) => Step(r, Returned(false), rest0)
    case Answered(cid, rest0) =>
      match Prompt(rest0, AsLine, Member(r.checkAadhar))
      case Exhausted => Halt(r)
      case Declined(rest1) => Step(r, Returned(false), rest1)
      case Answered(aid, rest1) => Ballot(r, cid, aid, rest1)
  }

  /**
   * The vote itself (election.cpp:1411-1444), once both IDs are indexed:
   * the last voter with the Aadhaar ID decides whether the voter has voted;
   * the first candidate with the ID gets the vote and the first voter with
   * the Aadhaar ID is marked.
   */
  function Ballot(r: Registry, cid: string, aid: string, rest: seq<Token>): Step
  {
    match LastStatus(r.validVoters, aid)
    case None => Step(r, Undefined, rest)
    case Some(voted) =>
      if voted then Step(r, Returned(true), rest)
      else
        match FindCandidate(r.validCandidates, cid)
        case None => Step(r, Returned(true), rest)
        case Some(k) => Step(Counted(r, k, cid, aid), Returned(true), rest)
  }

  /**
   * The vote itself (election.cpp:1421-1431): the ledger entry goes up by
   * one, the candidate at `k` takes it as its count, and the first voter
   * with the Aadhaar ID is marked as having voted.
   */
  function Counted(r: Registry, k: nat, cid: string, aid: string): Registry
    requires k < |r.validCandidates| && FindVoter(r.validVoters, aid).Some?
  {
    var cs := r.validCandidates;
    var vs := r.validVoters;
    var j := FindVoter(vs, aid).value;
    var n := Ledger(r.votesSet, cid) + 1;
    r.(votesSet := r.votesSet[cid := n],
       validCandidates := cs[k := cs[k].(votes := Int32Of(n))],
       validVoters := vs[j := vs[j].(voted := true)])
  }

  /**
   * IndividualResult (election.cpp:1452-1497): the count shown is the
   * ledger entry, which `votesSet[id]` creates with 0 when it is missing.
   */
  function IndividualResult(r: Registry, input: seq<Token>): (Step, Option<int>)
  {
    match Prompt(input, AsLine, Member(r.idSet))
    case Exhausted => (Halt(r), None)
    case Declined(rest) => (Step(r, Returned(false), rest), None)
    case Answered(cid, rest) =>
      (Step(r.(votesSet := r.votesSet[cid := Ledger(r.votesSet, cid)]), Returned(true), rest),
       Some(Ledger(r.votesSet, cid)))
  }

  // ---------------------------------------------------------------------------
  // Repairs

  /** The records FillMissingCandidateInfo offers (election.cpp:645-660). */
  function Defective(cs: seq<CandidateRecord>, idSet: set<string>, symbolSet: set<string>): (d: seq<CandidateRecord>)
    ensures forall c :: c in d <==> c in cs && !Admissible(c, idSet, symbolSet)
    decreases |cs|
  {
    if cs == [] then []
    else
      var tail := Defective(cs[1..], idSet, symbolSet);
      assert forall c :: c in cs <==> c == cs[0] || c in cs[1..];
      if Admissible(cs[0], idSet, symbolSet) then tail else [cs[0]] + tail
  }

  /** Unfolds Defective one record from position `i` onward. */
  lemma DefectiveFrom(cs: seq<CandidateRecord>, i: nat, idSet: set<string>, symbolSet: set<string>)
    requires i < |cs|
    ensures Defective(cs[i..], idSet, symbolSet)
         == (if Admissible(cs[i], idSet, symbolSet) then [] else [cs[i]]) + Defective(cs[i + 1..], idSet, symbolSet)
  {
    assert cs[i..][1..] == cs[i + 1..];
  }

  /** FillMissingCandidateInfo (election.cpp:642-841). */
  function FillMissingCandidateInfo(r: Registry, input: seq<Token>): Step
  {
    var temp := Defective(r.invalidCandidates, r.idSet, r.symbolSet);
    if temp == [] then Step(r, Returned(false), input)
    else
      match Prompt(input, AsChoice, Between(1, |temp|))
      case Exhausted => Halt(r)
      case Declined(rest) => Step(r, Returned(false), rest)
      case Answered(choice, rest) => RepairCandidate(r, temp, choice - 1, rest)
  }

  /**
   * The repair of one chosen record: ID, name, symbol and region in turn. A
   * replacement ID or symbol enters its index as soon as it is accepted
   * (election.cpp:703, 771); the promoted record keeps its vote count and
   * the invalid list becomes the offered records without the chosen one.
   */
  function RepairCandidate(r: Registry, temp: seq<CandidateRecord>, k: nat, input: seq<Token>): Step
    requires k < |temp|
  {
    var m := temp[k];
    match Slot(m.id, IdCheck(r.idSet), input)
    case Exhausted => Halt(r)
    case Declined(rest) => Step(r, Returned(false), rest)
    case Answered(mid, rest) =>
      RepairNameAndSymbol(r.(idSet := if IdCheck(r.idSet)(m.id) then r.idSet else r.idSet + {mid}), temp, k, mid, rest)
  }

  /** The name and symbol fields of a repair (election.cpp:722-788). */
  function RepairNameAndSymbol(r: Registry, temp: seq<CandidateRecord>, k: nat, mid: string, input: seq<Token>): Step
    requires k < |temp|
  {
    var m := temp[k];
    match Slot(m.name, NameOk, input)
    case Exhausted => Halt(r)
    case Declined(rest0) => Step(r, Returned(false), rest0)
    case Answered(mname, rest0) =>
      match Slot(m.symbol, SymbolCheck(r.symbolSet), rest0)
      case Exhausted => Halt(r)
      case Declined(rest1) => Step(r, Returned(false), rest1)
      case Answered(msymbol, rest1) =>
        var r' := r.(symbolSet := if SymbolCheck(r.symbolSet)(m.symbol) then r.symbolSet else r.symbolSet + {msymbol});
        RepairRegion(r', temp, k, mid, mname, msymbol, rest1)
  }

  /** The region field of a repair and the promotion (election.cpp:790-825). */
  function RepairRegion(r: Registry, temp: seq<CandidateRecord>, k: nat, mid: string, mname: string, msymbol: string,
                        input: seq<Token>): Step
    requires k < |temp|
  {
    var m := temp[k];
    match Slot(m.region, RegionOk, input)
    case Exhausted => Halt(r)
    case Declined(rest) => Step(r, Returned(false), rest)
    case Answered(mregion, rest) =>
      Step(r.(validCandidates := r.validCandidates + [CandidateRecord(mid, mname, msymbol, mregion, m.votes)],
              invalidCandidates := RemoveAt(temp, k),
              idSet := r.idSet + {mid},
              symbolSet := r.symbolSet + {msymbol}),
           Returned(true), rest)
  }

  /**
   * FillMissingVoterInfo (election.cpp:1529-1681). The choice is checked
   * against one more than the number of records, so the last accepted
   * number indexes past the end of invalidVoterList.
   */
  function FillMissingVoterInfo(r: Registry, input: seq<Token>): Step
  {
    if r.invalidVoters == [] then Step(r, Returned(true), input)
    else
      var count := |r.invalidVoters| + 1;
      match Prompt(input, AsChoice, Between(1, count))
      case Exhausted => Halt(r)
      case Declined(rest) => Step(r, Returned(false), rest)
      case Answered(choice, rest) =>
        if choice - 1 < |r.invalidVoters| then RepairVoter(r, choice - 1, rest)
        else Step(r, Undefined, rest)
  }

  /**
   * The repair of one invalid voter: the Aadhaar ID enters checkAadhar as
   * soon as it is settled (election.cpp:1556, 1579), before the status is.
   */
  function RepairVoter(r: Registry, k: nat, input: seq<Token>): Step
    requires k < |r.invalidVoters|
  {
    var entry := r.invalidVoters[k];
    match Slot(entry.0, FreshAadhar(r.checkAadhar), input)
    case Exhausted => Halt(r)
    case Declined(rest0) => Step(r, Returned(false), rest0)
    case Answered(aadhar, rest0) =>
      var r1 := r.(checkAadhar := r.checkAadhar + {aadhar});
      match Slot(entry.1, IsValidStatus, rest0)
      case Exhausted => Halt(r1)
      case Declined(rest1) => Step(r1, Returned(false), rest1)
      case Answered(status, rest1) =>
        Step(r1.(validVoters := r1.validVoters + [VoterRecord(aadhar, status == "1")],
                 invalidVoters := RemoveAt(r1.invalidVoters, k)),
             Returned(true), rest1)
  }
}
