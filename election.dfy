/**
 * The ElectionSystem class (election.h:20-274, election.cpp). Its fields
 * are those of election.h:26-38; the candidate and voter lists hold
 * Candidate and Voter objects, never one object twice, as the source's
 * vectors hold copies. Every operation is proved to leave the registry
 * value `State()` exactly as the corresponding function of the Workflows,
 * Csv or Tally module says.
 */
module Election {
  import opened Wrappers
  import opened Validators
  import opened Records
  import opened Prompts
  import opened RegistryModel
  import opened Csv
  import opened Workflows
  import opened Tally

  class ElectionSystem {
    var validCandidateList: seq<Candidate>
    var invalidCandidateList: seq<Candidate>
    var validVoterList: seq<Voter>
    var invalidVoterList: seq<(string, string)>
    var idSet: set<string>
    var symbolSet: set<string>
    var checkAadhar: set<string>
    var votesSet: map<string, int>

    /** No object is shared between two list positions. */
    ghost predicate Valid()
      reads this
    {
      && Distinct(validCandidateList)
      && Distinct(invalidCandidateList)
      && (forall i, j :: 0 <= i < |validCandidateList| && 0 <= j < |invalidCandidateList| ==>
            validCandidateList[i] != invalidCandidateList[j])
      && Distinct(validVoterList)
    }

    /** The registry this object holds. */
    ghost function State(): Registry
      reads this, validCandidateList, invalidCandidateList, validVoterList
    {
      Registry(CandidateRecords(validCandidateList), CandidateRecords(invalidCandidateList),
               VoterRecords(validVoterList), invalidVoterList, idSet, symbolSet, checkAadhar, votesSet)
    }

    constructor ()
      ensures Valid() && State() == Empty
    {
      validCandidateList, invalidCandidateList, validVoterList, invalidVoterList := [], [], [], [];
      idSet, symbolSet, checkAadhar, votesSet := {}, {}, {}, map[];
    }

    // -------------------------------------------------------------------------
    // Searches

    /** `std::find_if` over validCandidateList by ID (election.cpp:869-873, 925-926). */
    method FindCandidateIndex(id: string) returns (k: Option<nat>)
      ensures k == FindCandidate(CandidateRecords(validCandidateList), id)
    {
      ghost var cs := CandidateRecords(validCandidateList);
      var i := 0;
      while i < |validCandidateList|
        invariant 0 <= i <= |validCandidateList|
        invariant forall j :: 0 <= j < i ==> cs[j].id != id
      {
        if validCandidateList[i].GetCandidateID() == id {
          FindCandidateAt(cs, id, i);
          return Some(i);
        }
        i := i + 1;
      }
      FindCandidateAbsent(cs, id);
      return None;
    }

    // -------------------------------------------------------------------------
    // Loading

    /** `validCandidateList.push_back(candidate)`: a fresh copy of `c` goes at the end. */
    method PushValidCandidate(c: CandidateRecord)
      requires Valid()
      modifies this
      ensures Valid()
      ensures State() == old(State()).(validCandidates := old(State()).validCandidates + [c])
    {
      var candidate := new Candidate(c.id, c.name, c.symbol, c.region, c.votes);
      CandidateRecordsAppend(validCandidateList, candidate);
      validCandidateList := validCandidateList + [candidate];
    }

    /** `invalidCandidateList.push_back(candidate)`: a fresh copy of `c` goes at the end. */
    method PushInvalidCandidate(c: CandidateRecord)
      requires Valid()
      modifies this
      ensures Valid()
      ensures State() == old(State()).(invalidCandidates := old(State()).invalidCandidates + [c])
    {
      var candidate := new Candidate(c.id, c.name, c.symbol, c.region, c.votes);
      CandidateRecordsAppend(invalidCandidateList, candidate);
      invalidCandidateList := invalidCandidateList + [candidate];
    }

    /** `validVoterList.push_back(v)`: a fresh copy of `v` goes at the end. */
    method PushValidVoter(v: VoterRecord)
      requires Valid()
      modifies this
      ensures Valid()
      ensures State() == old(State()).(validVoters := old(State()).validVoters + [v])
    {
      var voter := new Voter(v.aadhar, v.voted);
      VoterRecordsAppend(validVoterList, voter);
      validVoterList := validVoterList + [voter];
    }

    /** One line of CandidateCsvCheck (election.cpp:290-326). */
    method LoadCandidateRow(line: string)
      requires Valid()
      modifies this
      ensures Valid()
      ensures State() == LoadCandidateLine(old(State()), line)
    {
      var c := ParseCandidate(line);
      if c.id == "" {
        return;
      }
      if Admissible(c, idSet, symbolSet) {
        PushValidCandidate(c);
        idSet := idSet + {c.id};
        symbolSet := symbolSet + {c.symbol};
        votesSet := votesSet[c.id := c.votes as int];
      } else {
        PushInvalidCandidate(c);
      }
    }

    /**
     * CandidateCsvCheck (election.cpp:276-330); `lines` is None when the
     * file cannot be opened.
     */
    method CandidateCsvCheck(lines: Option<seq<string>>) returns (ok: bool)
      requires Valid()
      modifies this
      ensures Valid()
      ensures lines.None? ==> State() == old(State()) && !ok
      ensures lines.Some? ==> State() == LoadCandidates(old(State()), lines.value) && (ok <==> State().validCandidates != [])
    {
      if lines.None? {
        return false;
      }
      var input := lines.value;
      var i := 0;
      while i < |input|
        invariant 0 <= i <= |input|
        invariant Valid()
        invariant LoadCandidates(State(), input[i..]) == LoadCandidates(old(State()), input)
      {
        assert input[i..][0] == input[i] && input[i..][1..] == input[i + 1..];
        LoadCandidateRow(input[i]);
        i := i + 1;
      }
      assert input[i..] == [];
      ok := |validCandidateList| >= 1;
    }

    /** One line of VoterCsvCheck (election.cpp:350-385). */
    method LoadVoterRow(line: string)
      requires Valid()
      modifies this
      ensures Valid()
      ensures State() == LoadVoterLine(old(State()), line)
    {
      var aadhar, status := Field(line, 0), Field(line, 1);
      if IsValidAadhar(aadhar) && aadhar !in checkAadhar && IsValidStatus(status) {
        checkAadhar := checkAadhar + {aadhar};
        PushValidVoter(VoterRecord(aadhar, status == "1"));
      } else if aadhar != "" {
        invalidVoterList := invalidVoterList + [(aadhar, status)];
      }
    }

    /**
     * VoterCsvCheck (election.cpp:337-389); `lines` is None when the file
     * cannot be opened.
     */
    method VoterCsvCheck(lines: Option<seq<string>>) returns (ok: bool)
      requires Valid()
      modifies this
      ensures Valid()
      ensures lines.None? ==> State() == old(State()) && !ok
      ensures lines.Some? ==> State() == LoadVoters(old(State()), lines.value) && (ok <==> State().validVoters != [])
    {
      if lines.None? {
        return false;
      }
      var input := lines.value;
      var i := 0;
      while i < |input|
        invariant 0 <= i <= |input|
        invariant Valid()
        invariant LoadVoters(State(), input[i..]) == LoadVoters(old(State()), input)
      {
        assert input[i..][0] == input[i] && input[i..][1..] == input[i + 1..];
        LoadVoterRow(input[i]);
        i := i + 1;
      }
      assert input[i..] == [];
      ok := |validVoterList| >= 1;
    }

    /** `std::find_if` over validVoterList by Aadhaar ID (election.cpp:1304-1306). */
    method FindVoterIndex(aadhar: string) returns (k: Option<nat>)
      ensures k == FindVoter(VoterRecords(validVoterList), aadhar)
    {
      ghost var vs := VoterRecords(validVoterList);
      var i := 0;
      while i < |validVoterList|
        invariant 0 <= i <= |validVoterList|
        invariant forall j :: 0 <= j < i ==> vs[j].aadhar != aadhar
      {
        if validVoterList[i].GetAadharID() == aadhar {
          FindVoterAt(vs, aadhar, i);
          return Some(i);
        }
        i := i + 1;
      }
      FindVoterAbsent(vs, aadhar);
      return None;
    }

    /** `validCandidateList.erase(it)` at position `k`. */
    method EraseValidCandidate(k: nat)
      requires Valid() && k < |validCandidateList|
      modifies this
      ensures Valid()
      ensures State() == old(State()).(validCandidates := RemoveAt(old(State()).validCandidates, k))
    {
      ghost var before := CandidateRecords(validCandidateList);
      validCandidateList := validCandidateList[..k] + validCandidateList[k + 1..];
      assert CandidateRecords(validCandidateList) == RemoveAt(before, k);
    }

    /** `validVoterList.erase(it)` at position `k`. */
    method EraseValidVoter(k: nat)
      requires Valid() && k < |validVoterList|
      modifies this
      ensures Valid()
      ensures State() == old(State()).(validVoters := RemoveAt(old(State()).validVoters, k))
    {
      ghost var before := VoterRecords(validVoterList);
      validVoterList := validVoterList[..k] + validVoterList[k + 1..];
      assert VoterRecords(validVoterList) == RemoveAt(before, k);
    }

    // -------------------------------------------------------------------------
    // Admission

    /** The last step of AddCandidate (election.cpp:625-628): index the ID and symbol, then push. */
    method EnrolCandidate(c: CandidateRecord)
      requires Valid()
      modifies this
      ensures Valid()
      ensures State() == old(State()).(validCandidates := old(State()).validCandidates + [c],
        idSet := old(idSet) + {c.id}, symbolSet := old(symbolSet) + {c.symbol})
    {
      symbolSet := symbolSet + {c.symbol};
      idSet := idSet + {c.id};
      PushValidCandidate(c);
    }

    /** AddCandidate (election.cpp:536-634). */
    method AddCandidate(input: seq<Token>) returns (status: Status, rest: seq<Token>)
      requires Valid()
      modifies this
      ensures Valid()
      ensures Step(State(), status, rest) == Workflows.AddCandidate(old(State()), input)
    {
      ghost var r := State();
      var p0 := Ask(input, AsLine, IdCheck(idSet));
      if p0.Exhausted? { return EndOfInput, []; }
      if p0.Declined? { return Returned(false), p0.rest; }
      var id := p0.value;
      var p1 := Ask(p0.rest, AsLine, NameOk);
      if p1.Exhausted? {
        assert Workflows.AddCandidate(r, input) == Halt(r);
        return EndOfInput, [];
      }
      if p1.Declined? {
        assert Workflows.AddCandidate(r, input) == Step(Park(r, CandidateRecord(id, "", "", "", 0)), Returned(false), p1.rest);
        PushInvalidCandidate(CandidateRecord(id, "", "", "", 0));
        return Returned(false), p1.rest;
      }
      var name := p1.value;
      var p2 := Ask(p1.rest, AsLine, SymbolCheck(symbolSet));
      if p2.Exhausted? {
        assert Workflows.AddCandidate(r, input) == Halt(r);
        return EndOfInput, [];
      }
      if p2.Declined? {
        assert Workflows.AddCandidate(r, input) == Step(Park(r, CandidateRecord(id, name, "", "", 0)), Returned(false), p2.rest);
        PushInvalidCandidate(CandidateRecord(id, name, "", "", 0));
        return Returned(false), p2.rest;
      }
      var symbol := p2.value;
      var p3 := Ask(p2.rest, AsLine, RegionOk);
      if p3.Exhausted? {
        assert Workflows.AddCandidate(r, input) == Halt(r);
        return EndOfInput, [];
      }
      if p3.Declined? {
        assert Workflows.AddCandidate(r, input) == Step(Park(r, CandidateRecord(id, name, symbol, "", 0)), Returned(false), p3.rest);
        PushInvalidCandidate(CandidateRecord(id, name, symbol, "", 0));
        return Returned(false), p3.rest;
      }
      var c := CandidateRecord(id, name, symbol, p3.value, 0);
      assert Workflows.AddCandidate(r, input) ==
        Step(r.(validCandidates := r.validCandidates + [c], idSet := r.idSet + {id}, symbolSet := r.symbolSet + {symbol}),
             Returned(true), p3.rest);
      EnrolCandidate(c);
      return Returned(true), p3.rest;
    }

    /** AddVoter (election.cpp:1074-1134). */
    method AddVoter(input: seq<Token>) returns (status: Status, rest: seq<Token>)
      requires Valid()
      modifies this
      ensures Valid()
      ensures Step(State(), status, rest) == Workflows.AddVoter(old(State()), input)
    {
      var p := Ask(input, AsLine, FreshAadhar(checkAadhar));
      if p.Exhausted? { return EndOfInput, []; }
      if p.Declined? { return Returned(false), p.rest; }
      checkAadhar := checkAadhar + {p.value};
      PushValidVoter(VoterRecord(p.value, false));
      return Returned(true), p.rest;
    }

    // -------------------------------------------------------------------------
    // Registry maintenance

    /** The removal itself (election.cpp:878-880): the record, its ledger entry and its ID go; the symbol stays. */
    method DropCandidate(k: nat, id: string)
      requires Valid() && k < |validCandidateList|
      modifies this
      ensures Valid()
      ensures State() == old(State()).(validCandidates := RemoveAt(old(State()).validCandidates, k),
        votesSet := old(votesSet) - {id}, idSet := old(idSet) - {id})
    {
      EraseValidCandidate(k);
      votesSet := votesSet - {id};
      idSet := idSet - {id};
    }

    /** RemoveCandidate (election.cpp:847-897). */
    method RemoveCandidate(input: seq<Token>) returns (status: Status, rest: seq<Token>)
      requires Valid()
      modifies this
      ensures Valid()
      ensures Step(State(), status, rest) == Workflows.RemoveCandidate(old(State()), input)
    {
      if |validCandidateList| == 0 {
        return Returned(false), input;
      }
      var p := Ask(input, AsLine, Listed(CandidateRecords(validCandidateList)));
      if p.Exhausted? { return EndOfInput, []; }
      if p.Declined? { return Returned(false), p.rest; }
      var id := p.value;
      var k := FindCandidateIndex(id);
      DropCandidate(k.value, id);
      return Returned(true), p.rest;
    }

    /** The removal itself (election.cpp:1308-1311): the Aadhaar ID leaves checkAadhar, then the record goes. */
    method DropVoter(k: nat, aadhar: string)
      requires Valid() && k < |validVoterList|
      modifies this
      ensures Valid()
      ensures State() == old(State()).(checkAadhar := old(checkAadhar) - {aadhar},
        validVoters := RemoveAt(old(State()).validVoters, k))
    {
      checkAadhar := checkAadhar - {aadhar};
      EraseValidVoter(k);
    }

    /** RemoveVoter (election.cpp:1262-1317). */
    method RemoveVoter(input: seq<Token>) returns (status: Status, rest: seq<Token>)
      requires Valid()
      modifies this
      ensures Valid()
      ensures Step(State(), status, rest) == Workflows.RemoveVoter(old(State()), input)
    {
      if |validVoterList| == 0 {
        return Returned(false), input;
      }
      var p := Ask(input, AsLine, IsValidAadhar);
      if p.Exhausted? { return EndOfInput, []; }
      if p.Declined? { return Returned(false), p.rest; }
      var aadhar := p.value;
      var k := FindVoterIndex(aadhar);
      if k.None? {
        return Returned(true), p.rest;
      }
      if aadhar !in checkAadhar {
        // checkAadhar.erase(checkAadhar.end())
        return Undefined, p.rest;
      }
      DropVoter(k.value, aadhar);
      return Returned(true), p.rest;
    }

    /** `candidate.SetCandidateName(name)` on the object at position `k` of validCandidateList. */
    method RenameCandidateAt(k: nat, name: string)
      requires Valid() && k < |validCandidateList|
      modifies validCandidateList[k]
      ensures Valid()
      ensures State() == old(State()).(validCandidates :=
        old(State()).validCandidates[k := old(State()).validCandidates[k].(name := name)])
    {
      ghost var before := CandidateRecords(validCandidateList);
      validCandidateList[k].SetCandidateName(name);
      assert CandidateRecords(validCandidateList) == before[k := validCandidateList[k].Record()];
    }

    /** `candidate.SetPartySymbol(symbol)` and `symbolSet.insert(symbol)` (election.cpp:1011-1012). */
    method ResymbolCandidateAt(k: nat, symbol: string)
      requires Valid() && k < |validCandidateList|
      modifies this, validCandidateList[k]
      ensures Valid()
      ensures State() == old(State()).(validCandidates :=
        old(State()).validCandidates[k := old(State()).validCandidates[k].(symbol := symbol)],
        symbolSet := old(symbolSet) + {symbol})
    {
      ghost var before := CandidateRecords(validCandidateList);
      validCandidateList[k].SetPartySymbol(symbol);
      assert CandidateRecords(validCandidateList) == before[k := validCandidateList[k].Record()];
      symbolSet := symbolSet + {symbol};
    }

    /** `candidate.SetRegion(region)` on the object at position `k` of validCandidateList. */
    method RelocateCandidateAt(k: nat, region: string)
      requires Valid() && k < |validCandidateList|
      modifies validCandidateList[k]
      ensures Valid()
      ensures State() == old(State()).(validCandidates :=
        old(State()).validCandidates[k := old(State()).validCandidates[k].(region := region)])
    {
      ghost var before := CandidateRecords(validCandidateList);
      validCandidateList[k].SetRegion(region);
      assert CandidateRecords(validCandidateList) == before[k := validCandidateList[k].Record()];
    }

    /** ModifyCandidate (election.cpp:903-1066). */
    method ModifyCandidate(input: seq<Token>) returns (status: Status, rest: seq<Token>)
      requires Valid()
      modifies this, validCandidateList
      ensures Valid()
      ensures Step(State(), status, rest) == Workflows.ModifyCandidate(old(State()), input)
    {
      if |validCandidateList| == 0 {
        return Returned(false), input;
      }
      var p0 := Ask(input, AsLine, Listed(CandidateRecords(validCandidateList)));
      if p0.Exhausted? { return EndOfInput, []; }
      if p0.Declined? { return Returned(false), p0.rest; }
      var k := FindCandidateIndex(p0.value);
      var p1 := Ask(p0.rest, AsChoice, Between(1, 3));
      if p1.Exhausted? { return EndOfInput, []; }
      if p1.Declined? { return Returned(false), p1.rest; }
      status, rest := EditField(k.value, p1.value, p1.rest);
    }

    /** The `switch` of ModifyCandidate (election.cpp:948-1047); the object is found again by ID. */
    method EditField(k: nat, choice: int, input: seq<Token>) returns (status: Status, rest: seq<Token>)
      requires Valid() && k < |validCandidateList|
      modifies this, validCandidateList
      ensures Valid()
      ensures Step(State(), status, rest) == EditCandidate(old(State()), k, choice, input)
    {
      if choice == 1 {
        var p := Ask(input, AsLine, NameOk);
        if p.Exhausted? { return EndOfInput, []; }
        if p.Declined? { return Returned(false), p.rest; }
        RenameCandidateAt(k, p.value);
        return Returned(true), p.rest;
      } else if choice == 2 {
        var p := Ask(input, AsLine, SymbolCheck(symbolSet));
        if p.Exhausted? { return EndOfInput, []; }
        if p.Declined? { return Returned(false), p.rest; }
        ResymbolCandidateAt(k, p.value);
        return Returned(true), p.rest;
      } else {
        var p := Ask(input, AsLine, RegionOk);
        if p.Exhausted? { return EndOfInput, []; }
        if p.Declined? { return Returned(false), p.rest; }
        RelocateCandidateAt(k, p.value);
        return Returned(true), p.rest;
      }
    }

    /** `voter.SetAadharID(aadhar)` on the object at position `k` of validVoterList. */
    method SetAadharAt(k: nat, aadhar: string)
      requires Valid() && k < |validVoterList|
      modifies validVoterList[k]
      ensures Valid()
      ensures State() == old(State()).(validVoters :=
        old(State()).validVoters[k := old(State()).validVoters[k].(aadhar := aadhar)])
    {
      ghost var before := VoterRecords(validVoterList);
      validVoterList[k].SetAadharID(aadhar);
      assert VoterRecords(validVoterList) == before[k := validVoterList[k].Record()];
    }

    /** `voter.SetVotingStatus(voted)` on the object at position `k` of validVoterList. */
    method SetStatusAt(k: nat, voted: bool)
      requires Valid() && k < |validVoterList|
      modifies validVoterList[k]
      ensures Valid()
      ensures State() == old(State()).(validVoters :=
        old(State()).validVoters[k := old(State()).validVoters[k].(voted := voted)])
    {
      ghost var before := VoterRecords(validVoterList);
      validVoterList[k].SetVotingStatus(voted);
      assert VoterRecords(validVoterList) == before[k := validVoterList[k].Record()];
    }

    /**
     * ModifyVoter (election.cpp:1140-1256): pick a voter by number, then a
     * field; any other field number goes back to picking a voter.
     */
    method ModifyVoter(input: seq<Token>) returns (status: Status, rest: seq<Token>)
      requires Valid()
      modifies this, validVoterList
      ensures Valid()
      ensures Step(State(), status, rest) == Workflows.ModifyVoter(old(State()), input)
    {
      if |validVoterList| == 0 {
        return Returned(false), input;
      }
      ghost var r := State();
      rest := input;
      while rest != []
        invariant Valid() && State() == old(State()) && validVoterList == old(validVoterList)
        invariant ChooseVoter(State(), rest) == ChooseVoter(old(State()), input)
        decreases |rest|
      {
        var p := Ask(rest, AsChoice, Between(1, |validVoterList|));
        if p.Exhausted? {
          assert ChooseVoter(r, rest) == Halt(r);
          return EndOfInput, [];
        }
        if p.Declined? {
          assert ChooseVoter(r, rest) == Step(r, Returned(false), p.rest);
          return Returned(false), p.rest;
        }
        var k := p.value - 1;
        var tail := p.rest;
        if tail == [] || !tail[0].Choice? {
          assert ChooseVoter(r, rest) == Halt(r);
          return EndOfInput, [];
        }
        if tail[0].number == 1 {
          assert ChooseVoter(r, rest) == ReplaceAadhar(r, k, tail[1..]);
          status, rest := ReplaceAadharAt(k, tail[1..]);
          return;
        }
        if tail[0].number == 2 {
          var q := AskUntil(tail[1..], AsLine, IsValidStatus);
          if !q.Answered? {
            assert ChooseVoter(r, rest) == Halt(r);
            return EndOfInput, [];
          }
          assert ChooseVoter(r, rest) ==
            Step(r.(validVoters := r.validVoters[k := r.validVoters[k].(voted := q.value == "1")]), Returned(true), q.rest);
          SetStatusAt(k, q.value == "1");
          return Returned(true), q.rest;
        }
        assert ChooseVoter(r, rest) == ChooseVoter(r, tail[1..]);
        rest := tail[1..];
      }
      return EndOfInput, [];
    }

    /**
     * Field 1 of ModifyVoter (election.cpp:1161-1212): the current Aadhaar ID
     * is erased from checkAadhar before the new one is asked for.
     */
    method ReplaceAadharAt(k: nat, input: seq<Token>) returns (status: Status, rest: seq<Token>)
      requires Valid() && k < |validVoterList|
      modifies this, validVoterList[k]
      ensures Valid()
      ensures Step(State(), status, rest) == ReplaceAadhar(old(State()), k, input)
    {
      var former := validVoterList[k].GetAadharID();
      if former !in checkAadhar {
        // checkAadhar.erase(checkAadhar.end())
        return Undefined, input;
      }
      // checkAadhar.erase(former) comes before the prompt; it is stored once the prompt ends
      var remaining := checkAadhar - {former};
      var p := Ask(input, AsLine, FreshAadhar(remaining));
      if p.Exhausted? {
        checkAadhar := remaining;
        return EndOfInput, [];
      }
      if p.Declined? {
        checkAadhar := remaining;
        return Returned(false), p.rest;
      }
      checkAadhar := remaining + {p.value};
      SetAadharAt(k, p.value);
      return Returned(true), p.rest;
    }

    // -------------------------------------------------------------------------
    // Voting and results

    /**
     * The status loop of CastVote (election.cpp:1411-1416): no `break`, so the
     * last voter with the Aadhaar ID wins; None when there is none.
     */
    method LastVotingStatus(aadhar: string) returns (currentStatus: Option<bool>)
      ensures currentStatus == LastStatus(VoterRecords(validVoterList), aadhar)
    {
      ghost var vs := VoterRecords(validVoterList);
      currentStatus := None;
      var i := 0;
      while i < |validVoterList|
        invariant 0 <= i <= |validVoterList|
        invariant currentStatus == LastStatus(vs[..i], aadhar)
      {
        assert vs[..i + 1][..i] == vs[..i];
        if validVoterList[i].GetAadharID() == aadhar {
          currentStatus := Some(validVoterList[i].GetVotingStatus());
        }
        i := i + 1;
      }
      assert vs[..i] == vs;
    }

    /** `candidate.SetVotes(count)` on the object at position `k` of validCandidateList. */
    method SetVotesAt(k: nat, count: int32)
      requires Valid() && k < |validCandidateList|
      modifies validCandidateList[k]
      ensures Valid()
      ensures State() == old(State()).(validCandidates :=
        old(State()).validCandidates[k := old(State()).validCandidates[k].(votes := count)])
    {
      ghost var before := CandidateRecords(validCandidateList);
      validCandidateList[k].SetVotes(count);
      assert CandidateRecords(validCandidateList) == before[k := validCandidateList[k].Record()];
    }

    /** CastVote (election.cpp:1323-1446). */
    method CastVote(input: seq<Token>) returns (status: Status, rest: seq<Token>)
      requires Valid()
      modifies this, validCandidateList, validVoterList
      ensures Valid()
      ensures Step(State(), status, rest) == Workflows.CastVote(old(State()), input)
    {
      var p0 := Ask(input, AsLine, Member(idSet));
      if p0.Exhausted? { return EndOfInput, []; }
      if p0.Declined? { return Returned(false), p0.rest; }
      var p1 := Ask(p0.rest, AsLine, Member(checkAadhar));
      if p1.Exhausted? { return EndOfInput, []; }
      if p1.Declined? { return Returned(false), p1.rest; }
      status, rest := CastBallot(p0.value, p1.value, p1.rest);
    }

    /** The vote once both IDs are indexed (election.cpp:1410-1444). */
    method CastBallot(candidateID: string, aadhaarID: string, input: seq<Token>) returns (status: Status, rest: seq<Token>)
      requires Valid()
      modifies this, validCandidateList, validVoterList
      ensures Valid()
      ensures Step(State(), status, rest) == Ballot(old(State()), candidateID, aadhaarID, input)
    {
      var currentStatus := LastVotingStatus(aadhaarID);
      if currentStatus.None? {
        // reads an uninitialised bool
        return Undefined, input;
      }
      if currentStatus.value {
        return Returned(true), input;
      }
      var k := FindCandidateIndex(candidateID);
      if k.None? {
        return Returned(true), input;
      }
      CountVote(k.value, candidateID, aadhaarID);
      return Returned(true), input;
    }

    /** The increment and the marking (election.cpp:1421-1431). */
    method CountVote(k: nat, candidateID: string, aadhaarID: string)
      requires Valid() && k < |validCandidateList|
      requires FindVoter(VoterRecords(validVoterList), aadhaarID).Some?
      modifies this, validCandidateList, validVoterList
      ensures Valid()
      ensures State() == Counted(old(State()), k, candidateID, aadhaarID)
    {
      ghost var r := State();
      var j := FindVoterIndex(aadhaarID);
      var count := (if candidateID in votesSet then votesSet[candidateID] else 0) + 1;
      ghost var r1 := r.(votesSet := r.votesSet[candidateID := count]);
      ghost var r2 := r1.(validCandidates := r1.validCandidates[k := r1.validCandidates[k].(votes := Int32Of(count))],
        validVoters := r1.validVoters[j.value := r1.validVoters[j.value].(voted := true)]);
      assert r2 == Counted(r, k, candidateID, aadhaarID) by {
        assert j == FindVoter(r.validVoters, aadhaarID);
        assert count == Ledger(r.votesSet, candidateID) + 1;
      }
      SetLedger(candidateID, count);
      MarkBallot(k, Int32Of(count), j.value);
      assert State() == r2;
    }

    /** `votesSet[candidateID] = count`. */
    method SetLedger(candidateID: string, count: int)
      requires Valid()
      modifies this
      ensures Valid()
      ensures validCandidateList == old(validCandidateList) && validVoterList == old(validVoterList)
      ensures State() == old(State()).(votesSet := old(State()).votesSet[candidateID := count])
    {
      votesSet := votesSet[candidateID := count];
    }

    /** The candidate's new count and the voter's status, written into the two objects. */
    method MarkBallot(k: nat, count: int32, j: nat)
      requires Valid() && k < |validCandidateList| && j < |validVoterList|
      modifies validCandidateList[k], validVoterList[j]
      ensures Valid()
      ensures State() == old(State()).(
        validCandidates := old(State()).validCandidates[k := old(State()).validCandidates[k].(votes := count)],
        validVoters := old(State()).validVoters[j := old(State()).validVoters[j].(voted := true)])
    {
      SetVotesAt(k, count);
      SetStatusAt(j, true);
    }

    /**
     * IndividualResult (election.cpp:1452-1497); `shown` is the count
     * printed. `votesSet[candidateID]` inserts a 0 entry when there is none.
     */
    method IndividualResult(input: seq<Token>) returns (status: Status, rest: seq<Token>, shown: Option<int>)
      requires Valid()
      modifies this
      ensures Valid()
      ensures (Step(State(), status, rest), shown) == Workflows.IndividualResult(old(State()), input)
    {
      var p := Ask(input, AsLine, Member(idSet));
      if p.Exhausted? { return EndOfInput, [], None; }
      if p.Declined? { return Returned(false), p.rest, None; }
      var count := if p.value in votesSet then votesSet[p.value] else 0;
      votesSet := votesSet[p.value := count];
      return Returned(true), p.rest, Some(count);
    }

    /**
     * ShowResult (election.cpp:1503-1523): every admitted candidate's count is
     * written into the ledger, then the ledger's entries are ranked, highest
     * count first. The ranking is what the source prints; it returns true.
     */
    method ShowResult() returns (ranking: seq<Entry>)
      requires Valid()
      modifies this
      ensures Valid()
      ensures State() == old(State()).(votesSet := Synced(old(votesSet), old(State()).validCandidates))
      ensures NonIncreasing(ranking)
      ensures forall e :: e in ranking <==> e.0 in votesSet && votesSet[e.0] == e.1
      ensures |ranking| == |votesSet|
    {
      SyncLedger();
      ranking := RankLedger();
    }

    /** The ledger copied into a vector of pairs and sorted by count, highest first (election.cpp:1509-1514, 1727-1732). */
    method RankLedger() returns (ranking: seq<Entry>)
      ensures NonIncreasing(ranking)
      ensures forall e :: e in ranking <==> e.0 in votesSet && votesSet[e.0] == e.1
      ensures |ranking| == |votesSet|
    {
      var sortedVotes := LedgerEntries();
      ranking := SortDescending(sortedVotes);
      assert forall e :: e in ranking <==> e in multiset(sortedVotes);
      assert |ranking| == |multiset(ranking)| == |multiset(sortedVotes)| == |sortedVotes|;
    }

    /** The first loop of ShowResult (election.cpp:1505-1507): every admitted candidate's count is written into the ledger. */
    method SyncLedger()
      requires Valid()
      modifies this
      ensures Valid()
      ensures State() == old(State()).(votesSet := Synced(old(votesSet), old(State()).validCandidates))
    {
      ghost var cs := CandidateRecords(validCandidateList);
      var ledger := votesSet;
      for i := 0 to |validCandidateList|
        invariant ledger == Synced(votesSet, cs[..i])
      {
        assert cs[..i + 1][..i] == cs[..i];
        ledger := ledger[validCandidateList[i].GetCandidateID() := validCandidateList[i].GetNumOfVotes() as int];
      }
      assert cs[..|cs|] == cs;
      votesSet := ledger;
    }

    /** `std::vector<std::pair<...>> sortedVotes(votesSet.begin(), votesSet.end())`: one entry per key. */
    method LedgerEntries() returns (entries: seq<Entry>)
      ensures forall e :: e in entries <==> e.0 in votesSet && votesSet[e.0] == e.1
      ensures |entries| == |votesSet|
    {
      entries := [];
      var keys := votesSet.Keys;
      while keys != {}
        invariant keys <= votesSet.Keys
        invariant |entries| + |keys| == |votesSet|
        invariant forall e :: e in entries ==> e.0 in votesSet && e.0 !in keys && votesSet[e.0] == e.1
        invariant forall id :: id in votesSet && id !in keys ==> (id, votesSet[id]) in entries
        decreases |keys|
      {
        var id :| id in keys;
        entries := entries + [(id, votesSet[id])];
        keys := keys - {id};
      }
    }

    // -------------------------------------------------------------------------
    // Repairs

    /**
     * The scan of FillMissingCandidateInfo (election.cpp:645-660): copies of
     * the invalid records that fail a validator, in list order.
     */
    method DefectiveCandidates() returns (temp: seq<Candidate>)
      requires Valid()
      ensures CandidateRecords(temp) == Defective(CandidateRecords(invalidCandidateList), idSet, symbolSet)
      ensures Distinct(temp)
      ensures forall i, j :: 0 <= i < |temp| && 0 <= j < |validCandidateList| ==> temp[i] != validCandidateList[j]
    {
      var found := DefectiveRecords(CandidateRecords(invalidCandidateList), idSet, symbolSet);
      temp := CopyCandidates(found);
    }

    /** The scan of election.cpp:645-660: the records of `cs` that fail admission, in order. */
    static method DefectiveRecords(cs: seq<CandidateRecord>, ids: set<string>, symbols: set<string>) returns (found: seq<CandidateRecord>)
      ensures found == Defective(cs, ids, symbols)
    {
      found := [];
      for i := 0 to |cs|
        invariant found + Defective(cs[i..], ids, symbols) == Defective(cs, ids, symbols)
      {
        var c := cs[i];
        DefectiveFrom(cs, i, ids, symbols);
        if !Admissible(c, ids, symbols) {
          found := found + [c];
        }
      }
      assert cs[|cs|..] == [] && found + [] == found;
    }

    /** Fresh candidate objects holding the records `rs`, in order (the copies pushed into `temp`). */
    static method CopyCandidates(rs: seq<CandidateRecord>) returns (temp: seq<Candidate>)
      ensures CandidateRecords(temp) == rs
      ensures Distinct(temp) && forall i :: 0 <= i < |temp| ==> fresh(temp[i])
    {
      temp := [];
      for i := 0 to |rs|
        invariant CandidateRecords(temp) == rs[..i]
        invariant Distinct(temp) && forall j :: 0 <= j < |temp| ==> fresh(temp[j])
      {
        var c := rs[i];
        var copy := new Candidate(c.id, c.name, c.symbol, c.region, c.votes);
        DistinctAppend(temp, copy);
        CandidateRecordsAppend(temp, copy);
        assert rs[..i + 1] == rs[..i] + [c];
        temp := temp + [copy];
      }
      assert rs[..|rs|] == rs;
    }

    /**
     * The end of a candidate repair (election.cpp:819-825): the repaired
     * record is pushed, invalidCandidateList becomes `temp` without the chosen
     * record, and the ID and symbol are indexed.
     */
    method PromoteRepaired(c: CandidateRecord, temp: seq<Candidate>, k: nat)
      requires Valid() && k < |temp| && Distinct(temp)
      requires forall i, j :: 0 <= i < |temp| && 0 <= j < |validCandidateList| ==> temp[i] != validCandidateList[j]
      modifies this
      ensures Valid()
      ensures State() == old(State()).(validCandidates := old(State()).validCandidates + [c],
        invalidCandidates := RemoveAt(old(CandidateRecords(temp)), k),
        idSet := old(idSet) + {c.id}, symbolSet := old(symbolSet) + {c.symbol})
    {
      ghost var before := CandidateRecords(temp);
      var candidate := new Candidate(c.id, c.name, c.symbol, c.region, c.votes);
      CandidateRecordsAppend(validCandidateList, candidate);
      validCandidateList := validCandidateList + [candidate];
      invalidCandidateList := temp[..k] + temp[k + 1..];
      assert CandidateRecords(invalidCandidateList) == RemoveAt(before, k);
      idSet := idSet + {c.id};
      symbolSet := symbolSet + {c.symbol};
    }

    /**
     * The repair of the record the operator chose (election.cpp:680-825),
     * from its ID field; `temp` holds the copies the scan made.
     */
    method RepairCandidateAt(temp: seq<Candidate>, k: nat, input: seq<Token>) returns (status: Status, rest: seq<Token>)
      requires Valid() && k < |temp| && Distinct(temp)
      requires forall i, j :: 0 <= i < |temp| && 0 <= j < |validCandidateList| ==> temp[i] != validCandidateList[j]
      modifies this
      ensures Valid()
      ensures Step(State(), status, rest) == RepairCandidate(old(State()), CandidateRecords(temp), k, input)
    {
      var mid := temp[k].GetCandidateID();
      var p := AskSlot(mid, IdCheck(idSet), input);
      if p.Exhausted? { return EndOfInput, []; }
      if p.Declined? { return Returned(false), p.rest; }
      ghost var r1 := State().(idSet := if IdCheck(idSet)(mid) then idSet else idSet + {p.value});
      if !IdCheck(idSet)(mid) {
        IndexId(p.value);
      }
      assert State() == r1;
      status, rest := RepairNameAndSymbolAt(temp, k, p.value, p.rest);
    }

    /** The name and symbol fields of a repair (election.cpp:722-788). */
    method RepairNameAndSymbolAt(temp: seq<Candidate>, k: nat, mid: string, input: seq<Token>) returns (status: Status, rest: seq<Token>)
      requires Valid() && k < |temp| && Distinct(temp)
      requires forall i, j :: 0 <= i < |temp| && 0 <= j < |validCandidateList| ==> temp[i] != validCandidateList[j]
      modifies this
      ensures Valid()
      ensures Step(State(), status, rest) == RepairNameAndSymbol(old(State()), CandidateRecords(temp), k, mid, input)
    {
      var mname, msymbol := temp[k].GetCandidateName(), temp[k].GetPartySymbol();
      var p0 := AskSlot(mname, NameOk, input);
      if p0.Exhausted? { return EndOfInput, []; }
      if p0.Declined? { return Returned(false), p0.rest; }
      var p1 := AskSlot(msymbol, SymbolCheck(symbolSet), p0.rest);
      if p1.Exhausted? { return EndOfInput, []; }
      if p1.Declined? { return Returned(false), p1.rest; }
      ghost var r1 := State().(symbolSet := if SymbolCheck(symbolSet)(msymbol) then symbolSet else symbolSet + {p1.value});
      if !SymbolCheck(symbolSet)(msymbol) {
        IndexSymbol(p1.value);
      }
      assert State() == r1;
      status, rest := RepairRegionAt(temp, k, mid, p0.value, p1.value, p1.rest);
    }

    /** `idSet.insert(id)`. */
    method IndexId(id: string)
      requires Valid()
      modifies this
      ensures Valid()
      ensures validCandidateList == old(validCandidateList) && invalidCandidateList == old(invalidCandidateList)
      ensures validVoterList == old(validVoterList)
      ensures State() == old(State()).(idSet := old(idSet) + {id})
    {
      idSet := idSet + {id};
    }

    /** `symbolSet.insert(symbol)`. */
    method IndexSymbol(symbol: string)
      requires Valid()
      modifies this
      ensures Valid()
      ensures validCandidateList == old(validCandidateList) && invalidCandidateList == old(invalidCandidateList)
      ensures validVoterList == old(validVoterList)
      ensures State() == old(State()).(symbolSet := old(symbolSet) + {symbol})
    {
      symbolSet := symbolSet + {symbol};
    }

    /** The region field of a repair and the promotion (election.cpp:790-825). */
    method RepairRegionAt(temp: seq<Candidate>, k: nat, mid: string, mname: string, msymbol: string, input: seq<Token>)
      returns (status: Status, rest: seq<Token>)
      requires Valid() && k < |temp| && Distinct(temp)
      requires forall i, j :: 0 <= i < |temp| && 0 <= j < |validCandidateList| ==> temp[i] != validCandidateList[j]
      modifies this
      ensures Valid()
      ensures Step(State(), status, rest) == RepairRegion(old(State()), CandidateRecords(temp), k, mid, mname, msymbol, input)
    {
      var mreg, mcount := temp[k].GetRegion(), temp[k].GetNumOfVotes();
      var p := AskSlot(mreg, RegionOk, input);
      if p.Exhausted? { return EndOfInput, []; }
      if p.Declined? { return Returned(false), p.rest; }
      PromoteRepaired(CandidateRecord(mid, mname, msymbol, p.value, mcount), temp, k);
      return Returned(true), p.rest;
    }

    /** FillMissingCandidateInfo (election.cpp:642-841). */
    method FillMissingCandidateInfo(input: seq<Token>) returns (status: Status, rest: seq<Token>)
      requires Valid()
      modifies this
      ensures Valid()
      ensures Step(State(), status, rest) == Workflows.FillMissingCandidateInfo(old(State()), input)
    {
      var temp := DefectiveCandidates();
      if |temp| == 0 {
        return Returned(false), input;
      }
      var p := Ask(input, AsChoice, Between(1, |temp|));
      if p.Exhausted? { return EndOfInput, []; }
      if p.Declined? { return Returned(false), p.rest; }
      status, rest := RepairCandidateAt(temp, p.value - 1, p.rest);
    }

    /** The end of a voter repair (election.cpp:1652-1654). */
    method PromoteVoter(v: VoterRecord, k: nat)
      requires Valid() && k < |invalidVoterList|
      modifies this
      ensures Valid()
      ensures State() == old(State()).(validVoters := old(State()).validVoters + [v],
        invalidVoters := RemoveAt(old(invalidVoterList), k))
    {
      PushValidVoter(v);
      invalidVoterList := invalidVoterList[..k] + invalidVoterList[k + 1..];
    }

    /** The repair of the invalid voter the operator chose (election.cpp:1548-1657). */
    method RepairVoterAt(k: nat, input: seq<Token>) returns (status: Status, rest: seq<Token>)
      requires Valid() && k < |invalidVoterList|
      modifies this
      ensures Valid()
      ensures Step(State(), status, rest) == RepairVoter(old(State()), k, input)
    {
      var aadhar, voterStatus := invalidVoterList[k].0, invalidVoterList[k].1;
      var p0 := AskSlot(aadhar, FreshAadhar(checkAadhar), input);
      if p0.Exhausted? { return EndOfInput, []; }
      if p0.Declined? { return Returned(false), p0.rest; }
      aadhar := p0.value;
      checkAadhar := checkAadhar + {aadhar};
      var p1 := AskSlot(voterStatus, IsValidStatus, p0.rest);
      if p1.Exhausted? { return EndOfInput, []; }
      if p1.Declined? { return Returned(false), p1.rest; }
      voterStatus := p1.value;
      PromoteVoter(VoterRecord(aadhar, voterStatus == "1"), k);
      return Returned(true), p1.rest;
    }

    /** FillMissingVoterInfo (election.cpp:1529-1681). */
    method FillMissingVoterInfo(input: seq<Token>) returns (status: Status, rest: seq<Token>)
      requires Valid()
      modifies this
      ensures Valid()
      ensures Step(State(), status, rest) == Workflows.FillMissingVoterInfo(old(State()), input)
    {
      if |invalidVoterList| == 0 {
        return Returned(true), input;
      }
      var count := |invalidVoterList| + 1;
      var p := Ask(input, AsChoice, Between(1, count));
      if p.Exhausted? { return EndOfInput, []; }
      if p.Declined? { return Returned(false), p.rest; }
      if p.value - 1 >= |invalidVoterList| {
        // invalidVoterList[aadharIdChoice - 1] is past the end
        return Undefined, p.rest;
      }
      status, rest := RepairVoterAt(p.value - 1, p.rest);
    }

    // -------------------------------------------------------------------------
    // Menu gates

    /** checkCast (election.cpp:1760-1764). */
    method CheckCast() returns (ok: bool)
      ensures ok <==> |validVoterList| >= 1 && |validCandidateList| >= 1
    {
      return |validVoterList| >= 1 && |validCandidateList| >= 1;
    }

    /** checkCandidate (election.cpp:1769-1772). */
    method CheckCandidate() returns (ok: bool)
      ensures ok <==> |validCandidateList| >= 1
    {
      return |validCandidateList| >= 1;
    }

    // -------------------------------------------------------------------------
    // The files written at shutdown

    /** WriteCandidateDataToCSV (election.cpp:1702-1719): the lines of Candidate.csv. */
    method WriteCandidateDataToCSV() returns (lines: seq<string>)
      ensures lines == CandidateFile(CandidateRecords(validCandidateList))
    {
      ghost var cs := CandidateRecords(validCandidateList);
      lines := [];
      for i := 0 to |validCandidateList|
        invariant lines == CandidateFile(cs[..i])
      {
        var c := validCandidateList[i].Record();
        assert c == cs[i];
        lines := lines + [FormatCandidate(c)];
      }
      assert cs[..|cs|] == cs;
    }

    /** WriteVoterDataToCSV (election.cpp:1684-1698): the lines of Voter.csv. */
    method WriteVoterDataToCSV() returns (lines: seq<string>)
      ensures lines == VoterFile(VoterRecords(validVoterList))
    {
      ghost var vs := VoterRecords(validVoterList);
      lines := [];
      for i := 0 to |validVoterList|
        invariant lines == VoterFile(vs[..i])
      {
        var v := validVoterList[i].Record();
        assert v == vs[i];
        lines := lines + [FormatVoter(v)];
      }
      assert vs[..|vs|] == vs;
    }

    /** WriteResultDataToCSV (election.cpp:1721-1740): the ledger's entries, highest count first, as result.csv lists them. */
    method WriteResultDataToCSV() returns (ranking: seq<Entry>)
      ensures NonIncreasing(ranking)
      ensures forall e :: e in ranking <==> e.0 in votesSet && votesSet[e.0] == e.1
      ensures |ranking| == |votesSet|
    {
      ranking := RankLedger();
    }
  }

}
