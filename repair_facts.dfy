/**
 * What the two repair workflows guarantee, and where they break the
 * registry invariants: index entries inserted before a later field is
 * given up, promoted counts with no ledger entry, records dropped from the
 * invalid list, and a voter choice one past the end of the list.
 */
module RepairFacts {
  import opened Validators
  import opened Records
  import opened Prompts
  import opened RegistryModel
  import opened Csv
  import opened Workflows

  // ---------------------------------------------------------------------------
  // FillMissingCandidateInfo

  /**
   * The outcomes of one candidate repair on a consistent registry. The
   * voter side and the ledger never change and the indices only grow. A
   * completed repair promotes a record that passes every validator against
   * the indices as they stood, keeps the indices exact and the keys unique,
   * and keeps the ledger in agreement exactly when the record had no votes;
   * the invalid list becomes the offered records without the chosen one.
   */
  lemma RepairCandidateOutcome(r: Registry, temp: seq<CandidateRecord>, k: nat, input: seq<Token>)
    requires Consistent(r) && k < |temp|
    ensures var s := RepairCandidate(r, temp, k, input);
      var r' := s.registry;
      && s.status != Undefined
      && r'.validVoters == r.validVoters && r'.invalidVoters == r.invalidVoters
      && r'.checkAadhar == r.checkAadhar && r'.votesSet == r.votesSet
      && r.idSet <= r'.idSet && r.symbolSet <= r'.symbolSet
      && (s.status == Returned(true) ==>
            && |r'.validCandidates| == |r.validCandidates| + 1
            && r'.validCandidates[..|r.validCandidates|] == r.validCandidates
            && var c := r'.validCandidates[|r.validCandidates|];
            && Admissible(c, r.idSet, r.symbolSet)
            && c.votes == temp[k].votes
            && r'.invalidCandidates == RemoveAt(temp, k)
            && Indexed(r') && UniqueIds(r'.validCandidates) && UniqueSymbols(r'.validCandidates)
            && (LedgerAgrees(r') <==> c.votes == 0))
      && (s.status != Returned(true) ==>
            r'.validCandidates == r.validCandidates && r'.invalidCandidates == r.invalidCandidates)
  {
    var m := temp[k];
    var p0 := Slot(m.id, IdCheck(r.idSet), input);
    if p0.Answered? {
      var r1 := r.(idSet := if IdCheck(r.idSet)(m.id) then r.idSet else r.idSet + {p0.value});
      var p1 := Slot(m.name, NameOk, p0.rest);
      if p1.Answered? {
        var p2 := Slot(m.symbol, SymbolCheck(r1.symbolSet), p1.rest);
        if p2.Answered? {
          var r2 := r1.(symbolSet := if SymbolCheck(r1.symbolSet)(m.symbol) then r1.symbolSet else r1.symbolSet + {p2.value});
          var p3 := Slot(m.region, RegionOk, p2.rest);
          if p3.Answered? {
            var c := CandidateRecord(p0.value, p1.value, p2.value, p3.value, m.votes);
            assert Admissible(c, r.idSet, r.symbolSet);
            var r' := r2.(validCandidates := r2.validCandidates + [c], invalidCandidates := RemoveAt(temp, k),
                          idSet := r2.idSet + {c.id}, symbolSet := r2.symbolSet + {c.symbol});
            assert RepairCandidate(r, temp, k, input) == Step(r', Returned(true), p3.rest);
            Promote(r, c, r2.idSet, r2.symbolSet);
            assert r'.validCandidates[..|r.validCandidates|] == r.validCandidates;
          }
        }
      }
    }
  }

  /**
   * Promoting an admissible record keeps the indices exact and the keys
   * unique, whatever index entries for it were inserted beforehand; the
   * ledger, which gets no entry, agrees exactly when the record has no votes.
   */
  lemma Promote(r: Registry, c: CandidateRecord, idSet: set<string>, symbolSet: set<string>)
    requires Consistent(r) && Admissible(c, r.idSet, r.symbolSet)
    requires r.idSet <= idSet <= r.idSet + {c.id} && r.symbolSet <= symbolSet <= r.symbolSet + {c.symbol}
    ensures var r' := r.(validCandidates := r.validCandidates + [c], idSet := idSet + {c.id}, symbolSet := symbolSet + {c.symbol});
      && Indexed(r') && UniqueIds(r'.validCandidates) && UniqueSymbols(r'.validCandidates)
      && (LedgerAgrees(r') <==> c.votes == 0)
  {
    var r' := r.(validCandidates := r.validCandidates + [c], idSet := idSet + {c.id}, symbolSet := symbolSet + {c.symbol});
    KeysAppendCandidate(r.validCandidates, c);
    assert c in r'.validCandidates && Ledger(r'.votesSet, c.id) == 0;
    forall d | d in r.validCandidates
      ensures Ledger(r'.votesSet, d.id) == d.votes as int
    {
    }
  }

  /** The outcomes FillMissingCandidateOutcome states, for a given step from registry `r`. */
  ghost predicate FillOutcome(r: Registry, s: Step)
  {
    var r' := s.registry;
    && s.status != Undefined
    && r'.validVoters == r.validVoters && r'.votesSet == r.votesSet
    && r.idSet <= r'.idSet && r.symbolSet <= r'.symbolSet
    && (s.status == Returned(true) ==>
          && |r'.validCandidates| == |r.validCandidates| + 1
          && r'.validCandidates[..|r.validCandidates|] == r.validCandidates
          && Admissible(r'.validCandidates[|r.validCandidates|], r.idSet, r.symbolSet)
          && Indexed(r')
          && (LedgerAgrees(r') <==> r'.validCandidates[|r.validCandidates|].votes == 0)
          && forall c :: c in r'.invalidCandidates ==> c in r.invalidCandidates && !Admissible(c, r.idSet, r.symbolSet))
    && (s.status != Returned(true) ==>
          r'.validCandidates == r.validCandidates && r'.invalidCandidates == r.invalidCandidates)
  }

  /** FillMissingCandidateInfo on a consistent registry: the outcomes of the repair it runs, if any. */
  lemma FillMissingCandidateOutcome(r: Registry, input: seq<Token>)
    requires Consistent(r)
    ensures FillOutcome(r, FillMissingCandidateInfo(r, input))
  {
    var temp := Defective(r.invalidCandidates, r.idSet, r.symbolSet);
    if temp == [] {
      assert FillMissingCandidateInfo(r, input) == Step(r, Returned(false), input);
    } else {
      match Prompt(input, AsChoice, Between(1, |temp|))
      case Exhausted =>
        assert FillMissingCandidateInfo(r, input) == Halt(r);
      case Declined(rest) =>
        assert FillMissingCandidateInfo(r, input) == Step(r, Returned(false), rest);
      case Answered(choice, rest) =>
        assert FillMissingCandidateInfo(r, input) == RepairCandidate(r, temp, choice - 1, rest);
        RepairOfferedOutcome(r, temp, choice - 1, rest);
    }
  }

  /** A repair of one of the records FillMissingCandidateInfo offers has the outcomes FillOutcome states. */
  lemma RepairOfferedOutcome(r: Registry, temp: seq<CandidateRecord>, k: nat, input: seq<Token>)
    requires Consistent(r) && k < |temp| && temp == Defective(r.invalidCandidates, r.idSet, r.symbolSet)
    ensures FillOutcome(r, RepairCandidate(r, temp, k, input))
  {
    RepairCandidateOutcome(r, temp, k, input);
    var s := RepairCandidate(r, temp, k, input);
    if s.status == Returned(true) {
      forall c | c in s.registry.invalidCandidates
        ensures c in temp
      {
        KeysRemoveCandidateMembers(temp, k, c);
      }
    }
  }

  lemma KeysRemoveCandidateMembers(cs: seq<CandidateRecord>, k: nat, c: CandidateRecord)
    requires k < |cs| && c in RemoveAt(cs, k)
    ensures c in cs
  {
    KeysRemoveCandidate(cs, k);
  }

  /**
   * A completed repair empties the invalid list of every record that passed
   * all checks when the repair started, though nothing admitted them.
   */
  lemma RepairDropsPassingRecords(r: Registry, input: seq<Token>)
    requires Consistent(r)
    ensures var s := FillMissingCandidateInfo(r, input);
      s.status == Returned(true) ==>
        forall c :: c in r.invalidCandidates && Admissible(c, r.idSet, r.symbolSet) ==> c !in s.registry.invalidCandidates
  {
    FillMissingCandidateOutcome(r, input);
  }

  /**
   * A replacement ID enters idSet as soon as it is accepted; giving up on
   * the name afterwards leaves it there with no candidate behind it.
   */
  lemma CancelledRepairLeavesOrphanId()
    ensures var r := Empty.(invalidCandidates := [CandidateRecord("", "", "", "", 0)]);
      var s := FillMissingCandidateInfo(r, [Choice(1), Line("C1a"), Line("x"), Key('n')]);
      && s.status == Returned(false)
      && "C1a" in s.registry.idSet
      && s.registry.validCandidates == []
      && !Indexed(s.registry)
  {
    var m := CandidateRecord("", "", "", "", 0);
    var r := Empty.(invalidCandidates := [m]);
    assert !Admissible(m, {}, {});
    assert Defective(r.invalidCandidates, {}, {}) == [m];
    var input := [Choice(1), Line("C1a"), Line("x"), Key('n')];
    assert Prompt(input, AsChoice, Between(1, 1)) == Answered(1, input[1..]);
    assert IsDigit("C1a"[1]) && IsAlpha("C1a"[0]);
    assert Slot("", IdCheck({}), input[1..]) == Answered("C1a", input[2..]);
    assert Slot("", NameOk, input[2..]) == Declined([]);
  }

  // ---------------------------------------------------------------------------
  // FillMissingVoterInfo

  /** The guard admits the number one past the end of invalidVoterList, which indexes outside it. */
  lemma VoterChoicePastEnd(r: Registry, more: seq<Token>)
    requires r.invalidVoters != []
    ensures FillMissingVoterInfo(r, [Choice(|r.invalidVoters| + 1)] + more) == Step(r, Undefined, more)
  {
    PromptFirstTry(Choice(|r.invalidVoters| + 1), more, AsChoice, Between(1, |r.invalidVoters| + 1));
  }

  /**
   * The outcomes of FillMissingVoterInfo on a consistent registry. The
   * candidate side never changes and checkAadhar only grows. A completed
   * repair admits one voter with a valid, fresh Aadhaar ID, drops exactly
   * the chosen record, keeps whichever of its Aadhaar ID and status already
   * passed, and keeps the registry consistent; otherwise both voter lists
   * stay as they were.
   */
  lemma FillMissingVoterOutcome(r: Registry, input: seq<Token>)
    requires Consistent(r)
    ensures var s := FillMissingVoterInfo(r, input);
      var r' := s.registry;
      && r'.(validVoters := r.validVoters, invalidVoters := r.invalidVoters, checkAadhar := r.checkAadhar) == r
      && r.checkAadhar <= r'.checkAadhar
      && (s.status == Returned(true) && r.invalidVoters != [] ==>
            && |r'.validVoters| == |r.validVoters| + 1
            && r'.validVoters[..|r.validVoters|] == r.validVoters
            && IsValidAadhar(r'.validVoters[|r.validVoters|].aadhar)
            && r'.validVoters[|r.validVoters|].aadhar !in r.checkAadhar
            && |r'.invalidVoters| == |r.invalidVoters| - 1
            && (exists k: nat :: k < |r.invalidVoters| && r'.invalidVoters == RemoveAt(r.invalidVoters, k)
                  && var (aadhar, status) := r.invalidVoters[k];
                  && (IsValidAadhar(aadhar) && aadhar !in r.checkAadhar ==>
                        r'.validVoters[|r.validVoters|].aadhar == aadhar)
                  && (IsValidStatus(status) ==> r'.validVoters[|r.validVoters|].voted == (status == "1")))
            && Consistent(r'))
      && (s.status != Returned(true) || r.invalidVoters == [] ==>
            r'.validVoters == r.validVoters && r'.invalidVoters == r.invalidVoters)
  {
    var s := FillMissingVoterInfo(r, input);
    if s.status == Returned(true) && r.invalidVoters != [] {
      var r' := s.registry;
      var vs := r.validVoters;
      var v := r'.validVoters[|vs|];
      assert r'.validVoters == vs + [v];
      assert r'.validVoters[..|vs|] == vs;
      KeysAppendVoter(vs, v);
      var k: nat := Prompt(input, AsChoice, Between(1, |r.invalidVoters| + 1)).value - 1;
      assert r'.invalidVoters == RemoveAt(r.invalidVoters, k);
    }
  }

  /**
   * An Aadhaar ID enters checkAadhar before the status is settled; giving
   * up on the status leaves it there with no voter behind it.
   */
  lemma CancelledVoterRepairLeavesOrphan()
    ensures var r := Empty.(invalidVoters := [("123456789012", "x")]);
      var s := FillMissingVoterInfo(r, [Choice(1), Line("7"), Key('n')]);
      && s.status == Returned(false)
      && "123456789012" in s.registry.checkAadhar
      && s.registry.validVoters == []
      && !Indexed(s.registry)
  {
    var r := Empty.(invalidVoters := [("123456789012", "x")]);
    var input := [Choice(1), Line("7"), Key('n')];
    assert Prompt(input, AsChoice, Between(1, 2)) == Answered(1, input[1..]);
    assert IsValidAadhar("123456789012");
    assert Slot("123456789012", FreshAadhar({}), input[1..]) == Answered("123456789012", input[1..]);
    assert Slot("x", IsValidStatus, input[1..]) == Declined([]);
  }
}
