/**
 * What operator admission (AddCandidate, AddVoter) guarantees about the
 * registry.
 */
module AdmissionFacts {
  import opened Validators
  import opened Records
  import opened Prompts
  import opened RegistryModel
  import opened Workflows

  /**
   * AddCandidate keeps the registry consistent: an admitted candidate has
   * a fresh ID and symbol, and its missing ledger entry reads as its 0 votes.
   */
  lemma AddCandidateKeepsConsistent(r: Registry, input: seq<Token>)
    requires Consistent(r)
    ensures Consistent(AddCandidate(r, input).registry)
  {
    var s := AddCandidate(r, input);
    AddCandidateOutcome(r, input);
    if s.status == Returned(true) {
      var c := s.registry.validCandidates[|r.validCandidates|];
      assert s.registry.validCandidates == r.validCandidates + [c];
      assert s.registry == r.(validCandidates := r.validCandidates + [c], idSet := r.idSet + {c.id}, symbolSet := r.symbolSet + {c.symbol});
      AdmitKeepsConsistent(r, c);
    } else {
      assert s.registry.(invalidCandidates := r.invalidCandidates) == r;
    }
  }

  /** Admitting a candidate with a fresh ID and symbol and no votes keeps the registry consistent. */
  lemma AdmitKeepsConsistent(r: Registry, c: CandidateRecord)
    requires Consistent(r)
    requires c.id !in r.idSet && c.symbol !in r.symbolSet && c.votes == 0
    ensures Consistent(r.(validCandidates := r.validCandidates + [c], idSet := r.idSet + {c.id}, symbolSet := r.symbolSet + {c.symbol}))
  {
    var r' := r.(validCandidates := r.validCandidates + [c], idSet := r.idSet + {c.id}, symbolSet := r.symbolSet + {c.symbol});
    KeysAppendCandidate(r.validCandidates, c);
    forall d | d in r'.validCandidates
      ensures Ledger(r'.votesSet, d.id) == d.votes as int
    {
      if d != c {
        assert d in r.validCandidates;
      }
    }
  }

  /** `after` is `before` with one partial record appended: a fresh ID, no region, no votes. */
  ghost predicate ParkedOne(before: seq<CandidateRecord>, after: seq<CandidateRecord>, idSet: set<string>)
  {
    && |after| == |before| + 1
    && after[..|before|] == before
    && after[|before|].id !in idSet && after[|before|].region == "" && after[|before|].votes == 0
  }

  /**
   * The outcomes of AddCandidate: on success exactly one candidate with a
   * fresh ID and symbol and no votes is admitted and indexed, with no ledger
   * entry; on going back the admitted side is untouched and at most one
   * partial record, with a fresh ID and no region, is parked.
   */
  lemma AddCandidateOutcome(r: Registry, input: seq<Token>)
    ensures var s := AddCandidate(r, input);
      s.status == Returned(true) ==>
        && |s.registry.validCandidates| == |r.validCandidates| + 1
        && s.registry.validCandidates[..|r.validCandidates|] == r.validCandidates
        && var c := s.registry.validCandidates[|r.validCandidates|];
        && c.id !in r.idSet && c.symbol !in r.symbolSet && c.votes == 0
        && s.registry == r.(validCandidates := s.registry.validCandidates,
                            idSet := r.idSet + {c.id}, symbolSet := r.symbolSet + {c.symbol})
    ensures var s := AddCandidate(r, input);
      s.status == Returned(false) ==>
        && s.registry.(invalidCandidates := r.invalidCandidates) == r
        && (s.registry.invalidCandidates == r.invalidCandidates
            || ParkedOne(r.invalidCandidates, s.registry.invalidCandidates, r.idSet))
    ensures AddCandidate(r, input).status == EndOfInput ==> AddCandidate(r, input).registry == r
    ensures AddCandidate(r, input).status != Undefined
  {
    var s := AddCandidate(r, input);
    if s.status == Returned(true) {
      assert s.registry.validCandidates[..|r.validCandidates|] == r.validCandidates;
    } else if s.status == Returned(false) && s.registry.invalidCandidates != r.invalidCandidates {
      assert s.registry.invalidCandidates[..|r.invalidCandidates|] == r.invalidCandidates;
    }
  }

  /** AddVoter keeps the registry consistent. */
  lemma AddVoterKeepsConsistent(r: Registry, input: seq<Token>)
    requires Consistent(r)
    ensures Consistent(AddVoter(r, input).registry)
  {
    var s := AddVoter(r, input);
    if s.status == Returned(true) {
      var v := s.registry.validVoters[|s.registry.validVoters| - 1];
      assert s.registry.validVoters == r.validVoters + [v];
      KeysAppendVoter(r.validVoters, v);
    }
  }

  /**
   * The outcomes of AddVoter: on success one voter with a valid, fresh
   * Aadhaar ID who has not voted is appended and indexed; otherwise nothing
   * changes.
   */
  lemma AddVoterOutcome(r: Registry, input: seq<Token>)
    ensures var s := AddVoter(r, input);
      s.status == Returned(true) ==>
        && |s.registry.validVoters| == |r.validVoters| + 1
        && s.registry.validVoters[..|r.validVoters|] == r.validVoters
        && var v := s.registry.validVoters[|r.validVoters|];
        && IsValidAadhar(v.aadhar) && v.aadhar !in r.checkAadhar && !v.voted
        && s.registry == r.(validVoters := s.registry.validVoters, checkAadhar := r.checkAadhar + {v.aadhar})
    ensures var s := AddVoter(r, input);
      s.status != Returned(true) ==> s.registry == r
    ensures AddVoter(r, input).status != Undefined
  {
    var s := AddVoter(r, input);
    if s.status == Returned(true) {
      assert s.registry.validVoters[..|r.validVoters|] == r.validVoters;
    }
  }
}
