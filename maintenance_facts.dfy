/**
 * What RemoveCandidate, ModifyCandidate, ModifyVoter and RemoveVoter keep
 * and break. The candidate operations keep `Covered` but leave stale
 * symbols in symbolSet; a cancelled Aadhaar change loses the voter's
 * Aadhaar ID from checkAadhar.
 */
module MaintenanceFacts {
  import opened Validators
  import opened Records
  import opened Prompts
  import opened RegistryModel
  import opened Workflows

  // ---------------------------------------------------------------------------
  // RemoveCandidate

  /**
   * Removing a listed candidate erases its ID from the list, idSet and the
   * ledger, while its symbol stays in symbolSet with no candidate holding
   * it: the indices are no longer exact.
   */
  lemma RemoveCandidateLeavesSymbol(r: Registry, id: string, more: seq<Token>)
    requires Consistent(r) && id in CandidateIds(r.validCandidates)
    ensures var s := RemoveCandidate(r, [Line(id)] + more);
      && s.status == Returned(true) && s.rest == more
      && CandidateIds(s.registry.validCandidates) == CandidateIds(r.validCandidates) - {id}
      && s.registry.idSet == r.idSet - {id}
      && id !in s.registry.votesSet
      && s.registry.symbolSet == r.symbolSet
      && !Indexed(s.registry)
  {
    PromptFirstTry(Line(id), more, AsLine, Listed(r.validCandidates));
    var k := FindCandidate(r.validCandidates, id).value;
    KeysRemoveCandidate(r.validCandidates, k);
    var s := RemoveCandidate(r, [Line(id)] + more);
    assert r.validCandidates[k].symbol in r.symbolSet - Symbols(s.registry.validCandidates);
  }

  /** RemoveCandidate keeps the weaker invariant, and going back changes nothing. */
  lemma RemoveCandidateKeepsCovered(r: Registry, input: seq<Token>)
    requires Covered(r)
    ensures Covered(RemoveCandidate(r, input).registry)
    ensures RemoveCandidate(r, input).status != Returned(true) ==> RemoveCandidate(r, input).registry == r
  {
    var s := RemoveCandidate(r, input);
    if s.status == Returned(true) {
      var p := Prompt(input, AsLine, Listed(r.validCandidates));
      var k := FindCandidate(r.validCandidates, p.value).value;
      KeysRemoveCandidate(r.validCandidates, k);
    }
  }

  // ---------------------------------------------------------------------------
  // ModifyCandidate

  /** `after` differs from `before` in at most one of name, symbol and region, and in nothing else. */
  predicate OneFieldChanged(before: CandidateRecord, after: CandidateRecord)
  {
    || after == before.(name := after.name)
    || after == before.(symbol := after.symbol)
    || after == before.(region := after.region)
  }

  /**
   * ModifyCandidate changes at most one field of at most one candidate; a
   * new symbol joins symbolSet while the old one stays; nothing else
   * changes, and nothing at all unless it returns true.
   */
  lemma ModifyCandidateOutcome(r: Registry, input: seq<Token>)
    ensures var s := ModifyCandidate(r, input);
      var cs, cs' := r.validCandidates, s.registry.validCandidates;
      && |cs'| == |cs|
      && (forall i :: 0 <= i < |cs| ==> OneFieldChanged(cs[i], cs'[i]))
      && (forall i, j :: 0 <= i < j < |cs| ==> cs'[i] == cs[i] || cs'[j] == cs[j])
      && s.registry.(validCandidates := cs, symbolSet := r.symbolSet) == r
      && r.symbolSet <= s.registry.symbolSet
      && (s.status != Returned(true) ==> s.registry == r)
  {
    var s := ModifyCandidate(r, input);
    var cs := r.validCandidates;
    if cs != [] {
      var p := Prompt(input, AsLine, Listed(cs));
      if p.Answered? {
        var k := FindCandidate(cs, p.value).value;
        var q := Prompt(p.rest, AsChoice, Between(1, 3));
        if q.Answered? {
          assert s == EditCandidate(r, k, q.value, q.rest);
          EditCandidateShape(r, k, q.value, q.rest);
          if s.status == Returned(true) {
            SingleUpdate(cs, k, s.registry.validCandidates[k]);
          }
        }
      }
    }
  }

  /** The field entry rewrites at most one field of the candidate at `k`, and only when it returns true. */
  lemma EditCandidateShape(r: Registry, k: nat, choice: int, input: seq<Token>)
    requires k < |r.validCandidates|
    ensures var s := EditCandidate(r, k, choice, input);
      var cs, cs' := r.validCandidates, s.registry.validCandidates;
      && (s.status != Returned(true) ==> s.registry == r)
      && (s.status == Returned(true) ==>
            && |cs'| == |cs| && cs' == cs[k := cs'[k]] && OneFieldChanged(cs[k], cs'[k])
            && s.registry.(validCandidates := cs, symbolSet := r.symbolSet) == r
            && r.symbolSet <= s.registry.symbolSet)
  {
  }

  lemma SingleUpdate(cs: seq<CandidateRecord>, k: nat, c: CandidateRecord)
    requires k < |cs| && OneFieldChanged(cs[k], c)
    ensures forall i :: 0 <= i < |cs| ==> OneFieldChanged(cs[i], cs[k := c][i])
    ensures forall i, j :: 0 <= i < j < |cs| ==> cs[k := c][i] == cs[i] || cs[k := c][j] == cs[j]
  {
    forall i | 0 <= i < |cs| ensures OneFieldChanged(cs[i], cs[k := c][i]) {
      if i != k {
        assert cs[k := c][i] == cs[i].(name := cs[i].name);
      }
    }
  }

  /** ModifyCandidate keeps the weaker invariant: a new symbol is always unused. */
  lemma ModifyCandidateKeepsCovered(r: Registry, input: seq<Token>)
    requires Covered(r)
    ensures Covered(ModifyCandidate(r, input).registry)
  {
    var s := ModifyCandidate(r, input);
    if s.status == Returned(true) {
      var cs := r.validCandidates;
      var id := Prompt(input, AsLine, Listed(cs)).value;
      var k := FindCandidate(cs, id).value;
      var cs' := s.registry.validCandidates;
      assert cs' == cs[k := cs'[k]];
      KeysUpdateCandidate(cs, k, cs'[k]);
    }
  }

  /**
   * A symbol change on a consistent registry adds the new symbol and keeps
   * the old one, which no candidate holds any more.
   */
  lemma ModifySymbolKeepsOldSymbol(r: Registry, id: string, symbol: string, more: seq<Token>)
    requires Consistent(r) && id in CandidateIds(r.validCandidates)
    requires ValidatePartySymbol(symbol, r.symbolSet) == Accepted
    ensures var s := ModifyCandidate(r, [Line(id), Choice(2), Line(symbol)] + more);
      && s.status == Returned(true) && s.rest == more
      && s.registry.symbolSet == r.symbolSet + {symbol}
      && !Indexed(s.registry)
  {
    var cs := r.validCandidates;
    var input := [Line(id), Choice(2), Line(symbol)] + more;
    PromptFirstTry(Line(id), input[1..], AsLine, Listed(cs));
    assert input[1..] == [Choice(2)] + input[2..];
    PromptFirstTry(Choice(2), input[2..], AsChoice, Between(1, 3));
    assert input[2..] == [Line(symbol)] + more;
    PromptFirstTry(Line(symbol), more, AsLine, SymbolCheck(r.symbolSet));
    var k := FindCandidate(cs, id).value;
    var s := ModifyCandidate(r, input);
    KeysUpdateCandidate(cs, k, cs[k].(symbol := symbol));
    assert cs[k].symbol in s.registry.symbolSet - Symbols(s.registry.validCandidates);
  }

  // ---------------------------------------------------------------------------
  // ModifyVoter

  /**
   * Going back from a new Aadhaar ID loses the old one: the voter stays in
   * the list while its Aadhaar ID is gone from checkAadhar.
   */
  lemma LostAadharOnCancel(r: Registry, k: nat, more: seq<Token>)
    requires Consistent(r) && k < |r.validVoters|
    ensures var s := ModifyVoter(r, [Choice(k + 1), Choice(1), Line(""), Key('n')] + more);
      && s.status == Returned(false) && s.rest == more
      && s.registry.validVoters == r.validVoters
      && r.validVoters[k].aadhar !in s.registry.checkAadhar
      && !Indexed(s.registry)
  {
    var input := [Choice(k + 1), Choice(1), Line(""), Key('n')] + more;
    PromptFirstTry(Choice(k + 1), input[1..], AsChoice, Between(1, |r.validVoters|));
    assert input[1..][1..] == [Line(""), Key('n')] + more;
    assert r.validVoters[k] in r.validVoters;
    var r1 := r.(checkAadhar := r.checkAadhar - {r.validVoters[k].aadhar});
    assert Prompt([Line(""), Key('n')] + more, AsLine, FreshAadhar(r1.checkAadhar)) == Declined(more) by {
      assert ([Line(""), Key('n')] + more)[2..] == more;
    }
  }

  /**
   * `r'` is `r` with one field of the voter at `k` rewritten: either its
   * Aadhaar ID becomes a valid one no other voter is indexed under, and
   * checkAadhar swaps the old ID for the new, or its voting status is set
   * and checkAadhar stays.
   */
  ghost predicate VoterFieldRewritten(r: Registry, r': Registry, k: nat)
  {
    var vs, vs' := r.validVoters, r'.validVoters;
    && k < |vs| && |vs'| == |vs|
    && var former, v' := vs[k].aadhar, vs'[k];
    || (&& vs' == vs[k := vs[k].(aadhar := v'.aadhar)]
        && IsValidAadhar(v'.aadhar) && v'.aadhar !in r.checkAadhar - {former}
        && r'.checkAadhar == r.checkAadhar - {former} + {v'.aadhar})
    || (vs' == vs[k := vs[k].(voted := v'.voted)] && r'.checkAadhar == r.checkAadhar)
  }

  /**
   * The voter-side facts ChooseVoter keeps on a consistent registry: a
   * reported change rewrites one field of one voter, anything else leaves
   * the voter list as it was.
   */
  lemma {:induction false} ChooseVoterOutcome(r: Registry, input: seq<Token>)
    requires Consistent(r)
    ensures var s := ChooseVoter(r, input);
      && s.status != Undefined
      && s.registry.(validVoters := r.validVoters, checkAadhar := r.checkAadhar) == r
      && |s.registry.validVoters| == |r.validVoters|
      && (s.status == Returned(true) ==> Consistent(s.registry))
      && (s.status == Returned(true) ==> exists k :: VoterFieldRewritten(r, s.registry, k))
      && (s.status != Returned(true) ==> s.registry.validVoters == r.validVoters)
    decreases |input|
  {
    var vs := r.validVoters;
    var p := Prompt(input, AsChoice, Between(1, |vs|));
    if p.Answered? {
      var k := p.value - 1;
      var rest0 := p.rest;
      if rest0 != [] && rest0[0].Choice? {
        if rest0[0].number == 1 {
          assert vs[k] in vs;
          var s := ReplaceAadhar(r, k, rest0[1..]);
          if s.status == Returned(true) {
            var a := s.registry.validVoters[k].aadhar;
            assert s.registry.validVoters == vs[k := vs[k].(aadhar := a)];
            KeysUpdateVoter(vs, k, vs[k].(aadhar := a));
            assert VoterFieldRewritten(r, s.registry, k);
          }
        } else if rest0[0].number == 2 {
          var q := Insist(rest0[1..], AsLine, IsValidStatus);
          if q.Answered? {
            KeysUpdateVoter(vs, k, vs[k].(voted := q.value == "1"));
            assert VoterFieldRewritten(r, ChooseVoter(r, input).registry, k);
          }
        } else {
          ChooseVoterOutcome(r, rest0[1..]);
        }
      }
    }
  }

  /**
   * On a consistent registry ModifyVoter never reaches undefined behaviour,
   * touches only the voter side, and a change it reports rewrites one field
   * of one voter and keeps the registry consistent.
   */
  lemma ModifyVoterOutcome(r: Registry, input: seq<Token>)
    requires Consistent(r)
    ensures var s := ModifyVoter(r, input);
      && s.status != Undefined
      && s.registry.(validVoters := r.validVoters, checkAadhar := r.checkAadhar) == r
      && (s.status == Returned(true) ==> Consistent(s.registry))
      && (s.status == Returned(true) ==> exists k :: VoterFieldRewritten(r, s.registry, k))
      && (s.status != Returned(true) ==> s.registry.validVoters == r.validVoters)
  {
    if r.validVoters != [] {
      ChooseVoterOutcome(r, input);
    }
  }

  // ---------------------------------------------------------------------------
  // RemoveVoter

  /**
   * RemoveVoter on a consistent registry: a listed voter leaves both the
   * list and checkAadhar; an unlisted one leaves everything as it was.
   */
  lemma RemoveVoterRemovesBoth(r: Registry, aadhar: string, more: seq<Token>)
    requires Consistent(r) && r.validVoters != [] && IsValidAadhar(aadhar)
    ensures var s := RemoveVoter(r, [Line(aadhar)] + more);
      && s.status == Returned(true) && s.rest == more
      && (aadhar in Aadhaars(r.validVoters) ==>
            && s.registry == r.(validVoters := s.registry.validVoters, checkAadhar := r.checkAadhar - {aadhar})
            && Aadhaars(s.registry.validVoters) == Aadhaars(r.validVoters) - {aadhar}
            && |s.registry.validVoters| == |r.validVoters| - 1)
      && (aadhar !in Aadhaars(r.validVoters) ==> s.registry == r)
  {
    PromptFirstTry(Line(aadhar), more, AsLine, IsValidAadhar);
    match FindVoter(r.validVoters, aadhar)
    case Some(k) => KeysRemoveVoter(r.validVoters, k);
    case None =>
  }

  /** RemoveVoter keeps a consistent registry consistent. */
  lemma RemoveVoterKeepsConsistent(r: Registry, input: seq<Token>)
    requires Consistent(r)
    ensures Consistent(RemoveVoter(r, input).registry)
    ensures RemoveVoter(r, input).status != Undefined
  {
    var s := RemoveVoter(r, input);
    if r.validVoters != [] {
      var p := Prompt(input, AsLine, IsValidAadhar);
      if p.Answered? {
        match FindVoter(r.validVoters, p.value)
        case Some(k) => KeysRemoveVoter(r.validVoters, k);
        case None =>
      }
    }
  }

  /**
   * After a cancelled Aadhaar change, removing that voter reaches the
   * source's `checkAadhar.erase(checkAadhar.find(..))` on a missing key.
   */
  lemma RemoveAfterLostAadharIsUndefined(r: Registry, k: nat, more: seq<Token>)
    requires Consistent(r) && k < |r.validVoters| && IsValidAadhar(r.validVoters[k].aadhar)
    ensures var s := ModifyVoter(r, [Choice(k + 1), Choice(1), Line(""), Key('n')]);
      RemoveVoter(s.registry, [Line(r.validVoters[k].aadhar)] + more).status == Undefined
  {
    LostAadharOnCancel(r, k, []);
    assert [Choice(k + 1), Choice(1), Line(""), Key('n')] + [] == [Choice(k + 1), Choice(1), Line(""), Key('n')];
    var s := ModifyVoter(r, [Choice(k + 1), Choice(1), Line(""), Key('n')]);
    PromptFirstTry(Line(r.validVoters[k].aadhar), more, AsLine, IsValidAadhar);
    assert r.validVoters[k] in s.registry.validVoters;
  }
}
