/**
 * What CastVote and IndividualResult do to the ledger and the voters: one
 * vote per ballot, a second ballot by the same voter counts nothing while
 * Aadhaar IDs are unique, and what the index breaks elsewhere do to voting.
 */
module VotingFacts {
  import opened Wrappers
  import opened Validators
  import opened Records
  import opened Prompts
  import opened RegistryModel
  import opened Workflows
  import MaintenanceFacts

  /**
   * `r'` is `r` after one vote for `cid` by `aid`: the ledger entry of `cid`
   * goes up by one and nothing else in the ledger changes, the first
   * candidate with the ID takes the new entry as its count, the first voter
   * with the Aadhaar ID is marked as having voted, and nothing else changes.
   */
  ghost predicate OneVoteCounted(r: Registry, r': Registry, cid: string, aid: string)
  {
    var cs, vs := r.validCandidates, r.validVoters;
    && FindCandidate(cs, cid).Some? && FindVoter(vs, aid).Some?
    && var k, j := FindCandidate(cs, cid).value, FindVoter(vs, aid).value;
    && Ledger(r'.votesSet, cid) == Ledger(r.votesSet, cid) + 1
    && (forall id :: id != cid ==> Ledger(r'.votesSet, id) == Ledger(r.votesSet, id))
    && r'.validCandidates == cs[k := cs[k].(votes := Int32Of(Ledger(r'.votesSet, cid)))]
    && r'.validVoters == vs[j := vs[j].(voted := true)]
    && r'.(votesSet := r.votesSet, validCandidates := cs, validVoters := vs) == r
  }

  /**
   * A ballot by a voter who has not voted, for an admitted candidate, counts
   * exactly one vote for that candidate.
   */
  lemma BallotCountsOne(r: Registry, cid: string, aid: string, rest: seq<Token>)
    requires LastStatus(r.validVoters, aid) == Some(false)
    requires cid in CandidateIds(r.validCandidates)
    ensures var s := Ballot(r, cid, aid, rest);
      && s.status == Returned(true) && s.rest == rest
      && OneVoteCounted(r, s.registry, cid, aid)
  {
  }

  /**
   * The outcomes of CastVote for the candidate ID and the Aadhaar ID the
   * operator enters: going back at either prompt changes nothing; an
   * Aadhaar ID with no voter reaches the uninitialised read; an
   * already-voted voter or an ID with no candidate changes nothing; a voter
   * who has not voted, for an admitted candidate, counts one vote for that
   * candidate, marks that voter (one who had not voted, while Aadhaar IDs
   * are unique), and nothing else changes.
   */
  lemma CastVoteOutcome(r: Registry, input: seq<Token>)
    ensures var s := CastVote(r, input);
      var cs, vs := r.validCandidates, r.validVoters;
      var p := Prompt(input, AsLine, Member(r.idSet));
      var q := if p.Answered? then Prompt(p.rest, AsLine, Member(r.checkAadhar)) else Exhausted;
      && (s.status != Returned(true) ==> s.registry == r)
      && (!q.Answered? ==> s.registry == r && s.status != Undefined)
      && (q.Answered? ==>
            var cid, aid := p.value, q.value;
            && s.rest == q.rest
            && (LastStatus(vs, aid) == None ==> s.status == Undefined)
            && (LastStatus(vs, aid) == Some(true) ==> s.status == Returned(true) && s.registry == r)
            && (cid !in CandidateIds(cs) && LastStatus(vs, aid).Some? ==> s.status == Returned(true) && s.registry == r)
            && (LastStatus(vs, aid) == Some(false) && cid in CandidateIds(cs) ==>
                  && s.status == Returned(true)
                  && OneVoteCounted(r, s.registry, cid, aid)
                  && (UniqueAadhaars(vs) ==> !vs[FindVoter(vs, aid).value].voted)))
  {
    var p := Prompt(input, AsLine, Member(r.idSet));
    if p.Answered? {
      var q := Prompt(p.rest, AsLine, Member(r.checkAadhar));
      if q.Answered? {
        var cid, aid := p.value, q.value;
        if LastStatus(r.validVoters, aid) == Some(false) && cid in CandidateIds(r.validCandidates) {
          BallotCountsOne(r, cid, aid, q.rest);
          var j := FindVoter(r.validVoters, aid).value;
          if UniqueAadhaars(r.validVoters) {
            UniqueLastStatus(r.validVoters, j);
          }
        }
      }
    }
  }

  /** With unique Aadhaar IDs the last and the first voter with an ID are the same voter. */
  lemma UniqueLastStatus(vs: seq<VoterRecord>, j: nat)
    requires UniqueAadhaars(vs) && j < |vs|
    ensures LastStatus(vs, vs[j].aadhar) == Some(vs[j].voted)
  {
    assert vs[j].aadhar in Aadhaars(vs);
    LastStatusIsLast(vs, vs[j].aadhar);
  }

  /**
   * Exactly-once voting: while Aadhaar IDs are unique, after a counted
   * ballot the same voter's next ballot, for any candidate, changes nothing.
   */
  lemma SecondBallotIsNoOp(r: Registry, cid: string, cid2: string, aid: string, rest: seq<Token>, rest2: seq<Token>)
    requires UniqueAadhaars(r.validVoters)
    requires LastStatus(r.validVoters, aid) == Some(false)
    requires cid in CandidateIds(r.validCandidates)
    ensures var s := Ballot(r, cid, aid, rest);
      Ballot(s.registry, cid2, aid, rest2) == Step(s.registry, Returned(true), rest2)
  {
    var s := Ballot(r, cid, aid, rest);
    var vs := r.validVoters;
    var j := FindVoter(vs, aid).value;
    KeysUpdateVoter(vs, j, vs[j].(voted := true));
    UniqueLastStatus(s.registry.validVoters, j);
  }

  /** Marking an earlier voter does not change what the last voter with the Aadhaar ID says. */
  lemma {:induction false} LastStatusIgnoresEarlier(vs: seq<VoterRecord>, aid: string, j: nat, i: nat, v: VoterRecord)
    requires j < i < |vs| && vs[i].aadhar == aid && v.aadhar == vs[j].aadhar
    ensures LastStatus(vs[j := v], aid) == LastStatus(vs, aid)
    decreases |vs|
  {
    var n := |vs|;
    var u := vs[j := v];
    assert |u| == n && u[n - 1] == vs[n - 1];
    if vs[n - 1].aadhar != aid {
      assert i < n - 1;
      var front := vs[..n - 1];
      assert u[..n - 1] == front[j := v];
      LastStatusIgnoresEarlier(front, aid, j, i, v);
      calc {
        LastStatus(u, aid);
        LastStatus(front[j := v], aid);
        LastStatus(front, aid);
        LastStatus(vs, aid);
      }
    }
  }

  /**
   * Two voters with the same Aadhaar ID, the later one not marked: the
   * ballot marks the earlier one, so the same ID votes again and the
   * candidate gains two votes.
   */
  lemma DuplicateVoterVotesTwice(r: Registry, cid: string, aid: string, i: nat, rest: seq<Token>)
    requires LastStatus(r.validVoters, aid) == Some(false)
    requires cid in CandidateIds(r.validCandidates)
    requires FindVoter(r.validVoters, aid).value < i < |r.validVoters| && r.validVoters[i].aadhar == aid
    ensures var s1 := Ballot(r, cid, aid, rest);
      var s2 := Ballot(s1.registry, cid, aid, rest);
      && s2.status == Returned(true)
      && Ledger(s2.registry.votesSet, cid) == Ledger(r.votesSet, cid) + 2
  {
    var vs := r.validVoters;
    var j := FindVoter(vs, aid).value;
    BallotCountsOne(r, cid, aid, rest);
    var s1 := Ballot(r, cid, aid, rest);
    LastStatusIgnoresEarlier(vs, aid, j, i, vs[j].(voted := true));
    assert CandidateIds(s1.registry.validCandidates) == CandidateIds(r.validCandidates) by {
      var k := FindCandidate(r.validCandidates, cid).value;
      assert forall x :: x in s1.registry.validCandidates ==> x.id in CandidateIds(r.validCandidates);
      assert forall x :: x in r.validCandidates ==> x.id in CandidateIds(s1.registry.validCandidates) by {
        forall x | x in r.validCandidates ensures x.id in CandidateIds(s1.registry.validCandidates) {
          var m :| 0 <= m < |r.validCandidates| && r.validCandidates[m] == x;
          assert s1.registry.validCandidates[m].id == x.id;
        }
      }
    }
    BallotCountsOne(s1.registry, cid, aid, rest);
  }

  /**
   * The Aadhaar ID lost by a cancelled change can be added again, after
   * which two voters share it and the voter list is no longer unique.
   */
  lemma LostAadharReadmitted(r: Registry, k: nat, more: seq<Token>)
    requires Consistent(r) && k < |r.validVoters| && IsValidAadhar(r.validVoters[k].aadhar)
    ensures var s1 := ModifyVoter(r, [Choice(k + 1), Choice(1), Line(""), Key('n')]);
      var s2 := AddVoter(s1.registry, [Line(r.validVoters[k].aadhar)] + more);
      && s2.status == Returned(true)
      && !UniqueAadhaars(s2.registry.validVoters)
  {
    var a := r.validVoters[k].aadhar;
    MaintenanceFacts.LostAadharOnCancel(r, k, []);
    assert [Choice(k + 1), Choice(1), Line(""), Key('n')] + [] == [Choice(k + 1), Choice(1), Line(""), Key('n')];
    var s1 := ModifyVoter(r, [Choice(k + 1), Choice(1), Line(""), Key('n')]);
    PromptFirstTry(Line(a), more, AsLine, FreshAadhar(s1.registry.checkAadhar));
    var s2 := AddVoter(s1.registry, [Line(a)] + more);
    assert s2.registry.validVoters[k].aadhar == s2.registry.validVoters[|r.validVoters|].aadhar;
  }

  /**
   * CastVote keeps a consistent registry consistent and never reaches the
   * uninitialised read, provided no admitted count is at the `int` limit.
   */
  lemma CastVoteKeepsConsistent(r: Registry, input: seq<Token>)
    requires Consistent(r)
    requires forall c :: c in r.validCandidates ==> c.votes as int < INT_MAX
    ensures Consistent(CastVote(r, input).registry)
    ensures CastVote(r, input).status != Undefined
  {
    var s := CastVote(r, input);
    var p := Prompt(input, AsLine, Member(r.idSet));
    if p.Answered? {
      var q := Prompt(p.rest, AsLine, Member(r.checkAadhar));
      if q.Answered? {
        var cid, aid := p.value, q.value;
        if LastStatus(r.validVoters, aid) == Some(false) {
          BallotKeepsConsistent(r, cid, aid, q.rest);
        }
      }
    }
  }

  lemma BallotKeepsConsistent(r: Registry, cid: string, aid: string, rest: seq<Token>)
    requires Consistent(r) && cid in r.idSet
    requires forall c :: c in r.validCandidates ==> c.votes as int < INT_MAX
    requires LastStatus(r.validVoters, aid) == Some(false)
    ensures Consistent(Ballot(r, cid, aid, rest).registry)
  {
    var k := FindCandidate(r.validCandidates, cid).value;
    assert r.validCandidates[k] in r.validCandidates;
    CountedKeepsConsistent(r, k, cid, aid);
  }

  /** The vote itself keeps the registry consistent while the count stays below INT_MAX. */
  lemma CountedKeepsConsistent(r: Registry, k: nat, cid: string, aid: string)
    requires Consistent(r) && k < |r.validCandidates| && r.validCandidates[k].id == cid
    requires r.validCandidates[k].votes as int < INT_MAX
    requires FindVoter(r.validVoters, aid).Some?
    ensures Consistent(Counted(r, k, cid, aid))
  {
    var cs, vs := r.validCandidates, r.validVoters;
    var j := FindVoter(vs, aid).value;
    var n := Ledger(r.votesSet, cid) + 1;
    assert cs[k] in cs;
    var r' := Counted(r, k, cid, aid);
    KeysUpdateCandidate(cs, k, cs[k].(votes := Int32Of(n)));
    KeysUpdateVoter(vs, j, vs[j].(voted := true));
    forall c | c in r'.validCandidates
      ensures Ledger(r'.votesSet, c.id) == c.votes as int
    {
      var m :| 0 <= m < |cs| && r'.validCandidates[m] == c;
      if m != k {
        assert cs[m] in cs;
      }
    }
  }

  /**
   * An ID in idSet with no admitted candidate (left by a cancelled repair)
   * passes CastVote's check, and the ballot then changes nothing.
   */
  lemma OrphanIdBallotChangesNothing(r: Registry, cid: string, aid: string, rest: seq<Token>)
    requires cid !in CandidateIds(r.validCandidates)
    ensures Ballot(r, cid, aid, rest).registry == r
  {
  }

  /**
   * An Aadhaar ID in checkAadhar with no voter (left by a cancelled voter
   * repair) makes CastVote read `currentStatus` uninitialised.
   */
  lemma OrphanAadharIsUndefined(r: Registry, cid: string, aid: string, rest: seq<Token>)
    requires aid !in Aadhaars(r.validVoters)
    ensures Ballot(r, cid, aid, rest).status == Undefined
  {
  }

  /**
   * A candidate with no ledger entry (admitted by AddCandidate or by a
   * repair) has its count set to 1 by its next vote, whatever it held.
   */
  lemma MissingEntryResetsCount(r: Registry, cid: string, aid: string, rest: seq<Token>)
    requires UniqueIds(r.validCandidates) && cid !in r.votesSet
    requires LastStatus(r.validVoters, aid) == Some(false)
    requires cid in CandidateIds(r.validCandidates)
    ensures var cs' := Ballot(r, cid, aid, rest).registry.validCandidates;
      forall i :: 0 <= i < |r.validCandidates| && r.validCandidates[i].id == cid ==> cs'[i].votes == 1
  {
  }

  /**
   * IndividualResult on a consistent registry shows the vote count of the
   * candidate whose ID was entered, and the ledger entry it may create
   * keeps the registry consistent.
   */
  lemma IndividualResultShowsVotes(r: Registry, input: seq<Token>)
    requires Consistent(r)
    ensures var (s, shown) := IndividualResult(r, input);
      var p := Prompt(input, AsLine, Member(r.idSet));
      && Consistent(s.registry)
      && s.registry.(votesSet := r.votesSet) == r
      && (shown.Some? <==> s.status == Returned(true))
      && (shown.Some? <==> p.Answered?)
      && (p.Answered? ==>
            && FindCandidate(r.validCandidates, p.value).Some?
            && shown == Some(r.validCandidates[FindCandidate(r.validCandidates, p.value).value].votes as int))
  {
    var p := Prompt(input, AsLine, Member(r.idSet));
    if p.Answered? {
      var cid := p.value;
      var c :| c in r.validCandidates && c.id == cid;
      var k := FindCandidate(r.validCandidates, cid).value;
      assert r.validCandidates[k] in r.validCandidates;
    }
  }
}
