/**
 * The two record classes of the system: Candidate (candidate.h, candidate.cpp)
 * and Voter (voter.h, voter.cpp). Both are plain holders of fields whose
 * setters overwrite one field in place. `Record()` gives the value a
 * candidate or voter currently holds; the registry is specified in terms of
 * these values.
 */
module Records {
  import opened Validators

  /** The value of a Candidate object: ID, name, party symbol, region, votes. */
  datatype CandidateRecord = CandidateRecord(id: string, name: string, symbol: string, region: string, votes: int32)

  /** The value of a Voter object: Aadhaar ID and whether the voter has voted. */
  datatype VoterRecord = VoterRecord(aadhar: string, voted: bool)

  class Candidate {
    var candidateID: string
    var candidateName: string
    var partySymbol: string
    var regionID: string
    var numOfVotes: int32

    function Record(): CandidateRecord
      reads this
    {
      CandidateRecord(candidateID, candidateName, partySymbol, regionID, numOfVotes)
    }

    /** Stores the five values unchanged; the vote count defaults to 0. */
    constructor (id: string, name: string, symbol: string, regionCode: string, votes: int32 := 0)
      ensures GetCandidateID() == id && GetCandidateName() == name && GetPartySymbol() == symbol
      ensures GetRegion() == regionCode && GetNumOfVotes() == votes
    {
      candidateID, candidateName, partySymbol, regionID, numOfVotes := id, name, symbol, regionCode, votes;
    }

    function GetCandidateID(): string reads this { candidateID }
    function GetCandidateName(): string reads this { candidateName }
    function GetPartySymbol(): string reads this { partySymbol }
    function GetRegion(): string reads this { regionID }
    function GetNumOfVotes(): int32 reads this { numOfVotes }

    method SetCandidateID(id: string)
      modifies this
      ensures Record() == old(Record()).(id := id)
    {
      candidateID := id;
    }

    method SetCandidateName(name: string)
      modifies this
      ensures Record() == old(Record()).(name := name)
    {
      candidateName := name;
    }

    method SetPartySymbol(symbol: string)
      modifies this
      ensures Record() == old(Record()).(symbol := symbol)
    {
      partySymbol := symbol;
    }

    method SetRegion(regionCode: string)
      modifies this
      ensures Record() == old(Record()).(region := regionCode)
    {
      regionID := regionCode;
    }

    method SetVotes(votes: int32)
      modifies this
      ensures Record() == old(Record()).(votes := votes)
    {
      numOfVotes := votes;
    }
  }

  class Voter {
    var aadhaarID: string
    var votingStatus: bool

    function Record(): VoterRecord
      reads this
    {
      VoterRecord(aadhaarID, votingStatus)
    }

    /** Stores the Aadhaar ID and the status; a new voter has not voted. */
    constructor (aadhar: string, status: bool := false)
      ensures GetAadharID() == aadhar && GetVotingStatus() == status
    {
      aadhaarID, votingStatus := aadhar, status;
    }

    function GetAadharID(): string reads this { aadhaarID }
    function GetVotingStatus(): bool reads this { votingStatus }

    method SetAadharID(aadhar: string)
      modifies this
      ensures Record() == old(Record()).(aadhar := aadhar)
    {
      aadhaarID := aadhar;
    }

    method SetVotingStatus(currentStatus: bool)
      modifies this
      ensures Record() == old(Record()).(voted := currentStatus)
    {
      votingStatus := currentStatus;
    }
  }

  /** The values held by a list of candidate objects, in order. */
  function CandidateRecords(cs: seq<Candidate>): (rs: seq<CandidateRecord>)
    reads cs
    ensures |rs| == |cs| && forall i :: 0 <= i < |cs| ==> rs[i] == cs[i].Record()
  {
    seq(|cs|, i requires 0 <= i < |cs| reads cs => cs[i].Record())
  }

  /** The values held by a list of voter objects, in order. */
  function VoterRecords(vs: seq<Voter>): (rs: seq<VoterRecord>)
    reads vs
    ensures |rs| == |vs| && forall i :: 0 <= i < |vs| ==> rs[i] == vs[i].Record()
  {
    seq(|vs|, i requires 0 <= i < |vs| reads vs => vs[i].Record())
  }

  lemma CandidateRecordsAppend(cs: seq<Candidate>, c: Candidate)
    ensures CandidateRecords(cs + [c]) == CandidateRecords(cs) + [c.Record()]
  {
  }

  lemma VoterRecordsAppend(vs: seq<Voter>, v: Voter)
    ensures VoterRecords(vs + [v]) == VoterRecords(vs) + [v.Record()]
  {
  }

  /** No object occurs twice: the source's vectors hold copies, never shared objects. */
  ghost predicate Distinct<T>(s: seq<T>)
  {
    forall i, j :: 0 <= i < j < |s| ==> s[i] != s[j]
  }

  lemma DistinctAppend<T>(s: seq<T>, x: T)
    requires Distinct(s) && x !in s
    ensures Distinct(s + [x])
  {
  }
}
