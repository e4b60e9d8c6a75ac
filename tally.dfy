/**
 * ShowResult (election.cpp:1503-1523): the ledger is first overwritten
 * with every admitted candidate's count, then its entries are ranked by
 * count, highest first. `std::sort` is modelled by an insertion sort; the
 * order it leaves equal counts in is not specified.
 */
module Tally {
  import opened Validators
  import opened Records
  import opened RegistryModel

  /** A ledger entry as ShowResult copies it out of the map: ID and count. */
  type Entry = (string, int)

  /**
   * The ledger after ShowResult's first loop over the candidates in list
   * order: a later candidate with the same ID overwrites an earlier one.
   */
  function Synced(votes: map<string, int>, cs: seq<CandidateRecord>): (m: map<string, int>)
    ensures m.Keys == votes.Keys + CandidateIds(cs)
    decreases |cs|
  {
    if cs == [] then votes
    else
      var last := cs[|cs| - 1];
      assert CandidateIds(cs) == CandidateIds(cs[..|cs| - 1]) + {last.id} by {
        assert cs == cs[..|cs| - 1] + [last];
        KeysAppendCandidate(cs[..|cs| - 1], last);
      }
      Synced(votes, cs[..|cs| - 1])[last.id := last.votes as int]
  }

  /**
   * With unique IDs the synced ledger holds every candidate's count under
   * its ID and keeps every other entry.
   */
  lemma {:induction false} SyncedAgrees(votes: map<string, int>, cs: seq<CandidateRecord>)
    requires UniqueIds(cs)
    ensures forall i :: 0 <= i < |cs| ==> Synced(votes, cs)[cs[i].id] == cs[i].votes as int
    ensures forall id :: id in votes && id !in CandidateIds(cs) ==> Synced(votes, cs)[id] == votes[id]
    decreases |cs|
  {
    if cs != [] {
      var front := cs[..|cs| - 1];
      SyncedAgrees(votes, front);
      forall id | id in votes && id !in CandidateIds(cs)
        ensures id !in CandidateIds(front)
      {
        assert forall c :: c in front ==> c in cs;
      }
    }
  }

  /**
   * Running ShowResult on a registry that keeps only the weaker invariant
   * puts the ledger back in agreement with every admitted candidate.
   */
  lemma ShowResultRestoresLedger(r: Registry)
    requires Covered(r)
    ensures var r' := r.(votesSet := Synced(r.votesSet, r.validCandidates));
      LedgerAgrees(r') && r'.votesSet.Keys <= r'.idSet
  {
    SyncedAgrees(r.votesSet, r.validCandidates);
    var m := Synced(r.votesSet, r.validCandidates);
    forall c | c in r.validCandidates
      ensures Ledger(m, c.id) == c.votes as int
    {
      var i :| 0 <= i < |r.validCandidates| && r.validCandidates[i] == c;
    }
  }

  // ---------------------------------------------------------------------------
  // Ranking

  predicate NonIncreasing(s: seq<Entry>)
  {
    forall i, j :: 0 <= i < j < |s| ==> s[i].1 >= s[j].1
  }

  /** Puts an entry in its place in a ranking. */
  function Insert(e: Entry, s: seq<Entry>): (t: seq<Entry>)
    requires NonIncreasing(s)
    ensures NonIncreasing(t)
    ensures multiset(t) == multiset(s) + multiset{e}
    ensures t[0] == e || (s != [] && t[0] == s[0])
    decreases |s|
  {
    if s == [] || e.1 >= s[0].1 then [e] + s
    else
      var tail := Insert(e, s[1..]);
      assert s == [s[0]] + s[1..];
      assert s[0].1 >= tail[0].1;
      [s[0]] + tail
  }

  /** The ranking `std::sort` with `a.second > b.second` produces, up to the order of ties. */
  function SortDescending(s: seq<Entry>): (t: seq<Entry>)
    ensures NonIncreasing(t)
    ensures multiset(t) == multiset(s)
    decreases |s|
  {
    if s == [] then []
    else
      assert s == [s[0]] + s[1..];
      Insert(s[0], SortDescending(s[1..]))
  }

}
