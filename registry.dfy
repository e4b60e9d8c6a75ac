/**
 * The state of ElectionSystem (election.h:26-38) as a value: the candidate
 * and voter lists, the three uniqueness indices and the vote ledger. The
 * class in election.dfy is specified through this value, and the invariants
 * of the registry are predicates over it.
 */
module RegistryModel {
  import opened Wrappers
  import opened Validators
  import opened Records

  datatype Registry = Registry(
    validCandidates: seq<CandidateRecord>,
    invalidCandidates: seq<CandidateRecord>,
    validVoters: seq<VoterRecord>,
    invalidVoters: seq<(string, string)>,
    idSet: set<string>,
    symbolSet: set<string>,
    checkAadhar: set<string>,
    votesSet: map<string, int>)

  /** A freshly constructed ElectionSystem. */
  const Empty := Registry([], [], [], [], {}, {}, {}, map[])

  function CandidateIds(cs: seq<CandidateRecord>): set<string> { set c | c in cs :: c.id }

  function Symbols(cs: seq<CandidateRecord>): set<string> { set c | c in cs :: c.symbol }

  function Aadhaars(vs: seq<VoterRecord>): set<string> { set v | v in vs :: v.aadhar }

  /** The ledger entry of a candidate, 0 when there is none (what `votesSet[id]` would read). */
  function Ledger(votes: map<string, int>, id: string): int
  {
    if id in votes then votes[id] else 0
  }

  function RemoveAt<T>(s: seq<T>, k: nat): (r: seq<T>)
    requires k < |s|
    ensures |r| == |s| - 1
    ensures forall i :: 0 <= i < k ==> r[i] == s[i]
    ensures forall i :: k <= i < |r| ==> r[i] == s[i + 1]
  {
    s[..k] + s[k + 1..]
  }

  /** `std::find_if` on the candidate list by ID: the first match. */
  function FindCandidate(cs: seq<CandidateRecord>, id: string): (k: Option<nat>)
    ensures k.Some? ==> k.value < |cs| && cs[k.value].id == id
    ensures k.Some? ==> forall j :: 0 <= j < k.value ==> cs[j].id != id
    ensures k.None? <==> id !in CandidateIds(cs)
    decreases |cs|
  {
    if cs == [] then None
    else if cs[0].id == id then Some(0)
    else
      match FindCandidate(cs[1..], id)
      case None => (assert CandidateIds(cs) == {cs[0].id} + CandidateIds(cs[1..]); None)
      case Some(j) => Some(j + 1)
  }

  lemma FindCandidateAt(cs: seq<CandidateRecord>, id: string, i: nat)
    requires i < |cs| && cs[i].id == id
    requires forall j :: 0 <= j < i ==> cs[j].id != id
    ensures FindCandidate(cs, id) == Some(i)
  {
  }

  lemma FindCandidateAbsent(cs: seq<CandidateRecord>, id: string)
    requires forall j :: 0 <= j < |cs| ==> cs[j].id != id
    ensures FindCandidate(cs, id) == None
  {
  }

  /** `std::find_if` on the voter list by Aadhaar ID: the first match. */
  function FindVoter(vs: seq<VoterRecord>, aadhar: string): (k: Option<nat>)
    ensures k.Some? ==> k.value < |vs| && vs[k.value].aadhar == aadhar
    ensures k.Some? ==> forall j :: 0 <= j < k.value ==> vs[j].aadhar != aadhar
    ensures k.None? <==> aadhar !in Aadhaars(vs)
    decreases |vs|
  {
    if vs == [] then None
    else if vs[0].aadhar == aadhar then Some(0)
    else
      match FindVoter(vs[1..], aadhar)
      case None => (assert Aadhaars(vs) == {vs[0].aadhar} + Aadhaars(vs[1..]); None)
      case Some(j) => Some(j + 1)
  }

  lemma FindVoterAt(vs: seq<VoterRecord>, aadhar: string, i: nat)
    requires i < |vs| && vs[i].aadhar == aadhar
    requires forall j :: 0 <= j < i ==> vs[j].aadhar != aadhar
    ensures FindVoter(vs, aadhar) == Some(i)
  {
  }

  lemma FindVoterAbsent(vs: seq<VoterRecord>, aadhar: string)
    requires forall j :: 0 <= j < |vs| ==> vs[j].aadhar != aadhar
    ensures FindVoter(vs, aadhar) == None
  {
  }

  /**
   * The status CastVote reads (election.cpp:1411-1416): its loop has no
   * `break`, so the last voter with the Aadhaar ID decides; None when no
   * voter has it (the source then reads an uninitialised bool).
   */
  function LastStatus(vs: seq<VoterRecord>, aadhar: string): (s: Option<bool>)
    ensures s.Some? <==> aadhar in Aadhaars(vs)
    decreases |vs|
  {
    if vs == [] then None
    else if vs[|vs| - 1].aadhar == aadhar then Some(vs[|vs| - 1].voted)
    else
      assert Aadhaars(vs) == Aadhaars(vs[..|vs| - 1]) + {vs[|vs| - 1].aadhar};
      LastStatus(vs[..|vs| - 1], aadhar)
  }

  /** LastStatus reports the status of the last voter holding the Aadhaar ID. */
  lemma {:induction false} LastStatusIsLast(vs: seq<VoterRecord>, aadhar: string)
    ensures var s := LastStatus(vs, aadhar);
      s.Some? ==> exists i :: 0 <= i < |vs| && vs[i].aadhar == aadhar && vs[i].voted == s.value
                              && forall j :: i < j < |vs| ==> vs[j].aadhar != aadhar
    decreases |vs|
  {
    if vs != [] && vs[|vs| - 1].aadhar != aadhar {
      var front := vs[..|vs| - 1];
      LastStatusIsLast(front, aadhar);
      if LastStatus(front, aadhar).Some? {
        var i :| 0 <= i < |front| && front[i].aadhar == aadhar && front[i].voted == LastStatus(front, aadhar).value
                 && forall j :: i < j < |front| ==> front[j].aadhar != aadhar;
        assert vs[i] == front[i];
      }
    }
  }

  // ---------------------------------------------------------------------------
  // Invariants

  ghost predicate UniqueIds(cs: seq<CandidateRecord>)
  {
    forall i, j :: 0 <= i < j < |cs| ==> cs[i].id != cs[j].id
  }

  ghost predicate UniqueSymbols(cs: seq<CandidateRecord>)
  {
    forall i, j :: 0 <= i < j < |cs| ==> cs[i].symbol != cs[j].symbol
  }

  ghost predicate UniqueAadhaars(vs: seq<VoterRecord>)
  {
    forall i, j :: 0 <= i < j < |vs| ==> vs[i].aadhar != vs[j].aadhar
  }

  /**
   * Every index holds exactly the keys of the admitted records, and the
   * ledger only has entries for indexed IDs.
   */
  ghost predicate Indexed(r: Registry)
  {
    && r.idSet == CandidateIds(r.validCandidates)
    && r.symbolSet == Symbols(r.validCandidates)
    && r.checkAadhar == Aadhaars(r.validVoters)
    && r.votesSet.Keys <= r.idSet
  }

  /** The ledger agrees with every admitted candidate; a missing entry counts as 0. */
  ghost predicate LedgerAgrees(r: Registry)
  {
    forall c :: c in r.validCandidates ==> Ledger(r.votesSet, c.id) == c.votes as int
  }

  /** The registry invariants: indices exact, keys unique, ledger in agreement. */
  ghost predicate Consistent(r: Registry)
  {
    && Indexed(r)
    && UniqueIds(r.validCandidates)
    && UniqueSymbols(r.validCandidates)
    && UniqueAadhaars(r.validVoters)
    && LedgerAgrees(r)
  }

  /**
   * The weaker candidate-side invariant the source does keep: the indices
   * cover the admitted IDs and symbols (they may hold stale or orphan keys)
   * and no two admitted candidates share an ID or a symbol.
   */
  ghost predicate Covered(r: Registry)
  {
    && CandidateIds(r.validCandidates) <= r.idSet
    && Symbols(r.validCandidates) <= r.symbolSet
    && r.votesSet.Keys <= r.idSet
    && UniqueIds(r.validCandidates)
    && UniqueSymbols(r.validCandidates)
  }

  // ---------------------------------------------------------------------------
  // How the key sets follow the lists

  lemma KeysAppendCandidate(cs: seq<CandidateRecord>, c: CandidateRecord)
    ensures CandidateIds(cs + [c]) == CandidateIds(cs) + {c.id}
    ensures Symbols(cs + [c]) == Symbols(cs) + {c.symbol}
  {
    assert forall x :: x in cs + [c] <==> x in cs || x == c;
  }

  lemma KeysAppendVoter(vs: seq<VoterRecord>, v: VoterRecord)
    ensures Aadhaars(vs + [v]) == Aadhaars(vs) + {v.aadhar}
  {
    assert forall x :: x in vs + [v] <==> x in vs || x == v;
  }

  lemma KeysPrependCandidate(cs: seq<CandidateRecord>)
    requires cs != []
    ensures CandidateIds(cs) == {cs[0].id} + CandidateIds(cs[1..])
    ensures Symbols(cs) == {cs[0].symbol} + Symbols(cs[1..])
    ensures UniqueIds(cs) ==> cs[0].id !in CandidateIds(cs[1..])
  {
    assert cs == [cs[0]] + cs[1..];
    assert forall x :: x in cs <==> x == cs[0] || x in cs[1..];
    if UniqueIds(cs) {
      forall x | x in cs[1..] ensures x.id != cs[0].id {
        var m :| 0 <= m < |cs[1..]| && cs[1..][m] == x;
        assert x == cs[m + 1];
      }
    }
  }

  lemma KeysPrependVoter(vs: seq<VoterRecord>)
    requires vs != []
    ensures Aadhaars(vs) == {vs[0].aadhar} + Aadhaars(vs[1..])
  {
    assert vs == [vs[0]] + vs[1..];
    assert forall x :: x in vs <==> x == vs[0] || x in vs[1..];
  }

  lemma {:induction false} KeysRemoveCandidate(cs: seq<CandidateRecord>, k: nat)
    requires k < |cs|
    ensures forall x :: x in RemoveAt(cs, k) <==> exists i :: 0 <= i < |cs| && i != k && cs[i] == x
    ensures UniqueIds(cs) ==> UniqueIds(RemoveAt(cs, k)) && CandidateIds(RemoveAt(cs, k)) == CandidateIds(cs) - {cs[k].id}
    ensures UniqueSymbols(cs) ==> UniqueSymbols(RemoveAt(cs, k)) && Symbols(RemoveAt(cs, k)) == Symbols(cs) - {cs[k].symbol}
  {
    var r := RemoveAt(cs, k);
    forall x
      ensures x in r <==> exists i :: 0 <= i < |cs| && i != k && cs[i] == x
    {
      if x in r {
        var j :| 0 <= j < |r| && r[j] == x;
        if j < k { assert cs[j] == x; } else { assert cs[j + 1] == x; }
      }
      if exists i :: 0 <= i < |cs| && i != k && cs[i] == x {
        var i :| 0 <= i < |cs| && i != k && cs[i] == x;
        if i < k { assert r[i] == x; } else { assert r[i - 1] == x; }
      }
    }
  }

  lemma {:induction false} KeysUpdateCandidate(cs: seq<CandidateRecord>, k: nat, c: CandidateRecord)
    requires k < |cs| && UniqueIds(cs) && UniqueSymbols(cs)
    requires c.id == cs[k].id
    requires c.symbol == cs[k].symbol || c.symbol !in Symbols(cs)
    ensures CandidateIds(cs[k := c]) == CandidateIds(cs)
    ensures Symbols(cs[k := c]) == Symbols(cs) - {cs[k].symbol} + {c.symbol}
    ensures UniqueIds(cs[k := c]) && UniqueSymbols(cs[k := c])
  {
    var u := cs[k := c];
    forall x
      ensures x in u <==> x == c || exists i :: 0 <= i < |cs| && i != k && cs[i] == x
    {
      if x in u {
        var j :| 0 <= j < |u| && u[j] == x;
        if j != k { assert cs[j] == x; }
      }
      if exists i :: 0 <= i < |cs| && i != k && cs[i] == x {
        var i :| 0 <= i < |cs| && i != k && cs[i] == x;
        assert u[i] == x;
      }
      if x == c {
        assert u[k] == x;
      }
    }
    assert forall i :: 0 <= i < |cs| && i != k ==> cs[i] in cs;
  }

  lemma {:induction false} KeysRemoveVoter(vs: seq<VoterRecord>, k: nat)
    requires k < |vs| && UniqueAadhaars(vs)
    ensures UniqueAadhaars(RemoveAt(vs, k))
    ensures Aadhaars(RemoveAt(vs, k)) == Aadhaars(vs) - {vs[k].aadhar}
  {
    var r := RemoveAt(vs, k);
    forall x
      ensures x in r <==> exists i :: 0 <= i < |vs| && i != k && vs[i] == x
    {
      if x in r {
        var j :| 0 <= j < |r| && r[j] == x;
        if j < k { assert vs[j] == x; } else { assert vs[j + 1] == x; }
      }
      if exists i :: 0 <= i < |vs| && i != k && vs[i] == x {
        var i :| 0 <= i < |vs| && i != k && vs[i] == x;
        if i < k { assert r[i] == x; } else { assert r[i - 1] == x; }
      }
    }
  }

  lemma {:induction false} KeysUpdateVoter(vs: seq<VoterRecord>, k: nat, v: VoterRecord)
    requires k < |vs| && UniqueAadhaars(vs)
    requires v.aadhar == vs[k].aadhar || v.aadhar !in Aadhaars(vs)
    ensures Aadhaars(vs[k := v]) == Aadhaars(vs) - {vs[k].aadhar} + {v.aadhar}
    ensures UniqueAadhaars(vs[k := v])
  {
    var u := vs[k := v];
    forall x
      ensures x in u <==> x == v || exists i :: 0 <= i < |vs| && i != k && vs[i] == x
    {
      if x in u {
        var j :| 0 <= j < |u| && u[j] == x;
        if j != k { assert vs[j] == x; }
      }
      if exists i :: 0 <= i < |vs| && i != k && vs[i] == x {
        var i :| 0 <= i < |vs| && i != k && vs[i] == x;
        assert u[i] == x;
      }
      if x == v {
        assert u[k] == x;
      }
    }
    assert forall i :: 0 <= i < |vs| && i != k ==> vs[i] in vs;
  }

  lemma ConsistentIsCovered(r: Registry)
    requires Consistent(r)
    ensures Covered(r)
  {
  }
}
