/**
 * The line formats of Candidate.csv and Voter.csv and the per-line load
 * rules of CandidateCsvCheck and VoterCsvCheck (election.cpp:276-390),
 * with the lines of the file given as a sequence. Writing the files back
 * (election.cpp:1684-1716) is modelled as the line format only.
 */
module Csv {
  import opened Wrappers
  import opened Validators
  import opened Records
  import opened RegistryModel

  // ---------------------------------------------------------------------------
  // Fields of a line

  /** The pieces of a line between its commas (what repeated `getline(ss, f, ',')` sees). */
  function Split(line: string): (parts: seq<string>)
    ensures |parts| >= 1
    ensures forall i :: 0 <= i < |parts| ==> ',' !in parts[i]
    decreases |line|
  {
    if line == [] then [""]
    else
      var tail := Split(line[1..]);
      if line[0] == ',' then [""] + tail
      else [[line[0]] + tail[0]] + tail[1..]
  }

  /** The fields written with commas between them (the writers' `<< ","`). */
  function Join(parts: seq<string>): string
    requires |parts| >= 1
    decreases |parts|
  {
    if |parts| == 1 then parts[0] else parts[0] + "," + Join(parts[1..])
  }

  /** Field `i` of a line; a missing field reads as empty, as after a failed `getline`. */
  function Field(line: string, i: nat): string
  {
    var parts := Split(line);
    if i < |parts| then parts[i] else ""
  }

  lemma {:induction false} SplitPrefix(p: string, rest: string)
    requires ',' !in p
    ensures Split(p + rest) == [p + Split(rest)[0]] + Split(rest)[1..]
    decreases |p|
  {
    if p != [] {
      assert (p + rest)[1..] == p[1..] + rest;
      SplitPrefix(p[1..], rest);
      assert [p[0]] + (p[1..] + Split(rest)[0]) == p + Split(rest)[0];
    } else {
      assert p + rest == rest && p + Split(rest)[0] == Split(rest)[0];
      assert Split(rest) == [Split(rest)[0]] + Split(rest)[1..];
    }
  }

  /** Splitting undoes joining when no field holds a comma. */
  lemma {:induction false} SplitJoin(parts: seq<string>)
    requires |parts| >= 1
    requires forall i :: 0 <= i < |parts| ==> ',' !in parts[i]
    ensures Split(Join(parts)) == parts
    decreases |parts|
  {
    if |parts| == 1 {
      SplitPrefix(parts[0], "");
      assert parts[0] + "" == parts[0];
    } else {
      SplitJoin(parts[1..]);
      assert parts[0] + "," + Join(parts[1..]) == parts[0] + ("," + Join(parts[1..]));
      SplitPrefix(parts[0], "," + Join(parts[1..]));
      assert ("," + Join(parts[1..]))[1..] == Join(parts[1..]);
      assert parts[0] + "" == parts[0];
      assert parts == [parts[0]] + parts[1..];
    }
  }

  /** Joining undoes splitting: no character of a line is lost by the split. */
  lemma {:induction false} JoinSplit(line: string)
    ensures Join(Split(line)) == line
    decreases |line|
  {
    if line != [] {
      JoinSplit(line[1..]);
      var tail := Split(line[1..]);
      if line[0] == ',' {
        assert Join([""] + tail) == "" + "," + Join(tail);
      } else {
        var parts := [[line[0]] + tail[0]] + tail[1..];
        if |tail| == 1 {
          assert Join(parts) == [line[0]] + tail[0];
        } else {
          assert parts[1..] == tail[1..];
          assert Join(parts) == [line[0]] + tail[0] + "," + Join(tail[1..]);
        }
      }
    }
  }

  // ---------------------------------------------------------------------------
  // Numbers as the writers print them

  function DigitChar(d: nat): char
    requires d < 10
  {
    ('0' as int + d) as char
  }

  /** `operator<<` on a non-negative integer: its decimal digits. */
  function DecimalString(n: nat): (s: string)
    ensures s != [] && AllDigits(s)
    ensures DecimalValue(s) == n
    decreases n
  {
    var last := [DigitChar(n % 10)];
    if n < 10 then last
    else
      var prefix := DecimalString(n / 10);
      assert (prefix + last)[..|prefix + last| - 1] == prefix;
      prefix + last
  }

  /** `operator<<` on an `int`. */
  function IntString(n: int): string
  {
    if n < 0 then "-" + DecimalString(-n) else DecimalString(n)
  }

  // ---------------------------------------------------------------------------
  // Candidate.csv

  /** The five fields of a candidate line: id,name,symbol,region,votes (election.cpp:296-310). */
  function ParseCandidate(line: string): CandidateRecord
  {
    CandidateRecord(Field(line, 0), Field(line, 1), Field(line, 2), Field(line, 3), Convert2Int(Field(line, 4)))
  }

  /** The line WriteCandidateDataToCSV writes for a candidate (election.cpp:1710-1715). */
  function FormatCandidate(c: CandidateRecord): string
  {
    Join([c.id, c.name, c.symbol, c.region, IntString(c.votes as int)])
  }

  /** The four validators of the source, in the order it calls them, all accept. */
  predicate Admissible(c: CandidateRecord, idSet: set<string>, symbolSet: set<string>)
  {
    && ValidateCandidateID(c.id, idSet) == Accepted
    && ValidateCandidateName(c.name) == Accepted
    && ValidatePartySymbol(c.symbol, symbolSet) == Accepted
    && ValidateRegionCode(c.region) == Accepted
  }

  /** One line of CandidateCsvCheck (election.cpp:290-326). */
  function LoadCandidateLine(r: Registry, line: string): Registry
  {
    var c := ParseCandidate(line);
    if c.id == "" then r
    else if Admissible(c, r.idSet, r.symbolSet) then
      r.(validCandidates := r.validCandidates + [c],
         idSet := r.idSet + {c.id},
         symbolSet := r.symbolSet + {c.symbol},
         votesSet := r.votesSet[c.id := c.votes as int])
    else
      r.(invalidCandidates := r.invalidCandidates + [c])
  }

  function LoadCandidates(r: Registry, lines: seq<string>): Registry
    decreases |lines|
  {
    if lines == [] then r else LoadCandidates(LoadCandidateLine(r, lines[0]), lines[1..])
  }

  // ---------------------------------------------------------------------------
  // Voter.csv

  /** The line WriteVoterDataToCSV writes for a voter: the flag prints as 1 or 0 (election.cpp:1692-1693). */
  function FormatVoter(v: VoterRecord): string
  {
    Join([v.aadhar, if v.voted then "1" else "0"])
  }

  /** One line of VoterCsvCheck (election.cpp:350-385). */
  function LoadVoterLine(r: Registry, line: string): Registry
  {
    var aadhar := Field(line, 0);
    var status := Field(line, 1);
    if IsValidAadhar(aadhar) && aadhar !in r.checkAadhar && IsValidStatus(status) then
      r.(checkAadhar := r.checkAadhar + {aadhar},
         validVoters := r.validVoters + [VoterRecord(aadhar, status == "1")])
    else if aadhar != "" then
      r.(invalidVoters := r.invalidVoters + [(aadhar, status)])
    else
      r
  }

  function LoadVoters(r: Registry, lines: seq<string>): Registry
    decreases |lines|
  {
    if lines == [] then r else LoadVoters(LoadVoterLine(r, lines[0]), lines[1..])
  }

  // ---------------------------------------------------------------------------
  // Properties of the formats

  /**
   * A written candidate line loads back as the same record, provided no text
   * field holds a comma and the count is not negative.
   */
  lemma CandidateRoundTrip(c: CandidateRecord)
    requires ',' !in c.id && ',' !in c.name && ',' !in c.symbol && ',' !in c.region
    requires c.votes >= 0
    ensures ParseCandidate(FormatCandidate(c)) == c
  {
    var count := DecimalString(c.votes as int);
    assert forall i :: 0 <= i < |count| ==> IsDigit(count[i]);
    var parts := [c.id, c.name, c.symbol, c.region, count];
    SplitJoin(parts);
  }

  /**
   * ValidateCandidateID lets a comma through, and such an ID does not
   * survive the file: "a1," is accepted, and its written line loads back
   * with the ID "a1".
   */
  lemma CommaBreaksRoundTrip()
    ensures ValidateCandidateID("a1,", {}) == Accepted
    ensures ParseCandidate(FormatCandidate(CandidateRecord("a1,", "Bob", "Blue", "R1", 0))).id == "a1"
  {
    assert IsDigit("a1,"[1]) && IsAlpha("a1,"[0]);
    assert IntString(0) == "0";
    var tail := Join(["Bob", "Blue", "R1", "0"]);
    assert FormatCandidate(CandidateRecord("a1,", "Bob", "Blue", "R1", 0)) == "a1," + "," + tail;
    assert "a1," + "," + tail == "a1" + ("," + ("," + tail));
    SplitPrefix("a1", "," + ("," + tail));
    assert Split("," + ("," + tail))[0] == "";
    assert "a1" + "" == "a1";
  }

  /** A written voter line loads back with its Aadhaar ID and a valid status that gives the same flag. */
  lemma VoterRoundTrip(v: VoterRecord)
    requires ',' !in v.aadhar
    ensures Field(FormatVoter(v), 0) == v.aadhar
    ensures IsValidStatus(Field(FormatVoter(v), 1)) && (Field(FormatVoter(v), 1) == "1" <==> v.voted)
  {
    SplitJoin([v.aadhar, if v.voted then "1" else "0"]);
  }

  // ---------------------------------------------------------------------------
  // Loading keeps the registry consistent

  lemma {:induction false} LoadCandidateLineKeepsConsistent(r: Registry, line: string)
    requires Consistent(r)
    ensures Consistent(LoadCandidateLine(r, line))
  {
    var c := ParseCandidate(line);
    if c.id != "" && Admissible(c, r.idSet, r.symbolSet) {
      var r' := LoadCandidateLine(r, line);
      KeysAppendCandidate(r.validCandidates, c);
      var cs := r'.validCandidates;
      forall d | d in cs
        ensures Ledger(r'.votesSet, d.id) == d.votes as int
      {
        if d != c {
          assert d in r.validCandidates;
          assert d.id in r.idSet;
        }
      }
    }
  }

  lemma {:induction false} LoadVoterLineKeepsConsistent(r: Registry, line: string)
    requires Consistent(r)
    ensures Consistent(LoadVoterLine(r, line))
  {
    var aadhar := Field(line, 0);
    var status := Field(line, 1);
    if IsValidAadhar(aadhar) && aadhar !in r.checkAadhar && IsValidStatus(status) {
      KeysAppendVoter(r.validVoters, VoterRecord(aadhar, status == "1"));
    }
  }

  /** Whatever the two files hold, the registry they load is consistent. */
  lemma {:induction false} LoadedRegistryConsistent(candidateLines: seq<string>, voterLines: seq<string>)
    ensures Consistent(LoadVoters(LoadCandidates(Empty, candidateLines), voterLines))
  {
    LoadCandidatesKeepsConsistent(Empty, candidateLines);
    LoadVotersKeepsConsistent(LoadCandidates(Empty, candidateLines), voterLines);
  }

  lemma {:induction false} LoadCandidatesKeepsConsistent(r: Registry, lines: seq<string>)
    requires Consistent(r)
    ensures Consistent(LoadCandidates(r, lines))
    decreases |lines|
  {
    if lines != [] {
      LoadCandidateLineKeepsConsistent(r, lines[0]);
      LoadCandidatesKeepsConsistent(LoadCandidateLine(r, lines[0]), lines[1..]);
    }
  }

  lemma {:induction false} LoadVotersKeepsConsistent(r: Registry, lines: seq<string>)
    requires Consistent(r)
    ensures Consistent(LoadVoters(r, lines))
    decreases |lines|
  {
    if lines != [] {
      LoadVoterLineKeepsConsistent(r, lines[0]);
      LoadVotersKeepsConsistent(LoadVoterLine(r, lines[0]), lines[1..]);
    }
  }

  // ---------------------------------------------------------------------------
  // Whole files

  /** The lines WriteCandidateDataToCSV writes, one per admitted candidate in list order (election.cpp:1702-1719). */
  function CandidateFile(cs: seq<CandidateRecord>): (lines: seq<string>)
    ensures |lines| == |cs|
  {
    seq(|cs|, i requires 0 <= i < |cs| => FormatCandidate(cs[i]))
  }

  /** The lines WriteVoterDataToCSV writes, one per admitted voter in list order (election.cpp:1684-1698). */
  function VoterFile(vs: seq<VoterRecord>): (lines: seq<string>)
    ensures |lines| == |vs|
  {
    seq(|vs|, i requires 0 <= i < |vs| => FormatVoter(vs[i]))
  }

  /** A candidate record that survives being written and loaded again: comma-free fields that pass every format check. */
  predicate Writable(c: CandidateRecord)
  {
    && ',' !in c.id && ',' !in c.name && ',' !in c.symbol && ',' !in c.region
    && c.votes >= 0
    && IdWellFormed(c.id)
    && ValidateCandidateName(c.name) == Accepted
    && ValidateCandidateName(c.symbol) == Accepted
    && ValidateRegionCode(c.region) == Accepted
  }

  /**
   * `r'` is `r` with the candidates `cs` admitted in order: the list grows by
   * `cs`, their IDs and symbols join the indices, each gets a ledger entry
   * holding its count, every other entry is kept, and nothing else changes.
   */
  ghost predicate CandidatesAppended(r: Registry, r': Registry, cs: seq<CandidateRecord>)
  {
    && r'.validCandidates == r.validCandidates + cs
    && r'.idSet == r.idSet + CandidateIds(cs)
    && r'.symbolSet == r.symbolSet + Symbols(cs)
    && r'.votesSet.Keys == r.votesSet.Keys + CandidateIds(cs)
    && (forall i :: 0 <= i < |cs| ==> Ledger(r'.votesSet, cs[i].id) == cs[i].votes as int)
    && (forall id :: id !in CandidateIds(cs) ==> Ledger(r'.votesSet, id) == Ledger(r.votesSet, id))
    && r'.(validCandidates := r.validCandidates, idSet := r.idSet, symbolSet := r.symbolSet,
           votesSet := r.votesSet) == r
  }

  /**
   * Loading a written candidate file admits exactly the candidates that were
   * written, in order, with their indices and ledger entries, when each is
   * writable, the IDs and symbols are unique, and none is already indexed.
   */
  lemma CandidateFileReloads(r: Registry, cs: seq<CandidateRecord>)
    requires forall i :: 0 <= i < |cs| ==> Writable(cs[i])
    requires UniqueIds(cs) && UniqueSymbols(cs)
    requires forall i :: 0 <= i < |cs| ==> cs[i].id !in r.idSet && cs[i].symbol !in r.symbolSet
    ensures CandidatesAppended(r, LoadCandidates(r, CandidateFile(cs)), cs)
  {
    var lines := CandidateFile(cs);
    forall i | 0 <= i < |cs|
      ensures ParseCandidate(lines[i]) == cs[i]
    {
      CandidateRoundTrip(cs[i]);
    }
    ParsedLinesLoad(r, lines, cs);
  }

  /** Lines that parse as fresh, admissible candidates are all admitted, in order. */
  lemma {:induction false} ParsedLinesLoad(r: Registry, lines: seq<string>, cs: seq<CandidateRecord>)
    requires |lines| == |cs| && forall i :: 0 <= i < |cs| ==> ParseCandidate(lines[i]) == cs[i]
    requires forall i :: 0 <= i < |cs| ==> Writable(cs[i])
    requires UniqueIds(cs) && UniqueSymbols(cs)
    requires forall i :: 0 <= i < |cs| ==> cs[i].id !in r.idSet && cs[i].symbol !in r.symbolSet
    ensures CandidatesAppended(r, LoadCandidates(r, lines), cs)
    decreases |cs|
  {
    if cs == [] {
      assert r.validCandidates + cs == r.validCandidates;
    } else {
      var r1 := AdmitFirstLine(r, lines, cs);
      RestStaysFresh(r, cs);
      assert forall i :: 0 <= i < |cs[1..]| ==> ParseCandidate(lines[1..][i]) == cs[1..][i];
      ParsedLinesLoad(r1, lines[1..], cs[1..]);
      AppendAfterFirst(r.validCandidates, cs);
      AppendedAfterFirst(r, r1, LoadCandidates(r, lines), cs);
    }
  }

  /** Admitting the first record and then the others admits them all. */
  lemma AppendedAfterFirst(r: Registry, r1: Registry, r2: Registry, cs: seq<CandidateRecord>)
    requires cs != [] && UniqueIds(cs)
    requires r1 == r.(validCandidates := r.validCandidates + [cs[0]], idSet := r.idSet + {cs[0].id},
                      symbolSet := r.symbolSet + {cs[0].symbol}, votesSet := r.votesSet[cs[0].id := cs[0].votes as int])
    requires CandidatesAppended(r1, r2, cs[1..])
    requires r2.validCandidates == r.validCandidates + cs
    ensures CandidatesAppended(r, r2, cs)
  {
    var tail := cs[1..];
    KeysPrependCandidate(cs);
    forall i | 0 <= i < |cs|
      ensures Ledger(r2.votesSet, cs[i].id) == cs[i].votes as int
    {
      if i > 0 {
        assert cs[i] == tail[i - 1];
      }
    }
  }

  /**
   * The first line is admitted: the registry after it has the first record
   * appended and indexed, and the rest of the file loads from there.
   */
  lemma AdmitFirstLine(r: Registry, lines: seq<string>, cs: seq<CandidateRecord>) returns (r1: Registry)
    requires |lines| == |cs| && cs != [] && ParseCandidate(lines[0]) == cs[0] && Writable(cs[0])
    requires cs[0].id !in r.idSet && cs[0].symbol !in r.symbolSet
    ensures LoadCandidates(r, lines) == LoadCandidates(r1, lines[1..])
    ensures r1 == r.(validCandidates := r.validCandidates + [cs[0]], idSet := r.idSet + {cs[0].id},
                     symbolSet := r.symbolSet + {cs[0].symbol}, votesSet := r.votesSet[cs[0].id := cs[0].votes as int])
  {
    assert Admissible(cs[0], r.idSet, r.symbolSet);
    r1 := LoadCandidateLine(r, lines[0]);
  }

  lemma AppendAfterFirst<T>(s: seq<T>, cs: seq<T>)
    requires cs != []
    ensures (s + [cs[0]]) + cs[1..] == s + cs
  {
    assert cs == [cs[0]] + cs[1..];
  }

  /** After the first record is admitted, the others are still writable, unique and not indexed. */
  lemma RestStaysFresh(r: Registry, cs: seq<CandidateRecord>)
    requires cs != []
    requires forall i :: 0 <= i < |cs| ==> Writable(cs[i])
    requires UniqueIds(cs) && UniqueSymbols(cs)
    requires forall i :: 0 <= i < |cs| ==> cs[i].id !in r.idSet && cs[i].symbol !in r.symbolSet
    ensures var tail := cs[1..];
      && (forall i :: 0 <= i < |tail| ==> Writable(tail[i]))
      && UniqueIds(tail) && UniqueSymbols(tail)
      && forall i :: 0 <= i < |tail| ==> tail[i].id !in r.idSet + {cs[0].id} && tail[i].symbol !in r.symbolSet + {cs[0].symbol}
  {
    var tail := cs[1..];
    forall i | 0 <= i < |tail|
      ensures Writable(tail[i]) && tail[i].id !in r.idSet + {cs[0].id} && tail[i].symbol !in r.symbolSet + {cs[0].symbol}
    {
      assert tail[i] == cs[i + 1];
    }
    forall i, j | 0 <= i < j < |tail|
      ensures tail[i].id != tail[j].id && tail[i].symbol != tail[j].symbol
    {
      assert tail[i] == cs[i + 1] && tail[j] == cs[j + 1];
    }
  }

  /**
   * `r'` is `r` with the voters `vs` admitted in order: the list grows by
   * `vs`, their Aadhaar IDs join checkAadhar, and nothing else changes.
   */
  ghost predicate VotersAppended(r: Registry, r': Registry, vs: seq<VoterRecord>)
  {
    && r'.validVoters == r.validVoters + vs
    && r'.checkAadhar == r.checkAadhar + Aadhaars(vs)
    && r'.(validVoters := r.validVoters, checkAadhar := r.checkAadhar) == r
  }

  /**
   * Loading a written voter file admits the voters that were written, in
   * order, and indexes their Aadhaar IDs, when those are valid, unique and
   * not yet indexed; nothing else changes.
   */
  lemma {:induction false} VoterFileReloads(r: Registry, vs: seq<VoterRecord>)
    requires forall i :: 0 <= i < |vs| ==> IsValidAadhar(vs[i].aadhar) && vs[i].aadhar !in r.checkAadhar
    requires UniqueAadhaars(vs)
    ensures VotersAppended(r, LoadVoters(r, VoterFile(vs)), vs)
    decreases |vs|
  {
    if vs == [] {
      assert r.validVoters + vs == r.validVoters;
    } else {
      var r1 := AdmitFirstVoter(r, vs);
      VoterFileReloads(r1, vs[1..]);
      VotersAppendedAfterFirst(r, r1, LoadVoters(r1, VoterFile(vs[1..])), vs);
    }
  }

  /** Admitting the first voter and then the others admits them all. */
  lemma VotersAppendedAfterFirst(r: Registry, r1: Registry, r2: Registry, vs: seq<VoterRecord>)
    requires vs != []
    requires r1 == r.(checkAadhar := r.checkAadhar + {vs[0].aadhar}, validVoters := r.validVoters + [vs[0]])
    requires VotersAppended(r1, r2, vs[1..])
    ensures VotersAppended(r, r2, vs)
  {
    assert r.validVoters + [vs[0]] + vs[1..] == r.validVoters + vs;
    KeysPrependVoter(vs);
  }

  /**
   * The first line of a written voter file is admitted: the registry after
   * it has the first voter appended and indexed, the others are still
   * valid, unique and not indexed, and the rest of the file loads from there.
   */
  lemma AdmitFirstVoter(r: Registry, vs: seq<VoterRecord>) returns (r1: Registry)
    requires vs != []
    requires forall i :: 0 <= i < |vs| ==> IsValidAadhar(vs[i].aadhar) && vs[i].aadhar !in r.checkAadhar
    requires UniqueAadhaars(vs)
    ensures r1 == r.(checkAadhar := r.checkAadhar + {vs[0].aadhar}, validVoters := r.validVoters + [vs[0]])
    ensures LoadVoters(r, VoterFile(vs)) == LoadVoters(r1, VoterFile(vs[1..]))
    ensures forall i :: 0 <= i < |vs[1..]| ==> IsValidAadhar(vs[1..][i].aadhar) && vs[1..][i].aadhar !in r1.checkAadhar
    ensures UniqueAadhaars(vs[1..])
  {
    var v := vs[0];
    assert ',' !in v.aadhar;
    VoterRoundTrip(v);
    assert VoterFile(vs)[0] == FormatVoter(v);
    assert VoterFile(vs)[1..] == VoterFile(vs[1..]);
    r1 := LoadVoterLine(r, FormatVoter(v));
    assert Field(FormatVoter(v), 1) == "1" <==> v.voted;
    forall i | 0 <= i < |vs[1..]|
      ensures IsValidAadhar(vs[1..][i].aadhar) && vs[1..][i].aadhar !in r1.checkAadhar
    {
      assert vs[1..][i] == vs[i + 1];
    }
    forall i, j | 0 <= i < j < |vs[1..]|
      ensures vs[1..][i].aadhar != vs[1..][j].aadhar
    {
      assert vs[1..][i] == vs[i + 1] && vs[1..][j] == vs[j + 1];
    }
  }

  /**
   * Writing a consistent registry and loading both files into an empty one
   * gives back the same lists, the same indices and the same ledger counts,
   * when every candidate is writable and every Aadhaar ID valid; the lists
   * of records that failed a check come back empty, since they are not
   * written.
   */
  lemma RegistryReloads(r: Registry)
    requires Consistent(r)
    requires forall i :: 0 <= i < |r.validCandidates| ==> Writable(r.validCandidates[i])
    requires forall i :: 0 <= i < |r.validVoters| ==> IsValidAadhar(r.validVoters[i].aadhar)
    ensures var r' := LoadVoters(LoadCandidates(Empty, CandidateFile(r.validCandidates)), VoterFile(r.validVoters));
      && r'.validCandidates == r.validCandidates && r'.validVoters == r.validVoters
      && r'.idSet == r.idSet && r'.symbolSet == r.symbolSet && r'.checkAadhar == r.checkAadhar
      && (forall id :: Ledger(r'.votesSet, id) == Ledger(r.votesSet, id))
      && r'.invalidCandidates == [] && r'.invalidVoters == []
  {
    var cs, vs := r.validCandidates, r.validVoters;
    var r1 := LoadCandidates(Empty, CandidateFile(cs));
    CandidatesReloadIntoEmpty(r);
    VoterFileReloads(r1, vs);
  }

  /** The candidate half of RegistryReloads: the reloaded ledger reads as the written one everywhere. */
  lemma CandidatesReloadIntoEmpty(r: Registry)
    requires Consistent(r)
    requires forall i :: 0 <= i < |r.validCandidates| ==> Writable(r.validCandidates[i])
    ensures var r1 := LoadCandidates(Empty, CandidateFile(r.validCandidates));
      && r1 == Empty.(validCandidates := r.validCandidates, idSet := r.idSet, symbolSet := r.symbolSet,
                      votesSet := r1.votesSet)
      && forall id :: Ledger(r1.votesSet, id) == Ledger(r.votesSet, id)
  {
    var cs := r.validCandidates;
    assert UniqueIds(cs) && UniqueSymbols(cs);
    CandidateFileReloads(Empty, cs);
    var r1 := LoadCandidates(Empty, CandidateFile(cs));
    assert CandidatesAppended(Empty, r1, cs);
    assert r1.idSet == CandidateIds(cs) && r1.symbolSet == Symbols(cs) && r1.validCandidates == cs;
    assert r1.(validCandidates := [], idSet := {}, symbolSet := {}, votesSet := map[]) == Empty;
    assert r1.votesSet.Keys <= CandidateIds(cs);
    assert r.votesSet.Keys <= CandidateIds(cs);
    assert forall i :: 0 <= i < |cs| ==> Ledger(r1.votesSet, cs[i].id) == cs[i].votes as int;
    forall i | 0 <= i < |cs|
      ensures Ledger(r.votesSet, cs[i].id) == cs[i].votes as int
    {
      assert cs[i] in cs;
    }
    SameLedger(r1.votesSet, r.votesSet, cs);
  }

  /** Two ledgers that hold the same count for every listed candidate and nothing for anyone else read the same. */
  lemma SameLedger(m1: map<string, int>, m2: map<string, int>, cs: seq<CandidateRecord>)
    requires forall i :: 0 <= i < |cs| ==> Ledger(m1, cs[i].id) == cs[i].votes as int == Ledger(m2, cs[i].id)
    requires m1.Keys <= CandidateIds(cs) && m2.Keys <= CandidateIds(cs)
    ensures forall id :: Ledger(m1, id) == Ledger(m2, id)
  {
    forall id
      ensures Ledger(m1, id) == Ledger(m2, id)
    {
      if id in CandidateIds(cs) {
        var c :| c in cs && c.id == id;
        var i :| 0 <= i < |cs| && cs[i] == c;
      }
    }
  }
}
