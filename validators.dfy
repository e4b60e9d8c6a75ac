/**
 * The field validators of the election registry (election.cpp:88-269 and
 * 393-420). Each validator of the source returns a bool and writes a message
 * into `errorMessage`; here the validators that write a message return a
 * `Verdict` carrying the reason instead. Character classes are ASCII.
 */
module Validators {
  import opened Wrappers

  /** The largest value of the source's `int`. */
  const INT_MAX: int := 0x7fff_ffff

  /** The source's 32-bit `int` (candidate vote counts, `Convert2Int`). */
  newtype int32 = x: int | -0x8000_0000 <= x <= 0x7fff_ffff

  /** Why a value was rejected: one constructor per message of the source. */
  datatype Reason =
    | IdTaken            // "Candidate ID already exists. ..."
    | IdFormat           // "Invalid Candidate ID format."
    | IdComposition      // "Candidate ID should contain at least one alpha and one numeric character."
    | NameLength         // "Invalid Candidate Name length."
    | NameCharacters     // "Invalid characters in Candidate Name. ..."
    | SymbolTaken        // "Party Symbol already exists. ..."
    | SymbolLength       // "Invalid Party Symbol length."
    | SymbolCharacters   // "Invalid characters in Party Symbol. ..."
    | RegionComposition  // "Region Code should contain at least one alpha and one numeric character."

  datatype Verdict = Accepted | Rejected(reason: Reason)

  // ---------------------------------------------------------------------------
  // Character classes and the standard algorithms the validators use

  /** `::isdigit` in the C locale. */
  predicate IsDigit(c: char) { '0' <= c <= '9' }

  /** `::isalpha` in the C locale. */
  predicate IsAlpha(c: char) { 'A' <= c <= 'Z' || 'a' <= c <= 'z' }

  /** `std::any_of(s, ::isdigit)` */
  predicate AnyDigit(s: string) { exists i :: 0 <= i < |s| && IsDigit(s[i]) }

  /** `std::any_of(s, ::isalpha)` */
  predicate AnyAlpha(s: string) { exists i :: 0 <= i < |s| && IsAlpha(s[i]) }

  /** `std::none_of(s, ::isdigit)` */
  predicate NoDigit(s: string) { forall i :: 0 <= i < |s| ==> !IsDigit(s[i]) }

  /** `std::none_of(s, ::isalpha)` */
  predicate NoAlpha(s: string) { forall i :: 0 <= i < |s| ==> !IsAlpha(s[i]) }

  /** `std::all_of(s, ::isdigit)` */
  predicate AllDigits(s: string) { forall i :: 0 <= i < |s| ==> IsDigit(s[i]) }

  /** `std::all_of(s, ::isalpha)` */
  predicate AllAlpha(s: string) { forall i :: 0 <= i < |s| ==> IsAlpha(s[i]) }

  /** `s[i]` on a `std::string`: position `size()` holds the terminating '\0'. */
  function CharAt(s: string, i: nat): char
    requires i <= |s|
  {
    if i < |s| then s[i] else '\0'
  }

  // ---------------------------------------------------------------------------
  // Candidate fields

  /** Well-formed candidate ID: 3 to 5 characters with a digit and a letter. */
  predicate IdWellFormed(id: string) { 3 <= |id| <= 5 && AnyDigit(id) && AnyAlpha(id) }

  /**
   * ValidateCandidateID (election.cpp:88-113). Uniqueness is tested first and
   * has its own reason; the third test of the source can never reject, since
   * the second already rejected every ID without a digit or without a letter.
   */
  function ValidateCandidateID(id: string, idSet: set<string>): (v: Verdict)
    ensures v == Accepted <==> id !in idSet && IdWellFormed(id)
    ensures v == Rejected(IdTaken) <==> id in idSet
    ensures v == Rejected(IdFormat) <==> id !in idSet && !IdWellFormed(id)
    ensures v != Rejected(IdComposition)
  {
    if id in idSet then Rejected(IdTaken)
    else if |id| < 3 || |id| > 5 || !AnyDigit(id) || !AnyAlpha(id) then Rejected(IdFormat)
    else if NoDigit(id) || NoAlpha(id) then Rejected(IdComposition)
    else Accepted
  }

  /** ValidateCandidateName (election.cpp:122-145): 2 to 20 letters. */
  function ValidateCandidateName(name: string): (v: Verdict)
    ensures v == Accepted <==> 2 <= |name| <= 20 && AllAlpha(name)
    ensures v == Rejected(NameLength) <==> !(2 <= |name| <= 20)
    ensures v.Rejected? ==> v.reason == NameLength || v.reason == NameCharacters
  {
    if |name| < 2 || |name| > 20 then Rejected(NameLength)
    else if !AllAlpha(name) then Rejected(NameCharacters)
    else Accepted
  }

  /**
   * ValidatePartySymbol (election.cpp:155-184): a symbol not yet in use that
   * would pass as a candidate name; uniqueness is tested first.
   */
  function ValidatePartySymbol(symbol: string, symbolSet: set<string>): (v: Verdict)
    ensures v == Accepted <==> symbol !in symbolSet && ValidateCandidateName(symbol) == Accepted
    ensures v == Rejected(SymbolTaken) <==> symbol in symbolSet
    ensures v.Rejected? ==> v.reason in {SymbolTaken, SymbolLength, SymbolCharacters}
  {
    if symbol in symbolSet then Rejected(SymbolTaken)
    else if |symbol| < 2 || |symbol| > 20 then Rejected(SymbolLength)
    else if !AllAlpha(symbol) then Rejected(SymbolCharacters)
    else Accepted
  }

  /**
   * ValidateRegionCode (election.cpp:193-209): a digit and a letter somewhere;
   * the length of 3 to 5 that the source's comment announces is not checked.
   */
  function ValidateRegionCode(code: string): (v: Verdict)
    ensures v == Accepted <==> AnyDigit(code) && AnyAlpha(code)
    ensures v.Rejected? ==> v.reason == RegionComposition
  {
    if NoDigit(code) || NoAlpha(code) then Rejected(RegionComposition)
    else Accepted
  }

  // ---------------------------------------------------------------------------
  // Numbers

  function DigitValue(c: char): nat
    requires IsDigit(c)
  {
    (c as int) - ('0' as int)
  }

  /** The value of a string of decimal digits, most significant first. */
  function DecimalValue(s: string): nat
    requires AllDigits(s)
  {
    if s == [] then 0 else 10 * DecimalValue(s[..|s| - 1]) + DigitValue(s[|s| - 1])
  }

  /**
   * `std::stoi` on the strings the model hands it: a non-empty run of digits
   * whose value fits an `int` converts; anything else throws (None).
   */
  function Stoi(str: string): Option<int>
  {
    if str != [] && AllDigits(str) && DecimalValue(str) <= INT_MAX then Some(DecimalValue(str)) else None
  }

  /** IsValidNumber (election.cpp:219-246). */
  function IsValidNumber(str: string): (b: bool)
    ensures b <==> str != [] && AllDigits(str) && DecimalValue(str) <= INT_MAX
  {
    if str == [] then false
    else if !AllDigits(str) then false
    else match Stoi(str)
      case None => false
      case Some(value) => value >= 0
  }

  /** Convert2Int (election.cpp:256-269): the value, or 0 on failure. */
  function Convert2Int(str: string): (r: int32)
    ensures r >= 0
    ensures IsValidNumber(str) ==> r as int == DecimalValue(str)
    ensures !IsValidNumber(str) ==> r == 0
  {
    match Stoi(str)
    case None => 0
    case Some(value) => (if value >= 0 then value else 0) as int32
  }

  /**
   * The conversion of a 64-bit ledger value to the `int` that
   * Candidate::SetVotes takes: two's complement wrap-around.
   */
  function Int32Of(x: int): (r: int32)
    ensures -0x8000_0000 <= x <= INT_MAX ==> r as int == x
    ensures (r as int - x) % 0x1_0000_0000 == 0
  {
    ((x + 0x8000_0000) % 0x1_0000_0000 - 0x8000_0000) as int32
  }

  // ---------------------------------------------------------------------------
  // Voter fields

  /** IsValidAadhar (election.cpp:393-406): twelve digits, the first not '0'. */
  function IsValidAadhar(aadhar: string): (b: bool)
    ensures b <==> |aadhar| == 12 && aadhar[0] != '0' && AllDigits(aadhar)
  {
    CharAt(aadhar, 0) != '0' && |aadhar| == 12 && AllDigits(aadhar)
  }

  /** IsValidStatus (election.cpp:408-420): "0" (not voted) or "1" (voted). */
  function IsValidStatus(status: string): (b: bool)
    ensures b <==> status == "0" || status == "1"
  {
    |status| == 1 && (status == "0" || status == "1")
  }

  // ---------------------------------------------------------------------------
  // Examples

  lemma ValidatorExamples()
    ensures ValidateCandidateID("C1a", {}) == Accepted
    ensures ValidateCandidateID("CC", {}) == Rejected(IdFormat)
    ensures ValidateCandidateID("C1a", {"C1a"}) == Rejected(IdTaken)
    ensures ValidateCandidateName("Alice") == Accepted
    ensures ValidatePartySymbol("Red", {}) == Accepted
    ensures ValidateRegionCode("R1a") == Accepted
    ensures ValidateRegionCode("Region123456") == Accepted
    ensures !IsValidAadhar("012345678901") && IsValidAadhar("123456789012")
  {
    assert IsDigit("C1a"[1]) && IsAlpha("C1a"[0]);
    assert IsDigit("R1a"[1]) && IsAlpha("R1a"[0]);
    assert IsDigit("Region123456"[6]) && IsAlpha("Region123456"[0]);
  }
}
