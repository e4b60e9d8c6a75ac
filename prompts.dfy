/**
 * Operator input. The console of the source (std::cin read through
 * GetValidString, GetValidChar and GetChoice) becomes a finite sequence of
 * typed answers that each operation consumes. A prompt that finds the input
 * used up, or finds an answer of another kind than it asks for, ends the
 * session, as end of input does in the source.
 *
 * Every field entry of the source follows one pattern: read a value; if the
 * field's check accepts it, go on; otherwise ask "Do you want to continue ?
 * n for back" and read one character, where 'n' gives up and any other
 * character asks for the value again.
 */
module Prompts {
  import opened Wrappers

  /** One answer of the operator: a line of text, a character or an integer. */
  datatype Token = Line(text: string) | Key(key: char) | Choice(number: int)

  function AsLine(t: Token): Option<string> { if t.Line? then Some(t.text) else None }

  function AsChoice(t: Token): Option<int> { if t.Choice? then Some(t.number) else None }

  /** How a prompt ends: with an accepted value, with the operator going back, or with no input left. */
  datatype Prompted<T> = Answered(value: T, rest: seq<Token>) | Declined(rest: seq<Token>) | Exhausted

  /** `rest` is what is left of `input` after at least one answer was read. */
  ghost predicate ConsumedFrom(rest: seq<Token>, input: seq<Token>)
  {
    |rest| < |input| && rest == input[|input| - |rest|..]
  }

  /** The accept / retry / go-back loop around one field. */
  function Prompt<T>(input: seq<Token>, read: Token -> Option<T>, accept: T -> bool): (p: Prompted<T>)
    ensures p.Answered? ==> accept(p.value) && |p.rest| < |input|
    ensures p.Declined? ==> |p.rest| + 2 <= |input|
    decreases |input|
  {
    if input == [] || read(input[0]).None? then Exhausted
    else if accept(read(input[0]).value) then Answered(read(input[0]).value, input[1..])
    else if |input| == 1 || !input[1].Key? then Exhausted
    else if input[1].key == 'n' then Declined(input[2..])
    else Prompt(input[2..], read, accept)
  }

  /** The loop without a way back (the voting-status entry of ModifyVoter, election.cpp:1221-1235). */
  function Insist<T>(input: seq<Token>, read: Token -> Option<T>, accept: T -> bool): (p: Prompted<T>)
    ensures p.Answered? ==> accept(p.value) && |p.rest| < |input|
    ensures !p.Declined?
    decreases |input|
  {
    if input == [] || read(input[0]).None? then Exhausted
    else if accept(read(input[0]).value) then Answered(read(input[0]).value, input[1..])
    else Insist(input[1..], read, accept)
  }

  /**
   * A prompt ends with a value the check accepts, typed by the operator, or
   * with a 'n' answer; either way it has consumed input.
   */
  lemma {:induction false} PromptOutcome<T>(input: seq<Token>, read: Token -> Option<T>, accept: T -> bool)
    ensures Prompt(input, read, accept).Answered? ==>
      var p := Prompt(input, read, accept);
      accept(p.value) && ConsumedFrom(p.rest, input) && read(input[|input| - |p.rest| - 1]) == Some(p.value)
    ensures Prompt(input, read, accept).Declined? ==>
      var p := Prompt(input, read, accept);
      ConsumedFrom(p.rest, input) && input[|input| - |p.rest| - 1] == Key('n')
    decreases |input|
  {
    if input == [] || read(input[0]).None? {
    } else if accept(read(input[0]).value) {
    } else if |input| == 1 || !input[1].Key? {
    } else if input[1].key == 'n' {
    } else {
      PromptOutcome(input[2..], read, accept);
      var p := Prompt(input[2..], read, accept);
      if !p.Exhausted? {
        assert input[2..][|input| - 2 - |p.rest|..] == input[|input| - |p.rest|..];
      }
    }
  }

  /** Only 'n' goes back: a rejected value followed by any other character is a retry. */
  lemma PromptRetries<T>(v: Token, c: char, more: seq<Token>, read: Token -> Option<T>, accept: T -> bool)
    requires read(v).Some? && !accept(read(v).value) && c != 'n'
    ensures Prompt([v, Key(c)] + more, read, accept) == Prompt(more, read, accept)
  {
    assert ([v, Key(c)] + more)[2..] == more;
  }

  /** A value the check accepts on the first try is taken at once. */
  lemma PromptFirstTry<T>(v: Token, more: seq<Token>, read: Token -> Option<T>, accept: T -> bool)
    requires read(v).Some? && accept(read(v).value)
    ensures Prompt([v] + more, read, accept) == Answered(read(v).value, more)
  {
    assert ([v] + more)[1..] == more;
  }

  lemma {:induction false} InsistOutcome<T>(input: seq<Token>, read: Token -> Option<T>, accept: T -> bool)
    ensures Insist(input, read, accept).Answered? ==>
      var p := Insist(input, read, accept);
      accept(p.value) && ConsumedFrom(p.rest, input)
    decreases |input|
  {
    if input != [] && read(input[0]).Some? && !accept(read(input[0]).value) {
      InsistOutcome(input[1..], read, accept);
      var p := Insist(input[1..], read, accept);
      if p.Answered? {
        assert input[1..][|input| - 1 - |p.rest|..] == input[|input| - |p.rest|..];
      }
    }
  }

  /** The prompt loop itself (for instance election.cpp:541-555). */
  method Ask<T>(input: seq<Token>, read: Token -> Option<T>, accept: T -> bool) returns (p: Prompted<T>)
    ensures p == Prompt(input, read, accept)
  {
    var rest := input;
    while rest != [] && read(rest[0]).Some?
      invariant Prompt(rest, read, accept) == Prompt(input, read, accept)
      decreases |rest|
    {
      var value := read(rest[0]).value;
      if accept(value) {
        return Answered(value, rest[1..]);
      }
      if |rest| == 1 || !rest[1].Key? {
        return Exhausted;
      }
      if rest[1].key == 'n' {
        return Declined(rest[2..]);
      }
      rest := rest[2..];
    }
    p := Exhausted;
  }

  /** The retry loop without a way back (election.cpp:1221-1235). */
  method AskUntil<T>(input: seq<Token>, read: Token -> Option<T>, accept: T -> bool) returns (p: Prompted<T>)
    ensures p == Insist(input, read, accept)
  {
    var rest := input;
    while rest != [] && read(rest[0]).Some?
      invariant Insist(rest, read, accept) == Insist(input, read, accept)
      decreases |rest|
    {
      var value := read(rest[0]).value;
      if accept(value) {
        return Answered(value, rest[1..]);
      }
      rest := rest[1..];
    }
    p := Exhausted;
  }
}
