/** The name check and the retry-until-valid readers of ch1.cpp. The console is
    replaced by the sequence of inputs it would deliver; a reader that exhausts
    the sequence reports None where the program would keep prompting. */
module ConsoleInput {
  import opened CCtype
  import opened CLimits

  datatype Option<T> = None | Some(value: T)

  /** The outcome of one `std::cin >> value`: the 32-bit int it stored, or a failed
      extraction (which is also what text outside the range of `int` gives). */
  datatype Extraction = Extracted(value: Int32) | Failed

  /** A character isValidName accepts: a letter, a space or a hyphen. */
  predicate IsNameChar(c: char) {
    IsAlpha(c) || c == ' ' || c == '-'
  }

  /** The scan of isValidName: false at the first character outside the name alphabet. */
  predicate AllNameChars(s: string) {
    s == [] || (IsNameChar(s[0]) && AllNameChars(s[1..]))
  }

  /** isValidName(name): false for the empty string, otherwise the scan. */
  predicate IsValidName(name: string)
    ensures IsValidName(name) ==> 0 < |name| && IsNameChar(name[0])
  {
    name != [] && AllNameChars(name)
  }

  lemma {:induction false} AllNameCharsIff(s: string)
    ensures AllNameChars(s) <==> forall i :: 0 <= i < |s| ==> IsNameChar(s[i])
  {
    if s != [] {
      AllNameCharsIff(s[1..]);
      assert forall i :: 1 <= i < |s| ==> s[i] == s[1..][i - 1];
    }
  }

  /** A name is accepted exactly when it is non-empty and made of letters, spaces and hyphens. */
  lemma IsValidNameIff(s: string)
    ensures IsValidName(s) <==> |s| > 0 && forall i :: 0 <= i < |s| ==> IsNameChar(s[i])
  {
    AllNameCharsIff(s);
  }

  /** One character outside the alphabet, such as the digit of "John3", rejects the name. */
  lemma BadCharRejects(s: string, i: int)
    requires 0 <= i < |s| && !IsNameChar(s[i])
    ensures !IsValidName(s)
  {
    IsValidNameIff(s);
  }

  /** Two valid names joined are a valid name. */
  lemma ValidNameConcat(s: string, t: string)
    requires IsValidName(s) && IsValidName(t)
    ensures IsValidName(s + t)
  {
    IsValidNameIff(s);
    IsValidNameIff(t);
    IsValidNameIff(s + t);
    assert forall i :: |s| <= i < |s + t| ==> (s + t)[i] == t[i - |s|];
  }

  lemma NameExamples()
    ensures !IsValidName("")
    ensures !IsValidName("John3")
    ensures IsValidName("Mary-Jane O")
  {
    BadCharRejects("John3", 4);
    IsValidNameIff("Mary-Jane O");
  }

  /** getValidStringInput: reads one line per prompt until isValidName accepts it.
      `prompts` is the number of lines read; every line before the accepted one
      was rejected. */
  method GetValidStringInput(lines: seq<string>) returns (input: Option<string>, prompts: nat)
    ensures prompts <= |lines|
    ensures input.Some? ==> 0 < prompts && input.value == lines[prompts - 1]
    ensures input.Some? ==> IsValidName(input.value)
    ensures input.None? ==> prompts == |lines|
    ensures forall j :: 0 <= j < prompts - 1 ==> !IsValidName(lines[j])
    ensures input.None? ==> forall j :: 0 <= j < |lines| ==> !IsValidName(lines[j])
  {
    var validInput := false;
    input := None;
    prompts := 0;
    while !validInput && prompts < |lines|
      invariant prompts <= |lines|
      invariant validInput <==> input.Some?
      invariant validInput ==> 0 < prompts && input.value == lines[prompts - 1] && IsValidName(input.value)
      invariant forall j :: 0 <= j < prompts - 1 ==> !IsValidName(lines[j])
      invariant !validInput ==> forall j :: 0 <= j < prompts ==> !IsValidName(lines[j])
    {
      var line := lines[prompts];
      prompts := prompts + 1;
      if IsValidName(line) {
        validInput := true;
        input := Some(line);
      }
    }
  }

  /** getValidIntegerInput: extracts one int per prompt and, after each failed
      extraction, discards the rest of the line and prompts again. */
  method GetValidIntegerInput(tokens: seq<Extraction>) returns (value: Option<Int32>, prompts: nat)
    ensures prompts <= |tokens|
    ensures value.Some? ==> 0 < prompts && tokens[prompts - 1] == Extracted(value.value)
    ensures value.None? ==> prompts == |tokens|
    ensures forall j :: 0 <= j < prompts - 1 ==> tokens[j] == Failed
    ensures value.None? ==> forall j :: 0 <= j < |tokens| ==> tokens[j] == Failed
  {
    var validInput := false;
    value := None;
    prompts := 0;
    while !validInput && prompts < |tokens|
      invariant prompts <= |tokens|
      invariant validInput <==> value.Some?
      invariant validInput ==> 0 < prompts && tokens[prompts - 1] == Extracted(value.value)
      invariant forall j :: 0 <= j < prompts - 1 ==> tokens[j] == Failed
      invariant !validInput ==> forall j :: 0 <= j < prompts ==> tokens[j] == Failed
    {
      var token := tokens[prompts];
      prompts := prompts + 1;
      match token
      case Extracted(v) =>
        validInput := true;
        value := Some(v);
      case Failed =>
    }
  }
}
