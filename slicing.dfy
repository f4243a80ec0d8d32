/**
  The string-slicing helpers at the root of src/lib.rs. Each returns a piece of its input and the
  `Rest` after it; `Rest` is a marker wrapper in the source and is a plain `seq<char>` here.
*/
module Slicing {
  import opened Wrappers

  /** The index of the first char `checker` rejects, or `|input|` when it accepts every char. */
  function FirstRejected(input: seq<char>, checker: char -> bool): (k: nat)
    ensures k <= |input|
    ensures forall j | 0 <= j < k :: checker(input[j])
    ensures k < |input| ==> !checker(input[k])
    decreases |input|
  {
    if input == [] || !checker(input[0]) then 0
    else 1 + FirstRejected(input[1..], checker)
  }

  /**
    Where `split_until` as written cuts its input: at the end when `checker` accepts every char,
    and otherwise one char short of the first rejected char (at the start when that is the first).
  */
  function SplitPoint(input: seq<char>, checker: char -> bool): nat {
    var k := FirstRejected(input, checker);
    if k == |input| then k else if k == 0 then 0 else k - 1
  }

  /**
    `split_until`, as written: the cursor `oldIndex` is moved to the start of each accepted char,
    not past it, so the prefix it returns stops one char short of the first rejected char.
  */
  method SplitUntil(input: seq<char>, checker: char -> bool) returns (prefix: seq<char>, rest: seq<char>)
    ensures prefix + rest == input
    ensures prefix == input[..SplitPoint(input, checker)]
    ensures forall j | 0 <= j < |prefix| :: checker(prefix[j])
    ensures (forall j | 0 <= j < |input| :: checker(input[j])) ==> prefix == input && rest == []
  {
    var i := 0;
    var oldIndex := 0;
    while i < |input|
      invariant i <= |input|
      invariant forall j | 0 <= j < i :: checker(input[j])
      invariant oldIndex == if i == 0 then 0 else i - 1
    {
      if !checker(input[i]) {
        assert FirstRejected(input, checker) == i;
        return input[..oldIndex], input[oldIndex..];
      }
      oldIndex := i;
      i := i + 1;
    }
    assert FirstRejected(input, checker) == |input|;
    return input, [];
  }

  /**
    The as-written prefix is not maximal: whenever the first rejected char is not the first char,
    the char just after the prefix is accepted too.
  */
  lemma SplitPointFallsShort(input: seq<char>, checker: char -> bool)
    requires 0 < FirstRejected(input, checker) < |input|
    ensures SplitPoint(input, checker) < FirstRejected(input, checker)
    ensures checker(input[SplitPoint(input, checker)])
  {
  }

  /** `"ab"` split at the first char that is not `a`: the code yields an empty prefix, the intended prefix is `"a"`. */
  lemma SplitUntilCounterexample()
    ensures SplitPoint("ab", c => c == 'a') == 0
    ensures FirstRejected("ab", c => c == 'a') == 1
  {
    var checker := (c: char) => c == 'a';
    assert FirstRejected("ab"[1..], checker) == 0;
  }

  /**
    `split_until` as evidently intended (`oldIndex` moved past each accepted char): the prefix is
    the longest run of accepted chars, and the rest is empty or starts with a rejected char.
  */
  method SplitUntilMaximal(input: seq<char>, checker: char -> bool) returns (prefix: seq<char>, rest: seq<char>)
    ensures prefix + rest == input
    ensures forall j | 0 <= j < |prefix| :: checker(prefix[j])
    ensures rest == [] || !checker(rest[0])
    ensures |prefix| == FirstRejected(input, checker)
  {
    var i := 0;
    var oldIndex := 0;
    while i < |input|
      invariant i <= |input|
      invariant forall j | 0 <= j < i :: checker(input[j])
      invariant oldIndex == i
    {
      if !checker(input[i]) {
        assert FirstRejected(input, checker) == i;
        return input[..oldIndex], input[oldIndex..];
      }
      i := i + 1;
      oldIndex := i;
    }
    assert FirstRejected(input, checker) == |input|;
    return input, [];
  }

  /** `take_first_character`: nothing from the empty input, otherwise the first char and what follows it. */
  function TakeFirstCharacter(input: seq<char>): (r: Option<(char, seq<char>)>)
    ensures r.None? <==> input == []
    ensures r.Some? ==> [r.value.0] + r.value.1 == input
  {
    if input == [] then None else Some((input[0], input[1..]))
  }

  /** `take_last_character`: nothing from the empty input, otherwise the last char and what precedes it. */
  function TakeLastCharacter(input: seq<char>): (r: Option<(char, seq<char>)>)
    ensures r.None? <==> input == []
    ensures r.Some? ==> r.value.1 + [r.value.0] == input
  {
    if input == [] then None else Some((input[|input| - 1], input[..|input| - 1]))
  }

  /** `take_matching`: when `sample` is a prefix of the input, that prefix and what follows it. */
  function TakeMatching(input: seq<char>, sample: seq<char>): (r: Option<(seq<char>, seq<char>)>)
    ensures r.Some? <==> |sample| <= |input| && input[..|sample|] == sample
    ensures r.Some? ==> r.value.0 == sample && r.value.0 + r.value.1 == input
  {
    if sample <= input then Some((input[..|sample|], input[|sample|..])) else None
  }
}

/** `mod special_character` of src/lib.rs: reading one of the four control chars. */
module SpecialCharacter {
  import opened Wrappers
  import Slicing

  datatype Error = InputEnded | WrongCharacter

  predicate IsSpecial(c: char) {
    c == '[' || c == ']' || c == '|' || c == '\\'
  }

  /** `special_character::parse`: the first char and the rest, when that char is `[`, `]`, `|` or `\`. */
  function Parse(input: seq<char>): (r: Result<(char, seq<char>), Error>)
    ensures r == Failure(InputEnded) <==> input == []
    ensures r.Success? <==> input != [] && IsSpecial(input[0])
    ensures r.Success? ==> r.value == (input[0], input[1..])
    ensures r.Failure? && input != [] ==> r.error == WrongCharacter
  {
    match Slicing.TakeFirstCharacter(input)
    case None => Failure(InputEnded)
    case Some((c, rest)) =>
      if c in "[]|\\" then Success((c, rest)) else Failure(WrongCharacter)
  }
}

/** `mod text_character` of src/lib.rs, of which only the `escaped` helper is modelled. */
module TextCharacter {
  import opened Wrappers
  import Slicing

  datatype Error =
    | InputEnded
    | UnknownCharacterEscaped
    | SpecialCharacterEncountered
    | EscapeAtTheEndOfInput

  /**
    `escaped`, nested in `text_character::parse`: when the input starts with `sample`, the last char
    of `sample` and the input after it. An empty sample would make the source's `unwrap` panic.
  */
  function Escaped(input: seq<char>, sample: seq<char>): (r: Result<(char, seq<char>), Error>)
    requires sample != []
    ensures r.Success? <==> |sample| <= |input| && input[..|sample|] == sample
    ensures r.Success? ==> r.value == (sample[|sample| - 1], input[|sample|..])
    ensures r.Failure? ==> r.error == InputEnded
  {
    match Slicing.TakeMatching(input, sample)
    case None => Failure(InputEnded)
    case Some((s, rest)) => Success((Slicing.TakeLastCharacter(s).value.0, rest))
  }

  /** The four samples `parse` tries, `\\`, `\[`, `\]` and `\|`, each read as its literal control char. */
  lemma EscapedSample(c: char, rest: seq<char>)
    requires c == '\\' || c == '[' || c == ']' || c == '|'
    ensures Escaped(['\\', c] + rest, ['\\', c]) == Success((c, rest))
  {
    assert (['\\', c] + rest)[..2] == ['\\', c];
  }
}
