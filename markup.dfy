/**
  The node-level parser of the bracket/colon markup (the crate root of src/main.rs).

  `ParseSequentialNodes` loops over the input, pushing a `Text` node for each text run and handing
  whatever stopped the run to `ProcessError`, which reads a tag `[name]` or `[name:contents]` after
  an opening bracket. As written, the code leaves the `]` or `:` that ends a tag name at the head
  of the input: a `]` is then met by the outer loop as an unpaired bracket, and the contents of
  `[name:` are parsed from input that still starts with `:`, which is an error. No tag is ever
  returned; `SequentialOutcome` states in closed form what the parser returns, and the methods are
  proved to return exactly that.
*/
module Markup {
  import opened Wrappers
  import T = Text

  datatype Node =
    | Tag(name: seq<char>, contents: Option<seq<Node>>)
    | Text(text: seq<char>)

  datatype ParsingError =
    | UnknownCharacterEscaped
    | UnclosedBracket
    | EscapeCharacterIsAtTheEndOfTheString
    | UnpairedClosingBracket
    | AColonIsNotPlacedImmediatelyAfterTagName
    | TagInsideTagName

  /** What `ProcessError` tells the loop of `ParseSequentialNodes` to do next. */
  datatype ProcessingResult =
    | ParsingIsDone
    | Error(error: ParsingError)
    | NewNode(node: Node)

  /** The input after its first char, as `chars.next()` followed by `chars.as_str()` leaves it. */
  function Tail(s: seq<char>): seq<char> {
    if s == [] then [] else s[1..]
  }

  /** What stopped a text scan, whether it read some text or none. */
  function StopOf(t: T.ParsingResult<seq<char>, T.ParsingError>): T.ParsingError {
    match t
    case Ok(_, _, e) => e
    case Err(e) => e
  }

  /** The error a text outcome other than the end of the input or an opening bracket becomes. */
  function OutsideTag(e: T.ParsingError): ParsingError
    requires e != T.StringIsEmpty && e != T.StringStartsWithAnOpeningBracket
  {
    match e
    case StringStartsWithAColon => AColonIsNotPlacedImmediatelyAfterTagName
    case StringStartsWithAClosedBracket => UnpairedClosingBracket
    case UnknownCharacterEscaped => UnknownCharacterEscaped
    case EscapeCharacterIsAtTheEndOfTheString => EscapeCharacterIsAtTheEndOfTheString
  }

  /**
    The error the whole parse ends with once an opening bracket has been consumed and `s` is what
    follows it: a second `[` inside the name, the end of the input, or whatever `OutsideTag` makes
    of the char after the name (the `:` or `]` left in place).
  */
  function TagError(s: seq<char>): ParsingError {
    match StopOf(T.Parsed(s))
    case StringStartsWithAnOpeningBracket => TagInsideTagName
    case StringIsEmpty => UnclosedBracket
    case e => OutsideTag(e)
  }

  /** The name read after an opening bracket: the text run that follows it, or nothing. */
  function TagName(s: seq<char>): seq<char> {
    var t := T.Parsed(s);
    if t.Ok? then t.value else []
  }

  /**
    What `parse_sequential_nodes` returns, in closed form: the input decoded as one `Text` node (no
    node at all for the empty input) when the first text run reaches the end of the input, and
    otherwise the error named by what stopped that run.
  */
  function SequentialOutcome(input: seq<char>): Result<seq<Node>, ParsingError> {
    var t := T.Parsed(input);
    match StopOf(t)
    case StringIsEmpty => Success(if t.Ok? then [Text(t.value)] else [])
    case StringStartsWithAnOpeningBracket => Failure(TagError(Tail(if t.Ok? then t.rest else input)))
    case e => Failure(OutsideTag(e))
  }

  /**
    A run of plain text parses to one `Text` node holding the decoded text, and the empty input to
    no node at all.
  */
  lemma PlainText(v: seq<char>)
    ensures SequentialOutcome(T.Encode(v)) == Success(if v == [] then [] else [Text(v)])
  {
    if v != [] {
      assert T.Encode(v) + [] == T.Encode(v);
      T.ParsedEscaped(v, []);
    }
  }

  /**
    The parse succeeds exactly on the encodings of plain text, so every successful result is empty
    or a single `Text` node: a tag is never returned.
  */
  lemma {:induction false} OnlyPlainTextSucceeds(input: seq<char>)
    ensures SequentialOutcome(input).Success? <==> exists v :: input == T.Encode(v)
    ensures SequentialOutcome(input).Success? ==>
      var nodes := SequentialOutcome(input).value;
      nodes == [] || (|nodes| == 1 && nodes[0].Text? && input == T.Encode(nodes[0].text))
  {
    var t := T.Parsed(input);
    if SequentialOutcome(input).Success? {
      if t.Ok? {
        assert t.rest == [];
        assert input == T.Encode(t.value) + [];
      } else {
        assert input == [] && T.Encode([]) == [];
      }
    }
    forall v | input == T.Encode(v)
      ensures SequentialOutcome(input).Success?
    {
      PlainText(v);
    }
  }

  /**
    An unescaped `:` or `]` that ends the first text run (or starts the input) ends the parse with
    a misplaced-colon or an unpaired-bracket error.
  */
  lemma DelimiterOutsideTag(v: seq<char>, rest: seq<char>)
    requires rest != [] && (rest[0] == ':' || rest[0] == ']')
    ensures SequentialOutcome(T.Encode(v) + rest) ==
      Failure(if rest[0] == ':' then AColonIsNotPlacedImmediatelyAfterTagName else UnpairedClosingBracket)
  {
    if v == [] {
      assert T.Encode(v) + rest == rest;
    } else {
      T.ParsedEscaped(v, rest);
    }
  }

  /** A bad escape in the first text run is reported unchanged. */
  lemma EscapeErrorsPassThrough(v: seq<char>, c: char, w: seq<char>)
    requires !T.IsControl(c)
    ensures SequentialOutcome(T.Encode(v) + ['\\', c] + w) == Failure(UnknownCharacterEscaped)
    ensures SequentialOutcome(T.Encode(v) + ['\\']) == Failure(EscapeCharacterIsAtTheEndOfTheString)
  {
    T.UnknownEscape(v, c, w);
    T.TrailingEscape(v);
  }

  /** The input after the text `v` and an opening bracket, and what the bracket leaves to be read. */
  lemma OpeningBracketConsumed(v: seq<char>, after: seq<char>)
    ensures SequentialOutcome(T.Encode(v) + ['['] + after) == Failure(TagError(after))
  {
    var input := T.Encode(v) + ['['] + after;
    if v == [] {
      assert input == ['['] + after;
    } else {
      assert input == T.Encode(v) + (['['] + after);
      T.ParsedEscaped(v, ['['] + after);
    }
    assert Tail(['['] + after) == after;
  }

  /** What ends a tag name decides the error: see `AfterOpeningBracket`. */
  lemma TagErrorAfterName(name: seq<char>, rest: seq<char>)
    requires rest == [] || T.IsDelimiter(rest[0])
    ensures TagError(T.Encode(name) + rest) ==
      if rest == [] then UnclosedBracket
      else if rest[0] == '[' then TagInsideTagName
      else if rest[0] == ']' then UnpairedClosingBracket
      else AColonIsNotPlacedImmediatelyAfterTagName
  {
    if name == [] {
      assert T.Encode(name) + rest == rest;
    } else {
      T.ParsedEscaped(name, rest);
    }
  }

  /**
    After an opening bracket and a tag name (either may be preceded or followed by nothing): the end
    of the input leaves the bracket unclosed, a second `[` is a tag inside the tag name, and the `]`
    or `:` that should end the name is left in place, so `[name]` ends in an unpaired closing
    bracket and `[name:` in a misplaced colon.
  */
  lemma AfterOpeningBracket(v: seq<char>, name: seq<char>, rest: seq<char>)
    requires rest == [] || T.IsDelimiter(rest[0])
    ensures var outcome := SequentialOutcome(T.Encode(v) + ['['] + T.Encode(name) + rest);
      && (rest == [] ==> outcome == Failure(UnclosedBracket))
      && (rest != [] && rest[0] == '[' ==> outcome == Failure(TagInsideTagName))
      && (rest != [] && rest[0] == ']' ==> outcome == Failure(UnpairedClosingBracket))
      && (rest != [] && rest[0] == ':' ==> outcome == Failure(AColonIsNotPlacedImmediatelyAfterTagName))
  {
    var after := T.Encode(name) + rest;
    assert T.Encode(v) + ['['] + T.Encode(name) + rest == T.Encode(v) + ['['] + after;
    OpeningBracketConsumed(v, after);
    TagErrorAfterName(name, rest);
  }

  /** A bad escape inside a tag name is reported unchanged. */
  lemma EscapeErrorInTagName(v: seq<char>, name: seq<char>, c: char, w: seq<char>)
    requires !T.IsControl(c)
    ensures SequentialOutcome(T.Encode(v) + ['['] + T.Encode(name) + ['\\', c] + w) == Failure(UnknownCharacterEscaped)
    ensures SequentialOutcome(T.Encode(v) + ['['] + T.Encode(name) + ['\\']) == Failure(EscapeCharacterIsAtTheEndOfTheString)
  {
    var unknown := T.Encode(name) + ['\\', c] + w;
    assert T.Encode(v) + ['['] + T.Encode(name) + ['\\', c] + w == T.Encode(v) + ['['] + unknown;
    OpeningBracketConsumed(v, unknown);
    T.UnknownEscape(name, c, w);
    var trailing := T.Encode(name) + ['\\'];
    assert T.Encode(v) + ['['] + T.Encode(name) + ['\\'] == T.Encode(v) + ['['] + trailing;
    OpeningBracketConsumed(v, trailing);
    T.TrailingEscape(name);
  }

  /** Concrete input: an escaped colon inside plain text is read as a literal colon. */
  lemma ExampleEscapedColon()
    ensures SequentialOutcome("a\\:b") == Success([Text("a:b")])
  {
    T.EncodePlain("b");
    assert T.Encode("a:b") == "a\\:b" by {
      assert ":b"[1..] == "b";
      assert "a:b"[1..] == ":b";
    }
    PlainText("a:b");
  }

  /**
    The nested `process_error`: turns what stopped a text run into the loop's next step. `input` is
    the cursor the source passes as `&mut &str`; `remaining` is where it is left.
  */
  method ProcessError(error: T.ParsingError, input: seq<char>) returns (result: ProcessingResult, remaining: seq<char>)
    ensures error == T.StringIsEmpty ==> result == ParsingIsDone && remaining == input
    ensures error != T.StringIsEmpty && error != T.StringStartsWithAnOpeningBracket ==>
      result == Error(OutsideTag(error)) && remaining == input
    ensures error == T.StringStartsWithAnOpeningBracket ==>
      && !result.ParsingIsDone?
      && (result.Error? ==> result.error == TagError(Tail(input)))
      && (result.NewNode? <==> StopOf(T.Parsed(Tail(input))) == T.StringStartsWithAClosedBracket)
      && (result.NewNode? ==>
            && result.node == Tag(TagName(Tail(input)), None)
            && TagError(Tail(input)) == UnpairedClosingBracket
            && remaining != [] && remaining[0] == ']'
            && |remaining| < |input|
            && remaining == (if T.Parsed(Tail(input)).Ok? then T.Parsed(Tail(input)).rest else Tail(input)))
    decreases |input|, 0
  {
    match error
    case StringStartsWithAColon =>
      return Error(AColonIsNotPlacedImmediatelyAfterTagName), input;
    case StringIsEmpty =>
      return ParsingIsDone, input;
    case StringStartsWithAClosedBracket =>
      return Error(UnpairedClosingBracket), input;
    case UnknownCharacterEscaped =>
      return Error(UnknownCharacterEscaped), input;
    case EscapeCharacterIsAtTheEndOfTheString =>
      return Error(EscapeCharacterIsAtTheEndOfTheString), input;
    case StringStartsWithAnOpeningBracket =>
      remaining := Tail(input);
      var t := T.ParseText(remaining);
      match t {
        case Ok(rest, name, nextError) =>
          remaining := rest;
          match nextError {
            case StringStartsWithAnOpeningBracket =>
              result := Error(TagInsideTagName);
            case EscapeCharacterIsAtTheEndOfTheString =>
              assert false;
            case UnknownCharacterEscaped =>
              assert false;
            case StringIsEmpty =>
              result := Error(UnclosedBracket);
            case StringStartsWithAColon =>
              var contents := ParseSequentialNodes(remaining);
              match contents {
                case Success(nodes) => result := NewNode(Tag(name, Some(nodes)));
                case Failure(e) => result := Error(e);
              }
            case StringStartsWithAClosedBracket =>
              result := NewNode(Tag(name, None));
          }
        case Err(e) =>
          match e {
            case StringStartsWithAColon =>
              var contents := ParseSequentialNodes(remaining);
              match contents {
                case Success(nodes) => result := NewNode(Tag([], Some(nodes)));
                case Failure(e) => result := Error(e);
              }
            case StringIsEmpty =>
              result := Error(UnclosedBracket);
            case StringStartsWithAClosedBracket =>
              result := NewNode(Tag([], None));
            case UnknownCharacterEscaped =>
              result := Error(UnknownCharacterEscaped);
            case EscapeCharacterIsAtTheEndOfTheString =>
              result := Error(EscapeCharacterIsAtTheEndOfTheString);
            case StringStartsWithAnOpeningBracket =>
              result := Error(TagInsideTagName);
          }
      }
  }

  /** `parse_sequential_nodes`: the parser's entry point, proved to return `SequentialOutcome(input)`. */
  method ParseSequentialNodes(input: seq<char>) returns (r: Result<seq<Node>, ParsingError>)
    ensures r == SequentialOutcome(input)
    decreases |input|, 1
  {
    var cursor := input;
    var nodes: seq<Node> := [];
    while true
      invariant |cursor| <= |input|
      invariant
        || (cursor == input && nodes == [])
        || (cursor != [] && cursor[0] == ']' && SequentialOutcome(input) == Failure(UnpairedClosingBracket))
      decreases |cursor|
    {
      var t := T.ParseText(cursor);
      var processed: ProcessingResult;
      var before := cursor;
      match t {
        case Ok(rest, value, nextError) =>
          cursor := rest;
          nodes := nodes + [Text(value)];
          assert before == input ==> nodes == [Text(value)];
          processed, cursor := ProcessError(nextError, cursor);
        case Err(error) =>
          processed, cursor := ProcessError(error, cursor);
      }
      match processed
      case ParsingIsDone =>
        return Success(nodes);
      case NewNode(node) =>
        nodes := nodes + [node];
      case Error(e) =>
        return Failure(e);
    }
  }
}
