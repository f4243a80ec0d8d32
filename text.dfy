/**
  The text scanner of the bracket/colon markup (`mod text` of src/main.rs) together with the
  crate-level `ParsingResult` it returns.

  `ParseText` scans one maximal run of text: it decodes the escapes `\:`, `\[`, `\]` and `\\`,
  stops in front of the first unescaped `:`, `[` or `]`, and reports in `nextError` what stopped
  it. It is specified by the recursive decoder `Scan`; `Encode` is the inverse encoding, and the
  lemmas below connect the two.
*/
module Text {
  import opened Wrappers

  /** The outcome of a scanner: the unconsumed input, the value read and what stopped the scan, or an error. */
  datatype ParsingResult<T, E> =
    | Ok(rest: seq<char>, value: T, nextError: E)
    | Err(error: E)

  /** A character as the text scanner sees it. */
  datatype Character = Colon | OpeningBracket | ClosingBracket | Escape | Other(c: char)

  datatype ParsingError =
    | UnknownCharacterEscaped
    | EscapeCharacterIsAtTheEndOfTheString
    | StringIsEmpty
    | StringStartsWithAnOpeningBracket
    | StringStartsWithAClosedBracket
    | StringStartsWithAColon

  /** The four characters with a meaning of their own. */
  predicate IsControl(c: char) {
    c == ':' || c == '[' || c == ']' || c == '\\'
  }

  /** The three characters that end a run of text. */
  predicate IsDelimiter(c: char) {
    c == ':' || c == '[' || c == ']'
  }

  /** `impl From<char> for Character`: classifying a char and converting it back gives the char again. */
  function FromChar(c: char): (ch: Character)
    ensures ToChar(ch) == c
    ensures ch.Other? <==> !IsControl(c)
  {
    match c
    case ':' => Colon
    case '[' => OpeningBracket
    case ']' => ClosingBracket
    case '\\' => Escape
    case _ => Other(c)
  }

  /** `impl From<Character> for char`: each of the four named chars is a control char; `Other` holds its own char. */
  function ToChar(ch: Character): (c: char)
    ensures !ch.Other? ==> IsControl(c)
    ensures ch.Other? ==> c == ch.c
  {
    match ch
    case Escape => '\\'
    case OpeningBracket => '['
    case ClosingBracket => ']'
    case Colon => ':'
    case Other(c) => c
  }

  /** Converting back and forth is the identity on every `Character` except an `Other` that holds a control char. */
  lemma CharacterRoundTrip(ch: Character)
    ensures FromChar(ToChar(ch)) == ch <==> !(ch.Other? && IsControl(ch.c))
  {
  }

  predicate IsEscapeError(e: ParsingError) {
    e == UnknownCharacterEscaped || e == EscapeCharacterIsAtTheEndOfTheString
  }

  /** What stands at the head of the input left behind by a scan: its end, or one of the three delimiters. */
  function StopAt(rest: seq<char>): (e: ParsingError)
    requires rest == [] || IsDelimiter(rest[0])
    ensures !IsEscapeError(e)
  {
    if rest == [] then StringIsEmpty
    else if rest[0] == '[' then StringStartsWithAnOpeningBracket
    else if rest[0] == ']' then StringStartsWithAClosedBracket
    else StringStartsWithAColon
  }

  /** The encoding the scanner decodes: every control char is preceded by `\`. */
  function Encode(v: seq<char>): (s: seq<char>)
    decreases |v|
  {
    if v == [] then []
    else (if IsControl(v[0]) then ['\\', v[0]] else [v[0]]) + Encode(v[1..])
  }

  /** Text without a control char is its own encoding. */
  lemma {:induction false} EncodePlain(v: seq<char>)
    requires forall i | 0 <= i < |v| :: !IsControl(v[i])
    ensures Encode(v) == v
    decreases |v|
  {
    if v != [] {
      EncodePlain(v[1..]);
    }
  }

  lemma {:induction false} EncodeAppend(v: seq<char>, w: seq<char>)
    ensures Encode(v + w) == Encode(v) + Encode(w)
    decreases |v|
  {
    if v == [] {
      assert v + w == w;
    } else {
      assert (v + w)[1..] == v[1..] + w;
      EncodeAppend(v[1..], w);
    }
  }

  /** A scanned run: the decoded text, the input left behind and what stopped the run. */
  datatype Run = Run(value: seq<char>, rest: seq<char>, stop: ParsingError)

  /** Adds `prefix` in front of the decoded text of a successful scan; errors pass through. */
  function PrependValue(prefix: seq<char>, r: Result<Run, ParsingError>): Result<Run, ParsingError> {
    match r
    case Success(run) => Success(run.(value := prefix + run.value))
    case Failure(e) => Failure(e)
  }

  /**
    The text run at the head of `s`, decoded one character (or escape pair) at a time. A run may be
    empty here; `Parsed` turns an empty run into the error that names what stopped it.
  */
  function Scan(s: seq<char>): Result<Run, ParsingError>
    decreases |s|
  {
    if s == [] then Success(Run([], [], StringIsEmpty))
    else
      match FromChar(s[0])
      case OpeningBracket => Success(Run([], s, StringStartsWithAnOpeningBracket))
      case ClosingBracket => Success(Run([], s, StringStartsWithAClosedBracket))
      case Colon => Success(Run([], s, StringStartsWithAColon))
      case Escape =>
        if |s| == 1 then Failure(EscapeCharacterIsAtTheEndOfTheString)
        else if FromChar(s[1]).Other? then Failure(UnknownCharacterEscaped)
        else PrependValue([s[1]], Scan(s[2..]))
      case Other(c) => PrependValue([c], Scan(s[1..]))
  }

  lemma PrependValueTwice(a: seq<char>, b: seq<char>, r: Result<Run, ParsingError>)
    ensures PrependValue(a, PrependValue(b, r)) == PrependValue(a + b, r)
  {
    match r
    case Success(run) => assert a + (b + run.value) == (a + b) + run.value;
    case Failure(_) =>
  }

  lemma EncodeSingle(c: char)
    ensures Encode([c]) == if IsControl(c) then ['\\', c] else [c]
  {
    assert [c][1..] == [];
  }

  /** One decoding step: the encoding of a single char in front of `t` decodes to that char. */
  lemma ScanStep(c: char, t: seq<char>)
    ensures Scan(Encode([c]) + t) == PrependValue([c], Scan(t))
  {
    EncodeSingle(c);
    if IsControl(c) {
      assert (['\\', c] + t)[2..] == t;
    } else {
      assert ([c] + t)[1..] == t;
    }
  }

  /** Scanning the encoding of `v` followed by `t` decodes `v` and then goes on exactly as scanning `t` does. */
  lemma {:induction false} ScanAfterEscaped(v: seq<char>, t: seq<char>)
    ensures Scan(Encode(v) + t) == PrependValue(v, Scan(t))
    decreases |v|
  {
    if v == [] {
      assert Encode(v) + t == t;
      match Scan(t)
      case Success(run) => assert [] + run.value == run.value;
      case Failure(_) =>
    } else {
      assert v == [v[0]] + v[1..];
      EncodeAppend([v[0]], v[1..]);
      assert Encode(v) + t == Encode([v[0]]) + (Encode(v[1..]) + t);
      ScanStep(v[0], Encode(v[1..]) + t);
      ScanAfterEscaped(v[1..], t);
      PrependValueTwice([v[0]], v[1..], Scan(t));
    }
  }

  /** A successful scan that does not stop at once decodes one char from the head of the input and goes on after it. */
  lemma ScanHead(s: seq<char>) returns (c: char, t: seq<char>)
    requires s != [] && !IsDelimiter(s[0]) && Scan(s).Success?
    ensures s == Encode([c]) + t && |t| < |s|
    ensures Scan(s) == PrependValue([c], Scan(t))
  {
    if s[0] == '\\' {
      c, t := s[1], s[2..];
      assert s == ['\\', c] + t;
    } else {
      c, t := s[0], s[1..];
      assert s == [c] + t;
    }
    EncodeSingle(c);
    ScanStep(c, t);
  }

  /** Every successful scan consumed exactly the encoding of the text it decoded, and stopped at the end of the input or in front of a delimiter. */
  lemma {:induction false} ScanDecomposes(s: seq<char>, run: Run)
    requires Scan(s) == Success(run)
    ensures s == Encode(run.value) + run.rest
    ensures run.rest == [] || IsDelimiter(run.rest[0])
    ensures run.stop == StopAt(run.rest)
    decreases |s|
  {
    if s == [] || IsDelimiter(s[0]) {
      ScanEmptyRun(s);
    } else {
      var c, t := ScanHead(s);
      var inner := Scan(t).value;
      ScanDecomposes(t, inner);
      EncodeAppend([c], inner.value);
    }
  }

  /** A scan fails only on a bad escape. */
  lemma {:induction false} ScanFailure(s: seq<char>)
    requires Scan(s).Failure?
    ensures IsEscapeError(Scan(s).error)
    decreases |s|
  {
    if |s| > 1 && !IsDelimiter(s[0]) {
      if s[0] == '\\' {
        if IsControl(s[1]) {
          ScanFailure(s[2..]);
        }
      } else {
        ScanFailure(s[1..]);
      }
    }
  }

  /** A run is empty exactly when the input is empty or starts with a delimiter, and then nothing is consumed. */
  lemma ScanEmptyRun(s: seq<char>)
    ensures Scan(s).Success? && Scan(s).value.value == [] <==> s == [] || IsDelimiter(s[0])
    ensures s == [] || IsDelimiter(s[0]) ==> Scan(s) == Success(Run([], s, StopAt(s)))
  {
  }

  /**
    `parse_text` as a function of its input: like `Scan`, except that an empty run is reported as
    the error naming what stopped it.
  */
  function Parsed(input: seq<char>): (r: ParsingResult<seq<char>, ParsingError>)
    ensures input == [] <==> r == Err(StringIsEmpty)
    ensures (input != [] && input[0] == '[') <==> r == Err(StringStartsWithAnOpeningBracket)
    ensures (input != [] && input[0] == ']') <==> r == Err(StringStartsWithAClosedBracket)
    ensures (input != [] && input[0] == ':') <==> r == Err(StringStartsWithAColon)
    ensures r.Ok? ==>
      && r.value != []
      && |r.rest| < |input|
      && input == Encode(r.value) + r.rest
      && (r.rest == [] || IsDelimiter(r.rest[0]))
      && r.nextError == StopAt(r.rest)
    ensures r.Ok? ==> !IsEscapeError(r.nextError)
    ensures r.Err? && input != [] && !IsDelimiter(input[0]) ==> IsEscapeError(r.error)
  {
    ScanEmptyRun(input);
    match Scan(input)
    case Failure(e) =>
      ScanFailure(input);
      Err(e)
    case Success(run) =>
      ScanDecomposes(input, run);
      if run.value == [] then Err(run.stop) else Ok(run.rest, run.value, run.stop)
  }

  /**
    Round trip: a non-empty text, encoded and followed by the end of the input or a delimiter, is
    read back as exactly that text, the delimiter is left in place and named by `nextError`.
  */
  lemma ParsedEscaped(v: seq<char>, rest: seq<char>)
    requires v != []
    requires rest == [] || IsDelimiter(rest[0])
    ensures Parsed(Encode(v) + rest) == Ok(rest, v, StopAt(rest))
  {
    ScanAfterEscaped(v, rest);
    ScanEmptyRun(rest);
    assert v + [] == v;
  }

  /** `\` followed by a control char appends that char to the text, wherever the pair stands in the run. */
  lemma EscapedControl(v: seq<char>, c: char, w: seq<char>)
    requires IsControl(c)
    ensures Scan(Encode(v) + ['\\', c] + w) == PrependValue(v + [c], Scan(w))
  {
    EncodeAppend(v, [c]);
    assert Encode([c]) == ['\\', c] by {
      assert [c][1..] == [];
    }
    assert Encode(v) + ['\\', c] + w == Encode(v + [c]) + w;
    ScanAfterEscaped(v + [c], w);
  }

  /** `\` followed by any other char is an error, wherever the pair stands in the run, and no partial text is returned. */
  lemma UnknownEscape(v: seq<char>, c: char, w: seq<char>)
    requires !IsControl(c)
    ensures Parsed(Encode(v) + ['\\', c] + w) == Err(UnknownCharacterEscaped)
  {
    assert Encode(v) + ['\\', c] + w == Encode(v) + (['\\', c] + w);
    ScanAfterEscaped(v, ['\\', c] + w);
  }

  /** A `\` at the very end of the input is an error, wherever it stands in the run, and no partial text is returned. */
  lemma TrailingEscape(v: seq<char>)
    ensures Parsed(Encode(v) + ['\\']) == Err(EscapeCharacterIsAtTheEndOfTheString)
  {
    ScanAfterEscaped(v, ['\\']);
  }

  /** `text::parse_text`, scanning the input left to right as the source's `char_indices` loop does. */
  method ParseText(input: seq<char>) returns (r: ParsingResult<seq<char>, ParsingError>)
    ensures r == Parsed(input)
  {
    if input == [] {
      return Err(StringIsEmpty);
    }
    var first: char;
    var i: nat;
    match FromChar(input[0]) {
      case OpeningBracket =>
        return Err(StringStartsWithAnOpeningBracket);
      case ClosingBracket =>
        return Err(StringStartsWithAClosedBracket);
      case Colon =>
        return Err(StringStartsWithAColon);
      case Escape =>
        if |input| == 1 {
          return Err(EscapeCharacterIsAtTheEndOfTheString);
        }
        var escaped := FromChar(input[1]);
        if escaped.Other? {
          return Err(UnknownCharacterEscaped);
        }
        first, i := ToChar(escaped), 2;
      case Other(c) =>
        first, i := c, 1;
    }
    var text := [first];
    while i < |input|
      invariant i <= |input|
      invariant text != []
      invariant Scan(input) == PrependValue(text, Scan(input[i..]))
    {
      var tail := input[i..];
      ScanEmptyRun(tail);
      assert text + [] == text;
      match FromChar(input[i])
      case ClosingBracket =>
        return Ok(tail, text, StringStartsWithAClosedBracket);
      case OpeningBracket =>
        return Ok(tail, text, StringStartsWithAnOpeningBracket);
      case Colon =>
        return Ok(tail, text, StringStartsWithAColon);
      case Escape =>
        if i + 1 == |input| {
          return Err(EscapeCharacterIsAtTheEndOfTheString);
        }
        var escaped := FromChar(input[i + 1]);
        if escaped.Other? {
          return Err(UnknownCharacterEscaped);
        }
        assert tail[2..] == input[i + 2..];
        PrependValueTwice(text, [input[i + 1]], Scan(input[i + 2..]));
        text, i := text + [ToChar(escaped)], i + 2;
      case Other(c) =>
        assert tail[1..] == input[i + 1..];
        PrependValueTwice(text, [c], Scan(input[i + 1..]));
        text, i := text + [c], i + 1;
    }
    assert input[i..] == [] && text + [] == text;
    return Ok([], text, StringIsEmpty);
  }
}
