/** Command-line tokenising and dispatch (src/CommandProcessor.cpp). */
module CommandProcessor {
  import opened Common
  import opened Utils

  // ---------------------------------------------------------------------
  // TokenizeCommand

  /** What repeated std::getline(stream, segment, d) yields on `s`: the
      pieces between delimiters, empty ones included, with no final empty
      piece after a trailing delimiter. */
  function GetlineSegments(s: string, d: char): seq<string>
    decreases |s|
  {
    if s == [] then []
    else
      var k := FirstIndexOf(s, d);
      if k == |s| then [s] else [s[..k]] + GetlineSegments(s[k + 1..], d)
  }

  /** The tokens one segment contributes: a segment at an odd position
      (inside a quote pair) is one token unless empty; one at an even
      position is split on spaces. */
  function SegmentTokens(segment: string, position: nat): seq<string> {
    if position % 2 == 1 then (if segment == [] then [] else [segment]) else Split(segment, ' ')
  }

  /** The tokens of the first |segments| segments, in order. */
  function TokensOf(segments: seq<string>): seq<string> {
    if segments == [] then []
    else TokensOf(segments[..|segments| - 1]) + SegmentTokens(segments[|segments| - 1], |segments| - 1)
  }

  /** The tokens of a command line. */
  function Tokenize(input: string): seq<string> {
    TokensOf(GetlineSegments(input, '"'))
  }

  /** The quote-aware tokeniser: the line is cut at every '"', then the
      pieces outside quotes are split on spaces. The counter of the C++ loop
      is an `unsigned`; its wrap-around at 2^32 keeps its parity, so only
      the parity is modelled. */
  method TokenizeCommand(input: string) returns (tokens: seq<string>)
    ensures tokens == Tokenize(input)
  {
    var segments := GetlineSegments(input, '"');
    tokens := [];
    var counter := 0;
    while counter < |segments|
      invariant 0 <= counter <= |segments|
      invariant tokens == TokensOf(segments[..counter])
    {
      var segment := segments[counter];
      ghost var next := tokens + SegmentTokens(segment, counter);
      TokensOfPrefix(segments, counter);
      SegmentParity(segment, counter);
      counter := counter + 1;
      if counter % 2 == 0 {
        if segment != [] {
          tokens := tokens + [segment];
        }
      } else {
        var pieces := SplitString(segment, ' ');
        tokens := tokens + pieces;
      }
      assert tokens == next;
    }
    assert segments[..counter] == segments;
  }

  /** One more segment adds its own tokens after the earlier ones. */
  lemma TokensOfSnoc(prefix: seq<string>, segment: string)
    ensures TokensOf(prefix + [segment]) == TokensOf(prefix) + SegmentTokens(segment, |prefix|)
  {
    assert (prefix + [segment])[..|prefix|] == prefix;
  }

  /** The counter, incremented before the test, is even exactly on the
      segments at odd positions. */
  lemma SegmentParity(segment: string, position: nat)
    ensures (position + 1) % 2 == 0 ==> SegmentTokens(segment, position) == (if segment == [] then [] else [segment])
    ensures (position + 1) % 2 != 0 ==> SegmentTokens(segment, position) == Split(segment, ' ')
  {
  }

  lemma TokensOfPrefix(segments: seq<string>, n: nat)
    requires n < |segments|
    ensures TokensOf(segments[..n + 1]) == TokensOf(segments[..n]) + SegmentTokens(segments[n], n)
  {
    assert segments[..n + 1] == segments[..n] + [segments[n]];
    TokensOfSnoc(segments[..n], segments[n]);
  }

  /** No getline segment contains the delimiter. */
  lemma {:induction false} SegmentsHaveNoDelimiter(s: string, d: char)
    ensures forall k :: 0 <= k < |GetlineSegments(s, d)| ==> d !in GetlineSegments(s, d)[k]
    decreases |s|
  {
    if s != [] {
      var k := FirstIndexOf(s, d);
      if k < |s| {
        SegmentsHaveNoDelimiter(s[k + 1..], d);
      }
    }
  }

  /** A character absent from the text is absent from every token of Split. */
  lemma {:induction false} SplitTokensAvoid(s: string, d: char, x: char)
    requires x !in s
    ensures forall k :: 0 <= k < |Split(s, d)| ==> x !in Split(s, d)[k]
    decreases |s|
  {
    if s != [] {
      if s[0] == d {
        assert x !in s[1..];
        SplitTokensAvoid(s[1..], d, x);
      } else {
        var k := FirstIndexOf(s, d);
        assert x !in s[k..] && x !in s[..k];
        SplitTokensAvoid(s[k..], d, x);
      }
    }
  }

  /** Tokens are never empty and never contain a '"': quotes are consumed
      as delimiters. */
  lemma {:induction false} TokensOfClean(segments: seq<string>)
    requires forall k :: 0 <= k < |segments| ==> '"' !in segments[k]
    ensures forall k :: 0 <= k < |TokensOf(segments)| ==> TokensOf(segments)[k] != [] && '"' !in TokensOf(segments)[k]
  {
    if segments != [] {
      var n := |segments| - 1;
      TokensOfClean(segments[..n]);
      SplitTokensAreClean(segments[n], ' ');
      SplitTokensAvoid(segments[n], ' ', '"');
      assert segments == segments[..n] + [segments[n]];
      TokensOfSnoc(segments[..n], segments[n]);
    }
  }

  lemma TokenizeClean(input: string)
    ensures forall k :: 0 <= k < |Tokenize(input)| ==> Tokenize(input)[k] != [] && '"' !in Tokenize(input)[k]
  {
    SegmentsHaveNoDelimiter(input, '"');
    TokensOfClean(GetlineSegments(input, '"'));
  }

  /** A delimiter-free text followed by a delimiter is one segment of its own. */
  lemma SegmentsAfterPiece(piece: string, rest: string, d: char)
    requires d !in piece
    ensures GetlineSegments(piece + [d] + rest, d) == [piece] + GetlineSegments(rest, d)
    ensures GetlineSegments(piece, d) == if piece == [] then [] else [piece]
  {
    FirstIndexInPiece(piece, [d] + rest, d);
    var s := piece + [d] + rest;
    assert s == piece + ([d] + rest);
    assert s[..|piece|] == piece && s[|piece| + 1..] == rest;
    if piece != [] {
      FirstIndexInPiece(piece, [], d);
      assert piece + [] == piece;
    }
  }

  /** Text outside quotes is split on spaces. */
  lemma TokenizeUnquoted(s: string)
    requires '"' !in s
    ensures Tokenize(s) == Split(s, ' ')
  {
    SegmentsAfterPiece(s, [], '"');
    if s != [] {
      assert TokensOf([s]) == TokensOf([]) + SegmentTokens(s, 0);
    }
  }

  /** The segments of a line with one quote pair. */
  lemma QuotedSegments(before: string, quoted: string, after: string)
    requires '"' !in before && '"' !in quoted && '"' !in after
    ensures GetlineSegments(before + ['"'] + (quoted + ['"'] + after), '"')
      == [before, quoted] + (if after == [] then [] else [after])
  {
    SegmentsAfterPiece(before, quoted + ['"'] + after, '"');
    SegmentsAfterPiece(quoted, after, '"');
    SegmentsAfterPiece(after, [], '"');
  }

  /** The tokens of the segments of a line with one quote pair. */
  lemma QuotedTokens(before: string, quoted: string, after: string)
    ensures TokensOf([before, quoted] + (if after == [] then [] else [after]))
      == Split(before, ' ') + (if quoted == [] then [] else [quoted]) + Split(after, ' ')
  {
    var one := TokensOf([before]);
    assert one == Split(before, ' ') by {
      TokensOfSnoc([], before);
      assert [] + [before] == [before];
    }
    var two := TokensOf([before, quoted]);
    assert two == one + (if quoted == [] then [] else [quoted]) by {
      TokensOfSnoc([before], quoted);
      assert [before] + [quoted] == [before, quoted];
    }
    if after == [] {
      assert [before, quoted] + [] == [before, quoted];
      assert Split(after, ' ') == [];
    } else {
      TokensOfSnoc([before, quoted], after);
      assert SegmentTokens(after, 2) == Split(after, ' ');
    }
  }

  /** Text between a quote pair is one token with its spaces kept, and the
      text around the pair is split on spaces, in order. */
  lemma TokenizeQuoted(before: string, quoted: string, after: string)
    requires '"' !in before && '"' !in quoted && '"' !in after
    ensures Tokenize(before + "\"" + quoted + "\"" + after)
      == Split(before, ' ') + (if quoted == [] then [] else [quoted]) + Split(after, ' ')
  {
    assert before + "\"" + quoted + "\"" + after == before + ['"'] + (quoted + ['"'] + after);
    QuotedSegments(before, quoted, after);
    QuotedTokens(before, quoted, after);
  }

  // ---------------------------------------------------------------------
  // ProcessCommand

  /** The names of the seven-entry command table. */
  const CommandNames: set<string> := {"pid", "map", "dump", "write", "find", "scan", "freeze"}

  /** What handling one line amounts to; messages go to stderr. */
  datatype Effect =
    | Nothing
    | ShowHelp(args: seq<string>)
    | Ran(command: string)
    | Reported(message: string)

  /** The dispatch on a line's tokens; `mainFunc` stands for the table
      entries' Main functions. A command's exception is caught and reported
      as "command: what". */
  function Dispatch(tokens: seq<string>, mainFunc: (string, seq<string>) -> Outcome): Effect {
    if tokens == [] then Nothing
    else
      var command := tokens[0];
      if command == "help" then ShowHelp(tokens)
      else if command == "exit" then Nothing
      else if command in CommandNames then
        match mainFunc(command, tokens)
        case Done => Ran(command)
        case Fail(e) => Reported(command + ": " + e.what)
      else Reported("Command " + command + " not found.")
  }

  /** CommandProcessor::ProcessCommand: the line is split by the tokenizer
      loop, and the tokens are dispatched as Dispatch describes. */
  method ProcessCommand(input: string, mainFunc: (string, seq<string>) -> Outcome) returns (e: Effect)
    ensures e == Dispatch(Tokenize(input), mainFunc)
  {
    var tokens := TokenizeCommand(input);
    e := Dispatch(tokens, mainFunc);
  }

  /** A line does nothing exactly when it has no tokens or is "exit"; only
      the seven table names ever run; and a failing command is reported
      under its own name instead of escaping. */
  lemma DispatchRules(tokens: seq<string>, mainFunc: (string, seq<string>) -> Outcome)
    ensures Dispatch(tokens, mainFunc) == Nothing <==> tokens == [] || tokens[0] == "exit"
    ensures tokens != [] && tokens[0] == "help" ==> Dispatch(tokens, mainFunc) == ShowHelp(tokens)
    ensures Dispatch(tokens, mainFunc).Ran? ==>
      tokens != [] && tokens[0] in CommandNames && mainFunc(tokens[0], tokens) == Done
    ensures tokens != [] && tokens[0] in CommandNames && mainFunc(tokens[0], tokens) == Done ==>
      Dispatch(tokens, mainFunc) == Ran(tokens[0])
    ensures tokens != [] && tokens[0] in CommandNames && mainFunc(tokens[0], tokens).Fail? ==>
      Dispatch(tokens, mainFunc) == Reported(tokens[0] + ": " + mainFunc(tokens[0], tokens).exc.what)
    ensures tokens != [] && tokens[0] !in CommandNames && tokens[0] != "help" && tokens[0] != "exit" ==>
      Dispatch(tokens, mainFunc) == Reported("Command " + tokens[0] + " not found.")
  {
  }
}
