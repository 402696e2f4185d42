/** String splitting and joining (src/Utils.cpp). */
module Utils {

  /** The index of the first `d` in `s`, or |s| when there is none. */
  function FirstIndexOf(s: string, d: char): (k: nat)
    ensures k <= |s|
    ensures k < |s| ==> s[k] == d
    ensures forall j :: 0 <= j < k ==> s[j] != d
    ensures s != [] && s[0] != d ==> k >= 1
  {
    if s == [] || s[0] == d then 0 else 1 + FirstIndexOf(s[1..], d)
  }

  /** What the getline loop of SplitString collects: the maximal runs of
      characters other than `delim`, in order; empty pieces are dropped. */
  function Split(s: string, delim: char): seq<string>
  {
    if s == [] then []
    else if s[0] == delim then Split(s[1..], delim)
    else
      var k := FirstIndexOf(s, delim);
      [s[..k]] + Split(s[k..], delim)
  }

  /** `s` with every occurrence of `d` removed. */
  function Without(s: string, d: char): string {
    if s == [] then [] else (if s[0] == d then [] else [s[0]]) + Without(s[1..], d)
  }

  function Concat(v: seq<string>): string {
    if v == [] then [] else v[0] + Concat(v[1..])
  }

  /** `v` with `c` between consecutive elements and none after the last. */
  function Join(v: seq<string>, c: char): string {
    if v == [] then ""
    else if |v| == 1 then v[0]
    else v[0] + [c] + Join(v[1..], c)
  }

  // ---------------------------------------------------------------------
  // SplitString

  /** Utils::SplitString: reads `str` piece by piece up to each `delim` and
      keeps the non-empty pieces. */
  method SplitString(str: string, delim: char) returns (tokens: seq<string>)
    ensures tokens == Split(str, delim)
  {
    tokens := [];
    var intermediate := "";
    var i := 0;
    assert intermediate + str[i..] == str;
    while i < |str|
      invariant 0 <= i <= |str|
      invariant delim !in intermediate
      invariant Split(str, delim) == tokens + Split(intermediate + str[i..], delim)
    {
      SplitStep(intermediate, str[i..], delim);
      assert str[i..][1..] == str[i + 1..];
      if str[i] == delim {
        if |intermediate| != 0 {
          tokens := tokens + [intermediate];
        }
        intermediate := "";
      } else {
        intermediate := intermediate + [str[i]];
      }
      i := i + 1;
    }
    SplitAfterPiece(intermediate, [], delim);
    assert intermediate + str[i..] == intermediate;
    if |intermediate| != 0 {
      tokens := tokens + [intermediate];
    }
  }

  /** One character of the getline loop: a delimiter closes the current piece,
      any other character extends it. */
  lemma SplitStep(piece: string, rest: string, d: char)
    requires d !in piece && rest != []
    ensures rest[0] == d ==>
      Split(piece + rest, d) == (if piece == [] then [] else [piece]) + Split("" + rest[1..], d)
    ensures rest[0] != d ==>
      Split(piece + rest, d) == Split((piece + [rest[0]]) + rest[1..], d)
  {
    assert rest == [rest[0]] + rest[1..];
    assert "" + rest[1..] == rest[1..];
    if rest[0] == d {
      assert piece + rest == piece + [d] + rest[1..];
      SplitAfterPiece(piece, rest[1..], d);
    } else {
      assert piece + rest == (piece + [rest[0]]) + rest[1..];
    }
  }

  /** A piece free of the delimiter, followed by the rest: the piece is one
      token (none when it is empty) and the rest splits on its own. */
  lemma SplitAfterPiece(piece: string, rest: string, d: char)
    requires d !in piece
    ensures Split(piece + [d] + rest, d) == (if piece == [] then [] else [piece]) + Split(rest, d)
    ensures Split(piece, d) == (if piece == [] then [] else [piece])
  {
    var s := piece + [d] + rest;
    if piece == [] {
      assert s[0] == d && s[1..] == rest;
    } else {
      assert s[0] == piece[0];
      FirstIndexInPiece(piece, [d] + rest, d);
      assert s[..|piece|] == piece;
      assert s[|piece|..] == [d] + rest;
      assert ([d] + rest)[1..] == rest;
      FirstIndexInPiece(piece, [], d);
      assert piece + [] == piece;
      assert piece[|piece|..] == [];
    }
  }

  lemma FirstIndexInPiece(piece: string, rest: string, d: char)
    requires d !in piece
    requires rest != [] ==> rest[0] == d
    ensures FirstIndexOf(piece + rest, d) == |piece|
  {
    var s := piece + rest;
    assert forall j :: 0 <= j < |piece| ==> s[j] == piece[j];
    if rest != [] {
      assert s[|piece|] == rest[0];
    }
  }

  /** No token of SplitString is empty and none contains the delimiter. */
  lemma {:induction false} SplitTokensAreClean(s: string, d: char)
    ensures forall k :: 0 <= k < |Split(s, d)| ==> Split(s, d)[k] != [] && d !in Split(s, d)[k]
    decreases |s|
  {
    if s != [] {
      if s[0] == d {
        SplitTokensAreClean(s[1..], d);
      } else {
        var k := FirstIndexOf(s, d);
        SplitTokensAreClean(s[k..], d);
        assert forall j :: 0 <= j < |s[..k]| ==> s[..k][j] != d;
      }
    }
  }

  /** Gluing the tokens back together gives the input with its delimiters taken out. */
  lemma {:induction false} SplitConcat(s: string, d: char)
    ensures Concat(Split(s, d)) == Without(s, d)
    decreases |s|
  {
    if s != [] {
      if s[0] == d {
        SplitConcat(s[1..], d);
      } else {
        var k := FirstIndexOf(s, d);
        SplitConcat(s[k..], d);
        WithoutFreePiece(s[..k], s[k..], d);
        assert s[..k] + s[k..] == s;
        assert Concat([s[..k]] + Split(s[k..], d)) == s[..k] + Concat(Split(s[k..], d));
      }
    }
  }

  lemma {:induction false} WithoutFreePiece(piece: string, rest: string, d: char)
    requires d !in piece
    ensures Without(piece + rest, d) == piece + Without(rest, d)
    decreases |piece|
  {
    if piece != [] {
      assert (piece + rest)[0] == piece[0];
      assert (piece + rest)[1..] == piece[1..] + rest;
      WithoutFreePiece(piece[1..], rest, d);
      calc {
        Without(piece + rest, d);
        [piece[0]] + Without(piece[1..] + rest, d);
        [piece[0]] + (piece[1..] + Without(rest, d));
        { assert piece == [piece[0]] + piece[1..]; }
        piece + Without(rest, d);
      }
    } else {
      assert piece + rest == rest;
      assert piece + Without(rest, d) == Without(rest, d);
    }
  }

  /** Round trip: joining clean tokens and splitting again on the same
      character gives the tokens back. */
  lemma {:induction false} SplitJoin(v: seq<string>, c: char)
    requires forall k :: 0 <= k < |v| ==> v[k] != [] && c !in v[k]
    ensures Split(Join(v, c), c) == v
    decreases |v|
  {
    if |v| == 1 {
      SplitAfterPiece(v[0], [], c);
    } else if |v| > 1 {
      SplitJoin(v[1..], c);
      SplitAfterPiece(v[0], Join(v[1..], c), c);
      assert v == [v[0]] + v[1..];
    }
  }

  // ---------------------------------------------------------------------
  // JoinVectorOfStrings

  lemma {:induction false} JoinSnoc(v: seq<string>, x: string, c: char)
    requires v != []
    ensures Join(v + [x], c) == Join(v, c) + [c] + x
    decreases |v|
  {
    if |v| == 1 {
      assert (v + [x])[1..] == [x];
    } else {
      assert (v + [x])[1..] == v[1..] + [x];
      JoinSnoc(v[1..], x, c);
    }
  }

  /** Utils::JoinVectorOfStrings: the elements from `startIndex` on, with
      `joinChar` between consecutive ones. */
  method JoinVectorOfStrings(vec: seq<string>, startIndex: nat, joinChar: char) returns (fullString: string)
    requires startIndex <= |vec|
    ensures fullString == Join(vec[startIndex..], joinChar)
  {
    fullString := "";
    var it := startIndex;
    while it < |vec|
      invariant startIndex <= it <= |vec|
      invariant fullString == Join(vec[startIndex..it], joinChar) + (if startIndex < it < |vec| then [joinChar] else [])
    {
      if it > startIndex {
        JoinSnoc(vec[startIndex..it], vec[it], joinChar);
        assert vec[startIndex..it + 1] == vec[startIndex..it] + [vec[it]];
      } else {
        assert vec[startIndex..it + 1] == [vec[it]];
      }
      fullString := fullString + vec[it];
      if it + 1 != |vec| {
        fullString := fullString + [joinChar];
      }
      it := it + 1;
    }
    assert vec[startIndex..it] == vec[startIndex..];
  }

  /** Joined text contains no more pieces than it was made of: the total
      length is the pieces' lengths plus one separator between each pair. */
  lemma {:induction false} JoinLength(v: seq<string>, c: char)
    ensures |Join(v, c)| == |Concat(v)| + (if v == [] then 0 else |v| - 1)
    decreases |v|
  {
    if |v| == 1 {
      assert Concat(v) == v[0] + Concat([]);
    } else if |v| > 1 {
      JoinLength(v[1..], c);
    }
  }
}
