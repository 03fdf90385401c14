/** The few pieces of JavaScript semantics the controller relies on: an
    optional request field, truthiness, `||` on strings, and
    `String.prototype.split` followed by `Array.prototype.pop`. */
module Js {

  datatype Option<+T> = None | Some(value: T)

  /** Truthiness of a request field that is either absent (`undefined`) or a
      string: `undefined` and the empty string are falsy, every other string
      is truthy. */
  function Truthy(x: Option<string>): (b: bool)
    ensures b <==> x != None && x != Some("")
  {
    x.Some? && x.value != ""
  }

  /** `a || b` on two optional strings: one of the two operands, truthy
      exactly when either operand is, the left one whenever it is truthy
      and the right one otherwise. */
  function Or(a: Option<string>, b: Option<string>): (r: Option<string>)
    ensures r == a || r == b
    ensures Truthy(r) <==> Truthy(a) || Truthy(b)
    ensures Truthy(a) ==> r == a
    ensures !Truthy(a) ==> r == b
  {
    if Truthy(a) then a else b
  }

  /** `s.split(sep)` with a one-character separator: the pieces between
      separators, left to right. Like JavaScript it never yields an empty
      array: `"".split("/")` is `[""]`. */
  function Split(s: string, sep: char): (parts: seq<string>)
    ensures |parts| >= 1
    ensures forall i :: 0 <= i < |parts| ==> sep !in parts[i]
    decreases |s|
  {
    if s == [] then [""]
    else
      var rest := Split(s[1..], sep);
      if s[0] == sep then [""] + rest
      else [[s[0]] + rest[0]] + rest[1..]
  }

  /** `parts.join(sep)`. */
  function Join(parts: seq<string>, sep: char): string
  {
    if parts == [] then ""
    else if |parts| == 1 then parts[0]
    else parts[0] + [sep] + Join(parts[1..], sep)
  }

  /** `xs.pop()` used for its value; `Split` never yields an empty array. */
  function Last<T>(xs: seq<T>): T
    requires |xs| >= 1
  {
    xs[|xs| - 1]
  }

  /** Joining the pieces again gives back the string that was split. */
  lemma {:induction false} SplitThenJoin(s: string, sep: char)
    ensures Join(Split(s, sep), sep) == s
    decreases |s|
  {
    if s != [] {
      var rest := Split(s[1..], sep);
      SplitThenJoin(s[1..], sep);
      if s[0] == sep {
        assert Split(s, sep) == [""] + rest;
        assert s == [sep] + s[1..];
      } else if |rest| == 1 {
        assert Split(s, sep) == [[s[0]] + rest[0]];
        assert s == [s[0]] + s[1..];
      } else {
        var parts := Split(s, sep);
        assert parts == [[s[0]] + rest[0]] + rest[1..];
        assert parts[1..] == rest[1..];
        assert Join(rest, sep) == rest[0] + [sep] + Join(rest[1..], sep);
        assert s == [s[0]] + s[1..];
      }
    }
  }

  /** A string without the separator is one piece. */
  lemma {:induction false} SplitWithoutSeparator(s: string, sep: char)
    requires sep !in s
    ensures Split(s, sep) == [s]
    decreases |s|
  {
    if s != [] {
      SplitWithoutSeparator(s[1..], sep);
      assert s == [s[0]] + s[1..];
    }
  }

  /** A separator-free piece followed by the separator splits off as the
      first piece. */
  lemma {:induction false} SplitAfterPiece(piece: string, rest: string, sep: char)
    requires sep !in piece
    ensures Split(piece + [sep] + rest, sep) == [piece] + Split(rest, sep)
    decreases |piece|
  {
    var s := piece + [sep] + rest;
    SplitStep(s, sep);
    if piece == [] {
      assert s == [sep] + rest;
    } else {
      var tail := piece[1..] + [sep] + rest;
      assert s == [piece[0]] + tail;
      assert s[1..] == tail;
      SplitAfterPiece(piece[1..], rest, sep);
      assert piece == [piece[0]] + piece[1..];
    }
  }

  /** One unfolding of `Split` on a non-empty string. */
  lemma SplitStep(s: string, sep: char)
    requires s != []
    ensures Split(s, sep) ==
            if s[0] == sep then [""] + Split(s[1..], sep)
            else [[s[0]] + Split(s[1..], sep)[0]] + Split(s[1..], sep)[1..]
  {
  }

  /** Splitting a joined array whose pieces hold no separator gives back the
      pieces: `Split` and `Join` are inverse to each other. */
  lemma {:induction false} JoinThenSplit(parts: seq<string>, sep: char)
    requires |parts| >= 1
    requires forall i :: 0 <= i < |parts| ==> sep !in parts[i]
    ensures Split(Join(parts, sep), sep) == parts
    decreases |parts|
  {
    if |parts| == 1 {
      SplitWithoutSeparator(parts[0], sep);
    } else {
      JoinThenSplit(parts[1..], sep);
      SplitAfterPiece(parts[0], Join(parts[1..], sep), sep);
      assert parts == [parts[0]] + parts[1..];
    }
  }

  /** The last piece is the longest tail of `s` that holds no separator:
      it is a suffix of `s`, and it is either all of `s` or preceded by a
      separator. */
  lemma {:induction false} LastPieceIsTail(s: string, sep: char)
    ensures var r := Last(Split(s, sep));
      |r| <= |s| && r == s[|s| - |r|..] && (|r| == |s| || s[|s| - |r| - 1] == sep)
    decreases |s|
  {
    if s != [] {
      var rest := Split(s[1..], sep);
      LastPieceIsTail(s[1..], sep);
      var t := s[1..];
      var r := Last(rest);
      assert t == s[1..];
      if s[0] == sep {
        assert Split(s, sep) == [""] + rest;
        assert Last(Split(s, sep)) == r;
      } else if |rest| == 1 {
        SplitThenJoin(t, sep);
        assert r == t;
        assert Split(s, sep) == [[s[0]] + rest[0]];
        assert Last(Split(s, sep)) == s;
      } else {
        assert Split(s, sep) == [[s[0]] + rest[0]] + rest[1..];
        assert Last(Split(s, sep)) == r;
        if |r| == |t| {
          assert r == t;
          assert sep !in t;
          SplitWithoutSeparator(t, sep);
          assert false;
        }
        assert s[|s| - |r| - 1] == t[|t| - |r| - 1];
      }
    }
  }
}
