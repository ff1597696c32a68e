/**
 * The .NET string operations the query parser relies on: `String.Split(char)` with and without
 * `StringSplitOptions.RemoveEmptyEntries`, `String.Join`, `String.Trim`, `String.Trim(params char[])`
 * and `String.ToLower`.
 */
module Text {
  import opened Seqs

  /** The pieces of `s` between occurrences of `sep`, empty pieces included, as `s.Split(sep)`
      returns them: there is always at least one piece, and none contains `sep`. */
  function Pieces(s: string, sep: char): (r: seq<string>)
    ensures |r| >= 1
    ensures forall i :: 0 <= i < |r| ==> sep !in r[i]
    decreases |s|
  {
    if s == [] then [[]]
    else
      var rest := Pieces(s[1..], sep);
      if s[0] == sep then [[]] + rest
      else [[s[0]] + rest[0]] + rest[1..]
  }

  /** `String.Join(sep, parts)`: the parts in order, with the separator between each two; the
      result starts with the first part, and is empty when there are no parts. */
  function Join(parts: seq<string>, sep: string): (r: string)
    ensures parts == [] ==> r == []
    ensures |parts| >= 1 ==> |parts[0]| <= |r| && r[..|parts[0]|] == parts[0]
    decreases |parts|
  {
    if |parts| == 0 then []
    else if |parts| == 1 then parts[0]
    else
      var rest := Join(parts[1..], sep);
      assert (parts[0] + sep + rest)[..|parts[0]|] == parts[0];
      parts[0] + sep + rest
  }

  /** The pieces, put back together with the separator, are the original string. */
  lemma {:induction false} JoinPieces(s: string, sep: char)
    ensures Join(Pieces(s, sep), [sep]) == s
    decreases |s|
  {
    if s != [] {
      var rest := Pieces(s[1..], sep);
      JoinPieces(s[1..], sep);
      if s[0] != sep {
        JoinConsFirst(s[0], rest, [sep]);
      }
    }
  }

  /** Joining after prepending a character to the first part prepends it to the whole. */
  lemma JoinConsFirst(c: char, parts: seq<string>, sep: string)
    requires |parts| >= 1
    ensures Join([[c] + parts[0]] + parts[1..], sep) == [c] + Join(parts, sep)
  {
  }

  /** Joining after appending a character to the last part appends it to the whole. */
  lemma {:induction false} JoinSnocLast(parts: seq<string>, c: char, sep: string)
    requires |parts| >= 1
    ensures Join(parts[..|parts| - 1] + [parts[|parts| - 1] + [c]], sep) == Join(parts, sep) + [c]
    decreases |parts|
  {
    var n := |parts|;
    if n > 1 {
      var tail := parts[1..];
      JoinSnocLast(tail, c, sep);
      var closed := parts[..n - 1] + [parts[n - 1] + [c]];
      assert closed[0] == parts[0];
      assert closed[1..] == tail[..|tail| - 1] + [tail[|tail| - 1] + [c]];
    }
  }

  /** Splitting is the inverse of joining: a list of separator-free pieces that joins to `s`
      is exactly `Pieces(s, sep)`. */
  lemma {:induction false} PiecesUnique(ps: seq<string>, s: string, sep: char)
    requires |ps| >= 1
    requires forall i :: 0 <= i < |ps| ==> sep !in ps[i]
    requires Join(ps, [sep]) == s
    ensures ps == Pieces(s, sep)
    decreases |s|
  {
    if s == [] {
    } else if |ps| == 1 {
      if s[0] != sep {
        assert ps[0] == s;
        var tail := [ps[0][1..]];
        assert sep !in tail[0];
        assert Join(tail, [sep]) == s[1..];
        PiecesUnique(tail, s[1..], sep);
        assert [s[0]] + s[1..] == s;
      }
    } else {
      var rest := Join(ps[1..], [sep]);
      assert s == ps[0] + [sep] + rest;
      if ps[0] == [] {
        assert s[0] == sep;
        assert s[1..] == rest;
        PiecesUnique(ps[1..], s[1..], sep);
        assert ps == [[]] + ps[1..];
      } else {
        assert s[0] == ps[0][0] && s[0] != sep;
        var tail := [ps[0][1..]] + ps[1..];
        assert tail[1..] == ps[1..];
        assert forall i :: 0 <= i < |tail| ==> sep !in tail[i];
        assert Join(tail, [sep]) == ps[0][1..] + [sep] + rest;
        assert s[1..] == ps[0][1..] + [sep] + rest;
        PiecesUnique(tail, s[1..], sep);
        assert [ps[0][0]] + ps[0][1..] == ps[0];
        assert ps == [[s[0]] + tail[0]] + tail[1..];
      }
    }
  }

  /** `parts` without its empty strings, in order. */
  function NonEmpty(parts: seq<string>): (r: seq<string>)
    ensures |r| <= |parts|
    ensures forall i :: 0 <= i < |r| ==> r[i] != []
    ensures forall i :: 0 <= i < |r| ==> r[i] in parts
    ensures forall i :: 0 <= i < |parts| && parts[i] != [] ==> parts[i] in r
    decreases |parts|
  {
    if parts == [] then []
    else
      var rest := NonEmpty(parts[1..]);
      assert forall i :: 0 <= i < |rest| ==> rest[i] in parts;
      assert forall i :: 1 <= i < |parts| ==> parts[i] == parts[1..][i - 1];
      if parts[0] == [] then rest else [parts[0]] + rest
  }

  lemma {:induction false} NonEmptyAppend(a: seq<string>, b: seq<string>)
    ensures NonEmpty(a + b) == NonEmpty(a) + NonEmpty(b)
    decreases |a|
  {
    if a != [] {
      assert (a + b)[0] == a[0] && (a + b)[1..] == a[1..] + b;
      NonEmptyAppend(a[1..], b);
      if a[0] != [] {
        assert NonEmpty(a + b) == [a[0]] + NonEmpty(a[1..] + b);
        assert NonEmpty(a) == [a[0]] + NonEmpty(a[1..]);
      }
    } else {
      assert a + b == b;
    }
  }

  lemma {:induction false} NonEmptyOfNonEmpty(parts: seq<string>)
    requires forall i :: 0 <= i < |parts| ==> parts[i] != []
    ensures NonEmpty(parts) == parts
    decreases |parts|
  {
    if parts != [] {
      NonEmptyOfNonEmpty(parts[1..]);
    }
  }

  /** `s.Split(sep, StringSplitOptions.RemoveEmptyEntries)`: the non-empty pieces of `s`. */
  function Split(s: string, sep: char): (r: seq<string>)
    ensures forall i :: 0 <= i < |r| ==> r[i] != [] && sep !in r[i]
  {
    NonEmpty(Pieces(s, sep))
  }

  /** Splitting a joined list of non-empty, separator-free tokens gives the tokens back. */
  lemma SplitJoin(tokens: seq<string>, sep: char)
    requires forall i :: 0 <= i < |tokens| ==> tokens[i] != [] && sep !in tokens[i]
    ensures Split(Join(tokens, [sep]), sep) == tokens
  {
    if tokens == [] {
      assert Pieces([], sep) == [[]];
    } else {
      PiecesUnique(tokens, Join(tokens, [sep]), sep);
      NonEmptyOfNonEmpty(tokens);
    }
  }

  lemma {:induction false} JoinAppend(a: seq<string>, b: seq<string>, sep: string)
    requires |a| >= 1 && |b| >= 1
    ensures Join(a + b, sep) == Join(a, sep) + sep + Join(b, sep)
    decreases |a|
  {
    if |a| > 1 {
      assert (a + b)[1..] == a[1..] + b;
      JoinAppend(a[1..], b, sep);
    } else {
      assert (a + b)[1..] == b;
    }
  }

  /** Two separator-free tokens in front of a list of them make a list of them. */
  lemma TokensPrepend(a: string, b: string, rest: seq<string>, sep: char)
    requires a != [] && sep !in a && b != [] && sep !in b
    requires forall i :: 0 <= i < |rest| ==> rest[i] != [] && sep !in rest[i]
    ensures forall i :: 0 <= i < |[a, b] + rest| ==> ([a, b] + rest)[i] != [] && sep !in ([a, b] + rest)[i]
  {
    var t := [a, b] + rest;
    forall i | 0 <= i < |t| ensures t[i] != [] && sep !in t[i] {
      if i >= 2 { assert t[i] == rest[i - 2]; }
    }
  }

  /** A string free of white space has no space in it. */
  lemma NoSpace(t: string)
    requires forall i :: 0 <= i < |t| ==> t[i] !in WhiteSpace
    ensures ' ' !in t
  {
    assert ' ' in WhiteSpace;
  }

  /** Splitting distributes over a separator: `Split(a + sep + b)` is `Split(a) + Split(b)`. */
  lemma SplitAppend(a: string, b: string, sep: char)
    ensures Split(a + [sep] + b, sep) == Split(a, sep) + Split(b, sep)
  {
    var pa, pb := Pieces(a, sep), Pieces(b, sep);
    JoinPieces(a, sep);
    JoinPieces(b, sep);
    JoinAppend(pa, pb, [sep]);
    PiecesUnique(pa + pb, a + [sep] + b, sep);
    NonEmptyAppend(pa, pb);
  }

  /** A string of separators only, the empty string included, splits into nothing. */
  lemma {:induction false} SplitOnlySeparators(s: string, sep: char)
    requires forall i :: 0 <= i < |s| ==> s[i] == sep
    ensures Split(s, sep) == []
    decreases |s|
  {
    if s != [] {
      SplitOnlySeparators(s[1..], sep);
      assert Pieces(s, sep) == [[]] + Pieces(s[1..], sep);
    }
  }

  /** `Char.IsWhiteSpace`: the Unicode space, line and paragraph separators, U+0009 to U+000D
      and U+0085. This is the set `String.Trim()` removes. */
  const WhiteSpace: set<char> := {
    '\U{0009}', '\U{000A}', '\U{000B}', '\U{000C}', '\U{000D}', '\U{0020}', '\U{0085}', '\U{00A0}',
    '\U{1680}', '\U{2000}', '\U{2001}', '\U{2002}', '\U{2003}', '\U{2004}', '\U{2005}', '\U{2006}',
    '\U{2007}', '\U{2008}', '\U{2009}', '\U{200A}', '\U{2028}', '\U{2029}', '\U{202F}', '\U{205F}',
    '\U{3000}'
  }

  /** `s.TrimStart(chars)`: the longest suffix of `s` that does not start with one of `chars`. */
  function TrimStart(s: string, chars: set<char>): (r: string)
    ensures |r| <= |s| && r == s[|s| - |r|..]
    ensures r == [] || r[0] !in chars
    ensures forall i :: 0 <= i < |s| - |r| ==> s[i] in chars
    decreases |s|
  {
    if s != [] && s[0] in chars then
      var r := TrimStart(s[1..], chars);
      assert forall i :: 1 <= i < |s| ==> s[i] == s[1..][i - 1];
      r
    else s
  }

  /** `s.TrimEnd(chars)`: the longest prefix of `s` that does not end with one of `chars`. */
  function TrimEnd(s: string, chars: set<char>): (r: string)
    ensures |r| <= |s| && r == s[..|r|]
    ensures r == [] || r[|r| - 1] !in chars
    ensures forall i :: |r| <= i < |s| ==> s[i] in chars
    decreases |s|
  {
    if s != [] && s[|s| - 1] in chars then
      var r := TrimEnd(s[..|s| - 1], chars);
      assert forall i :: 0 <= i < |s| - 1 ==> s[i] == s[..|s| - 1][i];
      r
    else s
  }

  /** `s.Trim(chars)`: the slice of `s` from position `k` on that remains once characters of
      `chars` are removed from both ends; everything before and after it is one of `chars`.
      `TrimMaximal` adds that no more could be removed. */
  function Trim(s: string, chars: set<char>): (r: string)
    ensures var k := |s| - |TrimStart(s, chars)|;
      && k + |r| <= |s| && (forall i :: 0 <= i < |r| ==> r[i] == s[k + i])
      && (forall i :: 0 <= i < k ==> s[i] in chars)
      && (forall i :: k + |r| <= i < |s| ==> s[i] in chars)
  {
    var t := TrimStart(s, chars);
    TrimBothEnds(s, chars, t, TrimEnd(t, chars));
    TrimEnd(t, chars)
  }

  lemma TrimBothEnds(s: string, chars: set<char>, t: string, r: string)
    requires |t| <= |s| && t == s[|s| - |t|..]
    requires forall i :: 0 <= i < |s| - |t| ==> s[i] in chars
    requires |r| <= |t| && r == t[..|r|]
    requires forall i :: |r| <= i < |t| ==> t[i] in chars
    ensures var k := |s| - |t|;
      && k + |r| <= |s| && (forall i :: 0 <= i < |r| ==> r[i] == s[k + i])
      && (forall i :: 0 <= i < k ==> s[i] in chars)
      && (forall i :: k + |r| <= i < |s| ==> s[i] in chars)
  {
    var k := |s| - |t|;
    forall i | k <= i < |s|
      ensures s[i] == t[i - k]
    {
    }
  }

  /** Trimming removes as much as it can: the result neither starts nor ends with one of
      `chars`. */
  lemma TrimMaximal(s: string, chars: set<char>)
    ensures var r := Trim(s, chars);
      |r| == 0 || (r[0] !in chars && r[|r| - 1] !in chars)
  {
    var t := TrimStart(s, chars);
    var r := TrimEnd(t, chars);
    assert Trim(s, chars) == r;
    if |r| > 0 {
      assert r[0] == t[0];
    }
  }

  lemma {:induction false} TrimStartPadded(front: string, rest: string, chars: set<char>)
    requires forall i :: 0 <= i < |front| ==> front[i] in chars
    requires rest == [] || rest[0] !in chars
    ensures TrimStart(front + rest, chars) == rest
    decreases |front|
  {
    if front != [] {
      assert (front + rest)[1..] == front[1..] + rest;
      TrimStartPadded(front[1..], rest, chars);
    }
  }

  lemma {:induction false} TrimEndPadded(rest: string, back: string, chars: set<char>)
    requires forall i :: 0 <= i < |back| ==> back[i] in chars
    requires rest == [] || rest[|rest| - 1] !in chars
    ensures TrimEnd(rest + back, chars) == rest
    decreases |back|
  {
    if back != [] {
      var shorter := back[..|back| - 1];
      assert (rest + back)[..|rest + back| - 1] == rest + shorter;
      TrimEndPadded(rest, shorter, chars);
    }
  }

  /** Trimming removes exactly the padding: a string whose ends are not in `chars`, padded on
      both sides with characters of `chars`, trims back to itself. */
  lemma TrimPadded(front: string, s: string, back: string, chars: set<char>)
    requires forall i :: 0 <= i < |front| ==> front[i] in chars
    requires forall i :: 0 <= i < |back| ==> back[i] in chars
    requires s == [] || (s[0] !in chars && s[|s| - 1] !in chars)
    ensures Trim(front + s + back, chars) == s
  {
    if s == [] {
      assert front + s + back == front + back + [];
      TrimStartPadded(front + back, [], chars);
    } else {
      assert front + s + back == front + (s + back);
      TrimStartPadded(front, s + back, chars);
      TrimEndPadded(s, back, chars);
    }
  }

  /** The simple ASCII case mapping `Char.ToLower` applies to `A`..`Z`. */
  function LowerChar(c: char): char
  {
    if 'A' <= c <= 'Z' then (c as int + 32) as char else c
  }

  function UpperChar(c: char): char
  {
    if 'a' <= c <= 'z' then (c as int - 32) as char else c
  }

  /** `s.ToLower()`, character by character: each character lower-cased, so no upper-case
      letter is left. */
  function ToLower(s: string): (r: string)
    ensures |r| == |s|
    ensures forall i :: 0 <= i < |s| ==> r[i] == LowerChar(s[i])
    ensures IsLowerCase(r)
    decreases |s|
  {
    if s == [] then []
    else
      var rest := ToLower(s[1..]);
      assert forall i :: 1 <= i < |s| ==> s[i] == s[1..][i - 1];
      [LowerChar(s[0])] + rest
  }

  predicate IsLowerCase(t: string)
  {
    forall i :: 0 <= i < |t| ==> !('A' <= t[i] <= 'Z')
  }

  /** Comparing `ToLower(s)` against an all-lower-case `t` is case-insensitive equality: each
      character of `s` is the character of `t` or its upper-case form. */
  lemma {:induction false} ToLowerEquals(s: string, t: string)
    requires IsLowerCase(t)
    ensures ToLower(s) == t <==>
      |s| == |t| && forall i :: 0 <= i < |s| ==> s[i] == t[i] || s[i] == UpperChar(t[i])
    decreases |s|
  {
    if s != [] && |s| == |t| {
      assert IsLowerCase(t[1..]);
      ToLowerEquals(s[1..], t[1..]);
      if ToLower(s) == t {
        assert ToLower(s)[0] == LowerChar(s[0]) == t[0];
        assert ToLower(s[1..]) == t[1..];
        forall i | 0 <= i < |s| ensures s[i] == t[i] || s[i] == UpperChar(t[i]) {
          if i > 0 { assert s[1..][i - 1] == s[i] && t[1..][i - 1] == t[i]; }
        }
      }
      if forall i :: 0 <= i < |s| ==> s[i] == t[i] || s[i] == UpperChar(t[i]) {
        assert forall i :: 0 <= i < |s| - 1 ==> s[1..][i] == t[1..][i] || s[1..][i] == UpperChar(t[1..][i]) by {
          forall i | 0 <= i < |s| - 1 ensures s[1..][i] == t[1..][i] || s[1..][i] == UpperChar(t[1..][i]) {
            assert s[1..][i] == s[i + 1] && t[1..][i] == t[i + 1];
          }
        }
        assert s[0] == t[0] || s[0] == UpperChar(t[0]);
        assert LowerChar(s[0]) == t[0];
        assert ToLower(s) == [t[0]] + t[1..] == t;
      }
    }
  }
}
