/**
 * The Python `str` operations the course code relies on: the ordering used by
 * `<` and `<=` on time strings, `s.split(' ')` and `s.split()`.
 *
 * Dafny's `<` on sequences means "proper prefix", so Python's lexicographic
 * order is defined here explicitly; characters compare by code point, as
 * Python compares them.
 */
module PyStr {

  /** Python's `a < b` on str. */
  predicate Less(a: string, b: string)
  {
    if b == [] then false
    else if a == [] then true
    else if a[0] != b[0] then a[0] < b[0]
    else Less(a[1..], b[1..])
  }

  /** Python's `a <= b` on str. */
  predicate LessEq(a: string, b: string)
  {
    a == b || Less(a, b)
  }

  lemma {:induction false} LessIrreflexive(a: string)
    ensures !Less(a, a)
  {
    if a != [] {
      LessIrreflexive(a[1..]);
    }
  }

  lemma {:induction false} LessTransitive(a: string, b: string, c: string)
    requires Less(a, b) && Less(b, c)
    ensures Less(a, c)
  {
    if a != [] && a[0] == b[0] && b[0] == c[0] {
      LessTransitive(a[1..], b[1..], c[1..]);
    }
  }

  /** Any two strings are equal or ordered one way or the other. */
  lemma {:induction false} LessTrichotomy(a: string, b: string)
    ensures a == b || Less(a, b) || Less(b, a)
  {
    if a != [] && b != [] && a[0] == b[0] {
      LessTrichotomy(a[1..], b[1..]);
      assert a == [a[0]] + a[1..] && b == [b[0]] + b[1..];
    }
  }

  lemma LessAsymmetric(a: string, b: string)
    requires Less(a, b)
    ensures !Less(b, a) && a != b
  {
    LessIrreflexive(a);
    if Less(b, a) {
      LessTransitive(a, b, a);
    }
  }

  /** `a <= b` is exactly `not b < a`: the order is total. */
  lemma LessEqIffNotLess(a: string, b: string)
    ensures LessEq(a, b) <==> !Less(b, a)
  {
    LessTrichotomy(a, b);
    LessIrreflexive(a);
    if Less(a, b) {
      LessAsymmetric(a, b);
    }
  }

  lemma LessEqLessTransitive(a: string, b: string, c: string)
    requires LessEq(a, b) && Less(b, c)
    ensures Less(a, c)
  {
    if a != b {
      LessTransitive(a, b, c);
    }
  }

  lemma LessLessEqTransitive(a: string, b: string, c: string)
    requires Less(a, b) && LessEq(b, c)
    ensures Less(a, c)
  {
    if b != c {
      LessTransitive(a, b, c);
    }
  }

  // ---------------------------------------------------------------------
  // s.split(sep) for a one-character separator
  // ---------------------------------------------------------------------

  /**
   * Python's `s.split(sep)`: the pieces between the occurrences of `sep`,
   * empty pieces included, so there is always at least one piece.
   */
  function SplitOn(s: string, sep: char): (pieces: seq<string>)
    ensures |pieces| >= 1
    ensures forall i :: 0 <= i < |pieces| ==> sep !in pieces[i]
  {
    if s == [] then [""]
    else
      var rest := SplitOn(s[1..], sep);
      if s[0] == sep then [""] + rest
      else [[s[0]] + rest[0]] + rest[1..]
  }

  /** Python's `sep.join(pieces)`. */
  function Join(pieces: seq<string>, sep: char): string
    requires |pieces| >= 1
  {
    if |pieces| == 1 then pieces[0] else pieces[0] + [sep] + Join(pieces[1..], sep)
  }

  /** One more piece than there are separators in `s`. */
  lemma {:induction false} SplitOnCount(s: string, sep: char)
    ensures |SplitOn(s, sep)| == multiset(s)[sep] + 1
  {
    if s != [] {
      SplitOnCount(s[1..], sep);
      assert s == [s[0]] + s[1..];
    }
  }

  /** Joining the pieces back with the separator gives the original string. */
  lemma {:induction false} SplitOnJoin(s: string, sep: char)
    ensures Join(SplitOn(s, sep), sep) == s
  {
    if s != [] {
      var rest := SplitOn(s[1..], sep);
      SplitOnJoin(s[1..], sep);
      if s[0] == sep {
        assert Join([""] + rest, sep) == [sep] + Join(rest, sep);
      } else {
        var pieces := [[s[0]] + rest[0]] + rest[1..];
        assert pieces[1..] == rest[1..];
        if |rest| == 1 {
          assert Join(pieces, sep) == [s[0]] + rest[0];
        } else {
          assert Join(pieces, sep) == [s[0]] + rest[0] + [sep] + Join(rest[1..], sep);
        }
        assert s == [s[0]] + s[1..];
      }
    }
  }

  lemma {:induction false} SplitOnPiece(p: string, t: string, sep: char)
    requires sep !in p
    ensures SplitOn(p + [sep] + t, sep) == [p] + SplitOn(t, sep)
    ensures SplitOn(p, sep) == [p]
  {
    if p == [] {
      assert ([sep] + t)[1..] == t;
    } else {
      SplitOnPiece(p[1..], t, sep);
      assert (p + [sep] + t)[1..] == p[1..] + [sep] + t;
      assert p == [p[0]] + p[1..];
    }
  }

  /** Splitting a join of separator-free pieces gives the pieces back. */
  lemma {:induction false} JoinSplitOn(pieces: seq<string>, sep: char)
    requires |pieces| >= 1
    requires forall i :: 0 <= i < |pieces| ==> sep !in pieces[i]
    ensures SplitOn(Join(pieces, sep), sep) == pieces
  {
    SplitOnPiece(pieces[0], [], sep);
    if |pieces| > 1 {
      JoinSplitOn(pieces[1..], sep);
      SplitOnPiece(pieces[0], Join(pieces[1..], sep), sep);
      assert pieces == [pieces[0]] + pieces[1..];
    }
  }

  // ---------------------------------------------------------------------
  // s.split() with no argument
  // ---------------------------------------------------------------------

  /** The characters `str.isspace` accepts, which `str.split()` splits on. */
  predicate IsSpace(c: char)
  {
    var n := c as int;
    (9 <= n <= 13) || (28 <= n <= 32) || n == 0x85 || n == 0xA0 || n == 0x1680 ||
    (0x2000 <= n <= 0x200A) || n == 0x2028 || n == 0x2029 || n == 0x202F ||
    n == 0x205F || n == 0x3000
  }

  predicate NoSpace(t: string)
  {
    forall c :: c in t ==> !IsSpace(c)
  }

  /**
   * Python's `s.split()`: the maximal runs of non-whitespace characters;
   * never an empty token.
   */
  function SplitWs(s: string): (tokens: seq<string>)
    ensures forall i :: 0 <= i < |tokens| ==> tokens[i] != [] && NoSpace(tokens[i])
    ensures s != [] && !IsSpace(s[0]) ==> tokens != []
  {
    if s == [] then []
    else
      var rest := SplitWs(s[1..]);
      if IsSpace(s[0]) then rest
      else if s[1..] != [] && !IsSpace(s[1]) then [[s[0]] + rest[0]] + rest[1..]
      else [[s[0]]] + rest
  }

  lemma {:induction false} SplitWsToken(t: string, s: string)
    requires t != [] && NoSpace(t)
    requires s == [] || IsSpace(s[0])
    ensures SplitWs(t + s) == [t] + SplitWs(s)
  {
    assert (t + s)[0] == t[0] && (t + s)[1..] == t[1..] + s;
    assert t[0] in t;
    if |t| > 1 {
      SplitWsToken(t[1..], s);
      assert t[1] in t && (t + s)[1] == t[1];
      assert t == [t[0]] + t[1..];
    } else {
      assert t == [t[0]] && (t + s)[1..] == s;
    }
  }

  /** Tokens without whitespace, joined by single spaces, split back into themselves. */
  lemma {:induction false} JoinSplitWs(tokens: seq<string>)
    requires |tokens| >= 1
    requires forall i :: 0 <= i < |tokens| ==> tokens[i] != [] && NoSpace(tokens[i])
    ensures SplitWs(Join(tokens, ' ')) == tokens
  {
    if |tokens| == 1 {
      SplitWsToken(tokens[0], []);
      assert tokens[0] + [] == tokens[0];
    } else {
      var rest := Join(tokens[1..], ' ');
      JoinSplitWs(tokens[1..]);
      SplitWsToken(tokens[0], [' '] + rest);
      assert tokens[0] + [' '] + rest == tokens[0] + ([' '] + rest);
      assert ([' '] + rest)[1..] == rest;
      assert tokens == [tokens[0]] + tokens[1..];
    }
  }
}
