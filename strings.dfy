/** The Python string builtins the parsers rely on: `str.strip`, `str.lower`,
    `str.split` and `re.split` on a character class. Strings are sequences of
    Unicode scalar values. */
module Strings {
  import opened Lists

  /** The characters Python's `str.isspace` accepts, which `str.strip()`
      without an argument removes. */
  const Whitespace: set<char> := {
    '\t', '\n', '\U{0B}', '\U{0C}', '\r',
    '\U{1C}', '\U{1D}', '\U{1E}', '\U{1F}', ' ',
    '\U{85}', '\U{A0}', '\U{1680}',
    '\U{2000}', '\U{2001}', '\U{2002}', '\U{2003}', '\U{2004}', '\U{2005}',
    '\U{2006}', '\U{2007}', '\U{2008}', '\U{2009}', '\U{200A}',
    '\U{2028}', '\U{2029}', '\U{202F}', '\U{205F}', '\U{3000}'
  }

  /** `r` is `s` with a prefix of length `i` and some suffix removed, and every
      removed character belongs to `cs`. */
  ghost predicate Trimmed(r: string, s: string, cs: set<char>, i: int)
  {
    && 0 <= i <= i + |r| <= |s|
    && s[i..i + |r|] == r
    && (forall k :: 0 <= k < i ==> s[k] in cs)
    && (forall k :: i + |r| <= k < |s| ==> s[k] in cs)
  }

  /** No character of `s` belongs to `cs`. */
  predicate Avoids(s: string, cs: set<char>)
  {
    forall k :: 0 <= k < |s| ==> s[k] !in cs
  }

  /** A middle part of a string avoids whatever the string avoids. */
  lemma TrimmedAvoids(r: string, s: string, cs: set<char>, i: int, avoid: set<char>)
    requires Trimmed(r, s, cs, i) && Avoids(s, avoid)
    ensures Avoids(r, avoid)
  {
    forall k | 0 <= k < |r| ensures r[k] !in avoid {
      assert r[k] == s[i..i + |r|][k] == s[i + k];
    }
  }

  /** Removing from both ends composes: trimming a trimmed string is a trim of
      the original, over the union of the two character sets. */
  lemma TrimmedTrans(a: string, b: string, c: string, cs1: set<char>, cs2: set<char>, i: int, j: int)
    requires Trimmed(b, c, cs1, j) && Trimmed(a, b, cs2, i)
    ensures Trimmed(a, c, cs1 + cs2, j + i)
  {
    forall k | 0 <= k < |a| ensures c[j + i + k] == a[k] {
      assert c[j + i + k] == c[j..j + |b|][i + k] == b[i + k];
      assert b[i..i + |a|][k] == b[i + k];
    }
    assert c[j + i..j + i + |a|] == a;
    forall k | 0 <= k < j + i ensures c[k] in cs1 + cs2 {
      if k >= j { assert c[k] == b[k - j]; }
    }
    forall k | j + i + |a| <= k < |c| ensures c[k] in cs1 + cs2 {
      if k < j + |b| { assert c[k] == b[k - j]; }
    }
  }

  /** Python's `s.lstrip(chars)`, with the characters given as a set. */
  function TrimStart(s: string, cs: set<char>): (r: string)
    ensures Trimmed(r, s, cs, |s| - |r|)
    ensures r != [] ==> r[0] !in cs
    decreases |s|
  {
    if s != [] && s[0] in cs then TrimStart(s[1..], cs) else s
  }

  /** Python's `s.rstrip(chars)`, with the characters given as a set. */
  function TrimEnd(s: string, cs: set<char>): (r: string)
    ensures Trimmed(r, s, cs, 0)
    ensures r != [] ==> r[|r| - 1] !in cs
    decreases |s|
  {
    if s != [] && s[|s| - 1] in cs then TrimEnd(s[..|s| - 1], cs) else s
  }

  /** Python's `s.strip(chars)`: the longest middle part of `s` that neither
      begins nor ends with a character of `cs`. */
  function Strip(s: string, cs: set<char>): (r: string)
    ensures exists i :: Trimmed(r, s, cs, i)
    ensures r != [] ==> r[0] !in cs && r[|r| - 1] !in cs
  {
    var t := TrimStart(s, cs);
    var r := TrimEnd(t, cs);
    TrimmedTrans(r, t, s, cs, cs, 0, |s| - |t|);
    assert cs + cs == cs;
    assert r != [] ==> r[0] == t[0];
    r
  }

  function LowerChar(c: char): char
  {
    if 'A' <= c <= 'Z' then (c as int - 'A' as int + 'a' as int) as char else c
  }

  /** Python's `s.lower()`, restricted to the ASCII letters. */
  function Lower(s: string): (r: string)
    ensures |r| == |s|
    ensures forall i :: 0 <= i < |s| ==> r[i] == LowerChar(s[i])
  {
    if s == [] then [] else [LowerChar(s[0])] + Lower(s[1..])
  }

  /** Python's `s.split(d)` when `seps == {d}`, and `re.split` on the character
      class `seps` otherwise: the maximal runs between separators, empty runs
      included, so there is always at least one piece. */
  function Split(s: string, seps: set<char>): (r: seq<string>)
    ensures |r| >= 1
    decreases |s|
  {
    if s == [] then [""]
    else
      var rest := Split(s[1..], seps);
      if s[0] in seps then [""] + rest
      else [[s[0]] + rest[0]] + rest[1..]
  }

  /** No piece contains a separator. */
  lemma {:induction false} SplitPieces(s: string, seps: set<char>)
    ensures forall k, j :: 0 <= k < |Split(s, seps)| && 0 <= j < |Split(s, seps)[k]| ==> Split(s, seps)[k][j] !in seps
    decreases |s|
  {
    if s != [] {
      SplitPieces(s[1..], seps);
      var rest := Split(s[1..], seps);
      if s[0] !in seps {
        var r := Split(s, seps);
        forall k, j | 0 <= k < |r| && 0 <= j < |r[k]|
          ensures r[k][j] !in seps
        {
          if k == 0 {
            assert r[0] == [s[0]] + rest[0];
            if j > 0 {
              assert r[0][j] == rest[0][j - 1];
            }
          } else {
            assert r[k] == rest[k];
          }
        }
      }
    }
  }

  /** Stripping keeps a string free of the characters it avoids. */
  lemma StripAvoids(s: string, cs: set<char>, avoid: set<char>)
    requires Avoids(s, avoid)
    ensures Avoids(Strip(s, cs), avoid)
  {
    var i :| Trimmed(Strip(s, cs), s, cs, i);
    TrimmedAvoids(Strip(s, cs), s, cs, i, avoid);
  }

  /** The pieces of a split avoid every character that occurs in the whole
      string only as a separator. */
  lemma {:induction false} SplitPiecesAvoid(s: string, seps: set<char>, avoid: set<char>)
    requires forall k :: 0 <= k < |s| ==> s[k] in seps || s[k] !in avoid
    ensures forall k :: 0 <= k < |Split(s, seps)| ==> Avoids(Split(s, seps)[k], avoid)
    decreases |s|
  {
    if s != [] {
      SplitPiecesAvoid(s[1..], seps, avoid);
      var rest := Split(s[1..], seps);
      if s[0] !in seps {
        var r := Split(s, seps);
        forall k | 0 <= k < |r| ensures Avoids(r[k], avoid) {
          if k == 0 {
            forall j | 0 <= j < |r[0]| ensures r[0][j] !in avoid {
              assert r[0] == [s[0]] + rest[0];
              if j > 0 {
                assert r[0][j] == rest[0][j - 1];
              }
            }
          } else {
            assert r[k] == rest[k];
          }
        }
      }
    }
  }

  /** A string holding a separator splits into at least two pieces. */
  lemma SeparatorSplits(s: string, seps: set<char>)
    requires !Avoids(s, seps)
    ensures |Split(s, seps)| >= 2
  {
    var k :| 0 <= k < |s| && s[k] in seps;
    assert s == s[..k] + [s[k]] + s[k + 1..];
    SplitAtSeparator(s[..k], s[k], s[k + 1..], seps);
  }

  /** Python's `d.join(pieces)`. */
  function Join(pieces: seq<string>, d: char): string
    requires |pieces| >= 1
  {
    if |pieces| == 1 then pieces[0] else pieces[0] + [d] + Join(pieces[1..], d)
  }

  /** Splitting on one delimiter and joining back with it gives the original. */
  lemma {:induction false} SplitJoin(s: string, d: char)
    ensures Join(Split(s, {d}), d) == s
    decreases |s|
  {
    if s != [] {
      var rest := Split(s[1..], {d});
      SplitJoin(s[1..], d);
      if s[0] == d {
        assert Split(s, {d}) == [""] + rest;
        assert ([""] + rest)[1..] == rest;
      } else {
        var r := Split(s, {d});
        assert r == [[s[0]] + rest[0]] + rest[1..];
        if |rest| == 1 {
          assert Join(r, d) == [s[0]] + rest[0];
        } else {
          assert r[1..] == rest[1..];
          assert Join(r, d) == [s[0]] + rest[0] + [d] + Join(rest[1..], d);
        }
        assert [s[0]] + s[1..] == s;
      }
    }
  }

  /** A string without separators is one piece. */
  lemma {:induction false} SplitWithoutSeparator(s: string, seps: set<char>)
    requires forall k :: 0 <= k < |s| ==> s[k] !in seps
    ensures Split(s, seps) == [s]
    decreases |s|
  {
    if s != [] {
      SplitWithoutSeparator(s[1..], seps);
      assert [s[0]] + s[1..] == s;
    }
  }

  /** Splitting at a separator splits the pieces: the pieces of `a + [d] + b`
      are those of `a` followed by those of `b`. */
  lemma {:induction false} SplitAtSeparator(a: string, d: char, b: string, seps: set<char>)
    requires d in seps
    ensures Split(a + [d] + b, seps) == Split(a, seps) + Split(b, seps)
    decreases |a|
  {
    if a == [] {
      assert a + [d] + b == [d] + b;
      SplitCons(d, b, seps);
    } else {
      var c, t := a[0], a[1..];
      assert a == [c] + t;
      assert a + [d] + b == [c] + (t + [d] + b);
      SplitAtSeparator(t, d, b, seps);
      SplitCons(c, t + [d] + b, seps);
      SplitCons(c, t, seps);
      if c in seps {
        assert [""] + (Split(t, seps) + Split(b, seps)) == ([""] + Split(t, seps)) + Split(b, seps);
      } else {
        ExtendFirst([c], Split(t, seps), Split(b, seps));
      }
    }
  }

  lemma ExtendFirst<T>(x: seq<T>, ra: seq<seq<T>>, rb: seq<seq<T>>)
    requires |ra| >= 1
    ensures [x + (ra + rb)[0]] + (ra + rb)[1..] == ([x + ra[0]] + ra[1..]) + rb
  {
    assert (ra + rb)[1..] == ra[1..] + rb;
  }

  /** One step of `Split`: a leading separator ends an empty piece, any other
      character starts the first piece. */
  lemma SplitCons(c: char, t: string, seps: set<char>)
    ensures Split([c] + t, seps) ==
      if c in seps then [""] + Split(t, seps) else [[c] + Split(t, seps)[0]] + Split(t, seps)[1..]
  {
    assert ([c] + t)[0] == c && ([c] + t)[1..] == t;
  }
}
