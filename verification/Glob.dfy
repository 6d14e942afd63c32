/** Glob matching of `--variant-arg` selectors. The source matches bytes; the same algorithm on
    characters is what its documentation describes. */
module Glob {
  import opened Bytes

  const STAR: nat := 42
  const ANY: nat := 63

  /** The matcher, on any kind of symbol. */
  function Match<T(==)>(p: seq<T>, c: seq<T>, star: T, any: T): bool
    decreases |p| + |c|
  {
    if p == [] then c == []
    else if p[0] == star then Match(p[1..], c, star, any) || (c != [] && Match(p, c[1..], star, any))
    else if p[0] == any then c != [] && Match(p[1..], c[1..], star, any)
    else c != [] && c[0] == p[0] && Match(p[1..], c[1..], star, any)
  }

  /** The source's matcher: pattern and candidate as UTF-8 bytes. */
  predicate GlobMatch(pattern: seq<Byte>, candidate: seq<Byte>) { Match(pattern, candidate, STAR, ANY) }

  /** What the documentation describes: `?` stands for one character. */
  predicate CharMatch(pattern: seq<Scalar>, candidate: seq<Scalar>) { Match(pattern, candidate, STAR, ANY) }

  lemma {:induction false} StarMatchesAll(c: seq<Byte>)
    ensures GlobMatch(['*' as Byte], c)
  {
    assert [STAR][1..] == [];
    if c != [] {
      StarMatchesAll(c[1..]);
    }
  }

  /** `*` alone matches everything, `?` alone one byte, and any other byte itself. */
  lemma SymbolsMatch(b: Byte, c: seq<Byte>)
    ensures GlobMatch(['*' as Byte], c)
    ensures GlobMatch(['?' as Byte], c) <==> |c| == 1
    ensures b != '*' as Byte && b != '?' as Byte ==> (GlobMatch([b], c) <==> c == [b])
  {
    StarMatchesAll(c);
    assert [ANY][1..] == [] && [b][1..] == [];
    if c != [] {
      assert Match([], c[1..], STAR, ANY) <==> c[1..] == [];
      assert c == [c[0]] + c[1..];
    }
  }

  // ----- what a match is -----

  function Concat<T>(pieces: seq<seq<T>>): seq<T> {
    if pieces == [] then [] else pieces[0] + Concat(pieces[1..])
  }

  predicate Stands<T(==)>(symbol: T, piece: seq<T>, star: T, any: T) {
    symbol == star || (symbol == any && |piece| == 1) || (symbol != any && piece == [symbol])
  }

  /** `pieces` splits `c` into one piece for each symbol of `p`. */
  ghost predicate Splits<T>(p: seq<T>, c: seq<T>, pieces: seq<seq<T>>, star: T, any: T) {
    && |pieces| == |p| && Concat(pieces) == c
    && forall i :: 0 <= i < |p| ==> Stands(p[i], pieces[i], star, any)
  }

  lemma SplitsHead<T>(p: seq<T>, c: seq<T>, pieces: seq<seq<T>>, star: T, any: T)
    requires Splits(p, c, pieces, star, any) && p != []
    ensures |pieces| == |p| && Stands(p[0], pieces[0], star, any) && c == pieces[0] + Concat(pieces[1..])
    ensures Splits(p[1..], Concat(pieces[1..]), pieces[1..], star, any)
  {
  }

  lemma SplitsCons<T>(p: seq<T>, c: seq<T>, piece: seq<T>, pieces: seq<seq<T>>, star: T, any: T)
    requires p != [] && Splits(p[1..], c, pieces, star, any) && Stands(p[0], piece, star, any)
    ensures Splits(p, piece + c, [piece] + pieces, star, any)
  {
    assert ([piece] + pieces)[1..] == pieces;
    forall i | 0 <= i < |p| ensures Stands(p[i], ([piece] + pieces)[i], star, any) {
      if i > 0 { assert p[1..][i - 1] == p[i]; }
    }
  }

  lemma {:induction false} MatchSplits<T>(p: seq<T>, c: seq<T>, star: T, any: T) returns (pieces: seq<seq<T>>)
    requires Match(p, c, star, any)
    ensures Splits(p, c, pieces, star, any)
    decreases |p| + |c|
  {
    hide Splits;
    if p == [] {
      pieces := [];
      EmptySplits(p, c, star, any);
    } else if p[0] == star && Match(p[1..], c, star, any) {
      var rest := MatchSplits(p[1..], c, star, any);
      SplitsCons(p, c, [], rest, star, any);
      assert [] + c == c;
      pieces := [[]] + rest;
    } else if p[0] == star {
      var longer := MatchSplits(p, c[1..], star, any);
      SplitsHead(p, c[1..], longer, star, any);
      SplitsCons(p, Concat(longer[1..]), [c[0]] + longer[0], longer[1..], star, any);
      assert [c[0]] + longer[0] + Concat(longer[1..]) == [c[0]] + c[1..] == c;
      pieces := [[c[0]] + longer[0]] + longer[1..];
    } else {
      var rest := MatchSplits(p[1..], c[1..], star, any);
      SplitsCons(p, c[1..], [c[0]], rest, star, any);
      assert [c[0]] + c[1..] == c;
      pieces := [[c[0]]] + rest;
    }
  }

  lemma EmptySplits<T>(p: seq<T>, c: seq<T>, star: T, any: T)
    requires p == [] && c == []
    ensures Splits(p, c, [], star, any)
  {
  }

  lemma {:induction false} StarAbsorbs<T>(p: seq<T>, s: seq<T>, c: seq<T>, star: T, any: T)
    requires p != [] && p[0] == star && Match(p, c, star, any)
    ensures Match(p, s + c, star, any)
    decreases |s|
  {
    if s == [] {
      assert s + c == c;
    } else {
      StarAbsorbs(p, s[1..], c, star, any);
      assert (s + c)[1..] == s[1..] + c;
    }
  }

  lemma {:induction false} SplitsMatch<T>(p: seq<T>, c: seq<T>, pieces: seq<seq<T>>, star: T, any: T)
    requires Splits(p, c, pieces, star, any)
    ensures Match(p, c, star, any)
    decreases |p|
  {
    if p != [] {
      var rest := Concat(pieces[1..]);
      SplitsHead(p, c, pieces, star, any);
      SplitsMatch(p[1..], rest, pieces[1..], star, any);
      if p[0] == star {
        StarAbsorbs(p, pieces[0], rest, star, any);
      } else {
        assert c[1..] == rest;
      }
    }
  }

  /** The matcher accepts exactly the candidates that split into pieces standing for the symbols. */
  lemma MatchIsSplit(pattern: seq<Byte>, candidate: seq<Byte>)
    ensures GlobMatch(pattern, candidate) <==> exists pieces :: Splits(pattern, candidate, pieces, STAR, ANY)
  {
    if GlobMatch(pattern, candidate) {
      var pieces := MatchSplits(pattern, candidate, STAR, ANY);
    }
    if pieces :| Splits(pattern, candidate, pieces, STAR, ANY) {
      SplitsMatch(pattern, candidate, pieces, STAR, ANY);
    }
  }

  // ----- bytes against characters -----

  /** A run of bytes that are no metacharacters matches itself only. */
  lemma {:induction false} LiteralRun(u: seq<Byte>, p: seq<Byte>, c: seq<Byte>)
    requires STAR !in u && ANY !in u
    ensures GlobMatch(u + p, c) <==> u <= c && GlobMatch(p, c[|u|..])
  {
    if u == [] {
      assert u + p == p && c[0..] == c;
    } else {
      assert (u + p)[1..] == u[1..] + p;
      if c != [] && c[0] == u[0] {
        LiteralRun(u[1..], p, c[1..]);
        assert u <= c <==> u[1..] <= c[1..] by { assert u == [u[0]] + u[1..] && c == [c[0]] + c[1..]; }
        assert u[1..] <= c[1..] ==> c[1..][|u| - 1..] == c[|u|..];
      }
    }
  }

  predicate Continuations(s: seq<Byte>) { forall i :: 0 <= i < |s| ==> IsContinuation(s[i]) }

  lemma LiteralChar(n: Scalar, p: seq<Scalar>)
    requires p != [] && p[0] == n && n != STAR && n != ANY
    ensures STAR !in EncodeChar(n) && ANY !in EncodeChar(n) && Encode(p) == EncodeChar(n) + Encode(p[1..])
  {
  }

  lemma StarChar(p: seq<Scalar>)
    requires p != [] && p[0] == STAR
    ensures Encode(p) == [STAR] + Encode(p[1..])
  {
  }

  lemma {:induction false} CharsThenBytes(p: seq<Scalar>, c: seq<Scalar>)
    requires ANY !in p && CharMatch(p, c)
    ensures GlobMatch(Encode(p), Encode(c))
    decreases |p| + |c|
  {
    hide EncodeChar, Encode;
    if p == [] {
      EncodeNothing();
    } else if p[0] == STAR {
      StarChar(p);
      assert Encode(p)[1..] == Encode(p[1..]);
      if CharMatch(p[1..], c) {
        CharsThenBytes(p[1..], c);
      } else {
        CharsThenBytes(p, c[1..]);
        EncodeHead(c);
        StarAbsorbs(Encode(p), EncodeChar(c[0]), Encode(c[1..]), STAR, ANY);
      }
    } else {
      CharsThenBytes(p[1..], c[1..]);
      LiteralChar(p[0], p);
      EncodeHead(c);
      LiteralRun(EncodeChar(p[0]), Encode(p[1..]), Encode(c));
    }
  }

  lemma EncodeNothing()
    ensures Encode([]) == []
  {
  }

  lemma EncodeHead(c: seq<Scalar>)
    requires c != []
    ensures Encode(c) == EncodeChar(c[0]) + Encode(c[1..])
  {
  }

  /** Even if `*` has eaten into a character, leaving the bytes `s`, what matches the rest of a
      pattern without `?` is a match by characters. */
  lemma {:induction false} BytesThenChars(p: seq<Scalar>, s: seq<Byte>, c: seq<Scalar>)
    requires ANY !in p && Continuations(s) && GlobMatch(Encode(p), s + Encode(c))
    ensures CharMatch(p, c)
    decreases |p| + |s| + |Encode(c)|
  {
    hide EncodeChar, Encode, IsContinuation;
    EncodeNothing();
    if p == [] {
      if c != [] { EncodeHead(c); assert false; }
    } else if p[0] == STAR {
      StarChar(p);
      assert Encode(p)[1..] == Encode(p[1..]);
      if GlobMatch(Encode(p[1..]), s + Encode(c)) {
        BytesThenChars(p[1..], s, c);
      } else if s != [] {
        assert (s + Encode(c))[1..] == s[1..] + Encode(c);
        BytesThenChars(p, s[1..], c);
      } else {
        assert c != [];
        EncodeHead(c);
        OnlyTheFirstByteLeads(c[0]);
        var left := EncodeChar(c[0])[1..];
        assert (s + Encode(c))[1..] == left + Encode(c[1..]);
        BytesThenChars(p, left, c[1..]);
      }
    } else {
      LiteralChar(p[0], p);
      LiteralRun(EncodeChar(p[0]), Encode(p[1..]), s + Encode(c));
      LiteralStart(p[0], s, c);
      EncodeHead(c);
      assert (s + Encode(c))[|EncodeChar(c[0])|..] == [] + Encode(c[1..]);
      BytesThenChars(p[1..], [], c[1..]);
    }
  }

  /** A whole character found right after continuation bytes: there are none, and it is the first. */
  lemma LiteralStart(n: Scalar, s: seq<Byte>, c: seq<Scalar>)
    requires Continuations(s) && EncodeChar(n) <= s + Encode(c)
    ensures s == [] && c != [] && c[0] == n
  {
    hide EncodeChar, IsContinuation;
    OnlyTheFirstByteLeads(n);
    assert EncodeChar(n)[0] == (s + Encode(c))[0];
    if s == [] && c != [] {
      EncodeHead(c);
      assert s + Encode(c) == EncodeChar(c[0]) + Encode(c[1..]);
      EncodingIsPrefixFree(n, c[0], Encode(c[1..]));
    }
  }

  /** Without `?`, matching bytes is matching characters. */
  lemma BytesAreCharsWithoutAny(p: seq<Scalar>, c: seq<Scalar>)
    requires ANY !in p
    ensures GlobMatch(Encode(p), Encode(c)) <==> CharMatch(p, c)
  {
    if GlobMatch(Encode(p), Encode(c)) {
      assert [] + Encode(c) == Encode(c);
      BytesThenChars(p, [], c);
    }
    if CharMatch(p, c) {
      CharsThenBytes(p, c);
    }
  }

  lemma {:induction false} AsciiCandidate(p: seq<Scalar>, c: seq<Scalar>)
    requires IsAscii(c)
    ensures GlobMatch(Encode(p), Encode(c)) <==> CharMatch(p, c)
    decreases |p| + |c|
  {
    hide EncodeChar, Encode;
    EncodeNothing();
    if c != [] {
      EncodeHead(c);
      OneByteIffAscii(c[0]);
      assert Encode(c)[1..] == Encode(c[1..]);
    }
    if p != [] {
      EncodeHead(p);
      OneByteIffAscii(p[0]);
      if p[0] == STAR {
        assert Encode(p)[1..] == Encode(p[1..]);
        AsciiCandidate(p[1..], c);
        if c != [] { AsciiCandidate(p, c[1..]); }
      } else if p[0] < 0x80 {
        assert Encode(p)[1..] == Encode(p[1..]);
        if c != [] { AsciiCandidate(p[1..], c[1..]); }
      } else {
        assert Encode(p)[0] >= 0x80;
      }
    }
  }

  function Anys(n: nat): (p: seq<Scalar>)
    ensures |p| == n
  {
    if n == 0 then [] else [ANY] + Anys(n - 1)
  }

  lemma {:induction false} AnysCount(n: nat, c: seq<Scalar>, b: seq<Byte>)
    ensures CharMatch(Anys(n), c) <==> |c| == n
    ensures GlobMatch(Encode(Anys(n)), b) <==> |b| == n
  {
    if n > 0 {
      assert Anys(n)[1..] == Anys(n - 1);
      assert Encode(Anys(n)) == [ANY] + Encode(Anys(n - 1));
      assert Encode(Anys(n))[1..] == Encode(Anys(n - 1));
      AnysCount(n - 1, if c == [] then [] else c[1..], if b == [] then [] else b[1..]);
    }
  }

  /** `?` takes one byte, not one character as documented. The two agree on all patterns exactly for
      the candidates that are plain ASCII. */
  lemma AgreesExactlyOnAscii(c: seq<Scalar>)
    ensures (forall p :: GlobMatch(Encode(p), Encode(c)) <==> CharMatch(p, c)) <==> IsAscii(c)
  {
    if IsAscii(c) {
      forall p ensures GlobMatch(Encode(p), Encode(c)) <==> CharMatch(p, c) {
        AsciiCandidate(p, c);
      }
    } else {
      AsciiIsByteForByte(c);
      AnysCount(|c|, c, Encode(c));
      assert CharMatch(Anys(|c|), c) && !GlobMatch(Encode(Anys(|c|)), Encode(c));
    }
  }
}
