/** Text handling of the course-name filters: PHP's `trim`, PHP's `empty` on a
    string, `preg_split('/[\r\n,]+/', ..., PREG_SPLIT_NO_EMPTY)`, and the
    case-insensitive `LIKE '%token%'` match. */
module Text {
  import opened Seqs

  /** The characters PHP's `trim` strips by default. */
  predicate IsWhitespace(c: char) {
    c == ' ' || c == '\t' || c == '\n' || c == '\r' || c == '\0' || c == '\U{B}'
  }

  /** The characters the filter-splitting pattern `[\r\n,]+` splits on. */
  predicate IsDelimiter(c: char) {
    c == '\r' || c == '\n' || c == ','
  }

  predicate AllWhitespace(s: string) {
    forall i :: 0 <= i < |s| ==> IsWhitespace(s[i])
  }

  predicate NoDelimiter(s: string) {
    forall i :: 0 <= i < |s| ==> !IsDelimiter(s[i])
  }

  /** Neither end of `s` is a whitespace character. */
  predicate Trimmed(s: string) {
    |s| == 0 || (!IsWhitespace(s[0]) && !IsWhitespace(s[|s| - 1]))
  }

  /** PHP's `empty()` on a string: the empty string and the string "0". */
  predicate IsBlank(s: string) {
    |s| == 0 || (|s| == 1 && s[0] == '0')
  }

  function TrimLeft(s: string): (r: string)
    ensures |r| <= |s| && r == s[|s| - |r|..]
    ensures AllWhitespace(s[..|s| - |r|])
    ensures |r| > 0 ==> !IsWhitespace(r[0])
  {
    if |s| > 0 && IsWhitespace(s[0]) then TrimLeft(s[1..]) else s
  }

  function TrimRight(s: string): (r: string)
    ensures |r| <= |s| && r == s[..|r|]
    ensures AllWhitespace(s[|r|..])
    ensures |r| > 0 ==> !IsWhitespace(r[|r| - 1])
  {
    if |s| > 0 && IsWhitespace(s[|s| - 1]) then TrimRight(s[..|s| - 1]) else s
  }

  /** `r` is `s` with a whitespace prefix of length `i` and a whitespace
      suffix removed. */
  ghost predicate StripsTo(s: string, r: string, i: int) {
    && 0 <= i <= i + |r| <= |s|
    && r == s[i..i + |r|]
    && AllWhitespace(s[..i])
    && AllWhitespace(s[i + |r|..])
  }

  /** PHP's `trim`: `s` with its whitespace ends removed. */
  function Trim(s: string): (r: string)
    ensures Trimmed(r)
    ensures exists i :: StripsTo(s, r, i)
  {
    var l := TrimLeft(s);
    var r := TrimRight(l);
    StripsInTwo(s, l, r);
    r
  }

  /** Stripping the left end, then the right end, strips both ends. */
  lemma StripsInTwo(s: string, l: string, r: string)
    requires |l| <= |s| && l == s[|s| - |l|..] && AllWhitespace(s[..|s| - |l|])
    requires |r| <= |l| && r == l[..|r|] && AllWhitespace(l[|r|..])
    ensures StripsTo(s, r, |s| - |l|)
  {
    var i := |s| - |l|;
    assert s[i..i + |r|] == l[..|r|];
    assert s[i + |r|..] == l[|r|..];
  }

  /** `Trim` is determined by what it promises: a text that is whitespace,
      then a trimmed middle, then whitespace, trims to its middle. */
  lemma {:induction false} TrimUnique(a: string, m: string, b: string)
    requires AllWhitespace(a) && AllWhitespace(b) && Trimmed(m)
    ensures Trim(a + m + b) == m
  {
    assert a + m + b == a + (m + b);
    if |m| == 0 {
      assert a + m + b == a + b;
      assert AllWhitespace(a + b);
      TrimLeftAllWhitespace(a + b);
    } else {
      assert (m + b)[0] == m[0];
      TrimLeftUnique(a, m + b);
      TrimRightUnique(m, b);
    }
  }

  lemma {:induction false} TrimLeftAllWhitespace(s: string)
    requires AllWhitespace(s)
    ensures TrimLeft(s) == ""
    decreases |s|
  {
    if |s| > 0 {
      TrimLeftAllWhitespace(s[1..]);
    }
  }

  lemma {:induction false} TrimLeftUnique(a: string, t: string)
    requires AllWhitespace(a)
    requires |t| == 0 || !IsWhitespace(t[0])
    ensures TrimLeft(a + t) == t
    decreases |a|
  {
    if |a| > 0 {
      assert (a + t)[1..] == a[1..] + t;
      TrimLeftUnique(a[1..], t);
    } else {
      assert a + t == t;
    }
  }

  lemma {:induction false} TrimRightUnique(m: string, b: string)
    requires AllWhitespace(b)
    requires |m| == 0 || !IsWhitespace(m[|m| - 1])
    ensures TrimRight(m + b) == m
    decreases |b|
  {
    if |b| > 0 {
      assert (m + b)[..|m + b| - 1] == m + b[..|b| - 1];
      TrimRightUnique(m, b[..|b| - 1]);
    } else {
      assert m + b == m;
    }
  }

  /** Length of the leading run of non-delimiter characters. */
  function RunLength(s: string): (n: nat)
    ensures n <= |s|
    ensures NoDelimiter(s[..n])
    ensures n < |s| ==> IsDelimiter(s[n])
  {
    if |s| == 0 || IsDelimiter(s[0]) then 0 else 1 + RunLength(s[1..])
  }

  /** `preg_split('/[\r\n,]+/', s, -1, PREG_SPLIT_NO_EMPTY)`: the maximal
      non-empty runs of non-delimiter characters, left to right. */
  function Pieces(s: string): (r: seq<string>)
    ensures forall k :: 0 <= k < |r| ==> |r[k]| > 0 && NoDelimiter(r[k])
    decreases |s|
  {
    if |s| == 0 then []
    else if IsDelimiter(s[0]) then Pieces(s[1..])
    else
      var n := RunLength(s);
      [s[..n]] + Pieces(s[n..])
  }

  /** A delimiter-free non-empty text is one piece. */
  lemma PiecesOfWord(w: string)
    requires |w| > 0 && NoDelimiter(w)
    ensures Pieces(w) == [w]
  {
    assert RunLength(w) == |w| by { RunLengthOfWord(w); }
    assert w[..|w|] == w;
    assert w[|w|..] == [];
  }

  lemma {:induction false} RunLengthOfWord(w: string)
    requires NoDelimiter(w)
    ensures RunLength(w) == |w|
    decreases |w|
  {
    if |w| > 0 {
      RunLengthOfWord(w[1..]);
    }
  }

  lemma {:induction false} RunLengthAppend(a: string, d: char, b: string)
    requires IsDelimiter(d)
    ensures RunLength(a + [d] + b) == RunLength(a)
    decreases |a|
  {
    var s := a + [d] + b;
    if |a| > 0 {
      assert s[0] == a[0];
      assert s[1..] == a[1..] + [d] + b;
      RunLengthAppend(a[1..], d, b);
    } else {
      assert s[0] == d;
    }
  }

  /** Splitting at a delimiter splits the pieces: the two sides are split
      independently. */
  lemma {:induction false} PiecesAppend(a: string, d: char, b: string)
    requires IsDelimiter(d)
    ensures Pieces(a + [d] + b) == Pieces(a) + Pieces(b)
    decreases |a|
  {
    var s := a + [d] + b;
    if |a| == 0 {
      assert s[0] == d && s[1..] == b;
    } else if IsDelimiter(a[0]) {
      assert s[0] == a[0];
      assert s[1..] == a[1..] + [d] + b;
      PiecesAppend(a[1..], d, b);
    } else {
      var n := RunLength(a);
      RunLengthAppend(a, d, b);
      assert s[0] == a[0];
      assert 0 < n <= |a|;
      assert s[..n] == a[..n];
      assert s[n..] == a[n..] + [d] + b;
      PiecesAppend(a[n..], d, b);
    }
  }

  /** One piece after `trim`: kept unless PHP's `empty` rejects it. */
  function TokenOf(p: string): seq<string> {
    var t := Trim(p);
    if IsBlank(t) then [] else [t]
  }

  /** A token is non-blank, trimmed, and free of delimiters. */
  predicate IsToken(t: string) {
    !IsBlank(t) && Trimmed(t) && NoDelimiter(t)
  }

  lemma TokenOfIsToken(p: string)
    requires NoDelimiter(p)
    ensures forall k :: 0 <= k < |TokenOf(p)| ==> IsToken(TokenOf(p)[k])
  {
    var t := Trim(p);
    var i :| StripsTo(p, t, i);
    assert NoDelimiter(t) by {
      forall k | 0 <= k < |t| ensures !IsDelimiter(t[k]) {
        assert t[k] == p[i + k];
      }
    }
    assert Trimmed(t);
    if !IsBlank(t) {
      assert TokenOf(p) == [t];
      assert IsToken(t);
    } else {
      assert TokenOf(p) == [];
    }
  }

  /** Trims every piece and drops those PHP's `empty` rejects ("" and "0"),
      as `array_map('trim', ...)` followed by `array_filter` does. */
  function KeepTokens(ps: seq<string>): seq<string> {
    if |ps| == 0 then [] else TokenOf(ps[0]) + KeepTokens(ps[1..])
  }

  lemma {:induction false} KeepTokensAreTokens(ps: seq<string>)
    requires forall k :: 0 <= k < |ps| ==> NoDelimiter(ps[k])
    ensures forall k :: 0 <= k < |KeepTokens(ps)| ==> IsToken(KeepTokens(ps)[k])
    decreases |ps|
  {
    if |ps| > 0 {
      TokenOfIsToken(ps[0]);
      KeepTokensAreTokens(ps[1..]);
    }
  }

  lemma {:induction false} KeepTokensAppend(a: seq<string>, b: seq<string>)
    ensures KeepTokens(a + b) == KeepTokens(a) + KeepTokens(b)
    decreases |a|
  {
    if |a| == 0 {
      assert a + b == b;
    } else {
      assert (a + b)[0] == a[0];
      assert (a + b)[1..] == a[1..] + b;
      KeepTokensAppend(a[1..], b);
    }
  }

  /** The filter tokens of a comma/newline separated list. */
  function Tokens(s: string): (r: seq<string>)
    ensures forall k :: 0 <= k < |r| ==> IsToken(r[k])
  {
    KeepTokensAreTokens(Pieces(s));
    KeepTokens(Pieces(s))
  }

  /** The tokens on either side of a delimiter are listed one after the other. */
  lemma TokensAppend(a: string, d: char, b: string)
    requires IsDelimiter(d)
    ensures Tokens(a + [d] + b) == Tokens(a) + Tokens(b)
  {
    PiecesAppend(a, d, b);
    KeepTokensAppend(Pieces(a), Pieces(b));
  }

  /** A delimiter-free text is one token, its trimmed self, unless that is
      blank: in particular " 0 " yields no token at all. */
  lemma TokensOfWord(w: string)
    requires NoDelimiter(w)
    ensures Tokens(w) == if IsBlank(Trim(w)) then [] else [Trim(w)]
  {
    if |w| > 0 {
      PiecesOfWord(w);
      assert [w][1..] == [];
      assert KeepTokens([w]) == TokenOf(w) + KeepTokens([]);
    } else {
      assert Trim(w) == "";
    }
  }

  /** The tokens of a filter parameter: the parameter is trimmed, skipped when
      PHP's `empty` rejects it, and otherwise split into tokens. */
  function FilterTokens(f: string): (r: seq<string>)
    ensures forall k :: 0 <= k < |r| ==> IsToken(r[k])
  {
    var t := Trim(f);
    if IsBlank(t) then [] else Tokens(t)
  }

  /** `t` is what one of `names` trims to, and PHP's `empty` accepts it. */
  predicate NamedIn(names: seq<string>, t: string) {
    exists i :: 0 <= i < |names| && t == Trim(names[i]) && !IsBlank(t)
  }

  /** The tokens of a list of course names: each name is trimmed and the names
      PHP's `empty` rejects are skipped. Names are not split further. */
  function NameTokens(names: seq<string>): (r: seq<string>)
    ensures |r| <= |names|
    ensures forall t :: t in r <==> NamedIn(names, t)
  {
    KeptImages(names, Trim, (t: string) => !IsBlank(t))
  }

  /** ASCII case folding, the part of a case-insensitive collation modelled here. */
  function LowerChar(c: char): char {
    if 'A' <= c <= 'Z' then (c as int + 32) as char else c
  }

  function Lower(s: string): (r: string)
    ensures |r| == |s|
    ensures forall i :: 0 <= i < |s| ==> r[i] == LowerChar(s[i])
  {
    seq(|s|, i requires 0 <= i < |s| => LowerChar(s[i]))
  }

  /** `needle` occurs in `hay` starting at position `i`. */
  predicate OccursAt(needle: string, hay: string, i: int) {
    0 <= i && i + |needle| <= |hay| && hay[i..i + |needle|] == needle
  }

  /** `needle` occurs in `hay` at some position. */
  function Occurs(needle: string, hay: string): (b: bool)
    ensures b <==> exists i :: OccursAt(needle, hay, i)
    decreases |hay|
  {
    if |needle| <= |hay| && hay[..|needle|] == needle then
      assert OccursAt(needle, hay, 0);
      true
    else if |hay| == 0 then false
    else
      var b := Occurs(needle, hay[1..]);
      assert b ==> exists i :: OccursAt(needle, hay, i) by {
        if b {
          var i :| OccursAt(needle, hay[1..], i);
          assert hay[i + 1..i + 1 + |needle|] == hay[1..][i..i + |needle|];
          assert OccursAt(needle, hay, i + 1);
        }
      }
      assert (exists i :: OccursAt(needle, hay, i)) ==> b by {
        if exists i :: OccursAt(needle, hay, i) {
          var i :| OccursAt(needle, hay, i);
          assert i != 0;
          assert hay[1..][i - 1..i - 1 + |needle|] == hay[i..i + |needle|];
          assert OccursAt(needle, hay[1..], i - 1);
        }
      }
      b
  }

  /** `LIKE '%needle%'` without case sensitivity: `needle` occurs in `hay` once
      both are case-folded. */
  predicate ContainsIgnoringCase(hay: string, needle: string) {
    Occurs(Lower(needle), Lower(hay))
  }

  /** A filter of two tokens separated by a comma and a space, such as
      "Intro, Algebra", yields exactly those two tokens. */
  lemma TwoTokenFilter(x: string, y: string)
    requires IsToken(x) && IsToken(y)
    ensures FilterTokens(x + ", " + y) == [x, y]
  {
    var f := x + ", " + y;
    assert f == x + [','] + ([' '] + y);
    TrimmedJoin(x, y);
    FilterOfTrimmed(f);
    TwoTokens(x, y);
  }

  lemma TrimmedJoin(x: string, y: string)
    requires IsToken(x) && IsToken(y)
    ensures Trimmed(x + ", " + y) && |x + ", " + y| >= 2
  {
    var f := x + ", " + y;
    assert f[0] == x[0];
    assert f[|f| - 1] == y[|y| - 1];
  }

  /** For a trimmed parameter the outer trim changes nothing. */
  lemma FilterOfTrimmed(f: string)
    requires Trimmed(f) && |f| >= 2
    ensures FilterTokens(f) == Tokens(f)
  {
    TrimOfTrimmed(f);
    LongIsNotBlank(f);
  }

  lemma TwoTokens(x: string, y: string)
    requires IsToken(x) && IsToken(y)
    ensures Tokens(x + [','] + ([' '] + y)) == [x, y]
  {
    TokensAppend(x, ',', [' '] + y);
    OneToken(x);
    SpaceIsWhitespace();
    WordToken([' '], y);
    PairConcat(x, y);
  }

  lemma SpaceIsWhitespace()
    ensures AllWhitespace([' ']) && NoDelimiter([' '])
  {
  }

  lemma PairConcat<T>(x: T, y: T)
    ensures [x] + [y] == [x, y]
  {
  }

  lemma OneToken(x: string)
    requires IsToken(x)
    ensures Tokens(x) == [x]
  {
    TokensOfWord(x);
    TrimOfTrimmed(x);
  }

  lemma LongIsNotBlank(s: string)
    requires |s| >= 2
    ensures !IsBlank(s)
  {
    assert |"0"| == 1;
  }

  lemma TrimOfTrimmed(s: string)
    requires Trimmed(s)
    ensures Trim(s) == s
  {
    TrimUnique("", s, "");
    assert "" + s + "" == s;
  }

  /** A token after some leading whitespace is one token. */
  lemma WordToken(a: string, w: string)
    requires AllWhitespace(a) && NoDelimiter(a)
    requires IsToken(w)
    ensures Tokens(a + w) == [w]
  {
    assert NoDelimiter(a + w) by {
      forall k | 0 <= k < |a + w| ensures !IsDelimiter((a + w)[k]) {
        if k < |a| { assert (a + w)[k] == a[k]; } else { assert (a + w)[k] == w[k - |a|]; }
      }
    }
    TokensOfWord(a + w);
    TrimUnique(a, w, "");
    assert a + w + "" == a + w;
  }
}
