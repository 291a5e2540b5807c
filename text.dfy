/** Options used wherever the source looks a value up that may be missing. */
module Wrappers {
  datatype Option<T> = None | Some(value: T)
}

/**
 * The string handling that collectActivities applies to each input cell:
 * `trim`, `toUpperCase`, and the predecessor list obtained by
 * `split(',').map(p => p.trim()).filter(p => p)`.
 */
module Text {

  /** ECMAScript white space and line terminators, the characters `String.prototype.trim` removes. */
  predicate IsSpace(c: char) {
    c == ' ' || c == '\t' || c == '\n' || c == '\r' || c == '\U{B}' || c == '\U{C}'
    || c == '\U{A0}' || c == '\U{1680}' || ('\U{2000}' <= c <= '\U{200A}')
    || c == '\U{2028}' || c == '\U{2029}' || c == '\U{202F}' || c == '\U{205F}'
    || c == '\U{3000}' || c == '\U{FEFF}'
  }

  /** Number of white-space characters at the start of `s`. */
  function Lead(s: string): (n: nat)
    ensures n <= |s| && (n == |s| || !IsSpace(s[n]))
    ensures forall k :: 0 <= k < n ==> IsSpace(s[k])
  {
    if s != [] && IsSpace(s[0]) then 1 + Lead(s[1..]) else 0
  }

  /** Length of `s` without the white space at its end. */
  function Kept(s: string): (n: nat)
    ensures n <= |s| && (n == 0 || !IsSpace(s[n - 1]))
    ensures forall k :: n <= k < |s| ==> IsSpace(s[k])
  {
    if s != [] && IsSpace(s[|s| - 1]) then Kept(s[..|s| - 1]) else |s|
  }

  /** `String.prototype.trim`: the slice between the leading and the trailing white space. */
  function Trim(s: string): string {
    var t := s[Lead(s)..];
    t[..Kept(t)]
  }

  /** A string with no white space at either end. */
  predicate Trimmed(s: string) {
    s == [] || (!IsSpace(s[0]) && !IsSpace(s[|s| - 1]))
  }

  /** Trim returns the slice of `s` between its leading and its trailing white space. */
  lemma TrimIsSlice(s: string)
    ensures Lead(s) + |Trim(s)| <= |s|
    ensures Trim(s) == s[Lead(s)..Lead(s) + |Trim(s)|]
    ensures Trimmed(Trim(s))
    ensures forall k :: 0 <= k < Lead(s) ==> IsSpace(s[k])
    ensures forall k :: Lead(s) + |Trim(s)| <= k < |s| ==> IsSpace(s[k])
  {
    TrimSlice(s);
    TrimTrimmed(s);
    TrimDropsSpaces(s);
  }

  lemma TrimSlice(s: string)
    ensures Lead(s) + |Trim(s)| <= |s|
    ensures Trim(s) == s[Lead(s)..Lead(s) + |Trim(s)|]
  {
    var i := Lead(s);
    PrefixOfSuffix(s, i, Kept(s[i..]));
  }

  lemma TrimTrimmed(s: string)
    ensures Trimmed(Trim(s))
  {
    var t := s[Lead(s)..];
    var r := t[..Kept(t)];
    if r != [] {
      assert r[0] == t[0] && r[|r| - 1] == t[Kept(t) - 1];
    }
  }

  lemma TrimDropsSpaces(s: string)
    ensures forall k :: 0 <= k < Lead(s) ==> IsSpace(s[k])
    ensures forall k :: Lead(s) + |Trim(s)| <= k < |s| ==> IsSpace(s[k])
  {
    var i := Lead(s);
    var t := s[i..];
    TrailingSpaces(s, t, Kept(t), i);
  }

  lemma PrefixOfSuffix(s: string, i: nat, len: nat)
    requires i + len <= |s|
    ensures s[i..][..len] == s[i..i + len]
  {
  }

  lemma TrailingSpaces(s: string, t: string, kept: nat, i: nat)
    requires i + |t| == |s| && t == s[i..] && kept <= |t|
    requires forall k :: kept <= k < |t| ==> IsSpace(t[k])
    ensures forall k :: i + kept <= k < |s| ==> IsSpace(s[k])
  {
    forall k | i + kept <= k < |s| ensures IsSpace(s[k]) {
      assert s[k] == t[k - i];
    }
  }

  /** Trimming is idempotent. */
  lemma TrimIdempotent(s: string)
    ensures Trim(Trim(s)) == Trim(s)
  {
    TrimTrimmed(s);
    TrimOfTrimmed(Trim(s));
  }

  /** A trimmed string is its own trim. */
  lemma TrimOfTrimmed(s: string)
    requires Trimmed(s)
    ensures Trim(s) == s
  {
    assert Lead(s) == 0 && s[0..] == s;
    assert Kept(s) == |s|;
  }

  /** ASCII upper-casing of one character; other characters are left as they are. */
  function UpperChar(c: char): char {
    if 'a' <= c <= 'z' then (c as int - 32) as char else c
  }

  predicate IsUpper(s: string) {
    forall k :: 0 <= k < |s| ==> !('a' <= s[k] <= 'z')
  }

  /** `String.prototype.toUpperCase`, restricted to the ASCII letters. */
  function Upper(s: string): (r: string)
    ensures |r| == |s| && IsUpper(r)
    ensures forall k :: 0 <= k < |s| ==>
      r[k] == s[k] || ('a' <= s[k] <= 'z' && r[k] as int == s[k] as int - 32)
  {
    seq(|s|, k requires 0 <= k < |s| => UpperChar(s[k]))
  }

  /** Upper-casing changes no white space and no comma, so it commutes with the splitting below. */
  lemma UpperKeepsSpacesAndCommas(s: string)
    ensures forall k :: 0 <= k < |s| ==> (IsSpace(Upper(s)[k]) <==> IsSpace(s[k]))
    ensures forall k :: 0 <= k < |s| ==> (Upper(s)[k] == ',' <==> s[k] == ',')
  {
  }

  /** Upper-casing an upper-case string changes nothing. */
  lemma UpperIdempotent(s: string)
    requires IsUpper(s)
    ensures Upper(s) == s
  {
  }

  /** `s.split(sep)` for a one-character separator: the pieces between separators, empty ones included. */
  function Split(s: string, sep: char): (r: seq<string>)
    ensures |r| >= 1
    ensures forall k :: 0 <= k < |r| ==> sep !in r[k]
  {
    if s == [] then [[]]
    else
      var rest := Split(s[1..], sep);
      if s[0] == sep then [[]] + rest else [[s[0]] + rest[0]] + rest[1..]
  }

  /** `pieces.join(sep)`, the inverse of Split. */
  function Join(pieces: seq<string>, sep: char): string
    requires |pieces| >= 1
  {
    if |pieces| == 1 then pieces[0] else pieces[0] + [sep] + Join(pieces[1..], sep)
  }

  /** Joining the pieces again gives back the string that was split. */
  lemma {:induction false} JoinSplit(s: string, sep: char)
    ensures Join(Split(s, sep), sep) == s
  {
    if s != [] {
      var rest := Split(s[1..], sep);
      JoinSplit(s[1..], sep);
      if s[0] != sep {
        if |rest| == 1 {
        } else {
          assert [s[0]] + rest[0] + [sep] + Join(rest[1..], sep) == [s[0]] + Join(rest, sep);
        }
      }
    }
  }

  /** Splitting a join of separator-free pieces gives back the pieces. */
  lemma {:induction false} SplitJoin(pieces: seq<string>, sep: char)
    requires |pieces| >= 1
    requires forall k :: 0 <= k < |pieces| ==> sep !in pieces[k]
    ensures Split(Join(pieces, sep), sep) == pieces
  {
    if |pieces| == 1 {
      SplitNoSeparator(pieces[0], sep);
    } else {
      SplitJoin(pieces[1..], sep);
      SplitPrefix(pieces[0], Join(pieces[1..], sep), sep);
      assert [pieces[0]] + pieces[1..] == pieces;
    }
  }

  lemma {:induction false} SplitNoSeparator(s: string, sep: char)
    requires sep !in s
    ensures Split(s, sep) == [s]
  {
    if s != [] {
      SplitNoSeparator(s[1..], sep);
      assert [s[0]] + s[1..] == s;
    }
  }

  lemma {:induction false} SplitPrefix(a: string, b: string, sep: char)
    requires sep !in a
    ensures Split(a + [sep] + b, sep) == [a] + Split(b, sep)
  {
    if a == [] {
      assert [] + [sep] + b == [sep] + b;
      assert ([sep] + b)[1..] == b;
    } else {
      assert (a + [sep] + b)[1..] == a[1..] + [sep] + b;
      SplitPrefix(a[1..], b, sep);
      assert [a[0]] + a[1..] == a;
    }
  }

  /**
   * `.map(p => p.trim())`: piece by piece, a slice of the original piece with no white space
   * at either end, obtained by removing only white space.
   */
  function TrimEach(ps: seq<string>): (r: seq<string>)
    ensures |r| == |ps| && forall k :: 0 <= k < |r| ==> r[k] == Trim(ps[k])
    ensures forall k :: 0 <= k < |r| ==> Trimmed(r[k])
    ensures forall k :: 0 <= k < |r| ==>
      Lead(ps[k]) + |r[k]| <= |ps[k]| && r[k] == ps[k][Lead(ps[k])..Lead(ps[k]) + |r[k]|]
    ensures forall k, m :: 0 <= k < |r| && 0 <= m < |ps[k]| && !(Lead(ps[k]) <= m < Lead(ps[k]) + |r[k]|) ==>
      IsSpace(ps[k][m])
  {
    TrimEachSlices(ps);
    seq(|ps|, k requires 0 <= k < |ps| => Trim(ps[k]))
  }

  lemma TrimEachSlices(ps: seq<string>)
    ensures forall k :: 0 <= k < |ps| ==> Trimmed(Trim(ps[k]))
    ensures forall k :: 0 <= k < |ps| ==>
      Lead(ps[k]) + |Trim(ps[k])| <= |ps[k]| && Trim(ps[k]) == ps[k][Lead(ps[k])..Lead(ps[k]) + |Trim(ps[k])|]
    ensures forall k, m :: 0 <= k < |ps| && 0 <= m < |ps[k]| && !(Lead(ps[k]) <= m < Lead(ps[k]) + |Trim(ps[k])|) ==>
      IsSpace(ps[k][m])
  {
    forall k | 0 <= k < |ps| {
      TrimIsSlice(ps[k]);
    }
  }

  /** `a` is `b` with some elements left out: the elements of `a` appear in `b` in the same order. */
  predicate Subsequence<T(==)>(a: seq<T>, b: seq<T>)
    decreases |b|
  {
    a == [] || (b != [] && ((a[0] == b[0] && Subsequence(a[1..], b[1..])) || Subsequence(a, b[1..])))
  }

  /**
   * `.filter(p => p)`: keeps the non-empty strings in order and with their repetitions,
   * and drops every empty one.
   */
  function DropEmpty(ps: seq<string>): (r: seq<string>)
    ensures [] !in r
    ensures forall p :: p != [] ==> multiset(r)[p] == multiset(ps)[p]
    ensures Subsequence(r, ps)
  {
    if ps == [] then []
    else
      assert ps == [ps[0]] + ps[1..];
      var rest := DropEmpty(ps[1..]);
      if ps[0] == [] then rest
      else
        assert ([ps[0]] + rest)[1..] == rest;
        [ps[0]] + rest
  }

  /** A name as collectActivities reads it from a cell: trimmed, then upper-cased. */
  function NormalizeName(s: string): string {
    Upper(Trim(s))
  }

  /** The predecessor tokens of a cell (script.js line 81): empty text gives no token. */
  function PredecessorTokens(text: string): seq<string> {
    var t := NormalizeName(text);
    if t == [] then [] else DropEmpty(TrimEach(Split(t, ',')))
  }

  /** Every token is non-empty, trimmed, upper-case and free of commas. */
  lemma TokensWellFormed(text: string)
    ensures forall p :: p in PredecessorTokens(text) ==>
      p != [] && Trimmed(p) && IsUpper(p) && ',' !in p
  {
    var t := NormalizeName(text);
    if t != [] {
      var pieces := Split(t, ',');
      var trimmed := TrimEach(pieces);
      forall k | 0 <= k < |trimmed|
        ensures Trimmed(trimmed[k]) && IsUpper(trimmed[k]) && ',' !in trimmed[k]
      {
        PieceWellFormed(t, k);
      }
      forall p | p in PredecessorTokens(text) ensures p in trimmed {
        assert multiset(PredecessorTokens(text))[p] > 0;
      }
    }
  }

  lemma PieceWellFormed(t: string, k: nat)
    requires IsUpper(t) && k < |Split(t, ',')|
    ensures var p := Trim(Split(t, ',')[k]); Trimmed(p) && IsUpper(p) && ',' !in p
  {
    var piece := Split(t, ',')[k];
    SplitPiecesUpper(t, ',');
    assert IsUpper(piece);
    TrimSlice(piece);
    TrimTrimmed(piece);
    var i, len := Lead(piece), |Trim(piece)|;
    var slice := piece[i..i + len];
    forall m | 0 <= m < len ensures slice[m] == piece[i + m] && !('a' <= slice[m] <= 'z') {
    }
    assert ',' !in piece;
  }

  lemma {:induction false} SplitPiecesUpper(s: string, sep: char)
    requires IsUpper(s)
    ensures forall k :: 0 <= k < |Split(s, sep)| ==> IsUpper(Split(s, sep)[k])
  {
    if s != [] {
      SplitPiecesUpper(s[1..], sep);
    }
  }

  /** Text with no comma names a single predecessor: itself, normalised (e.g. " a " gives ["A"]). */
  lemma SingleToken(text: string)
    requires ',' !in NormalizeName(text) && NormalizeName(text) != []
    ensures PredecessorTokens(text) == [NormalizeName(text)]
  {
    var t := NormalizeName(text);
    SplitNoSeparator(t, ',');
    TrimTrimmed(text);
    UpperKeepsSpacesAndCommas(Trim(text));
    assert Trimmed(t);
    TrimOfTrimmed(t);
  }
}
