/**
 * `parse_tickers`: the TICKERS environment variable, split on commas, each piece
 * stripped and upper-cased, empty pieces dropped; unset or empty means AAPL alone.
 */
module Tickers {
  import opened Wrappers
  import opened Seqs

  const DefaultTicker: string := "AAPL"

  /** The characters Python's `str.isspace` accepts, which `str.strip()` removes. */
  const Whitespace: set<char> :=
    {'\t', '\n', '\U{0B}', '\U{0C}', '\r', '\U{1C}', '\U{1D}', '\U{1E}', '\U{1F}', ' ',
     '\U{85}', '\U{A0}', '\U{1680}',
     '\U{2000}', '\U{2001}', '\U{2002}', '\U{2003}', '\U{2004}', '\U{2005}',
     '\U{2006}', '\U{2007}', '\U{2008}', '\U{2009}', '\U{200A}',
     '\U{2028}', '\U{2029}', '\U{202F}', '\U{205F}', '\U{3000}'}

  predicate IsSpace(c: char)
  {
    c in Whitespace
  }

  predicate IsAsciiLower(c: char)
  {
    'a' <= c <= 'z'
  }

  /** The number of whitespace characters `s.lstrip()` removes from the front of `s`. */
  function LeadingSpace(s: string): (n: nat)
    ensures n <= |s|
    ensures forall k | 0 <= k < n :: IsSpace(s[k])
    ensures n < |s| ==> !IsSpace(s[n])
    decreases |s|
  {
    if |s| > 0 && IsSpace(s[0]) then 1 + LeadingSpace(s[1..]) else 0
  }

  /**
   * Where `s[..n].rstrip()` ends: the least `e <= n` such that only whitespace
   * follows it below `n`.
   */
  function RightEnd(s: string, n: nat): (e: nat)
    requires n <= |s|
    ensures e <= n
    ensures forall k | e <= k < n :: IsSpace(s[k])
    ensures e > 0 ==> !IsSpace(s[e - 1])
    decreases n
  {
    if n > 0 && IsSpace(s[n - 1]) then RightEnd(s, n - 1) else n
  }

  /**
   * `s.strip()`: the infix of `s` between its leading and its trailing whitespace; it
   * is empty exactly when `s` is all whitespace.
   */
  function Strip(s: string): (r: string)
    ensures var i := LeadingSpace(s);
            && i + |r| <= |s|
            && r == s[i..i + |r|]
            && forall k | i + |r| <= k < |s| :: IsSpace(s[k])
    ensures |r| > 0 ==> !IsSpace(r[0]) && !IsSpace(r[|r| - 1])
    ensures |r| == 0 <==> forall k | 0 <= k < |s| :: IsSpace(s[k])
  {
    var i := LeadingSpace(s);
    var e := RightEnd(s, |s|);
    if e <= i then
      []
    else
      assert !IsSpace(s[i]);
      s[i..e]
  }

  function UpperChar(c: char): char
  {
    if IsAsciiLower(c) then (c as int - 32) as char else c
  }

  /** Upper-casing neither creates nor removes whitespace or commas. */
  lemma UpperCharKeepsClass(c: char)
    ensures IsSpace(UpperChar(c)) <==> IsSpace(c)
    ensures UpperChar(c) == ',' <==> c == ','
  {
  }

  /**
   * `s.upper()` on ASCII letters: the same length, no lower-case letter left, a lower-case
   * letter replaced by its capital and every other character kept.
   */
  function Upper(s: string): (r: string)
    ensures |r| == |s|
    ensures forall i | 0 <= i < |r| :: !IsAsciiLower(r[i])
    ensures forall i | 0 <= i < |r| :: IsAsciiLower(s[i]) ==> r[i] as int == s[i] as int - 32
    ensures forall i | 0 <= i < |r| :: !IsAsciiLower(s[i]) ==> r[i] == s[i]
  {
    seq(|s|, i requires 0 <= i < |s| => UpperChar(s[i]))
  }

  /** `s.split(",")`: the pieces between commas, at least one, none holding a comma. */
  function Split(s: string): (pieces: seq<string>)
    ensures |pieces| > 0
    ensures forall p | p in pieces :: ',' !in p
    decreases |s|
  {
    if |s| == 0 then [""]
    else
      var rest := Split(s[1..]);
      if s[0] == ',' then [""] + rest
      else [[s[0]] + rest[0]] + rest[1..]
  }

  /** There is one more piece than the value has commas. */
  lemma {:induction false} SplitPieceCount(s: string)
    ensures |Split(s)| == multiset(s)[','] + 1
    decreases |s|
  {
    if |s| > 0 {
      SplitPieceCount(s[1..]);
      assert s == [s[0]] + s[1..];
    }
  }

  /** `",".join(pieces)`. */
  function Join(pieces: seq<string>): string
    requires |pieces| > 0
    decreases |pieces|
  {
    if |pieces| == 1 then pieces[0] else pieces[0] + "," + Join(pieces[1..])
  }

  /** Splitting on commas loses nothing: joining the pieces rebuilds the input. */
  lemma {:induction false} JoinSplit(s: string)
    ensures Join(Split(s)) == s
    decreases |s|
  {
    if |s| > 0 {
      var rest := Split(s[1..]);
      JoinSplit(s[1..]);
      if s[0] == ',' {
        assert ([""] + rest)[1..] == rest;
        assert s == [s[0]] + s[1..];
      } else {
        var pieces := [[s[0]] + rest[0]] + rest[1..];
        if |rest| == 1 {
          assert s == [s[0]] + s[1..];
        } else {
          assert pieces[1..] == rest[1..];
          assert Join(rest) == rest[0] + "," + Join(rest[1..]);
          assert s == [s[0]] + s[1..];
        }
      }
    }
  }

  lemma {:induction false} SplitPrefix(a: string, t: string)
    requires ',' !in a
    ensures Split(a + t) == [a + Split(t)[0]] + Split(t)[1..]
    decreases |a|
  {
    if |a| > 0 {
      assert a[0] in a;
      assert (a + t)[0] == a[0] != ',';
      assert (a + t)[1..] == a[1..] + t;
      SplitPrefix(a[1..], t);
      assert a == [a[0]] + a[1..];
      assert [a[0]] + (a[1..] + Split(t)[0]) == a + Split(t)[0];
    } else {
      assert a + t == t;
      assert a + Split(t)[0] == Split(t)[0];
      assert Split(t) == [Split(t)[0]] + Split(t)[1..];
    }
  }

  /** Comma-free pieces survive a join followed by a split. */
  lemma {:induction false} SplitJoin(pieces: seq<string>)
    requires |pieces| > 0
    requires forall p | p in pieces :: ',' !in p
    ensures Split(Join(pieces)) == pieces
    decreases |pieces|
  {
    if |pieces| == 1 {
      SplitPrefix(pieces[0], "");
      assert pieces[0] + "" == pieces[0];
      assert Split("") == [""];
    } else {
      var tail := Join(pieces[1..]);
      SplitJoin(pieces[1..]);
      assert pieces[0] + "," + tail == pieces[0] + ("," + tail);
      SplitPrefix(pieces[0], "," + tail);
      assert ("," + tail)[0] == ',';
      assert ("," + tail)[1..] == tail;
      assert Split("," + tail) == [""] + Split(tail);
      assert pieces[0] + "" == pieces[0];
      assert pieces == [pieces[0]] + pieces[1..];
    }
  }

  /**
   * One piece after `t.strip().upper()`: no lower-case letter and no whitespace at either
   * end; it is empty exactly when the piece is all whitespace.
   */
  function Normalize(t: string): (r: string)
    ensures |r| <= |t|
    ensures forall i | 0 <= i < |r| :: !IsAsciiLower(r[i])
    ensures |r| > 0 ==> !IsSpace(r[0]) && !IsSpace(r[|r| - 1])
    ensures |r| == 0 <==> forall k | 0 <= k < |t| :: IsSpace(t[k])
  {
    var s := Strip(t);
    if |s| == 0 then Upper(s)
    else
      UpperCharKeepsClass(s[0]);
      UpperCharKeepsClass(s[|s| - 1]);
      Upper(s)
  }

  function NormalizeAll(pieces: seq<string>): (r: seq<string>)
    ensures |r| == |pieces|
  {
    seq(|pieces|, i requires 0 <= i < |pieces| => Normalize(pieces[i]))
  }

  predicate NonEmpty(t: string)
  {
    |t| > 0
  }

  /** What every parsed ticker looks like. */
  predicate IsTicker(t: string)
  {
    && |t| > 0
    && !IsSpace(t[0]) && !IsSpace(t[|t| - 1])
    && (forall i | 0 <= i < |t| :: !IsAsciiLower(t[i]))
    && ',' !in t
  }

  /**
   * `parse_tickers(env_value)`. Unset or empty gives exactly `["AAPL"]`; otherwise the
   * normalised comma-separated pieces that are not blank, in input order, duplicates kept.
   */
  function ParseTickers(env: Option<string>): (r: seq<string>)
    ensures env.None? || env == Some("") ==> r == [DefaultTicker]
    ensures forall t | t in r :: IsTicker(t)
    ensures env.Some? && env.value != "" ==>
              && IsSubsequence(r, NormalizeAll(Split(env.value)))
              && forall t | NonEmpty(t) :: multiset(r)[t] == multiset(NormalizeAll(Split(env.value)))[t]
  {
    if env.None? || env.value == "" then [DefaultTicker]
    else
      var normalized := NormalizeAll(Split(env.value));
      var r := Filter(NonEmpty, normalized);
      assert forall t | t in r :: IsTicker(t) by {
        forall t | t in r ensures IsTicker(t) {
          SubsequenceMultiset(r, normalized);
          assert multiset(r)[t] > 0;
          var i :| 0 <= i < |normalized| && normalized[i] == t;
          assert Split(env.value)[i] in Split(env.value);
          NormalizedPieceIsTicker(Split(env.value)[i]);
        }
      }
      r
  }

  /** A comma-free piece that is not blank normalises to a well-formed ticker. */
  lemma NormalizedPieceIsTicker(piece: string)
    requires ',' !in piece && NonEmpty(Normalize(piece))
    ensures IsTicker(Normalize(piece))
  {
    var stripped := Strip(piece);
    var i := LeadingSpace(piece);
    var t := Upper(stripped);
    forall k | 0 <= k < |t|
      ensures t[k] != ',' && (IsSpace(t[k]) <==> IsSpace(stripped[k]))
    {
      assert stripped[k] == piece[i + k];
      assert piece[i + k] in piece;
      UpperCharKeepsClass(stripped[k]);
    }
    assert !IsSpace(t[0]) && !IsSpace(t[|t| - 1]);
    assert ',' !in t;
  }

  /**
   * A value made only of commas and whitespace names no ticker at all: unlike an
   * empty value it does not fall back to AAPL.
   */
  lemma OnlySeparatorsYieldNoTickers(s: string)
    requires s != ""
    requires forall k | 0 <= k < |s| :: s[k] == ',' || IsSpace(s[k])
    ensures ParseTickers(Some(s)) == []
  {
    var pieces := Split(s);
    var normalized := NormalizeAll(pieces);
    SplitOnlySeparators(s);
    forall i | 0 <= i < |normalized| ensures !NonEmpty(normalized[i]) {
      assert pieces[i] in pieces;
    }
    FilterNone(NonEmpty, normalized);
  }

  /** Every piece of a comma-and-whitespace value is whitespace only. */
  lemma {:induction false} SplitOnlySeparators(s: string)
    requires forall k | 0 <= k < |s| :: s[k] == ',' || IsSpace(s[k])
    ensures forall p | p in Split(s) :: forall k | 0 <= k < |p| :: IsSpace(p[k])
    decreases |s|
  {
    if |s| > 0 {
      SplitOnlySeparators(s[1..]);
      var rest := Split(s[1..]);
      if s[0] != ',' {
        assert rest[0] in rest;
        forall p | p in Split(s)
          ensures forall k | 0 <= k < |p| :: IsSpace(p[k])
        {
          if p != [s[0]] + rest[0] {
            assert p in rest[1..];
          }
        }
      }
    }
  }

  /** A string that neither starts nor ends with whitespace is its own `strip()`. */
  lemma StripTrimmed(s: string)
    requires |s| > 0 ==> !IsSpace(s[0]) && !IsSpace(s[|s| - 1])
    ensures Strip(s) == s
  {
    assert LeadingSpace(s) == 0;
    assert RightEnd(s, |s|) == |s|;
  }

  /** A string without lower-case ASCII letters is its own `upper()`. */
  lemma UpperOfUpper(s: string)
    requires forall i | 0 <= i < |s| :: !IsAsciiLower(s[i])
    ensures Upper(s) == s
  {
  }

  /** Normalising a piece twice gives the same as normalising it once. */
  lemma NormalizeIdempotent(t: string)
    ensures Normalize(Normalize(t)) == Normalize(t)
  {
    var stripped := Strip(t);
    var u := Upper(stripped);
    if |u| > 0 {
      UpperCharKeepsClass(stripped[0]);
      UpperCharKeepsClass(stripped[|u| - 1]);
    }
    StripTrimmed(u);
    UpperOfUpper(u);
  }

  /** A parsed ticker is its own normal form. */
  lemma NormalizeTicker(t: string)
    requires IsTicker(t)
    ensures Normalize(t) == t
  {
    StripTrimmed(t);
    UpperOfUpper(t);
  }

  /**
   * Writing a non-empty list of well-formed tickers (every parsed list is one) as one
   * comma-separated value and parsing it again gives the same list.
   */
  lemma ParseJoinRoundTrip(tickers: seq<string>)
    requires |tickers| > 0 && forall t | t in tickers :: IsTicker(t)
    ensures ParseTickers(Some(Join(tickers))) == tickers
  {
    var joined := Join(tickers);
    SplitJoin(tickers);
    NormalizeAllTickers(tickers);
    assert joined != "" by {
      assert tickers[0] in tickers;
      JoinStartsWithFirst(tickers);
    }
    ParseTickersOfValue(joined);
    FilterAll(NonEmpty, tickers);
  }

  lemma NormalizeAllTickers(tickers: seq<string>)
    requires forall t | t in tickers :: IsTicker(t)
    ensures NormalizeAll(tickers) == tickers
  {
    forall i | 0 <= i < |tickers| ensures Normalize(tickers[i]) == tickers[i] {
      assert tickers[i] in tickers;
      NormalizeTicker(tickers[i]);
    }
  }

  lemma ParseTickersOfValue(s: string)
    requires s != ""
    ensures ParseTickers(Some(s)) == Filter(NonEmpty, NormalizeAll(Split(s)))
  {
  }

  lemma {:induction false} JoinStartsWithFirst(pieces: seq<string>)
    requires |pieces| > 0
    ensures |Join(pieces)| >= |pieces[0]|
    decreases |pieces|
  {
  }
}
