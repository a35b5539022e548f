/** The second-column adjuster of app.py: every `^FO<x>,<y>` field origin
    whose x lies right of the middle of the label is moved horizontally by a
    fixed number of dots; everything else in the text is kept.

    The substitution `re.sub(r"(\^FO)(-?\d+),(-?\d+)", _replace, text)` is
    modelled as a left-to-right scan that tries a match at each position,
    copies a character when none starts there, and resumes after each match.
    The label width, the dots per millimetre and the offset enter only through
    the middle line `midX`, the shift `delta` in dots and whether the offset
    is zero; the floating-point arithmetic that derives them is not modelled. */
module SecondColumn {
  import opened Text

  datatype Option<T> = None | Some(value: T)

  // ---------------------------------------------------------------------
  // Numerals: matching, reading (`int(...)`) and writing (`str(...)`)
  //
  // The matcher reads characters at positions of the one text it is given,
  // so that its definitions create no new sequences.
  // ---------------------------------------------------------------------

  /** Every character of `s[i..j]` is a digit. */
  predicate DigitsIn(s: string, i: nat, j: nat)
    requires i <= j <= |s|
  {
    forall k :: i <= k < j ==> IsDigit(s[k])
  }

  /** `s[i..j]` matches `-?\d+` in full. */
  predicate NumeralIn(s: string, i: nat, j: nat)
    requires i <= j <= |s|
  {
    (i < j && DigitsIn(s, i, j)) || (i + 1 < j && s[i] == '-' && DigitsIn(s, i + 1, j))
  }

  /** The whole of `w` matches `-?\d+`. */
  predicate IsNumeral(w: string) {
    NumeralIn(w, 0, |w|)
  }

  /** The end of the run of digits that starts at position `i`. */
  function DigitEnd(s: string, i: nat): (e: nat)
    requires i <= |s|
    ensures i <= e <= |s| && (e == |s| || !IsDigit(s[e]))
    decreases |s| - i
  {
    if i < |s| && IsDigit(s[i]) then DigitEnd(s, i + 1) else i
  }

  /** The run holds digits only, so it is the longest one. */
  lemma {:induction false} DigitEndDigits(s: string, i: nat)
    requires i <= |s|
    ensures DigitsIn(s, i, DigitEnd(s, i))
    decreases |s| - i
  {
    if i < |s| && IsDigit(s[i]) {
      DigitEndDigits(s, i + 1);
    }
  }

  /** A run of digits followed by a non-digit is found in full. */
  lemma {:induction false} DigitEndIs(s: string, i: nat, e: nat)
    requires i <= e <= |s| && DigitsIn(s, i, e) && (e == |s| || !IsDigit(s[e]))
    ensures DigitEnd(s, i) == e
    decreases e - i
  {
    if i < e {
      DigitEndIs(s, i + 1, e);
    }
  }

  /** The end of the greedy match of `-?\d+` at position `i`, or `i` itself
      when none starts there. */
  function NumeralEnd(s: string, i: nat): (e: nat)
    requires i <= |s|
    ensures i <= e <= |s| && (e == i || e == |s| || !IsDigit(s[e]))
  {
    if i < |s| && IsDigit(s[i]) then DigitEnd(s, i)
    else if i + 1 < |s| && s[i] == '-' && IsDigit(s[i + 1]) then DigitEnd(s, i + 1)
    else i
  }

  /** `NumeralEnd` finds a numeral whenever it moves, and stays put exactly
      when neither a digit nor '-' and a digit starts at `i`. */
  lemma NumeralEndMatches(s: string, i: nat)
    requires i <= |s|
    ensures var e := NumeralEnd(s, i);
            (e > i ==> NumeralIn(s, i, e)) &&
            (e == i <==> !(i < |s| && IsDigit(s[i])) && !(i + 1 < |s| && s[i] == '-' && IsDigit(s[i + 1])))
  {
    if i < |s| && IsDigit(s[i]) {
      DigitEndDigits(s, i);
    } else if i + 1 < |s| && s[i] == '-' && IsDigit(s[i + 1]) {
      DigitEndDigits(s, i + 1);
    }
  }

  /** A numeral followed by a non-digit is matched exactly. */
  lemma NumeralEndIs(s: string, i: nat, j: nat)
    requires i <= j <= |s| && NumeralIn(s, i, j) && (j == |s| || !IsDigit(s[j]))
    ensures NumeralEnd(s, i) == j
  {
    if IsDigit(s[i]) {
      DigitEndIs(s, i, j);
    } else {
      DigitEndIs(s, i + 1, j);
    }
  }

  /** The value of a decimal digit. */
  function DigitValue(c: char): int {
    (c as int) - ('0' as int)
  }

  function DigitChar(d: nat): char
    requires d < 10
  {
    ('0' as int + d) as char
  }

  /** The value of the digits `s[i..j]`, most significant first. */
  function ValueBetween(s: string, i: nat, j: nat): int
    requires i <= j <= |s|
    decreases j - i
  {
    if j == i then 0 else 10 * ValueBetween(s, i, j - 1) + DigitValue(s[j - 1])
  }

  /** Python's `int(...)` on the numeral `s[i..j]`: leading zeros are
      ignored and "-0" is 0. */
  function NumeralValue(s: string, i: nat, j: nat): int
    requires i <= j <= |s|
  {
    if i < j && s[i] == '-' then -ValueBetween(s, i + 1, j) else ValueBetween(s, i, j)
  }

  /** Python's `int(...)` on a whole numeral. */
  function ParseSigned(w: string): int {
    NumeralValue(w, 0, |w|)
  }

  /** `s[i..i+n]` and `w[j..j+n]` hold the same characters. */
  predicate Agree(s: string, i: nat, w: string, j: nat, n: nat) {
    i + n <= |s| && j + n <= |w| && forall k :: j <= k < j + n ==> s[i + k - j] == w[k]
  }

  /** Digits read at one place of a text have the same value as the same
      digits read elsewhere. */
  lemma {:induction false} ValueBetweenShift(s: string, i: nat, w: string, j: nat, n: nat)
    requires Agree(s, i, w, j, n)
    ensures ValueBetween(s, i, i + n) == ValueBetween(w, j, j + n)
  {
    if n > 0 {
      ValueBetweenShift(s, i, w, j, n - 1);
    }
  }

  /** A numeral found inside a text reads as the numeral on its own. */
  lemma NumeralValueShift(s: string, i: nat, w: string)
    requires Agree(s, i, w, 0, |w|)
    ensures NumeralValue(s, i, i + |w|) == ParseSigned(w)
  {
    if |w| > 0 {
      if w[0] == '-' {
        ValueBetweenShift(s, i + 1, w, 1, |w| - 1);
      } else {
        ValueBetweenShift(s, i, w, 0, |w|);
      }
    }
  }

  /** A numeral found inside a text is a numeral there. */
  lemma NumeralInShift(s: string, i: nat, w: string)
    requires Agree(s, i, w, 0, |w|) && IsNumeral(w)
    ensures NumeralIn(s, i, i + |w|)
  {
    forall k | i <= k < i + |w|
      ensures s[k] == w[k - i]
    {
    }
  }

  /** Decimal digits of a natural number. */
  function NatToString(n: nat): (s: string)
    ensures s != []
    decreases n
  {
    if n < 10 then [DigitChar(n)] else NatToString(n / 10) + [DigitChar(n % 10)]
  }

  /** Python's `str(...)` on an integer. */
  function IntToString(n: int): (s: string)
    ensures s != []
  {
    if n < 0 then "-" + NatToString(-n) else NatToString(n)
  }

  /** A natural number is written in digits, without leading zeros. */
  lemma {:induction false} NatToStringDigits(n: nat)
    ensures DigitsIn(NatToString(n), 0, |NatToString(n)|)
    ensures |NatToString(n)| > 1 ==> NatToString(n)[0] != '0'
    decreases n
  {
    if n >= 10 {
      NatToStringDigits(n / 10);
    }
  }

  /** A written integer matches `-?\d+` in full, with a sign exactly when
      it is negative. */
  lemma IntToStringNumeral(n: int)
    ensures IsNumeral(IntToString(n))
    ensures IntToString(n)[0] == '-' <==> n < 0
  {
    if n < 0 {
      var t := NatToString(-n);
      NatToStringDigits(-n);
      assert forall k :: 1 <= k < |t| + 1 ==> IntToString(n)[k] == t[k - 1];
    } else {
      NatToStringDigits(n);
    }
  }

  lemma {:induction false} NatRoundTrip(n: nat)
    ensures ValueBetween(NatToString(n), 0, |NatToString(n)|) == n
    decreases n
  {
    if n >= 10 {
      var s := NatToString(n);
      var a := NatToString(n / 10);
      NatRoundTrip(n / 10);
      assert Agree(s, 0, a, 0, |a|);
      ValueBetweenShift(s, 0, a, 0, |a|);
    }
  }

  /** Reading back a written integer gives the integer. */
  lemma NumeralRoundTrip(n: int)
    ensures ParseSigned(IntToString(n)) == n
  {
    var s := IntToString(n);
    IntToStringNumeral(n);
    if n < 0 {
      var t := NatToString(-n);
      NatRoundTrip(-n);
      assert Agree(s, 1, t, 0, |t|);
      ValueBetweenShift(s, 1, t, 0, |t|);
    } else {
      NatRoundTrip(n);
    }
  }

  /** A written integer is in canonical form: no leading zeros and no "-0". */
  lemma NumeralCanonical(n: int)
    ensures var s := IntToString(n);
            (s[0] != '-' ==> |s| == 1 || s[0] != '0') &&
            (s[0] == '-' ==> s[1] != '0')
  {
    IntToStringNumeral(n);
    if n >= 0 {
      NatToStringDigits(n);
    } else {
      var t := NatToString(-n);
      NatToStringDigits(-n);
      assert IntToString(n)[1] == t[0];
      assert t[0] == '0' ==> ValueBetween(t, 0, |t|) == 0 by {
        if t[0] == '0' {
          assert |t| == 1;
        }
      }
      NatRoundTrip(-n);
    }
  }

  // ---------------------------------------------------------------------
  // One match of `(\^FO)(-?\d+),(-?\d+)`
  // ---------------------------------------------------------------------

  /** A match found at the front of a text: the integers read from its two
      numerals and the number of characters it covers. */
  datatype FoMatch = FoMatch(x: int, y: int, len: nat)

  /** The match of `(-?\d+),(-?\d+)` at position `p` of `s`, if any; its
      `len` is where it ends. The first numeral must be followed by the
      comma; the second is taken as long as it goes, as the greedy `\d+`
      does. */
  function FoMatchAt(s: string, p: nat): (m: Option<FoMatch>)
    requires p <= |s|
    ensures m.Some? ==> p + 3 <= m.value.len <= |s|
    ensures m.Some? ==> m.value.len == |s| || !IsDigit(s[m.value.len])
  {
    var a := NumeralEnd(s, p);
    if a == p || a == |s| || s[a] != ',' then None
    else
      var b := NumeralEnd(s, a + 1);
      if b == a + 1 then None
      else Some(FoMatch(NumeralValue(s, p, a), NumeralValue(s, a + 1, b), b))
  }

  /** `s` starts with the three characters "^FO". */
  predicate StartsWithFO(s: string) {
    |s| >= 3 && s[0] == '^' && s[1] == 'F' && s[2] == 'O'
  }

  /** The match of `(\^FO)(-?\d+),(-?\d+)` at the front of `s`, if any. */
  function MatchFO(s: string): (m: Option<FoMatch>)
    ensures m.Some? ==> 6 <= m.value.len <= |s| && StartsWithFO(s)
    ensures m.Some? ==> m.value.len == |s| || !IsDigit(s[m.value.len])
  {
    if StartsWithFO(s) then FoMatchAt(s, 3) else None
  }

  /** A match covers "^FO", a numeral, a comma and a numeral, and finds no
      longer one. */
  lemma MatchShape(s: string)
    requires MatchFO(s).Some?
    ensures var m := MatchFO(s).value;
            exists a :: 3 < a < m.len && s[a] == ',' && NumeralIn(s, 3, a) && NumeralIn(s, a + 1, m.len) &&
                        m.x == NumeralValue(s, 3, a) && m.y == NumeralValue(s, a + 1, m.len)
  {
    var a := NumeralEnd(s, 3);
    NumeralEndMatches(s, 3);
    NumeralEndMatches(s, a + 1);
  }

  /** The text `_replace` returns for a match with the given coordinates. */
  function Directive(x: int, y: int): (d: string)
    ensures StartsWithFO(d) && 6 <= |d|
  {
    "^FO" + IntToString(x) + "," + IntToString(y)
  }

  lemma AgreeAfter(p: string, w: string)
    ensures Agree(p + w, |p|, w, 0, |w|)
  {
  }

  lemma AgreeExtend(s: string, i: nat, w: string, q: string)
    requires Agree(s, i, w, 0, |w|)
    ensures Agree(s + q, i, w, 0, |w|)
  {
  }

  /** A numeral found at position `i` of a text and followed by a non-digit
      or the end is matched there in full and read as the numeral itself. */
  lemma NumeralAt(s: string, i: nat, w: string)
    requires Agree(s, i, w, 0, |w|) && IsNumeral(w)
    requires i + |w| == |s| || !IsDigit(s[i + |w|])
    ensures NumeralEnd(s, i) == i + |w| && NumeralValue(s, i, i + |w|) == ParseSigned(w)
  {
    NumeralInShift(s, i, w);
    NumeralEndIs(s, i, i + |w|);
    NumeralValueShift(s, i, w);
  }

  /** `MatchFO` when both numerals are found. */
  lemma MatchFound(s: string, a: nat, b: nat)
    requires StartsWithFO(s) && 3 < a < |s| && s[a] == ','
    requires NumeralEnd(s, 3) == a && a + 1 < b <= |s| && NumeralEnd(s, a + 1) == b
    ensures MatchFO(s) == Some(FoMatch(NumeralValue(s, 3, a), NumeralValue(s, a + 1, b), b))
  {
  }

  /** In "^FO" + xs + "," + ys + rest the first numeral is found in full. */
  lemma FirstNumeralWritten(xs: string, ys: string, rest: string)
    requires IsNumeral(xs)
    ensures var s := "^FO" + xs + "," + ys + rest;
            StartsWithFO(s) && s[3 + |xs|] == ',' &&
            NumeralEnd(s, 3) == 3 + |xs| && NumeralValue(s, 3, 3 + |xs|) == ParseSigned(xs)
  {
    var p := "^FO" + xs;
    var pc := p + ",";
    var py := pc + ys;
    var s := py + rest;
    assert s[3 + |xs|] == pc[3 + |xs|];
    AgreeAfter("^FO", xs);
    AgreeExtend(p, 3, xs, ",");
    AgreeExtend(pc, 3, xs, ys);
    AgreeExtend(py, 3, xs, rest);
    NumeralAt(s, 3, xs);
  }

  /** In "^FO" + xs + "," + ys + rest the second numeral is found in full
      when `rest` does not start with a digit. */
  lemma SecondNumeralWritten(xs: string, ys: string, rest: string)
    requires IsNumeral(ys)
    requires rest == [] || !IsDigit(rest[0])
    ensures var s := "^FO" + xs + "," + ys + rest;
            var a := 3 + |xs|;
            var b := a + 1 + |ys|;
            NumeralEnd(s, a + 1) == b && NumeralValue(s, a + 1, b) == ParseSigned(ys)
  {
    var pc := "^FO" + xs + ",";
    var py := pc + ys;
    var s := py + rest;
    var b := |py|;
    assert b == |s| || s[b] == rest[0];
    AgreeAfter(pc, ys);
    AgreeExtend(py, |pc|, ys, rest);
    NumeralAt(s, |pc|, ys);
  }

  /** "^FO", two numerals around a comma and a non-digit or the end are
      matched in full, and the match reads the two numerals. */
  lemma MatchWritten(xs: string, ys: string, rest: string)
    requires IsNumeral(xs) && IsNumeral(ys)
    requires rest == [] || !IsDigit(rest[0])
    ensures MatchFO("^FO" + xs + "," + ys + rest) ==
              Some(FoMatch(ParseSigned(xs), ParseSigned(ys), 3 + |xs| + 1 + |ys|))
  {
    FirstNumeralWritten(xs, ys, rest);
    SecondNumeralWritten(xs, ys, rest);
    MatchFound("^FO" + xs + "," + ys + rest, 3 + |xs|, 3 + |xs| + 1 + |ys|);
  }

  /** A written directive followed by a non-digit is matched in full, and
      reading it back gives its coordinates. */
  lemma MatchDirective(x: int, y: int, rest: string)
    requires rest == [] || !IsDigit(rest[0])
    ensures MatchFO(Directive(x, y) + rest) == Some(FoMatch(x, y, |Directive(x, y)|))
  {
    IntToStringNumeral(x);
    IntToStringNumeral(y);
    MatchWritten(IntToString(x), IntToString(y), rest);
    NumeralRoundTrip(x);
    NumeralRoundTrip(y);
  }

  // A match never reaches past a '^' after its first character, so cutting
  // the text at such a '^' does not change what matches at the front.

  lemma {:induction false} DigitEndCut(s: string, q: nat, i: nat)
    requires i <= q < |s| && !IsDigit(s[q])
    ensures DigitEnd(s, i) == DigitEnd(s[..q], i)
    decreases q - i
  {
    if i < q {
      DigitEndCut(s, q, i + 1);
    }
  }

  lemma NumeralEndCut(s: string, q: nat, i: nat)
    requires i <= q < |s| && s[q] == '^'
    ensures NumeralEnd(s, i) == NumeralEnd(s[..q], i)
  {
    if i < q && IsDigit(s[i]) {
      DigitEndCut(s, q, i);
    } else if i + 1 < q && s[i] == '-' && IsDigit(s[i + 1]) {
      DigitEndCut(s, q, i + 1);
    }
  }

  lemma {:induction false} ValueBetweenCut(s: string, q: nat, i: nat, j: nat)
    requires i <= j <= q <= |s|
    ensures ValueBetween(s, i, j) == ValueBetween(s[..q], i, j)
    decreases j - i
  {
    if i < j {
      ValueBetweenCut(s, q, i, j - 1);
    }
  }

  lemma FoMatchAtCut(s: string, q: nat, p: nat)
    requires p <= q < |s| && s[q] == '^'
    ensures FoMatchAt(s, p) == FoMatchAt(s[..q], p)
  {
    var t := s[..q];
    NumeralEndCut(s, q, p);
    var a := NumeralEnd(s, p);
    if a > p && a < q && s[a] == ',' {
      NumeralEndCut(s, q, a + 1);
      var b := NumeralEnd(s, a + 1);
      if b > a + 1 {
        ValueBetweenCut(s, q, p, a);
        ValueBetweenCut(s, q, p + 1, a);
        ValueBetweenCut(s, q, a + 1, b);
        ValueBetweenCut(s, q, a + 2, b);
      }
    }
  }

  lemma MatchCut(s: string, q: nat)
    requires 1 <= q < |s| && s[q] == '^'
    ensures MatchFO(s) == MatchFO(s[..q])
  {
    if q >= 3 && StartsWithFO(s) {
      FoMatchAtCut(s, q, 3);
    }
  }

  // ---------------------------------------------------------------------
  // Scanning and substitution
  // ---------------------------------------------------------------------

  /** A piece of a scanned text: a character copied through, or a directive
      together with the text it was matched on. */
  datatype Token = Lit(c: char) | Fo(x: int, y: int, text: string)

  /** The text as `re` scans it: left to right, a match where one starts,
      otherwise one character, resuming after each match. */
  function Tokens(s: string): seq<Token>
    decreases |s|
  {
    if s == [] then []
    else match MatchFO(s)
      case Some(m) => [Fo(m.x, m.y, s[..m.len])] + Tokens(s[m.len..])
      case None => [Lit(s[0])] + Tokens(s[1..])
  }

  /** The text of one token. */
  function TokenText(t: Token): string {
    match t
    case Lit(c) => [c]
    case Fo(_, _, text) => text
  }

  /** The text a sequence of tokens was scanned from. */
  function Unscan(ts: seq<Token>): string {
    if ts == [] then [] else TokenText(ts[0]) + Unscan(ts[1..])
  }

  lemma UnscanCons(t: Token, ts: seq<Token>)
    ensures Unscan([t] + ts) == TokenText(t) + Unscan(ts)
  {
    ConcatParts([t], ts);
  }

  lemma TokensFound(s: string)
    requires s != [] && MatchFO(s).Some?
    ensures var m := MatchFO(s).value;
            Tokens(s) == [Fo(m.x, m.y, s[..m.len])] + Tokens(s[m.len..])
  {
  }

  lemma TokensCopied(s: string)
    requires s != [] && MatchFO(s).None?
    ensures Tokens(s) == [Lit(s[0])] + Tokens(s[1..])
  {
  }

  /** A scan starts with a copied character exactly where no match starts. */
  lemma TokensHead(s: string)
    requires s != []
    ensures Tokens(s) != [] && (Tokens(s)[0].Lit? <==> MatchFO(s).None?)
  {
    if MatchFO(s).Some? {
      TokensFound(s);
    } else {
      TokensCopied(s);
    }
  }

  lemma UnscanFound(s: string)
    requires s != [] && MatchFO(s).Some?
    ensures var n := MatchFO(s).value.len;
            Unscan(Tokens(s)) == s[..n] + Unscan(Tokens(s[n..]))
  {
    var m := MatchFO(s).value;
    TokensFound(s);
    UnscanCons(Fo(m.x, m.y, s[..m.len]), Tokens(s[m.len..]));
  }

  lemma UnscanCopied(s: string)
    requires s != [] && MatchFO(s).None?
    ensures Unscan(Tokens(s)) == [s[0]] + Unscan(Tokens(s[1..]))
  {
    TokensCopied(s);
    UnscanCons(Lit(s[0]), Tokens(s[1..]));
  }

  /** Scanning loses nothing: the tokens spell out the text. */
  lemma {:induction false} UnscanTokens(s: string)
    ensures Unscan(Tokens(s)) == s
    decreases |s|
  {
    if s != [] {
      var m := MatchFO(s);
      var n := if m.Some? then m.value.len else 1;
      if m.Some? {
        UnscanFound(s);
      } else {
        UnscanCopied(s);
      }
      UnscanTokens(s[n..]);
      SplitJoin(s, n);
    }
  }

  /** The new x of a field origin: only positions right of the middle line
      (the second column) move, by `delta` dots. */
  function ShiftX(x: int, midX: real, delta: int): int {
    if x as real > midX then x + delta else x
  }

  /** What the substitution makes of one token. */
  function ShiftToken(t: Token, midX: real, delta: int): Token {
    match t
    case Lit(c) => t
    case Fo(x, y, _) =>
      var x' := ShiftX(x, midX, delta);
      Fo(x', y, Directive(x', y))
  }

  function Shifted(ts: seq<Token>, midX: real, delta: int): seq<Token> {
    if ts == [] then [] else [ShiftToken(ts[0], midX, delta)] + Shifted(ts[1..], midX, delta)
  }

  /** `fo_pattern.sub(_replace, text)`. */
  function Rewrite(s: string, midX: real, delta: int): string
    decreases |s|
  {
    if s == [] then []
    else match MatchFO(s)
      case Some(m) => Directive(ShiftX(m.x, midX, delta), m.y) + Rewrite(s[m.len..], midX, delta)
      case None => [s[0]] + Rewrite(s[1..], midX, delta)
  }

  lemma RewriteFound(s: string, midX: real, delta: int)
    requires s != [] && MatchFO(s).Some?
    ensures var m := MatchFO(s).value;
            Rewrite(s, midX, delta) == Directive(ShiftX(m.x, midX, delta), m.y) + Rewrite(s[m.len..], midX, delta)
  {
  }

  lemma RewriteCopied(s: string, midX: real, delta: int)
    requires s != [] && MatchFO(s).None?
    ensures Rewrite(s, midX, delta) == [s[0]] + Rewrite(s[1..], midX, delta)
  {
  }

  /** The rewritten text starts with the same character as the original. */
  lemma RewriteHead(s: string, midX: real, delta: int)
    requires s != []
    ensures Rewrite(s, midX, delta) != [] && Rewrite(s, midX, delta)[0] == s[0]
  {
    match MatchFO(s)
    case Some(m) =>
      RewriteFound(s, midX, delta);
    case None =>
      RewriteCopied(s, midX, delta);
  }

  /** A text that does not start with '^' has no match at its front. */
  lemma NoMatchWithoutCaret(s: string)
    requires s != [] && s[0] != '^'
    ensures MatchFO(s).None?
  {
  }

  /** One character more of a stretch copied unchanged. */
  lemma CopiedStep(s: string, k: nat, r: string, midX: real, delta: int)
    requires 0 < k <= |s| && s[0] != '^'
    requires Rewrite(s[1..], midX, delta) == s[1..k] + r
    ensures Rewrite(s, midX, delta) == s[..k] + r
  {
    NoMatchWithoutCaret(s);
    RewriteCopied(s, midX, delta);
    ConcatAssoc([s[0]], s[1..k], r);
    ConsSlice(s, k);
  }

  /** A stretch without '^' is copied unchanged. */
  lemma {:induction false} RewriteCopiesPlain(s: string, k: nat, midX: real, delta: int)
    requires k <= |s| && forall i :: 0 <= i < k ==> s[i] != '^'
    ensures Rewrite(s, midX, delta) == s[..k] + Rewrite(s[k..], midX, delta)
  {
    if k > 0 {
      RewriteCopiesPlain(s[1..], k - 1, midX, delta);
      DropDrop(s, 1, k - 1);
      DropTake(s, 1, k - 1);
      CopiedStep(s, k, Rewrite(s[k..], midX, delta), midX, delta);
    } else {
      ConcatParts(s[..0], Rewrite(s, midX, delta));
    }
  }

  /** The first '^' at or after position i, or the end of the text. */
  function NextCaret(s: string, i: nat): (q: nat)
    requires i <= |s|
    ensures i <= q <= |s| && (q == |s| || s[q] == '^')
    ensures forall j :: i <= j < q ==> s[j] != '^'
    decreases |s| - i
  {
    if i == |s| || s[i] == '^' then i else NextCaret(s, i + 1)
  }

  /** Up to the next '^', the rewritten text is the original. */
  lemma RewriteUpToCaret(s: string, midX: real, delta: int)
    requires s != []
    ensures var q := NextCaret(s, 1);
            [s[0]] + Rewrite(s[1..], midX, delta) == s[..q] + Rewrite(s[q..], midX, delta)
  {
    var q := NextCaret(s, 1);
    var r := Rewrite(s[q..], midX, delta);
    RewriteCopiesPlain(s[1..], q - 1, midX, delta);
    DropDrop(s, 1, q - 1);
    DropTake(s, 1, q - 1);
    ConcatAssoc([s[0]], s[1..q], r);
    ConsSlice(s, q);
  }

  /** Where no match starts in the original, none starts in the rewritten text. */
  lemma NoMatchKept(s: string, midX: real, delta: int)
    requires s != [] && MatchFO(s).None?
    ensures MatchFO([s[0]] + Rewrite(s[1..], midX, delta)).None?
  {
    var t := [s[0]] + Rewrite(s[1..], midX, delta);
    var q := NextCaret(s, 1);
    var r := Rewrite(s[q..], midX, delta);
    RewriteUpToCaret(s, midX, delta);
    if q == |s| {
      assert r == [];
      SplitJoin(s, q);
    } else {
      RewriteHead(s[q..], midX, delta);
      ConcatParts(s[..q], r);
      MatchCut(t, q);
      MatchCut(s, q);
    }
  }

  lemma ShiftedCons(t: Token, ts: seq<Token>, midX: real, delta: int)
    ensures Shifted([t] + ts, midX, delta) == [ShiftToken(t, midX, delta)] + Shifted(ts, midX, delta)
  {
    ConcatParts([t], ts);
  }

  /** Scanning the rewritten text finds exactly the rewritten directives: the
      same number, in the same order, each with its x shifted when it lies in
      the second column and its y unchanged, and every other character kept. */
  lemma {:induction false} RescanRewrite(s: string, midX: real, delta: int)
    ensures Tokens(Rewrite(s, midX, delta)) == Shifted(Tokens(s), midX, delta)
    decreases |s|
  {
    if s != [] {
      match MatchFO(s)
      case Some(m) =>
        var x' := ShiftX(m.x, midX, delta);
        var d := Directive(x', m.y);
        var rest := s[m.len..];
        var r := Rewrite(rest, midX, delta);
        assert Tokens(d + r) == [Fo(x', m.y, d)] + Tokens(r) by {
          assert r == [] || !IsDigit(r[0]) by {
            if rest != [] {
              RewriteHead(rest, midX, delta);
            }
          }
          MatchDirective(x', m.y, r);
          ConcatParts(d, r);
          TokensFound(d + r);
        }
        RewriteFound(s, midX, delta);
        RescanRewrite(rest, midX, delta);
        TokensFound(s);
        ShiftedCons(Fo(m.x, m.y, s[..m.len]), Tokens(rest), midX, delta);
      case None =>
        var t := [s[0]] + Rewrite(s[1..], midX, delta);
        assert Tokens(t) == [Lit(s[0])] + Tokens(Rewrite(s[1..], midX, delta)) by {
          NoMatchKept(s, midX, delta);
          ConcatParts([s[0]], Rewrite(s[1..], midX, delta));
          TokensCopied(t);
        }
        RewriteCopied(s, midX, delta);
        RescanRewrite(s[1..], midX, delta);
        TokensCopied(s);
        ShiftedCons(Lit(s[0]), Tokens(s[1..]), midX, delta);
    }
  }

  /** The rewritten text is the original with each directive replaced by its
      rewritten form and nothing else changed. */
  lemma RewriteReplacesDirectives(s: string, midX: real, delta: int)
    ensures Rewrite(s, midX, delta) == Unscan(Shifted(Tokens(s), midX, delta))
  {
    RescanRewrite(s, midX, delta);
    UnscanTokens(Rewrite(s, midX, delta));
  }

  predicate NoDirectives(ts: seq<Token>) {
    forall i :: 0 <= i < |ts| ==> ts[i].Lit?
  }

  /** A text without field origins is returned unchanged. */
  lemma {:induction false} RewriteWithoutDirectives(s: string, midX: real, delta: int)
    requires NoDirectives(Tokens(s))
    ensures Rewrite(s, midX, delta) == s
    decreases |s|
  {
    if s != [] {
      TokensHead(s);
      TokensCopied(s);
      ConcatParts([Lit(s[0])], Tokens(s[1..]));
      RewriteCopied(s, midX, delta);
      RewriteWithoutDirectives(s[1..], midX, delta);
      ConsSlice(s, |s|);
    }
  }

  /** `adjust_second_column`: the text unchanged when the offset is zero,
      otherwise the substitution. */
  function AdjustSecondColumn(text: string, offsetIsZero: bool, midX: real, delta: int): (r: string)
    ensures offsetIsZero ==> r == text
    ensures !offsetIsZero ==> Tokens(r) == Shifted(Tokens(text), midX, delta)
  {
    if offsetIsZero then text
    else
      RescanRewrite(text, midX, delta);
      Rewrite(text, midX, delta)
  }

  /** Within the second column the shift keeps the left-to-right order, the
      first column never moves, and a positive offset moves right while a
      negative one moves left. */
  lemma ShiftGeometry(x1: int, x2: int, midX: real, delta: int)
    ensures x1 as real <= midX ==> ShiftX(x1, midX, delta) == x1
    ensures x1 as real > midX && x2 as real > midX ==>
              (x1 < x2 <==> ShiftX(x1, midX, delta) < ShiftX(x2, midX, delta))
    ensures x1 as real > midX && delta > 0 ==> ShiftX(x1, midX, delta) > x1
    ensures x1 as real > midX && delta < 0 ==> ShiftX(x1, midX, delta) < x1
    ensures delta >= 0 && x1 as real > midX ==> ShiftX(x1, midX, delta) as real > midX
  {
  }

  /** A text that is exactly one field origin becomes its rewritten form. */
  lemma RewriteSingle(xs: string, ys: string, midX: real, delta: int)
    requires IsNumeral(xs) && IsNumeral(ys)
    ensures Rewrite("^FO" + xs + "," + ys, midX, delta) ==
              Directive(ShiftX(ParseSigned(xs), midX, delta), ParseSigned(ys))
  {
    var s := "^FO" + xs + "," + ys;
    AppendEmpty(s);
    MatchWritten(xs, ys, []);
    RewriteFound(s, midX, delta);
    assert s[|s|..] == [];
    AppendEmpty(Directive(ShiftX(ParseSigned(xs), midX, delta), ParseSigned(ys)));
  }

  /** A written directive is rewritten into the directive at its shifted
      place. */
  lemma RewriteDirective(x: int, y: int, midX: real, delta: int)
    ensures Rewrite(Directive(x, y), midX, delta) == Directive(ShiftX(x, midX, delta), y)
  {
    var d := Directive(x, y);
    AppendEmpty(d);
    MatchDirective(x, y, []);
    RewriteFound(d, midX, delta);
    assert d[|d|..] == [];
    AppendEmpty(Directive(ShiftX(x, midX, delta), y));
  }

  /** A second-column origin moves right by the offset. */
  lemma SecondColumnExample()
    ensures AdjustSecondColumn("^FO500,20", false, 400.0, 80) == "^FO580,20"
  {
    var s := "^FO500,20";
    assert s == Directive(500, 20);
    assert "^FO580,20" == Directive(580, 20);
    RewriteDirective(500, 20, 400.0, 80);
  }

  /** A first-column origin keeps its place. */
  lemma FirstColumnExample()
    ensures AdjustSecondColumn("^FO100,20", false, 400.0, 80) == "^FO100,20"
  {
    var s := "^FO100,20";
    assert s == Directive(100, 20);
    RewriteDirective(100, 20, 400.0, 80);
  }

  /** "007" and "-0" are numerals that read as 7 and 0. */
  lemma PaddedNumerals()
    ensures IsNumeral("007") && ParseSigned("007") == 7
    ensures IsNumeral("-0") && ParseSigned("-0") == 0
  {
    assert ValueBetween("007", 0, 1) == 0 && ValueBetween("007", 0, 2) == 0;
  }

  /** With a non-zero offset every matched origin is written anew, so leading
      zeros and "-0" disappear even where nothing moves. */
  lemma CanonicalFormExample()
    ensures AdjustSecondColumn("^FO007,-0", false, 400.0, 80) == "^FO7,0"
  {
    PaddedNumerals();
    RewriteSingle("007", "-0", 400.0, 80);
    assert "^FO007,-0" == "^FO" + "007" + "," + "-0";
    assert "^FO7,0" == Directive(7, 0);
  }
}
