/** Character classes and the whitespace-trimming operations shared by the
    label splitter, the dimension formatter and the coordinate adjuster.

    Modelling assumption: the regular-expression class `\s` and Python's
    `str.strip()` are both taken to mean the six ASCII whitespace characters,
    and `\d` the ten ASCII digits. */
module Text {

  /** ASCII whitespace: space, tab, line feed, carriage return, vertical tab, form feed. */
  predicate IsSpace(c: char) {
    c == ' ' || c == '\t' || c == '\n' || c == '\r' || c == '\U{B}' || c == '\U{C}'
  }

  /** ASCII decimal digit. */
  predicate IsDigit(c: char) {
    '0' <= c <= '9'
  }

  predicate AllSpace(s: string) {
    forall i :: 0 <= i < |s| ==> IsSpace(s[i])
  }

  /** Removes leading whitespace (see TrimLeftSuffix for what remains). */
  function TrimLeft(s: string): (r: string)
    ensures |r| <= |s| && (r == [] || !IsSpace(r[0]))
  {
    if |s| > 0 && IsSpace(s[0]) then TrimLeft(s[1..]) else s
  }

  /** Removes trailing whitespace (see TrimRightPrefix for what remains). */
  function TrimRight(s: string): (r: string)
    ensures |r| <= |s| && (r == [] || (r[0] == s[0] && !IsSpace(r[|r| - 1])))
  {
    if |s| > 0 && IsSpace(s[|s| - 1]) then TrimRight(s[..|s| - 1]) else s
  }

  /** What trimming on the left keeps is the suffix of `s` that starts at its
      first non-space character: only whitespace is removed. */
  lemma {:induction false} TrimLeftSuffix(s: string)
    ensures var r := TrimLeft(s);
            r == s[|s| - |r|..] && AllSpace(s[..|s| - |r|])
  {
    if |s| > 0 && IsSpace(s[0]) {
      TrimLeftSuffix(s[1..]);
      var n := |s| - |TrimLeft(s)|;
      DropDrop(s, 1, n - 1);
      forall i | 0 <= i < n
        ensures IsSpace(s[..n][i])
      {
        if i > 0 {
          assert s[..n][i] == s[1..][..n - 1][i - 1];
        }
      }
    }
  }

  /** What trimming on the right keeps is the prefix of `s` that ends at its
      last non-space character: only whitespace is removed. */
  lemma {:induction false} TrimRightPrefix(s: string)
    ensures var r := TrimRight(s);
            r == s[..|r|] && AllSpace(s[|r|..])
    decreases |s|
  {
    if |s| > 0 && IsSpace(s[|s| - 1]) {
      var s' := s[..|s| - 1];
      TrimRightPrefix(s');
      var n := |TrimRight(s)|;
      TakeTake(s, n, |s| - 1);
      forall i | 0 <= i < |s| - n
        ensures IsSpace(s[n..][i])
      {
        if i < |s| - 1 - n {
          assert s[n..][i] == s'[n..][i];
        }
      }
    }
  }

  /** Python's `str.strip()` with no argument. */
  function Strip(s: string): (r: string)
    ensures r == [] || (!IsSpace(r[0]) && !IsSpace(r[|r| - 1]))
  {
    TrimRight(TrimLeft(s))
  }

  /** Texts that agree once leading whitespace is trimmed strip alike. */
  lemma StripSameLeft(x: string, y: string)
    requires TrimLeft(x) == TrimLeft(y)
    ensures Strip(x) == Strip(y)
  {
  }

  /** Python's `str.rstrip(c)` for a single character `c`: the longest prefix
      of `s` that does not end in `c`, such that only copies of `c` follow it. */
  function RStrip(s: string, c: char): (r: string)
    ensures r <= s
    ensures r == [] || r[|r| - 1] != c
    ensures forall i :: |r| <= i < |s| ==> s[i] == c
  {
    if |s| > 0 && s[|s| - 1] == c then RStrip(s[..|s| - 1], c) else s
  }

  /** A prefix that does not end in `c`, followed only by copies of `c`, is
      what `rstrip(c)` leaves. */
  lemma RStripIs(s: string, c: char, k: nat)
    requires k <= |s| && (k == 0 || s[k - 1] != c)
    requires forall i :: k <= i < |s| ==> s[i] == c
    ensures RStrip(s, c) == s[..k]
  {
  }

  /** Trimming on the right keeps every character up to a non-space one. */
  lemma {:induction false} TrimRightKeeps(s: string, k: nat)
    requires k < |s| && !IsSpace(s[k])
    ensures k < |TrimRight(s)| && TrimRight(s)[..k + 1] == s[..k + 1]
    decreases |s|
  {
    if IsSpace(s[|s| - 1]) {
      var s' := s[..|s| - 1];
      TrimRightKeeps(s', k);
      TakeTake(s, k + 1, |s| - 1);
    }
  }

  /** Whitespace at the front of a text does not survive trimming. */
  lemma {:induction false} TrimLeftSkip(s: string, k: nat)
    requires k <= |s| && forall i :: 0 <= i < k ==> IsSpace(s[i])
    ensures TrimLeft(s) == TrimLeft(s[k..])
  {
    if k > 0 {
      TrimLeftSkip(s[1..], k - 1);
      assert s[1..][k - 1..] == s[k..];
    }
  }

  /** Whitespace at the back of a text does not survive trimming. */
  lemma {:induction false} TrimRightDrop(s: string, k: nat)
    requires k <= |s| && forall i :: k <= i < |s| ==> IsSpace(s[i])
    ensures TrimRight(s) == TrimRight(s[..k])
    decreases |s| - k
  {
    if k < |s| {
      var s' := s[..|s| - 1];
      TrimRightDrop(s', k);
      assert s'[..k] == s[..k];
    } else {
      assert s[..k] == s;
    }
  }

  // Equalities between slices and concatenations, stated once so that
  // proofs can cite them instead of asking the solver for extensionality.

  lemma PrefixExtend<T>(s: seq<T>, i: nat)
    requires i < |s|
    ensures s[..i + 1] == s[..i] + [s[i]]
  {
  }

  lemma ConsSlice<T>(s: seq<T>, k: nat)
    requires 0 < k <= |s|
    ensures [s[0]] + s[1..k] == s[..k]
  {
  }

  lemma AppendEmpty<T>(s: seq<T>)
    ensures s + [] == s
  {
  }

  lemma SplitJoin<T>(s: seq<T>, n: nat)
    requires n <= |s|
    ensures s[..n] + s[n..] == s
  {
  }

  lemma ConcatAssoc<T>(a: seq<T>, b: seq<T>, c: seq<T>)
    ensures a + (b + c) == (a + b) + c
  {
  }

  lemma ConcatParts<T>(a: seq<T>, b: seq<T>)
    ensures (a + b)[..|a|] == a && (a + b)[|a|..] == b
  {
  }

  lemma DropDrop<T>(s: seq<T>, i: nat, j: nat)
    requires i + j <= |s|
    ensures s[i..][j..] == s[i + j..]
  {
  }

  lemma DropTake<T>(s: seq<T>, i: nat, j: nat)
    requires i + j <= |s|
    ensures s[i..][..j] == s[i..i + j]
  {
  }

  lemma SliceDrop<T>(s: seq<T>, i: nat, j: nat, k: nat)
    requires i + k <= j <= |s|
    ensures s[i..j][k..] == s[i + k..j]
  {
  }

  lemma SliceTake<T>(s: seq<T>, i: nat, j: nat, k: nat)
    requires i + k <= j <= |s|
    ensures s[i..j][..k] == s[i..i + k]
  {
  }

  lemma TakeTake<T>(s: seq<T>, j: nat, k: nat)
    requires j <= k <= |s|
    ensures s[..k][..j] == s[..j]
  {
  }
}
