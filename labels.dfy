/** The label splitter of zpl_to_pdf.py (`_split_labels`): cuts a ZPL text into
    label records, one per `^XA` start marker that opens a line.

    The pattern `(?mi)^\s*\^XA` is modelled as Python's `finditer` runs it:
    at every position where the multi-line anchor `^` holds (the start of the
    text or just after a line feed), the greedy `\s*` takes the whole run of
    whitespace that follows, and the match succeeds when `^XA` in any letter
    case comes next; scanning resumes after the match. */
module Labels {
  import opened Text

  /** `^XA`, in any letter case, occupies t[q..q+3]. */
  predicate IsMarkerAt(t: string, q: int) {
    0 <= q && q + 3 <= |t| && t[q] == '^' &&
    (t[q + 1] == 'X' || t[q + 1] == 'x') && (t[q + 2] == 'A' || t[q + 2] == 'a')
  }

  /** Where the anchor `^` holds in multi-line mode. */
  predicate IsLineStart(t: string, p: int)
    requires 0 <= p <= |t|
  {
    p == 0 || t[p - 1] == '\n'
  }

  /** The start of the line that holds position q. */
  function LineBegin(t: string, q: nat): (b: nat)
    requires q <= |t|
    ensures b <= q && IsLineStart(t, b)
  {
    if IsLineStart(t, q) then q else LineBegin(t, q - 1)
  }

  /** No line feed lies between the start of a line and a position on it. */
  lemma {:induction false} LineBeginSameLine(t: string, q: nat)
    requires q <= |t|
    ensures forall k :: LineBegin(t, q) <= k < q ==> t[k] != '\n'
  {
    if !IsLineStart(t, q) {
      LineBeginSameLine(t, q - 1);
    }
  }

  /** A line-anchored marker: `^XA` in any case with only whitespace before it on its line. */
  predicate Anchored(t: string, q: int) {
    IsMarkerAt(t, q) && forall k :: LineBegin(t, q) <= k < q ==> IsSpace(t[k])
  }

  /** The end of the maximal run of whitespace that starts at p (what a greedy `\s*` consumes). */
  function SkipSpace(t: string, p: nat): (q: nat)
    requires p <= |t|
    decreases |t| - p
    ensures p <= q <= |t|
    ensures q == |t| || !IsSpace(t[q])
  {
    if p < |t| && IsSpace(t[p]) then SkipSpace(t, p + 1) else p
  }

  /** What `\s*` consumes is whitespace only, so it is the longest run. */
  lemma {:induction false} SkipSpaceSpaces(t: string, p: nat)
    requires p <= |t|
    decreases |t| - p
    ensures forall k :: p <= k < SkipSpace(t, p) ==> IsSpace(t[k])
  {
    if p < |t| && IsSpace(t[p]) {
      SkipSpaceSpaces(t, p + 1);
    }
  }

  /** The pattern matches at p. The match ends three characters after SkipSpace(t, p). */
  predicate MatchAt(t: string, p: nat)
    requires p <= |t|
  {
    IsLineStart(t, p) && IsMarkerAt(t, SkipSpace(t, p))
  }

  /** The start positions of the matches that `finditer` reports, scanning from p. */
  function MatchStarts(t: string, p: nat): (ms: seq<nat>)
    requires p <= |t|
    decreases |t| - p
    ensures forall i :: 0 <= i < |ms| ==> p <= ms[i] < |t| && MatchAt(t, ms[i])
    ensures forall i :: 0 <= i < |ms| - 1 ==> SkipSpace(t, ms[i]) + 3 <= ms[i + 1]
  {
    if p == |t| then []
    else if MatchAt(t, p) then [p] + MatchStarts(t, SkipSpace(t, p) + 3)
    else MatchStarts(t, p + 1)
  }

  /** Where the segment of match i ends: at the next match, or at the end of the text. */
  function SegmentEnd(t: string, ms: seq<nat>, i: nat): nat
    requires i < |ms|
  {
    if i + 1 < |ms| then ms[i + 1] else |t|
  }

  /** The records `_split_labels` returns: each match's segment, stripped. */
  function Records(t: string): seq<string> {
    var ms := MatchStarts(t, 0);
    seq(|ms|, i requires 0 <= i < |ms| => Strip(t[ms[i]..SegmentEnd(t, ms, i)]))
  }

  lemma RecordAt(t: string, i: nat)
    requires i < |MatchStarts(t, 0)|
    ensures var ms := MatchStarts(t, 0);
            |Records(t)| == |ms| && Records(t)[i] == Strip(t[ms[i]..SegmentEnd(t, ms, i)])
  {
  }

  /** `_split_labels`: one stripped segment per match, dropping empty ones. */
  method SplitLabels(t: string) returns (labels: seq<string>)
    ensures labels == Records(t)
  {
    var matches := MatchStarts(t, 0);
    ghost var records := Records(t);
    assert |records| == |matches|;
    if |matches| == 0 {
      return [];
    }
    labels := [];
    var idx := 0;
    while idx < |matches|
      invariant 0 <= idx <= |matches|
      invariant labels == records[..idx]
    {
      var start := matches[idx];
      var end := if idx + 1 < |matches| then matches[idx + 1] else |t|;
      var segment := Strip(t[start..end]);
      RecordAt(t, idx);
      SegmentHoldsMarker(t, start, end);
      PrefixExtend(records, idx);
      if segment != [] {
        labels := labels + [segment];
      }
      idx := idx + 1;
    }
    assert records[..idx] == records;
  }

  /** A segment that runs from a match start past its marker strips to a text
      that begins with the marker. */
  lemma SegmentHoldsMarker(t: string, start: nat, end: nat)
    requires start <= end <= |t| && MatchAt(t, start)
    requires SkipSpace(t, start) + 3 <= end
    ensures Strip(t[start..end]) == Strip(t[SkipSpace(t, start)..end])
    ensures IsMarkerAt(Strip(t[start..end]), 0)
  {
    var c := SkipSpace(t, start);
    assert IsMarkerAt(t[c..end], 0);
    SkipSpaceSpaces(t, start);
    StripSkipsSpace(t, start, c, end);
    StripFromMarker(t[c..end]);
  }

  lemma StripSkipsSpace(t: string, start: nat, c: nat, end: nat)
    requires start <= c <= end <= |t|
    requires forall k :: start <= k < c ==> IsSpace(t[k])
    ensures Strip(t[start..end]) == Strip(t[c..end])
  {
    var x := t[start..end];
    assert TrimLeft(x) == TrimLeft(t[c..end]) by {
      assert forall i :: 0 <= i < c - start ==> IsSpace(x[i]) by {
        forall i | 0 <= i < c - start
          ensures IsSpace(x[i])
        {
          assert x[i] == t[start + i];
        }
      }
      TrimLeftSkip(x, c - start);
      SliceDrop(t, start, end, c - start);
    }
    StripSameLeft(x, t[c..end]);
  }

  lemma StripExtendsOverSpace(t: string, c: nat, end: nat, end': nat)
    requires c < end <= end' <= |t| && !IsSpace(t[c])
    requires forall k :: end <= k < end' ==> IsSpace(t[k])
    ensures Strip(t[c..end]) == Strip(t[c..end'])
  {
    assert TrimRight(t[c..end']) == TrimRight(t[c..end]) by {
      TrimRightDrop(t[c..end'], end - c);
      SliceTake(t, c, end', end - c);
    }
    assert TrimLeft(t[c..end]) == t[c..end] && TrimLeft(t[c..end']) == t[c..end'];
  }

  lemma StripFromMarker(x: string)
    requires IsMarkerAt(x, 0)
    ensures Strip(x) == TrimRight(x) && IsMarkerAt(Strip(x), 0)
  {
    TrimRightKeeps(x, 2);
  }

  /** The positions of the line-anchored markers at or after p, in order. */
  function AnchoredFrom(t: string, p: nat): (qs: seq<nat>)
    requires p <= |t|
    decreases |t| - p
  {
    if p == |t| then [] else (if Anchored(t, p) then [p] else []) + AnchoredFrom(t, p + 1)
  }

  lemma AnchoredFromHere(t: string, p: nat)
    requires p < |t| && Anchored(t, p)
    ensures AnchoredFrom(t, p) == [p] + AnchoredFrom(t, p + 1)
  {
  }

  /** Everything AnchoredFrom(t, p) lists is a line-anchored marker at or after p. */
  lemma {:induction false} AnchoredFromSound(t: string, p: nat)
    requires p <= |t|
    decreases |t| - p
    ensures var qs := AnchoredFrom(t, p);
            forall i :: 0 <= i < |qs| ==> p <= qs[i] < |t| && Anchored(t, qs[i])
  {
    if p < |t| {
      var rest := AnchoredFrom(t, p + 1);
      AnchoredFromSound(t, p + 1);
      if Anchored(t, p) {
        AnchoredFromHere(t, p);
        forall i | 0 < i <= |rest|
          ensures ([p] + rest)[i] == rest[i - 1]
        {
        }
      } else {
        AnchoredFromSkips(t, p, p + 1);
      }
    }
  }

  /** AnchoredFrom(t, p) lists every line-anchored marker at or after p. */
  lemma {:induction false} AnchoredFromComplete(t: string, p: nat)
    requires p <= |t|
    decreases |t| - p
    ensures var qs := AnchoredFrom(t, p);
            forall q :: q in qs <==> p <= q < |t| && Anchored(t, q)
  {
    if p < |t| {
      var rest := AnchoredFrom(t, p + 1);
      AnchoredFromComplete(t, p + 1);
      if Anchored(t, p) {
        AnchoredFromHere(t, p);
        assert forall q :: q in [p] + rest <==> q == p || q in rest;
      } else {
        AnchoredFromSkips(t, p, p + 1);
      }
    }
  }

  /** AnchoredFrom(t, p) is in increasing order. */
  lemma {:induction false} AnchoredFromSorted(t: string, p: nat)
    requires p <= |t|
    decreases |t| - p
    ensures var qs := AnchoredFrom(t, p);
            forall i, j :: 0 <= i < j < |qs| ==> qs[i] < qs[j]
  {
    if p < |t| {
      var rest := AnchoredFrom(t, p + 1);
      AnchoredFromSorted(t, p + 1);
      if Anchored(t, p) {
        AnchoredFromHere(t, p);
        SortedCons(p, rest) by {
          AnchoredFromSound(t, p + 1);
        }
      } else {
        AnchoredFromSkips(t, p, p + 1);
      }
    }
  }

  /** A position in front of an increasing list of larger ones keeps it increasing. */
  lemma SortedCons(p: nat, rest: seq<nat>)
    requires forall i :: 0 <= i < |rest| ==> p < rest[i]
    requires forall i, j :: 0 <= i < j < |rest| ==> rest[i] < rest[j]
    ensures var qs := [p] + rest;
            forall i, j :: 0 <= i < j < |qs| ==> qs[i] < qs[j]
  {
    var qs := [p] + rest;
    forall i, j | 0 <= i < j < |qs|
      ensures qs[i] < qs[j]
    {
      assert qs[j] == rest[j - 1];
      if i > 0 {
        assert qs[i] == rest[i - 1];
      }
    }
  }

  /** AnchoredFrom(t, p) lists every line-anchored marker at or after p, and
      nothing else, in increasing order. */
  lemma AnchoredFromExactly(t: string, p: nat)
    requires p <= |t|
    ensures var qs := AnchoredFrom(t, p);
            (forall q :: q in qs <==> p <= q < |t| && Anchored(t, q)) &&
            (forall i :: 0 <= i < |qs| ==> p <= qs[i] < |t| && Anchored(t, qs[i])) &&
            (forall i, j :: 0 <= i < j < |qs| ==> qs[i] < qs[j])
  {
    AnchoredFromSound(t, p);
    AnchoredFromComplete(t, p);
    AnchoredFromSorted(t, p);
  }

  /** The positions of all line-anchored markers of the text. */
  function AnchoredMarkers(t: string): (ps: seq<nat>)
    ensures forall i :: 0 <= i < |ps| ==> ps[i] < |t| && Anchored(t, ps[i])
    ensures forall i, j :: 0 <= i < j < |ps| ==> ps[i] < ps[j]
    ensures forall q :: q in ps <==> 0 <= q < |t| && Anchored(t, q)
  {
    AnchoredFromExactly(t, 0);
    AnchoredFrom(t, 0)
  }

  /** The marker positions (after the leading whitespace) of a list of match starts. */
  function Carets(t: string, ms: seq<nat>): (cs: seq<nat>)
    requires forall i :: 0 <= i < |ms| ==> ms[i] <= |t|
    ensures |cs| == |ms|
  {
    if ms == [] then [] else [SkipSpace(t, ms[0])] + Carets(t, ms[1..])
  }

  /** Entry i of the carets is where the whitespace before marker i ends. */
  lemma {:induction false} CaretsAt(t: string, ms: seq<nat>, i: nat)
    requires forall i :: 0 <= i < |ms| ==> ms[i] <= |t|
    requires i < |ms|
    ensures Carets(t, ms)[i] == SkipSpace(t, ms[i])
  {
    if i > 0 {
      CaretsAt(t, ms[1..], i - 1);
    }
  }

  /** No line-anchored marker has its line start before p. This holds at every
      position the scanner resumes from. */
  ghost predicate Clean(t: string, p: nat) {
    forall q :: p <= q < |t| && Anchored(t, q) ==> p <= LineBegin(t, q)
  }

  lemma {:induction false} LineBeginAtLeast(t: string, p: nat, q: nat)
    requires p <= q <= |t| && IsLineStart(t, p)
    ensures p <= LineBegin(t, q)
    decreases q
  {
    if !IsLineStart(t, q) {
      LineBeginAtLeast(t, p, q - 1);
    }
  }

  lemma {:induction false} AnchoredFromSkips(t: string, p: nat, q: nat)
    requires p <= q <= |t|
    requires forall k :: p <= k < q ==> !Anchored(t, k)
    ensures AnchoredFrom(t, p) == AnchoredFrom(t, q)
    decreases q - p
  {
    if p < q {
      AnchoredFromSkips(t, p + 1, q);
    }
  }

  /** A position where no match starts holds no anchored marker, and scanning
      on from the next position stays clean. */
  lemma NoMatchStep(t: string, p: nat)
    requires p < |t| && Clean(t, p) && !MatchAt(t, p)
    ensures !Anchored(t, p) && Clean(t, p + 1)
    ensures AnchoredFrom(t, p) == AnchoredFrom(t, p + 1)
  {
    forall q | p + 1 <= q < |t| && Anchored(t, q)
      ensures p + 1 <= LineBegin(t, q)
    {
      if LineBegin(t, q) == p {
        SkipSpaceIs(t, p, q);
      }
    }
  }

  /** A run of whitespace that ends at a non-space is what `\s*` consumes. */
  lemma {:induction false} SkipSpaceIs(t: string, p: nat, q: nat)
    requires p <= q < |t| && !IsSpace(t[q])
    requires forall k :: p <= k < q ==> IsSpace(t[k])
    ensures SkipSpace(t, p) == q
    decreases q - p
  {
    if p < q {
      SkipSpaceIs(t, p + 1, q);
    }
  }

  /** A match at p contributes exactly the anchored marker SkipSpace(t, p). */
  lemma MatchStep(t: string, p: nat)
    requires p < |t| && MatchAt(t, p)
    ensures var c := SkipSpace(t, p);
            AnchoredFrom(t, p) == [c] + AnchoredFrom(t, c + 3)
  {
    var c := SkipSpace(t, p);
    assert AnchoredFrom(t, p) == AnchoredFrom(t, c) by {
      SkipSpaceSpaces(t, p);
      AnchoredFromSkips(t, p, c);
    }
    assert AnchoredFrom(t, c) == [c] + AnchoredFrom(t, c + 1) by {
      MatchIsAnchored(t, p);
      AnchoredFromHere(t, c);
    }
    MarkerTailUnanchored(t, c);
  }

  lemma MarkerTailUnanchored(t: string, c: nat)
    requires IsMarkerAt(t, c)
    ensures AnchoredFrom(t, c + 1) == AnchoredFrom(t, c + 3)
  {
    assert !Anchored(t, c + 1) && !Anchored(t, c + 2);
    AnchoredFromSkips(t, c + 1, c + 3);
  }

  lemma MatchIsAnchored(t: string, p: nat)
    requires p < |t| && MatchAt(t, p)
    ensures Anchored(t, SkipSpace(t, p))
  {
    SkipSpaceSpaces(t, p);
    LineBeginAtLeast(t, p, SkipSpace(t, p));
  }

  /** No line-anchored marker shares a line with text before it, so none can
      reach back across a marker. */
  lemma CleanAfterMarker(t: string, c: nat)
    requires IsMarkerAt(t, c)
    ensures Clean(t, c + 3)
  {
    forall q | c + 3 <= q < |t| && Anchored(t, q)
      ensures c + 3 <= LineBegin(t, q)
    {
    }
  }

  /** The scanner finds exactly the line-anchored markers, in order: the
      marker positions of its matches are AnchoredFrom(t, p). */
  lemma {:induction false} MatchesFindAnchored(t: string, p: nat)
    requires p <= |t| && Clean(t, p)
    ensures Carets(t, MatchStarts(t, p)) == AnchoredFrom(t, p)
    decreases |t| - p
  {
    if p < |t| {
      if MatchAt(t, p) {
        var c := SkipSpace(t, p);
        assert Clean(t, c + 3) by {
          CleanAfterMarker(t, c);
        }
        MatchesFindAnchored(t, c + 3);
        MatchStep(t, p);
        CaretsAfterMatch(t, p);
      } else {
        assert Clean(t, p + 1) && AnchoredFrom(t, p) == AnchoredFrom(t, p + 1) by {
          NoMatchStep(t, p);
        }
        MatchesFindAnchored(t, p + 1);
        assert MatchStarts(t, p) == MatchStarts(t, p + 1);
      }
    }
  }

  lemma CaretsAfterMatch(t: string, p: nat)
    requires p < |t| && MatchAt(t, p)
    ensures var c := SkipSpace(t, p);
            Carets(t, MatchStarts(t, p)) == [c] + Carets(t, MatchStarts(t, c + 3))
  {
    var c := SkipSpace(t, p);
    MatchStartsAt(t, p);
    CaretsCons(t, p, MatchStarts(t, c + 3));
  }

  lemma MatchStartsAt(t: string, p: nat)
    requires p < |t| && MatchAt(t, p)
    ensures MatchStarts(t, p) == [p] + MatchStarts(t, SkipSpace(t, p) + 3)
  {
  }

  lemma CaretsCons(t: string, m: nat, ms: seq<nat>)
    requires m <= |t| && forall i :: 0 <= i < |ms| ==> ms[i] <= |t|
    ensures Carets(t, [m] + ms) == [SkipSpace(t, m)] + Carets(t, ms)
  {
    ConcatParts([m], ms);
  }

  /** Record i is the text from the i-th line-anchored marker up to the next
      one (or the end of the text), stripped. So records never overlap, text
      before the first marker is in no record, and a `^XA` with other text
      before it on its line stays inside the record that precedes it. */
  lemma RecordsByMarkers(t: string)
    ensures var ps := AnchoredMarkers(t);
            |Records(t)| == |ps| &&
            forall i :: 0 <= i < |ps| ==> Records(t)[i] == Strip(t[ps[i]..SegmentEnd(t, ps, i)])
  {
    MatchesFindAnchored(t, 0);
    var ps := AnchoredMarkers(t);
    assert |Records(t)| == |ps|;
    forall i | 0 <= i < |ps|
      ensures Records(t)[i] == Strip(t[ps[i]..SegmentEnd(t, ps, i)])
    {
      RecordByMarker(t, i);
    }
  }

  lemma RecordByMarker(t: string, i: nat)
    requires i < |MatchStarts(t, 0)|
    requires Carets(t, MatchStarts(t, 0)) == AnchoredMarkers(t)
    ensures var ps := AnchoredMarkers(t);
            Records(t)[i] == Strip(t[ps[i]..SegmentEnd(t, ps, i)])
  {
    var ms := MatchStarts(t, 0);
    var ps := AnchoredMarkers(t);
    var e := SegmentEnd(t, ms, i);
    var e' := SegmentEnd(t, ps, i);
    RecordAt(t, i);
    SegmentHoldsMarker(t, ms[i], e);
    CaretsAt(t, ms, i);
    if i + 1 < |ms| {
      CaretsAt(t, ms, i + 1);
      SkipSpaceSpaces(t, ms[i + 1]);
    }
    StripExtendsOverSpace(t, ps[i], e, e');
  }

  /** Every record is non-empty, carries no surrounding whitespace and begins
      with `^XA` in some letter case; so the emptiness guard drops nothing. */
  lemma RecordShape(t: string)
    ensures forall i :: 0 <= i < |Records(t)| ==>
              var r := Records(t)[i];
              IsMarkerAt(r, 0) && !IsSpace(r[0]) && !IsSpace(r[|r| - 1])
  {
    var ms := MatchStarts(t, 0);
    forall i | 0 <= i < |Records(t)|
      ensures var r := Records(t)[i];
              IsMarkerAt(r, 0) && !IsSpace(r[0]) && !IsSpace(r[|r| - 1])
    {
      RecordAt(t, i);
      SegmentHoldsMarker(t, ms[i], SegmentEnd(t, ms, i));
    }
  }

  /** There are as many records as line-anchored markers; none at all exactly
      when no line-anchored marker exists. */
  lemma RecordCount(t: string)
    ensures |Records(t)| == |AnchoredMarkers(t)|
    ensures Records(t) == [] <==> forall q :: !Anchored(t, q)
  {
    RecordsByMarkers(t);
    AnchoredFromExactly(t, 0);
    if Records(t) != [] {
      assert Anchored(t, AnchoredMarkers(t)[0]);
    }
  }
}
