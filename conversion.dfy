/** The conversion driver of zpl_to_pdf.py: formatting of label dimensions for
    the rendering service, the check on the service's answer, the decision to
    send a document whole or in batches of at most 50 label records, and the
    in-order merge of the rendered pages.

    The rendering service is a parameter `post`: given a request body it
    returns the service's response (status code, rendered pages, diagnostic
    text). The URL, headers and timeout of the call are not modelled; `post`
    stands for one call with them fixed. A rendered PDF is modelled as the
    sequence of its pages, and appending PDFs as concatenating those sequences. */
module Conversion {
  import opened Text
  import opened Labels

  /** The largest number of label records sent in one request. */
  const BatchSize: nat := 50

  // ---------------------------------------------------------------------
  // Dimensions in the service's path
  // ---------------------------------------------------------------------

  /** A label dimension as the caller passes it: a float, given by its Python
      `repr` text, or an integer, given by its decimal text. */
  datatype Dimension = FloatValue(repr: string) | IntValue(digits: string)

  /** `_format_dimension`: trailing zeros and then trailing dots are removed
      from a float's text; an empty result falls back to "1". */
  function FormatDimension(d: Dimension): (r: string)
    ensures r != []
    ensures d.FloatValue? ==> r[|r| - 1] != '.'
    ensures d.FloatValue? ==>
              r <= d.repr || (r == "1" && forall i :: 0 <= i < |d.repr| ==> d.repr[i] == '0' || d.repr[i] == '.')
    ensures d.FloatValue? && r <= d.repr ==>
              forall i :: |r| <= i < |d.repr| ==> d.repr[i] == '0' || d.repr[i] == '.'
    ensures d.FloatValue? && r <= d.repr ==> TrimmedTail(d.repr, r)
    ensures d.IntValue? && d.digits != [] ==> r == d.digits
  {
    var text := match d
      case FloatValue(repr) => RStrip(RStrip(repr, '0'), '.')
      case IntValue(digits) => digits;
    if text == [] then "1" else text
  }

  /** What follows the prefix r of a float's text is dots and then zeros, and
      r does not end in a zero that a dot did not protect: every trailing
      fractional zero is gone. */
  predicate TrimmedTail(repr: string, r: string)
    requires r != [] && r <= repr
  {
    (forall i, j :: |r| <= i < j < |repr| && repr[i] == '0' ==> repr[j] == '0') &&
    (r[|r| - 1] == '0' ==> |r| < |repr| && repr[|r|] == '.')
  }

  /** The contract of FormatDimension pins a float's result down: a non-empty
      prefix of the text, not ending in '.', followed by zeros and dots only,
      with dots before zeros and no unprotected trailing zero, is the result. */
  lemma FormatDimensionUnique(repr: string, r: string)
    requires r != [] && r <= repr && r[|r| - 1] != '.'
    requires forall i :: |r| <= i < |repr| ==> repr[i] == '0' || repr[i] == '.'
    requires TrimmedTail(repr, r)
    ensures FormatDimension(FloatValue(repr)) == r
  {
  }

  /** The float texts of the default label size lose their ".0". */
  lemma DefaultSizeDimensions()
    ensures FormatDimension(FloatValue("4.0")) == "4"
    ensures FormatDimension(FloatValue("6.0")) == "6"
  {
    assert RStrip("4.0", '0') == "4." by {
      assert "4.0"[..2] == "4.";
    }
    assert RStrip("4.", '.') == "4" by {
      assert "4."[..1] == "4";
    }
    assert RStrip("6.0", '0') == "6." by {
      assert "6.0"[..2] == "6.";
    }
    assert RStrip("6.", '.') == "6" by {
      assert "6."[..1] == "6";
    }
  }

  /** A fractional size keeps its digits; an integer is written as it is. */
  lemma FractionalAndIntegerDimensions()
    ensures FormatDimension(FloatValue("3.5")) == "3.5"
    ensures FormatDimension(IntValue("4")) == "4"
  {
  }

  /** "10.0" becomes "10", but "10" read back as a float text becomes "1":
      the trim is not idempotent. */
  lemma TrimNotIdempotent()
    ensures FormatDimension(FloatValue("10.0")) == "10"
    ensures FormatDimension(FloatValue("10")) == "1"
  {
    assert RStrip("10.0", '0') == "10." by {
      assert "10.0"[..3] == "10.";
    }
    assert RStrip("10.", '.') == "10" by {
      assert "10."[..2] == "10";
    }
    assert RStrip("10", '0') == "1" by {
      assert "10"[..1] == "1";
    }
  }

  /** A zero float keeps its integral "0"; a text of zeros and dots only
      falls back to "1". */
  lemma ZeroDimensions()
    ensures FormatDimension(FloatValue("0.0")) == "0"
    ensures FormatDimension(FloatValue(".0")) == "1"
  {
    assert RStrip("0.0", '0') == "0." by {
      assert "0.0"[..2] == "0.";
    }
    assert RStrip("0.", '.') == "0" by {
      assert "0."[..1] == "0";
    }
    assert RStrip(".0", '0') == "." by {
      assert ".0"[..1] == ".";
    }
    assert RStrip(".", '.') == "" by {
      assert "."[..0] == "";
    }
  }

  // ---------------------------------------------------------------------
  // One request to the rendering service
  // ---------------------------------------------------------------------

  /** What the rendering service answers to one request. */
  datatype Response<P> = Response(status: int, pages: seq<P>, text: string)

  /** A failed conversion carries the status code and the service's diagnostic text. */
  datatype Error = HttpError(status: int, text: string)

  datatype Result<T> = Ok(value: T) | Err(error: Error)

  /** `_labelary_request` after the call: any status other than 200 is a hard
      failure; otherwise the response's pages are the result. */
  function LabelaryRequest<P>(resp: Response<P>): (r: Result<seq<P>>)
    ensures r.Ok? <==> resp.status == 200
    ensures r.Ok? ==> r.value == resp.pages
    ensures r.Err? ==> r.error == HttpError(resp.status, resp.text)
  {
    if resp.status != 200 then Err(HttpError(resp.status, resp.text)) else Ok(resp.pages)
  }

  // ---------------------------------------------------------------------
  // Batches
  // ---------------------------------------------------------------------

  function Concat<T>(ss: seq<seq<T>>): seq<T> {
    if ss == [] then [] else ss[0] + Concat(ss[1..])
  }

  /** The consecutive slices of at most BatchSize records, in order. */
  function Batches(labels: seq<string>): (bs: seq<seq<string>>)
    decreases |labels|
    ensures |bs| == (|labels| + BatchSize - 1) / BatchSize
    ensures forall i :: 0 <= i < |bs| ==> 0 < |bs[i]| <= BatchSize
    ensures forall i :: 0 <= i < |bs| - 1 ==> |bs[i]| == BatchSize
  {
    if labels == [] then []
    else if |labels| <= BatchSize then [labels]
    else [labels[..BatchSize]] + Batches(labels[BatchSize..])
  }

  /** The batches put back together are the record list. */
  lemma {:induction false} BatchesConcat(labels: seq<string>)
    ensures Concat(Batches(labels)) == labels
    decreases |labels|
  {
    if |labels| > BatchSize {
      BatchesConcat(labels[BatchSize..]);
      assert Batches(labels)[1..] == Batches(labels[BatchSize..]);
      assert labels[..BatchSize] + labels[BatchSize..] == labels;
    } else if labels != [] {
      assert Batches(labels)[1..] == [];
      assert labels + [] == labels;
    }
  }

  /** Batch k is the slice that starts at record k * BatchSize (as
      `labels[start : start + 50]` with `start` stepping by 50). */
  lemma {:induction false} BatchAt(labels: seq<string>, k: nat)
    requires k < |Batches(labels)|
    ensures k * BatchSize < |labels|
    ensures Batches(labels)[k] ==
              labels[k * BatchSize..if k * BatchSize + BatchSize < |labels| then k * BatchSize + BatchSize else |labels|]
    decreases k
  {
    if k > 0 {
      var rest := labels[BatchSize..];
      assert Batches(labels)[k] == Batches(rest)[k - 1];
      BatchAt(rest, k - 1);
      assert rest[(k - 1) * BatchSize..] == labels[k * BatchSize..];
    }
  }

  /** `"\n".join(batch)`. */
  function Join(batch: seq<string>): string {
    if batch == [] then ""
    else if |batch| == 1 then batch[0]
    else batch[0] + "\n" + Join(batch[1..])
  }

  /** The body sent for one batch: `"\n".join(batch) + "\n"`. */
  function Body(batch: seq<string>): (body: string)
    ensures body != [] && body[|body| - 1] == '\n'
  {
    Join(batch) + "\n"
  }

  /** Each record of a batch, followed by one line feed. */
  function Lines(batch: seq<string>): string {
    if batch == [] then "" else batch[0] + "\n" + Lines(batch[1..])
  }

  /** The body of a non-empty batch is its records, each ended by a line feed. */
  lemma {:induction false} BodyIsLines(batch: seq<string>)
    requires batch != []
    ensures Body(batch) == Lines(batch)
    decreases |batch|
  {
    if |batch| > 1 {
      BodyIsLines(batch[1..]);
      assert Body(batch) == batch[0] + "\n" + Body(batch[1..]);
    } else {
      assert batch[1..] == [];
    }
  }

  // ---------------------------------------------------------------------
  // The plan and the merge
  // ---------------------------------------------------------------------

  /** How a document is sent: whole, in one request, or as a list of batch bodies. */
  datatype Plan = Whole(body: string) | Batched(bodies: seq<string>)

  /** The decision `convert_zpl_to_pdf` makes. */
  function PlanFor(zpl: string): (p: Plan)
    ensures p.Whole? <==> |Records(zpl)| <= BatchSize
    ensures p.Whole? ==> p.body == zpl
    ensures p.Batched? ==> |p.bodies| == (|Records(zpl)| + BatchSize - 1) / BatchSize
  {
    var labels := Records(zpl);
    if labels == [] || |labels| <= BatchSize then Whole(zpl) else Batched(BatchBodies(labels))
  }

  /** The request bodies of the batches, in order. */
  function BatchBodies(labels: seq<string>): (bodies: seq<string>)
    ensures |bodies| == |Batches(labels)|
  {
    Bodies(Batches(labels))
  }

  /** The bodies of a list of batches, in order. */
  function Bodies(bs: seq<seq<string>>): (bodies: seq<string>)
    ensures |bodies| == |bs|
  {
    if bs == [] then [] else [Body(bs[0])] + Bodies(bs[1..])
  }

  lemma {:induction false} BodiesAt(bs: seq<seq<string>>, k: nat)
    requires k < |bs|
    ensures Bodies(bs)[k] == Body(bs[k])
  {
    if k > 0 {
      BodiesAt(bs[1..], k - 1);
    }
  }

  lemma BatchBodyAt(labels: seq<string>, k: nat)
    requires k < |Batches(labels)|
    ensures k * BatchSize < |labels|
    ensures BatchBodies(labels)[k] ==
              Body(labels[k * BatchSize..if k * BatchSize + BatchSize < |labels| then k * BatchSize + BatchSize else |labels|])
  {
    BatchAt(labels, k);
    BodiesAt(Batches(labels), k);
  }

  /** There are more batches than k exactly when record k * BatchSize exists. */
  lemma BatchCount(n: nat, k: nat)
    ensures k < (n + BatchSize - 1) / BatchSize <==> k * BatchSize < n
  {
  }

  /** The request bodies of a plan, in the order they are sent. */
  function Requests(p: Plan): seq<string> {
    match p
    case Whole(body) => [body]
    case Batched(bodies) => bodies
  }

  /** Up to 50 records (or none): one request, whose body is the document
      unchanged. Above 50: ceil(n / 50) requests, one per batch, where the
      batches are consecutive, of 50 records each but a last one of 1 to 50,
      and together are the record list. */
  lemma PlanRequests(zpl: string)
    ensures var n := |Records(zpl)|;
            var rs := Requests(PlanFor(zpl));
            (n <= BatchSize ==> rs == [zpl]) &&
            (n > BatchSize ==>
               |rs| == (n + BatchSize - 1) / BatchSize &&
               Concat(Batches(Records(zpl))) == Records(zpl) &&
               forall i :: 0 <= i < |rs| ==> rs[i] == Lines(Batches(Records(zpl))[i]))
  {
    var labels := Records(zpl);
    BatchesConcat(labels);
    if |labels| > BatchSize {
      var bs := Batches(labels);
      assert Requests(PlanFor(zpl)) == BatchBodies(labels);
      forall i | 0 <= i < |bs|
        ensures BatchBodies(labels)[i] == Lines(bs[i])
      {
        BodiesAt(bs, i);
        BodyIsLines(bs[i]);
      }
    }
  }

  /** The results of rendering the bodies in order: the first failure aborts
      everything; otherwise the pages of all responses, in request order. */
  function RenderAll<P>(bodies: seq<string>, post: string -> Response<P>): Result<seq<P>> {
    if bodies == [] then Ok([])
    else match LabelaryRequest(post(bodies[0]))
      case Err(e) => Err(e)
      case Ok(pages) =>
        match RenderAll(bodies[1..], post)
        case Err(e) => Err(e)
        case Ok(rest) => Ok(pages + rest)
  }

  /** Rendering succeeds exactly when every request succeeds, and then yields
      every response's pages, batch by batch, with no interleaving. A failure
      is the error of the first request that fails. */
  lemma {:induction false} RenderAllOutcome<P>(bodies: seq<string>, post: string -> Response<P>)
    decreases |bodies|
    ensures RenderAll(bodies, post).Ok? <==> forall i :: 0 <= i < |bodies| ==> post(bodies[i]).status == 200
    ensures RenderAll(bodies, post).Ok? ==>
              RenderAll(bodies, post).value == Concat(seq(|bodies|, i requires 0 <= i < |bodies| => post(bodies[i]).pages))
    ensures RenderAll(bodies, post).Err? ==>
              exists k :: 0 <= k < |bodies| && post(bodies[k]).status != 200 &&
                (forall j :: 0 <= j < k ==> post(bodies[j]).status == 200) &&
                RenderAll(bodies, post).error == HttpError(post(bodies[k]).status, post(bodies[k]).text)
  {
    if bodies != [] {
      var rest := bodies[1..];
      RenderAllOutcome(rest, post);
      var pages := seq(|bodies|, i requires 0 <= i < |bodies| => post(bodies[i]).pages);
      assert pages[1..] == seq(|rest|, i requires 0 <= i < |rest| => post(rest[i]).pages);
      if post(bodies[0]).status == 200 && RenderAll(rest, post).Err? {
        var k :| 0 <= k < |rest| && post(rest[k]).status != 200 &&
                 (forall j :: 0 <= j < k ==> post(rest[j]).status == 200) &&
                 RenderAll(rest, post).error == HttpError(post(rest[k]).status, post(rest[k]).text);
        assert post(bodies[k + 1]).status != 200;
      }
      if RenderAll(bodies, post).Ok? {
        forall i | 0 <= i < |bodies|
          ensures post(bodies[i]).status == 200
        {
          if i > 0 {
            assert bodies[i] == rest[i - 1];
          }
        }
      }
      if !RenderAll(bodies, post).Ok? && post(bodies[0]).status == 200 {
        assert !RenderAll(rest, post).Ok?;
      }
    }
  }

  /** Pass-through of an earlier failure, or pages merged in front of later ones. */
  function Prepend<P>(merged: seq<P>, later: Result<seq<P>>): Result<seq<P>> {
    match later
    case Err(e) => Err(e)
    case Ok(pages) => Ok(merged + pages)
  }

  lemma RenderOne<P>(body: string, post: string -> Response<P>)
    ensures RenderAll([body], post) == LabelaryRequest(post(body))
  {
    assert [body][1..] == [];
    var r := LabelaryRequest(post(body));
    if r.Ok? {
      assert r.value + [] == r.value;
    }
  }

  /** Rendering from request k on: request k, then the rest behind it. */
  lemma RenderStep<P>(bodies: seq<string>, k: nat, post: string -> Response<P>)
    requires k < |bodies|
    ensures RenderAll(bodies[k..], post) ==
              match LabelaryRequest(post(bodies[k]))
              case Err(e) => Err(e)
              case Ok(pages) => Prepend(pages, RenderAll(bodies[k + 1..], post))
  {
    assert bodies[k..][1..] == bodies[k + 1..];
  }

  lemma PrependTwice<P>(merged: seq<P>, pages: seq<P>, later: Result<seq<P>>)
    ensures Prepend(merged, Prepend(pages, later)) == Prepend(merged + pages, later)
  {
    if later.Ok? {
      assert merged + (pages + later.value) == merged + pages + later.value;
    }
  }

  /** A failing request k ends the whole rendering with its error. */
  lemma FailedStep<P>(bodies: seq<string>, k: nat, merged: seq<P>, post: string -> Response<P>)
    requires k < |bodies| && LabelaryRequest(post(bodies[k])).Err?
    requires RenderAll(bodies, post) == Prepend(merged, RenderAll(bodies[k..], post))
    ensures RenderAll(bodies, post) == Err(LabelaryRequest(post(bodies[k])).error)
  {
    RenderStep(bodies, k, post);
  }

  /** A successful request k moves its pages into the merged result. */
  lemma SucceededStep<P>(bodies: seq<string>, k: nat, merged: seq<P>, post: string -> Response<P>)
    requires k < |bodies| && LabelaryRequest(post(bodies[k])).Ok?
    requires RenderAll(bodies, post) == Prepend(merged, RenderAll(bodies[k..], post))
    ensures RenderAll(bodies, post) ==
              Prepend(merged + LabelaryRequest(post(bodies[k])).value, RenderAll(bodies[k + 1..], post))
  {
    RenderStep(bodies, k, post);
    PrependTwice(merged, LabelaryRequest(post(bodies[k])).value, RenderAll(bodies[k + 1..], post));
  }

  /** The loop of `convert_zpl_to_pdf`: one request per batch of at most 50
      records, in order, appending each response's pages to the merged
      result; the first failing request ends the loop with its error. `sent`
      records the request bodies in the order they were issued. */
  method SendBatches<P>(labels: seq<string>, post: string -> Response<P>)
    returns (r: Result<seq<P>>, ghost sent: seq<string>)
    ensures r == RenderAll(BatchBodies(labels), post)
    ensures |sent| <= |BatchBodies(labels)| && sent == BatchBodies(labels)[..|sent|]
    ensures r.Ok? ==> sent == BatchBodies(labels)
    ensures r.Err? ==>
              sent != [] && LabelaryRequest(post(sent[|sent| - 1])) == Err(r.error) &&
              forall j :: 0 <= j < |sent| - 1 ==> LabelaryRequest(post(sent[j])).Ok?
  {
    ghost var bodies := BatchBodies(labels);
    var merged: seq<P> := [];
    sent := [];
    var start := 0;
    ghost var k := 0;
    assert bodies[k..] == bodies;
    if RenderAll(bodies, post).Ok? {
      assert merged + RenderAll(bodies, post).value == RenderAll(bodies, post).value;
    }
    while start < |labels|
      invariant 0 <= k <= |bodies| && start == k * BatchSize
      invariant k < |bodies| <==> start < |labels|
      invariant sent == bodies[..k]
      invariant forall j :: 0 <= j < k ==> LabelaryRequest(post(bodies[j])).Ok?
      invariant RenderAll(bodies, post) == Prepend(merged, RenderAll(bodies[k..], post))
    {
      var end := if start + BatchSize < |labels| then start + BatchSize else |labels|;
      var batch := labels[start..end];
      var body := Body(batch);
      BatchBodyAt(labels, k);
      PrefixExtend(bodies, k);
      sent := sent + [body];
      var chunk := LabelaryRequest(post(body));
      if chunk.Err? {
        FailedStep(bodies, k, merged, post);
        r := Err(chunk.error);
        return;
      }
      SucceededStep(bodies, k, merged, post);
      merged := merged + chunk.value;
      start := start + BatchSize;
      k := k + 1;
      BatchCount(|labels|, k);
    }
    assert bodies[k..] == [];
    assert merged + [] == merged;
    r := Ok(merged);
  }

  /** `convert_zpl_to_pdf`: split the document; send it whole when it holds at
      most 50 records (or none); otherwise send it in batches. */
  method ConvertZplToPdf<P>(zpl: string, post: string -> Response<P>)
    returns (r: Result<seq<P>>, ghost sent: seq<string>)
    ensures r == RenderAll(Requests(PlanFor(zpl)), post)
    ensures |sent| <= |Requests(PlanFor(zpl))| && sent == Requests(PlanFor(zpl))[..|sent|]
    ensures r.Ok? ==> sent == Requests(PlanFor(zpl))
    ensures r.Err? ==>
              sent != [] && LabelaryRequest(post(sent[|sent| - 1])) == Err(r.error) &&
              forall j :: 0 <= j < |sent| - 1 ==> LabelaryRequest(post(sent[j])).Ok?
  {
    var labels := SplitLabels(zpl);
    if |labels| == 0 || |labels| <= BatchSize {
      sent := [zpl];
      r := LabelaryRequest(post(zpl));
      assert PlanFor(zpl) == Whole(zpl);
      RenderOne(zpl, post);
      return;
    }
    assert PlanFor(zpl) == Batched(BatchBodies(labels));
    r, sent := SendBatches(labels, post);
  }
}
