# ZPL to PDF: a Dafny model of the label splitter, the batched conversion and the column shift

This project models the core of a small ZPL-to-PDF converter. ZPL is the
Zebra printer language, and a ZPL document is a series of label records, each
opened by `^XA`. The converter sends ZPL to an external rendering service
(Labelary) and gets PDF pages back. The model covers four parts:

- **Label splitting** (`_split_labels`, module `Labels`). The pattern
  `(?mi)^\s*\^XA` is modelled the way Python's `finditer` runs it:
  - the multi-line anchor holds at the start of the text or after a line feed;
  - a greedy `\s*` takes the whole run of whitespace;
  - `^XA` matches in any letter case;
  - scanning resumes after each match.

  Each match's segment, up to the next match or the end of the text, is
  stripped and kept when it is not empty. The records are proved to be
  exactly the stripped segments that begin at the line-anchored markers, in
  order. Each record begins with `^XA` and has no surrounding whitespace.
- **Conversion driver** (`convert_zpl_to_pdf`, `_labelary_request`,
  `_format_dimension`, module `Conversion`):
  - a document with at most 50 records, or with none, goes out whole in one request;
  - a larger one goes out in consecutive batches of at most 50 records, each
    batch joined by line feeds and ended by one;
  - any response with a status other than 200 aborts the conversion with that
    status and the service's text;
  - otherwise the pages are merged in request order.
- **Second-column shift** (`adjust_second_column` and its `_replace`, module
  `SecondColumn`):
  - the substitution of `(\^FO)(-?\d+),(-?\d+)` is modelled as `re.sub` scans:
    left to right, a match wherever one starts, otherwise one copied character;
  - every matched field origin is written back as `^FO<x>,<y>`, with `x` moved
    by the offset when it lies right of the middle of the label;
  - re-scanning the result finds exactly the rewritten origins;
  - a text without origins comes back unchanged, and so does any text when the offset is zero.
- **Shared text operations** (module `Text`): `str.strip()`, `str.rstrip(c)`,
  and the character classes `\s` and `\d`.

Modelling assumptions:

- Texts are `string` (`seq<char>`). The UTF-8 decoding and encoding around
  them are not modelled.
- `\s` and `str.strip()` mean the six ASCII whitespace characters, and `\d`
  means the ten ASCII digits.
- The rendering service is a function parameter `post` from request body to
  response (status, pages, text).
- A PDF is its sequence of pages, and appending PDFs concatenates those sequences.
- The ghost out-parameter `sent` records the request bodies in the order they were issued.
- In `adjust_second_column` the inputs are already derived from the floats:
  - `offsetIsZero` stands for `offset_cm == 0`;
  - `midX` is the label's middle in dots, as a real;
  - `delta` is the rounded shift in dots.
  - `x > mid_x` compares the integer `x` with that real.
- A float dimension is given by its Python `repr` text, and an integer by its decimal text.

`_format_dimension(0.0)` returns `"0"`: the float's text is `"0.0"`, and
trimming zeros and then dots leaves `"0"`. Only a text made entirely of zeros
and dots falls back to `"1"`. The model follows the code here, and
`Conversion.ZeroDimensions` states both cases.

## Model

| member | source | states |
|---|---|---|
| `Text.Strip` | zpl_to_pdf.py:72 | The stripped text neither starts nor ends with whitespace. |
| `Text.TrimLeftSuffix` | zpl_to_pdf.py:72 | Left trimming keeps a suffix of the text and removes only whitespace. |
| `Text.TrimRightPrefix` | zpl_to_pdf.py:72 | Right trimming keeps a prefix of the text and removes only whitespace. |
| `Text.RStrip` | zpl_to_pdf.py:18 | `rstrip(c)` returns a prefix that does not end in `c`, and only copies of `c` follow it. |
| `Labels.LineBegin` | zpl_to_pdf.py:62 | The start of a position's line is at or before it, and the multi-line anchor holds there. |
| `Labels.LineBeginSameLine` | zpl_to_pdf.py:62 | No line feed lies between a line's start and a position on that line. |
| `Labels.SkipSpace` | zpl_to_pdf.py:62 | Greedy `\s*` stops at the end of the text or at a non-space. |
| `Labels.SkipSpaceSpaces` | zpl_to_pdf.py:62 | Everything `\s*` consumes is whitespace, so its run is the longest one. |
| `Labels.MatchStarts` | zpl_to_pdf.py:62-63 | Each reported start lies in the text and matches there. Each match starts after the end of the previous one. |
| `Labels.MatchAt` | zpl_to_pdf.py:62 | The pattern matches at p: the anchor holds at p, and `^XA` in any case follows the whitespace run that starts there. |
| `Labels.Records` | zpl_to_pdf.py:57-76 | What `_split_labels` returns: each match's segment, up to the next match or the end of the text, stripped. `RecordsByMarkers`, `RecordShape` and `RecordCount` state its properties. |
| `Labels.SplitLabels` | zpl_to_pdf.py:57-76 | The loop returns exactly `Records(t)`: one stripped segment per match, from its start to the next match's start or the end of the text, with empty ones dropped. |
| `Labels.SegmentHoldsMarker` | zpl_to_pdf.py:70-72 | A segment stripped from a match start equals the segment stripped from its `^XA`, and it begins with `^XA`. |
| `Labels.AnchoredFromExactly` | zpl_to_pdf.py:62-63 | The anchored-marker list contains every line-anchored `^XA` at or after p and nothing else, in increasing order. |
| `Labels.AnchoredMarkers` | zpl_to_pdf.py:62-63 | All line-anchored markers of the text, in increasing order. |
| `Labels.MatchesFindAnchored` | zpl_to_pdf.py:62-63 | The `^XA` positions of the `finditer` matches are exactly the line-anchored markers, in order. |
| `Labels.RecordsByMarkers` | zpl_to_pdf.py:57-76 | There is one record per line-anchored marker: the text from that marker to the next marker (or the end of the text), stripped. |
| `Labels.RecordShape` | zpl_to_pdf.py:72-74 | Every record begins with `^XA` in some case and has no leading or trailing whitespace, so the emptiness guard drops nothing. |
| `Labels.RecordCount` | zpl_to_pdf.py:63-66 | There are as many records as line-anchored markers. There are none exactly when the text has no line-anchored marker. |
| `Conversion.FormatDimension` | zpl_to_pdf.py:13-21 | The result is never empty and never ends in '.'. A float's text is cut only by trailing zeros and dots, or the result is "1" when nothing else remains. What is cut is dots followed by zeros, and the result ends in '0' only when a dot followed it, so every trailing fractional zero is removed. An integer keeps its digits. |
| `Conversion.FormatDimensionUnique` | zpl_to_pdf.py:17-21 | Any non-empty prefix of a float's text that does not end in '.' and is followed by dots and then zeros, with a '0' at its end only when a dot comes next, is the result. So the contract above determines the result. |
| `Conversion.DefaultSizeDimensions` | zpl_to_pdf.py:83-84 | The default sizes 4.0 and 6.0 become "4" and "6". |
| `Conversion.FractionalAndIntegerDimensions` | zpl_to_pdf.py:17-20 | 3.5 stays "3.5", and the integer 4 becomes "4". |
| `Conversion.TrimNotIdempotent` | zpl_to_pdf.py:18 | 10.0 becomes "10", but the float text "10" would become "1". |
| `Conversion.ZeroDimensions` | zpl_to_pdf.py:18-21 | 0.0 becomes "0". The text ".0" (dots followed by zeros) falls back to "1". |
| `Conversion.LabelaryRequest` | zpl_to_pdf.py:49-54 | The request succeeds exactly when the status is 200, and then yields the response's pages. Otherwise the error carries the status and the text. |
| `Conversion.Batches` | zpl_to_pdf.py:112-113 | There are ceil(n/50) batches, each of 1 to 50 records, and all but the last hold exactly 50. |
| `Conversion.BatchesConcat` | zpl_to_pdf.py:112-113 | The batches put back together are the record list. |
| `Conversion.BatchAt` | zpl_to_pdf.py:112-113 | Batch k is `labels[50k : min(50k+50, n)]`. |
| `Conversion.Join` | zpl_to_pdf.py:114 | `"\n".join(batch)`: the records with one line feed between neighbours. |
| `Conversion.Body` | zpl_to_pdf.py:114 | The request body of a batch, which ends in a line feed. `BodyIsLines` states what it holds. |
| `Conversion.BodyIsLines` | zpl_to_pdf.py:114 | The body of a batch is each record followed by one line feed. |
| `Conversion.BatchBodyAt` | zpl_to_pdf.py:112-114 | Request body k is the body of `labels[50k : min(50k+50, n)]`. |
| `Conversion.BatchCount` | zpl_to_pdf.py:112 | There are more than k batches exactly when record 50k exists. |
| `Conversion.PlanFor` | zpl_to_pdf.py:98-114 | The document is sent whole exactly when it has at most 50 records, and then the body is the document itself. Otherwise it is sent as ceil(n/50) bodies, one per batch. |
| `Conversion.PlanRequests` | zpl_to_pdf.py:100-124 | With at most 50 records: one request carrying the document unchanged. With more: ceil(n/50) requests, one per batch in order, each body being that batch's records ended by line feeds. |
| `Conversion.RenderAll` | zpl_to_pdf.py:112-124 | Requests go out in order, and each response's pages are appended. The first failing request ends the rendering with its error. `RenderAllOutcome` states the outcome in closed form. |
| `Conversion.RenderAllOutcome` | zpl_to_pdf.py:112-124 | Rendering succeeds exactly when every request returns 200, and then yields all pages in request order. On failure the error is that of the first failing request. |
| `Conversion.SendBatches` | zpl_to_pdf.py:110-130 | The batch loop's result is the in-order rendering of the batch bodies. The bodies are sent in order. A failure stops at the first failing request, after all earlier ones succeeded. |
| `Conversion.ConvertZplToPdf` | zpl_to_pdf.py:96-130 | The result is the in-order rendering of the planned requests: the whole document, or the batch bodies. A failure stops at the first failing request. |
| `SecondColumn.NumeralEndMatches` | app.py:67 | When the greedy `-?\d+` moves, it covers a numeral. It stays put exactly when there is neither a digit nor '-' followed by a digit. |
| `SecondColumn.NumeralEndIs` | app.py:67 | A numeral followed by a non-digit is matched in full. |
| `SecondColumn.MatchFO` | app.py:67 | A match starts with "^FO", is at least 6 characters long, and is not followed by a digit. |
| `SecondColumn.MatchShape` | app.py:67-72 | A match is "^FO", a numeral, a comma and a numeral. Its coordinates are the values of those numerals. |
| `SecondColumn.ParseSigned` | app.py:71-72 | `int(...)` on a numeral: an optional '-' and then decimal digits, with leading zeros allowed. |
| `SecondColumn.IntToString` | app.py:78 | `str(...)` on an integer: never empty. `NumeralRoundTrip` and `NumeralCanonical` state what it writes. |
| `SecondColumn.NumeralRoundTrip` | app.py:71-78 | `int(str(n)) == n` for every integer. |
| `SecondColumn.NumeralCanonical` | app.py:78 | `str(n)` has no leading zeros and no "-0". |
| `SecondColumn.Directive` | app.py:78 | The text `_replace` returns, `^FO<x>,<y>`: it starts with "^FO" and is at least 6 characters long. |
| `SecondColumn.MatchDirective` | app.py:78-80 | A written `^FO<x>,<y>` followed by a non-digit is matched in full and reads back as (x, y). |
| `SecondColumn.MatchCut` | app.py:67 | A match never reaches past the next '^', so cutting the text there does not change it. |
| `SecondColumn.Tokens` | app.py:80 | The scan `re.sub` makes: left to right, a match wherever one starts, otherwise one copied character, resuming after each match. |
| `SecondColumn.UnscanTokens` | app.py:80 | The scan loses nothing: its pieces spell out the text. |
| `SecondColumn.ShiftX` | app.py:75-76 | x moves by delta exactly when it lies right of the middle. `ShiftGeometry` states its properties. |
| `SecondColumn.ShiftToken` | app.py:69-78 | A copied character is kept, and a match becomes the directive at its shifted x with the same y. |
| `SecondColumn.Rewrite` | app.py:80 | `fo_pattern.sub(_replace, text)`: each match is replaced by its directive and every other character is copied. `RescanRewrite` and `RewriteReplacesDirectives` state its meaning. |
| `SecondColumn.RescanRewrite` | app.py:80 | Scanning the rewritten text gives the original scan with every origin shifted: the substitution neither creates nor merges nor loses matches. |
| `SecondColumn.RewriteReplacesDirectives` | app.py:69-80 | The result is the original with each matched origin replaced by its rewritten directive, and every other character copied. |
| `SecondColumn.RewriteWithoutDirectives` | app.py:80 | A text with no field origin comes back unchanged. |
| `SecondColumn.AdjustSecondColumn` | app.py:55-80 | A zero offset returns the text unchanged. Otherwise re-scanning the result gives the input's scan with each origin shifted. |
| `SecondColumn.ShiftGeometry` | app.py:74-76 | Origins at or left of the middle keep their x. Right of it, x moves by delta in delta's direction and keeps left-to-right order. With delta >= 0 it stays right of the middle. |
| `SecondColumn.RewriteDirective` | app.py:69-78 | The directive `^FO<x>,<y>` becomes `^FO<x'>,<y>`, where x' is x shifted when it lies right of the middle. |
| `SecondColumn.RewriteSingle` | app.py:69-80 | A text that is one origin, with numerals written in any form, becomes the canonical directive for the read values. |
| `SecondColumn.SecondColumnExample` | app.py:74-78 | With middle 400 and delta 80, "^FO500,20" becomes "^FO580,20". |
| `SecondColumn.FirstColumnExample` | app.py:74-78 | With middle 400, "^FO100,20" is left as it is. |
| `SecondColumn.CanonicalFormExample` | app.py:71-78 | "^FO007,-0" becomes "^FO7,0", because every match is written anew. |

## Left out

- The URL, headers, timeout and network call of the rendering service are not modelled (zpl_to_pdf.py:10, 34-47). They become the function parameter `post`, and `dpmm`, width and height only reach the service through that URL.
- Merging PDFs with `PdfWriter` is not modelled (zpl_to_pdf.py:110, 124-130). A PDF is modelled as its page sequence, and merging as concatenation.
- Byte decoding and encoding are not modelled: `decode("utf-8", errors="ignore")`, `encode("utf-8")`, `_decode_zpl` and `_encode_zpl` (zpl_to_pdf.py:97, 115; app.py:23-35). The whole-document request is modelled as sending the decoded text, while the source sends the original bytes.
- The float arithmetic that derives `mid_x` and `delta_dots` from `dpmm`, `width_in` and `offset_cm` is not modelled (app.py:58-65). Those values are parameters.
- `parse_offset_cm`, the Flask routes and the command-line interface are outside the modelled core.
- `\s`, `\d` and `str.strip()` are restricted to ASCII. Python also accepts Unicode whitespace and digits.
- `Conversion.FormatDimension`: takes the float's `repr` text as its input, because Python's float-to-text conversion is not modelled.
