/** Handling of decoder results in `find_and_mark_barcodes`: the conversion of
    a pyzbar rectangle to two corners, the per-frame de-duplication of
    `(type, payload)` pairs and the marks drawn onto the frame.
    The decoder itself is an input: the sequence of records it reported. */
module Barcodes {
  import opened Wrappers

  datatype Point = Point(x: int, y: int)

  /** pyzbar's `rect`: origin plus size. */
  datatype Rect = Rect(left: int, top: int, width: int, height: int)

  /** One record reported by the decoder; `data` is already UTF-8 decoded. */
  datatype RawBarcode = RawBarcode(kind: string, data: string, rect: Rect, polygon: seq<Point>)

  /** The `(barcode.type, payload)` pair collected in `found_codes`. */
  datatype Code = Code(kind: string, payload: string)

  /** What OpenCV draws onto the frame. */
  datatype Mark =
    | Polyline(points: seq<Point>)
    | Rectangle(corner1: Point, corner2: Point)
    | Label(text: string, origin: Point)

  /** A captured camera frame, identified by its capture number, with the
      marks drawn onto it in place. */
  datatype Frame = Frame(capture: nat, marks: seq<Mark>)

  /** `VideoStream` and the documentation example draw polygon, rectangle
      and label; `LazyVideoStream` draws the polygon only (its rectangle and
      label calls are commented out). */
  datatype Style = Full | PolylineOnly

  /** `rect_transformation(x, y, width, height)`: origin plus size to two corners. */
  function RectTransformation(x: int, y: int, width: int, height: int): (r: (Point, Point))
    ensures r.0 == Point(x, y)
    ensures r.1.x - r.0.x == width && r.1.y - r.0.y == height
  {
    (Point(x, y), Point(x + width, y + height))
  }

  /** The inverse conversion: two corners back to origin plus size. */
  function CornersToRect(p: Point, q: Point): Rect {
    Rect(p.x, p.y, q.x - p.x, q.y - p.y)
  }

  lemma RectRoundTrip(r: Rect)
    ensures var c := RectTransformation(r.left, r.top, r.width, r.height);
            CornersToRect(c.0, c.1) == r
  {
  }

  lemma CornersRoundTrip(p: Point, q: Point)
    ensures var r := CornersToRect(p, q);
            RectTransformation(r.left, r.top, r.width, r.height) == (p, q)
  {
  }

  function CodeOf(b: RawBarcode): Code {
    Code(b.kind, b.data)
  }

  function Codes(bs: seq<RawBarcode>): (cs: seq<Code>)
    ensures |cs| == |bs|
    ensures forall i :: 0 <= i < |bs| ==> cs[i] == CodeOf(bs[i])
  {
    seq(|bs|, i requires 0 <= i < |bs| => CodeOf(bs[i]))
  }

  lemma CodesMembership(bs: seq<RawBarcode>)
    ensures forall c :: c in Codes(bs) <==> exists i :: 0 <= i < |bs| && CodeOf(bs[i]) == c
  {
    var cs := Codes(bs);
    forall c | c in cs
      ensures exists i :: 0 <= i < |bs| && CodeOf(bs[i]) == c
    {
      var i :| 0 <= i < |cs| && cs[i] == c;
    }
  }

  ghost predicate NoDuplicates<T>(xs: seq<T>) {
    forall i, j :: 0 <= i < j < |xs| ==> xs[i] != xs[j]
  }

  /** Position of the first occurrence of `c` in `xs`. */
  function FirstIndex<T(==)>(xs: seq<T>, c: T): (k: nat)
    requires c in xs
    ensures k < |xs| && xs[k] == c && c !in xs[..k]
  {
    if xs[0] == c then 0
    else
      var k := 1 + FirstIndex(xs[1..], c);
      assert xs[..k] == [xs[0]] + xs[1..][..k - 1];
      k
  }

  /** Only the first occurrence has nothing equal before it. */
  lemma FirstIndexUnique<T>(xs: seq<T>, c: T, i: nat)
    requires i < |xs| && xs[i] == c && c !in xs[..i]
    ensures FirstIndex(xs, c) == i
  {
    var k := FirstIndex(xs, c);
  }

  /** `found` lists codes in the order in which they first occur in `codes`. */
  ghost predicate FirstOccurrenceOrder(found: seq<Code>, codes: seq<Code>)
    requires forall c :: c in found ==> c in codes
  {
    forall i, j :: 0 <= i < j < |found| ==> FirstIndex(codes, found[i]) < FirstIndex(codes, found[j])
  }

  /** The label drawn next to a code: `"{}({})".format(type, payload)`. */
  function LabelText(c: Code): string {
    c.kind + "(" + c.payload + ")"
  }

  /** The marks drawn for one decoder record. */
  function MarksFor(b: RawBarcode, style: Style): seq<Mark> {
    match style
    case Full =>
      var corners := RectTransformation(b.rect.left, b.rect.top, b.rect.width, b.rect.height);
      [Polyline(b.polygon), Rectangle(corners.0, corners.1),
       Label(LabelText(CodeOf(b)), Point(b.rect.left, b.rect.top - 10))]
    case PolylineOnly => [Polyline(b.polygon)]
  }

  /** All marks drawn for a sequence of records, in decoder order. */
  function AllMarks(bs: seq<RawBarcode>, style: Style): seq<Mark> {
    if |bs| == 0 then [] else AllMarks(bs[..|bs| - 1], style) + MarksFor(bs[|bs| - 1], style)
  }

  /** Functional reading of the de-duplication loop: the codes of `codes`
      without repetitions, kept at their first occurrence. */
  function FoundCodes(codes: seq<Code>): (found: seq<Code>)
    ensures forall c :: c in found <==> c in codes
    ensures |found| <= |codes|
  {
    if |codes| == 0 then []
    else
      var prev := codes[..|codes| - 1];
      var c := codes[|codes| - 1];
      var before := FoundCodes(prev);
      assert codes == prev + [c];
      if c in before then before else before + [c]
  }

  /** The collected codes are distinct and kept in the order of their first
      occurrence. */
  lemma {:induction false} FoundCodesInOrder(codes: seq<Code>)
    ensures NoDuplicates(FoundCodes(codes))
    ensures FirstOccurrenceOrder(FoundCodes(codes), codes)
    decreases |codes|
  {
    if |codes| > 0 {
      var prev := codes[..|codes| - 1];
      var c := codes[|codes| - 1];
      var before := FoundCodes(prev);
      assert codes == prev + [c];
      FoundCodesInOrder(prev);
      FirstIndexOfPrefix(prev, c, before);
    }
  }

  /** Extending `codes` by one element keeps the order of first occurrences
      of the codes found so far, and places a new code after all of them. */
  lemma FirstIndexOfPrefix(prev: seq<Code>, c: Code, before: seq<Code>)
    requires forall d :: d in before <==> d in prev
    requires FirstOccurrenceOrder(before, prev)
    ensures forall d :: d in prev ==> FirstIndex(prev + [c], d) == FirstIndex(prev, d)
    ensures FirstOccurrenceOrder(before, prev + [c])
    ensures c !in prev ==> FirstIndex(prev + [c], c) == |prev|
    ensures c !in prev ==> forall d :: d in prev ==> FirstIndex(prev + [c], d) < |prev|
  {
    FirstIndexExtend(prev, c);
    forall i, j | 0 <= i < j < |before|
      ensures FirstIndex(prev + [c], before[i]) < FirstIndex(prev + [c], before[j])
    {
      assert before[i] in prev && before[j] in prev;
    }
  }

  lemma FirstIndexExtend(prev: seq<Code>, c: Code)
    ensures forall d :: d in prev ==> FirstIndex(prev + [c], d) == FirstIndex(prev, d)
    ensures c !in prev ==> FirstIndex(prev + [c], c) == |prev|
  {
    var codes := prev + [c];
    forall d | d in prev
      ensures FirstIndex(codes, d) == FirstIndex(prev, d)
    {
      var k := FirstIndex(prev, d);
      assert codes[..k] == prev[..k];
      FirstIndexUnique(codes, d, k);
    }
    if c !in prev {
      assert codes[..|prev|] == prev;
      FirstIndexUnique(codes, c, |prev|);
    }
  }

  /** `find_and_mark_barcodes`: `barcodes` is what the decoder reported for
      `frame`. Returns the frame with the marks drawn onto it and the list of
      distinct `(type, payload)` pairs. */
  method FindAndMarkBarcodes(frame: Frame, barcodes: seq<RawBarcode>, style: Style)
    returns (marked: Frame, found: seq<Code>)
    ensures marked == Frame(frame.capture, frame.marks + AllMarks(barcodes, style))
    ensures NoDuplicates(found)
    ensures forall c :: c in found <==> exists i :: 0 <= i < |barcodes| && CodeOf(barcodes[i]) == c
    ensures FirstOccurrenceOrder(found, Codes(barcodes))
    ensures |found| <= |barcodes|
    ensures found == FoundCodes(Codes(barcodes))
  {
    var codes := Codes(barcodes);
    marked := frame;
    found := [];
    var k := 0;
    while k < |barcodes|
      invariant 0 <= k <= |barcodes|
      invariant found == FoundCodes(codes[..k])
      invariant marked.capture == frame.capture
      invariant marked.marks == frame.marks + AllMarks(barcodes[..k], style)
    {
      var information := CodeOf(barcodes[k]);
      assert information == codes[k];
      FoundStep(codes, k);
      if information !in found {
        found := found + [information];
      }
      MarksStep(frame.marks, barcodes, k, style);
      marked := Frame(marked.capture, marked.marks + MarksFor(barcodes[k], style));
      k := k + 1;
    }
    assert codes[..k] == codes;
    assert barcodes[..k] == barcodes;
    FoundCodesOfRecords(barcodes);
  }

  /** What the loop collects, in terms of the decoder records: each distinct
      `(type, payload)` pair once, in the order of first detection. */
  lemma FoundCodesOfRecords(barcodes: seq<RawBarcode>)
    ensures var found := FoundCodes(Codes(barcodes));
            && NoDuplicates(found)
            && (forall c :: c in found <==> exists i :: 0 <= i < |barcodes| && CodeOf(barcodes[i]) == c)
            && FirstOccurrenceOrder(found, Codes(barcodes))
            && |found| <= |barcodes|
  {
    CodesMembership(barcodes);
    FoundCodesInOrder(Codes(barcodes));
  }

  lemma FoundStep(codes: seq<Code>, k: nat)
    requires k < |codes|
    ensures FoundCodes(codes[..k + 1]) ==
              if codes[k] in FoundCodes(codes[..k]) then FoundCodes(codes[..k]) else FoundCodes(codes[..k]) + [codes[k]]
  {
    assert codes[..k + 1][..k] == codes[..k];
  }

  lemma MarksStep(before: seq<Mark>, bs: seq<RawBarcode>, k: nat, style: Style)
    requires k < |bs|
    ensures before + AllMarks(bs[..k + 1], style) == (before + AllMarks(bs[..k], style)) + MarksFor(bs[k], style)
  {
    assert bs[..k + 1][..k] == bs[..k];
  }

  /** Parses a label back into its code; the code's type must not contain
      `(` for the split to be unambiguous. */
  function ParseLabel(text: string): Option<Code> {
    if |text| < 2 || text[|text| - 1] != ')' || '(' !in text[..|text| - 1] then None
    else
      var body := text[..|text| - 1];
      var k := FirstIndex(body, '(');
      Some(Code(body[..k], body[k + 1..]))
  }

  lemma LabelRoundTrip(c: Code)
    requires '(' !in c.kind
    ensures ParseLabel(LabelText(c)) == Some(c)
  {
    var text := LabelText(c);
    var body := text[..|text| - 1];
    assert body == c.kind + "(" + c.payload;
    assert body[|c.kind|] == '(';
    assert body[..|c.kind|] == c.kind;
    FirstIndexUnique(body, '(', |c.kind|);
    assert body[|c.kind| + 1..] == c.payload;
  }

  /** The documentation example draws, per record, the polygon, the two-corner
      rectangle and the label 10 pixels above the rectangle's origin. */
  lemma FullMarksPlacement(b: RawBarcode)
    ensures var m := MarksFor(b, Full);
            && |m| == 3
            && m[0] == Polyline(b.polygon)
            && m[1].Rectangle?
            && m[1].corner2.x - m[1].corner1.x == b.rect.width
            && m[1].corner2.y - m[1].corner1.y == b.rect.height
            && m[2].Label?
            && m[2].origin == Point(b.rect.left, b.rect.top - 10)
            && ('(' !in b.kind ==> ParseLabel(m[2].text) == Some(CodeOf(b)))
  {
    if '(' !in b.kind {
      LabelRoundTrip(CodeOf(b));
    }
  }
}
