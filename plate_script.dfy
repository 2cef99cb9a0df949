/** The per-plate glue of the application script: joining the OCR fragments,
    upper-casing and `:` to `.`, artifact removal, extraction, the "N/A" labels,
    and placing the first plate box of each vehicle in image coordinates. */
module PlateScript {
  import opened PyStr
  import opened Wrappers
  import opened TextProcessing

  /** One OCR result; only its text is used (box and confidence are not modelled). */
  datatype Fragment = Fragment(text: string)

  function Texts(frags: seq<Fragment>): (ts: seq<string>)
    ensures |ts| == |frags| && forall i :: 0 <= i < |frags| ==> ts[i] == frags[i].text
  {
    seq(|frags|, i requires 0 <= i < |frags| => frags[i].text)
  }

  /** The raw text of a plate: empty without fragments, else their texts joined
      by single spaces in OCR order. */
  function RawText(frags: seq<Fragment>): (r: string)
    ensures |frags| == 0 ==> r == ""
    ensures |frags| == 1 ==> r == frags[0].text
  {
    if |frags| == 0 then "" else Join(" ", Texts(frags))
  }

  /** When no fragment contains a space, splitting the raw text gives the
      fragments back. */
  lemma RawTextSplitsBack(frags: seq<Fragment>)
    requires |frags| >= 1 && forall i :: 0 <= i < |frags| ==> ' ' !in frags[i].text
    ensures Split(RawText(frags), ' ') == Texts(frags)
  {
    SplitJoin(Texts(frags), ' ');
  }

  /** `raw_text.upper().replace(":", ".")`. */
  function PrepareRaw(raw: string): (r: string)
    ensures |r| == |raw|
    ensures ':' !in r
    ensures forall k :: 0 <= k < |r| ==> !IsLower(r[k])
    ensures forall k :: 0 <= k < |r| ==> raw[k] == ':' ==> r[k] == '.'
    ensures forall k :: 0 <= k < |r| ==> raw[k] != ':' && raw[k] != '.' ==> r[k] != '.'
    ensures forall k :: 0 <= k < |r| ==> raw[k] != ':' ==> r[k] == Upper(raw)[k]
  {
    ReplaceChar(Upper(raw), ':', '.');
    Replace(Upper(raw), ":", ".")
  }

  /** The text handed to extract_plate: raw text, upper-cased, colons turned into
      periods, artifacts removed. */
  function Cleaned(frags: seq<Fragment>): (r: string)
    ensures Prepared(r)
    ensures frags == [] ==> r == ""
  {
    var prepared := PrepareRaw(RawText(frags));
    RemoveArtifactsKeepsPrepared(prepared, 0);
    RemovePatternStrings(prepared)
  }

  const NotAvailable: string := "N/A"

  /** The plate text drawn on the image. */
  function PlateLabel(plate: Option<string>): (r: string)
    ensures plate.Some? ==> r == plate.value
    ensures plate.None? ==> r == NotAvailable
  {
    if plate.None? then NotAvailable else plate.value
  }

  /** The region text drawn on the image: the place names joined by ", ", or
      "N/A" when there is no plate, no region or an empty list of names. */
  function RegionLabel(plate: Option<string>, region: Option<seq<string>>): (r: string)
    ensures plate.Some? && region.Some? && |region.value| > 0 ==> r == Join(", ", region.value)
    ensures plate.None? || region.None? || region.value == [] ==> r == NotAvailable
  {
    if plate.None? then NotAvailable
    else match region
      case Some(names) => if |names| > 0 then Join(", ", names) else NotAvailable
      case None => NotAvailable
  }

  /** The two labels of one readable plate. */
  function ReadPlate(frags: seq<Fragment>, table: seq<Record>, ratio: (string, string) -> Score)
    : (labels: (string, string))
    ensures labels.0 == NotAvailable <==> ExtractPlate(Cleaned(frags), table, ratio).0.None?
    ensures labels.0 == NotAvailable ==> labels.1 == NotAvailable
    ensures frags == [] ==> labels == (NotAvailable, NotAvailable)
    ensures ExtractPlate(Cleaned(frags), table, ratio).1 == None ==> labels.1 == NotAvailable
    ensures var e := ExtractPlate(Cleaned(frags), table, ratio);
            e.0.Some? ==> labels.0 == e.0.value
                          && labels.1 == (if e.1.Some? && |e.1.value| > 0 then Join(", ", e.1.value) else NotAvailable)
  {
    var extracted := ExtractPlate(Cleaned(frags), table, ratio);
    PlateIsNotNotAvailable(extracted.0);
    (PlateLabel(extracted.0), RegionLabel(extracted.0, extracted.1))
  }

  /** An extracted plate has a blank in it, so it is never the "N/A" marker. */
  lemma PlateIsNotNotAvailable(plate: Option<string>)
    requires plate.Some? ==> ' ' in plate.value
    ensures plate.Some? ==> plate.value != NotAvailable
  {
    assert ' ' !in NotAvailable;
  }

  // ---------------------------------------------------------------------
  // Boxes
  // ---------------------------------------------------------------------

  /** An axis-aligned box in integer pixel coordinates (x1, y1, x2, y2). */
  datatype Box = Box(x1: int, y1: int, x2: int, y2: int)

  function Width(b: Box): int { b.x2 - b.x1 }
  function Height(b: Box): int { b.y2 - b.y1 }

  /** Plates narrower than this are not read. */
  const MinPlateWidth := 90

  /** What happens with one vehicle: no plate, a plate box too narrow to read, or
      a plate box that is read; the box is in image coordinates. */
  datatype PlateStep = NoPlate | TooNarrow(box: Box) | Readable(box: Box)

  /** The first plate box found in the vehicle crop, shifted by the vehicle's
      top-left corner, and the width gate. */
  function LocatePlate(vehicle: Box, plates: seq<Box>): (r: PlateStep)
    ensures r.NoPlate? <==> |plates| == 0
    ensures !r.NoPlate? ==> Width(r.box) == Width(plates[0]) && Height(r.box) == Height(plates[0])
    ensures !r.NoPlate? ==> r.box.x1 - vehicle.x1 == plates[0].x1 && r.box.y1 - vehicle.y1 == plates[0].y1
    ensures r.TooNarrow? <==> |plates| > 0 && Width(plates[0]) < MinPlateWidth
  {
    if |plates| == 0 then NoPlate
    else
      var p := plates[0];
      var b := Box(p.x1 + vehicle.x1, p.y1 + vehicle.y1, p.x2 + vehicle.x1, p.y2 + vehicle.y1);
      if p.x2 - p.x1 < MinPlateWidth then TooNarrow(b) else Readable(b)
  }

  // ---------------------------------------------------------------------
  // The loop over the detected vehicles
  // ---------------------------------------------------------------------

  /** What is drawn for one vehicle: the plate box, and the labels when it was read. */
  datatype Annotation = Annotation(box: Box, labels: Option<(string, string)>)

  /** How a plate crop's OCR reading becomes the two labels. */
  type Reader = seq<Fragment> -> (string, string)

  /** A reader that never shows a region beside an unread plate. */
  ghost predicate HonestReader(read: Reader) {
    forall frags :: read(frags).0 == NotAvailable ==> read(frags).1 == NotAvailable
  }

  /** The script's reader: the text pipeline with the loaded table. */
  function PlateReader(table: seq<Record>, ratio: (string, string) -> Score): (read: Reader)
    ensures HonestReader(read)
  {
    frags => ReadPlate(frags, table, ratio)
  }

  /** Labels are drawn exactly on boxes at least the minimum width, and a plate
      shown as "N/A" has its region shown as "N/A". */
  predicate WellLabelled(a: Annotation) {
    (a.labels.Some? <==> Width(a.box) >= MinPlateWidth)
    && (a.labels.Some? && a.labels.value.0 == NotAvailable ==> a.labels.value.1 == NotAvailable)
  }

  /** One iteration of the loop: locate the plate, and read it when it is wide enough. */
  function AnnotateVehicle(vehicle: Box, plates: seq<Box>, frags: seq<Fragment>, read: Reader)
    : (r: Option<Annotation>)
    ensures r.None? <==> |plates| == 0
    ensures r.Some? ==> (r.value.labels.Some? <==> Width(r.value.box) >= MinPlateWidth)
    ensures r.Some? && r.value.labels.Some? ==> r.value.labels.value == read(frags)
    ensures r.Some? ==> r.value.box == LocatePlate(vehicle, plates).box
  {
    match LocatePlate(vehicle, plates)
    case NoPlate => None
    case TooNarrow(b) => Some(Annotation(b, None))
    case Readable(b) => Some(Annotation(b, Some(read(frags))))
  }

  /** The vehicles, the plate boxes found in each vehicle crop, and what OCR reads
      on each vehicle's first plate. */
  predicate Aligned(vehicles: seq<Box>, plates: seq<seq<Box>>, readings: seq<seq<Fragment>>) {
    |plates| == |vehicles| && |readings| == |vehicles|
  }

  /** The annotations produced for the first `n` vehicles, in order. */
  function Annotations(vehicles: seq<Box>, plates: seq<seq<Box>>, readings: seq<seq<Fragment>>,
                       read: Reader, n: nat): (r: seq<Annotation>)
    requires Aligned(vehicles, plates, readings) && n <= |vehicles|
    ensures |r| <= n
    ensures forall i :: 0 <= i < |r| ==> (r[i].labels.Some? <==> Width(r[i].box) >= MinPlateWidth)
    ensures (forall i :: 0 <= i < n ==> |plates[i]| > 0) ==> |r| == n
    ensures (forall i :: 0 <= i < n ==> |plates[i]| == 0) ==> r == []
  {
    if n == 0 then []
    else
      var before := Annotations(vehicles, plates, readings, read, n - 1);
      match AnnotateVehicle(vehicles[n - 1], plates[n - 1], readings[n - 1], read)
      case None => before
      case Some(a) => before + [a]
  }

  /** How many of the first `n` vehicles have at least one plate box. */
  function Plated(plates: seq<seq<Box>>, n: nat): (c: nat)
    requires n <= |plates|
    ensures c <= n
  {
    if n == 0 then 0
    else Plated(plates, n - 1) + (if |plates[n - 1]| > 0 then 1 else 0)
  }

  /** Vehicle `i` is drawn as the annotation numbered by the vehicles with a
      plate box before it, and that annotation is its `AnnotateVehicle`. */
  predicate DrawnAt(vehicles: seq<Box>, plates: seq<seq<Box>>, readings: seq<seq<Fragment>>, read: Reader,
                    out: seq<Annotation>, i: nat)
    requires Aligned(vehicles, plates, readings) && i < |vehicles|
  {
    Plated(plates, i) < |out|
    && Some(out[Plated(plates, i)]) == AnnotateVehicle(vehicles[i], plates[i], readings[i], read)
  }

  /** One annotation per vehicle with a plate box, in the order of the vehicles. */
  lemma {:induction false} AnnotationsInOrder(vehicles: seq<Box>, plates: seq<seq<Box>>, readings: seq<seq<Fragment>>,
                                              read: Reader, n: nat)
    requires Aligned(vehicles, plates, readings) && n <= |vehicles|
    ensures var out := Annotations(vehicles, plates, readings, read, n);
            |out| == Plated(plates, n)
            && forall i {:trigger DrawnAt(vehicles, plates, readings, read, out, i)} :: 0 <= i < n && |plates[i]| > 0 ==> DrawnAt(vehicles, plates, readings, read, out, i)
  {
    if n > 0 {
      var before := Annotations(vehicles, plates, readings, read, n - 1);
      var last := AnnotateVehicle(vehicles[n - 1], plates[n - 1], readings[n - 1], read);
      AnnotationsInOrder(vehicles, plates, readings, read, n - 1);
      AnnotationsLast(vehicles, plates, readings, read, n);
      InOrderStep(vehicles, plates, readings, read, n, before, last, Annotations(vehicles, plates, readings, read, n));
    }
  }

  /** The last vehicle's annotation, if any, comes after the earlier ones. */
  lemma AnnotationsLast(vehicles: seq<Box>, plates: seq<seq<Box>>, readings: seq<seq<Fragment>>, read: Reader, n: nat)
    requires Aligned(vehicles, plates, readings) && 0 < n <= |vehicles|
    ensures var last := AnnotateVehicle(vehicles[n - 1], plates[n - 1], readings[n - 1], read);
            Annotations(vehicles, plates, readings, read, n)
            == Annotations(vehicles, plates, readings, read, n - 1) + (if last.Some? then [last.value] else [])
  { }

  /** One step of `AnnotationsInOrder`: appending the last vehicle's annotation,
      if any, keeps the earlier ones at their places. */
  lemma InOrderStep(vehicles: seq<Box>, plates: seq<seq<Box>>, readings: seq<seq<Fragment>>, read: Reader,
                    n: nat, before: seq<Annotation>, last: Option<Annotation>, out: seq<Annotation>)
    requires Aligned(vehicles, plates, readings) && 0 < n <= |vehicles|
    requires |before| == Plated(plates, n - 1)
    requires forall i {:trigger DrawnAt(vehicles, plates, readings, read, before, i)} :: 0 <= i < n - 1 && |plates[i]| > 0 ==> DrawnAt(vehicles, plates, readings, read, before, i)
    requires last == AnnotateVehicle(vehicles[n - 1], plates[n - 1], readings[n - 1], read)
    requires out == before + (if last.Some? then [last.value] else [])
    ensures |out| == Plated(plates, n)
    ensures forall i {:trigger DrawnAt(vehicles, plates, readings, read, out, i)} :: 0 <= i < n && |plates[i]| > 0 ==> DrawnAt(vehicles, plates, readings, read, out, i)
  {
    assert |out| == |before| + (if last.Some? then 1 else 0);
    forall i | 0 <= i < n && |plates[i]| > 0
      ensures DrawnAt(vehicles, plates, readings, read, out, i)
    {
      var k := Plated(plates, i);
      if i < n - 1 {
        assert DrawnAt(vehicles, plates, readings, read, before, i);
        assert out[k] == before[k];
      } else {
        assert out[k] == last.value;
      }
    }
  }

  /** At most one annotation per vehicle, and with an honest reader every
      annotation is well labelled. */
  lemma {:induction false} AnnotationsFacts(vehicles: seq<Box>, plates: seq<seq<Box>>, readings: seq<seq<Fragment>>,
                                            read: Reader, n: nat)
    requires Aligned(vehicles, plates, readings) && n <= |vehicles| && HonestReader(read)
    ensures var out := Annotations(vehicles, plates, readings, read, n);
            |out| <= n && forall i :: 0 <= i < |out| ==> WellLabelled(out[i])
  {
    if n > 0 {
      AnnotationsFacts(vehicles, plates, readings, read, n - 1);
    }
  }

  /** The script's `for idx, vl in enumerate(vehicle_list)` loop, with detection
      and OCR results passed in and drawing reduced to the list of annotations;
      the script runs it with `PlateReader(table, ratio)`. */
  method AnnotateImage(vehicles: seq<Box>, plates: seq<seq<Box>>, readings: seq<seq<Fragment>>, read: Reader)
    returns (out: seq<Annotation>)
    requires Aligned(vehicles, plates, readings)
    ensures out == Annotations(vehicles, plates, readings, read, |vehicles|)
  {
    out := [];
    for idx := 0 to |vehicles|
      invariant out == Annotations(vehicles, plates, readings, read, idx)
    {
      ghost var drawn := AnnotateVehicle(vehicles[idx], plates[idx], readings[idx], read);
      assert Annotations(vehicles, plates, readings, read, idx + 1)
          == out + (if drawn.Some? then [drawn.value] else []);
      var step := LocatePlate(vehicles[idx], plates[idx]);
      if step.NoPlate? {
        continue;
      }
      if step.TooNarrow? {
        out := out + [Annotation(step.box, None)];
        continue;
      }
      var labels := read(readings[idx]);
      out := out + [Annotation(step.box, Some(labels))];
    }
  }

}
