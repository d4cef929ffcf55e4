/**
 * The decisions of `main` (pdfextract.py:105-125) over abstract inputs:
 * whether the database connection succeeded, what the PDF library yields for
 * the document and what OCR yields for its page images. The connection, the
 * insert itself and the messages printed are not part of this model; the run
 * records which steps were taken.
 */
module Pipeline {
  import opened Options
  import opened Records
  import opened Marks
  import opened Acquisition
  import opened Extract

  /** Python truthiness of an optional text: neither `None` nor `""`. A text
      of whitespace only is truthy. */
  predicate Truthy(t: Option<string>) {
    t.Some? && t.value != []
  }

  /** `a or b` on optional texts: one of the two, and falsy only when both
      are. */
  function Or(a: Option<string>, b: Option<string>): (r: Option<string>)
    ensures r == a || r == b
    ensures Truthy(r) <==> Truthy(a) || Truthy(b)
  {
    if Truthy(a) then a else b
  }

  /** What one run of `main` did: whether OCR was consulted, the text it
      settled on, the record it extracted, and whether it went on to insert. */
  datatype Run = Run(ocrConsulted: bool, text: Option<string>, record: Option<Record>, insertAttempted: bool)

  /** pdfextract.py:107-125. */
  method Process(connected: bool, doc: Option<seq<Option<string>>>, scans: Option<seq<string>>)
    returns (run: Run)
    ensures !connected ==> run == Run(false, None, None, false)
    ensures connected ==> run.ocrConsulted == !Truthy(TextLayer(doc))
    ensures connected ==> run.text == Or(TextLayer(doc), OcrText(scans))
    ensures run.record.Some? <==> connected && Truthy(run.text)
    ensures run.record.Some? ==> run.record.value == Extraction(run.text.value)
    ensures run.insertAttempted <==> run.record.Some? && run.record.value.marks != []
    ensures run.insertAttempted <==>
      run.record.Some? && exists k :: 0 <= k < |Subjects| && SubjectTotal(run.text.value, Subjects[k]).Some?
  {
    run := Run(false, None, None, false);
    if !connected {
      return;
    }
    var text := ExtractTextPdf(doc);
    var ocrConsulted := false;
    if !Truthy(text) {
      ocrConsulted := true;
      text := ExtractTextOcr(scans);
    }
    run := run.(ocrConsulted := ocrConsulted, text := text);
    if Truthy(text) {
      var record := ExtractNameAndMarks(text.value);
      MarksEmpty(text.value, Subjects);
      run := run.(record := Some(record), insertAttempted := record.marks != []);
    }
  }

  /** A text layer that yields anything, even whitespace, is used as it is
      and OCR is not consulted; one that yields nothing falls back to OCR,
      whatever that yields. */
  lemma TextChoice(doc: Option<seq<Option<string>>>, scans: Option<seq<string>>)
    ensures TextLayer(doc).Some? && TextLayer(doc).value != [] ==> Or(TextLayer(doc), OcrText(scans)) == TextLayer(doc)
    ensures doc.Some? && (forall k :: 0 <= k < |doc.value| ==> doc.value[k].None? || doc.value[k].value == []) ==>
      Or(TextLayer(doc), OcrText(scans)) == OcrText(scans)
  {
    if doc.Some? {
      TextLayerPages(doc.value);
    }
  }
}
