/**
 * extract_name_and_marks (pdfextract.py:75-102): the register number, the
 * name and the subject totals of one certificate text. It reads only its
 * argument and changes nothing.
 */
module Extract {
  import opened Options
  import opened Records
  import opened Register
  import opened Name
  import opened Marks

  /** The triple `(name, register_number, marks_dict)` for a text. */
  function Extraction(s: string): Record {
    Record(NameOf(s), RegisterNumber(s), MarksFor(s, Subjects))
  }

  /** pdfextract.py:75-102. */
  method ExtractNameAndMarks(s: string) returns (r: Record)
    ensures r == Extraction(s)
  {
    var registerNumber := RegisterNumber(s);
    var name := NameOf(s);
    var marks := ExtractMarks(s, Subjects);
    r := Record(name, registerNumber, marks);
  }

  lemma SubjectsDistinct()
    ensures Distinct(Subjects)
  {
    forall a, b | 0 <= a < b < |Subjects| ensures Subjects[a] != Subjects[b] {
      assert Subjects[a][0] != Subjects[b][0] || Subjects[a][1] != Subjects[b][1];
    }
  }

  /** marks_dict: its keys are the listed subjects that get a total, in list
      order and each once; each key maps to its subject's total; nothing else
      is a key. */
  lemma ExtractionMarks(s: string)
    ensures Keys(Extraction(s).marks) == Present(s, Subjects)
    ensures Distinct(Keys(Extraction(s).marks))
    ensures forall key :: key in Keys(Extraction(s).marks) <==> key in Subjects && SubjectTotal(s, key).Some?
    ensures forall key :: Lookup(Extraction(s).marks, key) == if key in Subjects then SubjectTotal(s, key) else None
  {
    SubjectsDistinct();
    MarksKeys(s, Subjects);
    PresentMembers(s, Subjects);
    forall key ensures Lookup(Extraction(s).marks, key) == if key in Subjects then SubjectTotal(s, key) else None {
      MarksLookup(s, Subjects, key);
    }
  }
}
