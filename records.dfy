/** The values extract_name_and_marks returns (pdfextract.py:75-102). */
module Records {

  /** The default a scalar field takes when its pattern finds nothing. */
  const Unknown: string := "Unknown"

  /** One entry of `marks_dict`: a subject label and the total read after it. */
  datatype Mark = Mark(subject: string, total: nat)

  /** The triple `(name, register_number, marks_dict)`; `marks_dict` is a
      Python dict, whose entries keep the order of first insertion. */
  datatype Record = Record(name: string, registerNumber: string, marks: seq<Mark>)
}
