/**
 * The register number rule of extract_name_and_marks (pdfextract.py:77-78):
 * `re.search(r"Register\s+Number\s+(\d+)", text, re.IGNORECASE)`, whose
 * group 1 is kept as a string, or "Unknown" when there is no match.
 */
module Register {
  import opened Options
  import opened Chars
  import opened Records

  /** The lengths of the pieces of one match of the pattern at a start
      position: the two whitespace runs and the digit group. */
  datatype RegisterParse = RegisterParse(gap1: nat, gap2: nat, digits: nat)

  /** Where the digit group of a parse at i begins. */
  function DigitsStart(i: nat, m: RegisterParse): nat {
    i + 14 + m.gap1 + m.gap2
  }

  /** m is one way the pattern can match at s[i..]: "register", at least one
      whitespace character, "number", at least one whitespace character, and
      at least one digit, letters in either case. */
  ghost predicate IsRegisterParse(s: string, i: nat, m: RegisterParse) {
    && CiMatch(s, i, "register")
    && m.gap1 >= 1 && All(s, i + 8, m.gap1, IsSpace)
    && CiMatch(s, i + 8 + m.gap1, "number")
    && m.gap2 >= 1 && All(s, i + 14 + m.gap1, m.gap2, IsSpace)
    && m.digits >= 1 && All(s, DigitsStart(i, m), m.digits, IsDigit)
  }

  /** The parse Python's matcher settles on at i: every quantifier is greedy. */
  function RegisterChoice(s: string, i: nat): (r: Option<RegisterParse>)
    ensures r.Some? ==> IsRegisterParse(s, i, r.value)
  {
    if !CiMatch(s, i, "register") then None
    else
      var gap1 := Span(s, i + 8, IsSpace);
      if gap1 == 0 || !CiMatch(s, i + 8 + gap1, "number") then None
      else
        var gap2 := Span(s, i + 14 + gap1, IsSpace);
        if gap2 == 0 then None
        else
          var digits := Span(s, i + 14 + gap1 + gap2, IsDigit);
          if digits == 0 then None else Some(RegisterParse(gap1, gap2, digits))
  }

  /** The choice at i is the parse the matcher prefers: both whitespace runs
      are forced and the digit group is the longest possible; and when there is
      no choice the pattern cannot match at i at all. */
  lemma RegisterChoiceIsPreferred(s: string, i: nat, m: RegisterParse)
    requires IsRegisterParse(s, i, m)
    ensures RegisterChoice(s, i).Some?
    ensures var c := RegisterChoice(s, i).value;
      c.gap1 == m.gap1 && c.gap2 == m.gap2 && m.digits <= c.digits
  {
    GapsForced(s, i, m);
    SpanBound(s, DigitsStart(i, m), m.digits, IsDigit);
  }

  /** Neither whitespace run of a parse can be shorter than the greedy one:
      "number" and the digits do not start with whitespace. */
  lemma GapsForced(s: string, i: nat, m: RegisterParse)
    requires IsRegisterParse(s, i, m)
    ensures Span(s, i + 8, IsSpace) == m.gap1
    ensures Span(s, i + 14 + m.gap1, IsSpace) == m.gap2
  {
    CiMatchNotSpace(s, i + 8 + m.gap1, "number");
    SpanUnique(s, i + 8, m.gap1, IsSpace);
    assert !IsSpace(s[i + 14 + m.gap1 + m.gap2]);
    SpanUnique(s, i + 14 + m.gap1, m.gap2, IsSpace);
  }

  /** `re.search`: the leftmost start position at which the pattern matches. */
  function RegisterSearch(s: string): (r: Option<nat>)
    ensures r.Some? ==> RegisterChoice(s, r.value).Some?
    ensures r.Some? ==> forall j: nat :: j < r.value ==> RegisterChoice(s, j).None?
    ensures r.None? ==> forall j: nat :: RegisterChoice(s, j).None?
  {
    var matches := (j: nat) => RegisterChoice(s, j).Some?;
    assert forall j: nat :: matches(j) <==> RegisterChoice(s, j).Some?;
    assert forall j: nat :: j > |s| ==> !CiMatch(s, j, "register");
    First(matches, 0, |s|)
  }

  /** `register_match.group(1) if register_match else "Unknown"`. */
  function RegisterNumber(s: string): string {
    match RegisterSearch(s)
    case None => Unknown
    case Some(i) => GroupAt(s, i)
  }

  /** `group(1)` of the match at i: its digit run. */
  function GroupAt(s: string, i: nat): string
    requires RegisterChoice(s, i).Some?
  {
    var m := RegisterChoice(s, i).value;
    s[DigitsStart(i, m)..DigitsStart(i, m) + m.digits]
  }

  /** A case-insensitive `Register<ws+>Number<ws+><digit>` occurs at i. */
  ghost predicate RegisterOccursAt(s: string, i: nat) {
    exists g1, g2 :: IsRegisterParse(s, i, RegisterParse(g1, g2, 1))
  }

  /** The register number is "Unknown" exactly when the label followed by a
      digit occurs nowhere in the text. */
  lemma RegisterUnknownIff(s: string)
    ensures RegisterNumber(s) == Unknown <==> forall i :: !RegisterOccursAt(s, i)
  {
    var f := RegisterSearch(s);
    if f.Some? {
      RegisterNumberDigits(s);
      assert !IsDigit(Unknown[0]);
      ChoiceOccurs(s, f.value);
    } else {
      forall i | RegisterOccursAt(s, i) ensures false {
        var g1, g2 :| IsRegisterParse(s, i, RegisterParse(g1, g2, 1));
        RegisterChoiceIsPreferred(s, i, RegisterParse(g1, g2, 1));
      }
    }
  }

  /** Wherever the matcher settles on a parse, the label occurs. */
  lemma ChoiceOccurs(s: string, j: nat)
    requires RegisterChoice(s, j).Some?
    ensures RegisterOccursAt(s, j)
  {
    var m := RegisterChoice(s, j).value;
    assert All(s, DigitsStart(j, m), 1, IsDigit);
    assert IsRegisterParse(s, j, RegisterParse(m.gap1, m.gap2, 1));
  }

  /** The search stops no later than any position where the matcher
      settles on a parse. */
  lemma SearchAtMost(s: string, i: nat)
    requires RegisterChoice(s, i).Some?
    ensures RegisterSearch(s).Some? && RegisterSearch(s).value <= i
  {
  }

  /** The search stops at the first occurrence of the label. */
  lemma RegisterSearchFindsFirst(s: string, i: nat, g1: nat, g2: nat)
    requires IsRegisterParse(s, i, RegisterParse(g1, g2, 1))
    requires forall j: nat :: j < i ==> !RegisterOccursAt(s, j)
    ensures RegisterSearch(s) == Some(i)
  {
    RegisterChoiceIsPreferred(s, i, RegisterParse(g1, g2, 1));
    SearchAtMost(s, i);
    var j := RegisterSearch(s).value;
    if j < i {
      ChoiceOccurs(s, j);
      assert false;
    }
  }

  /** When the label first occurs at i, followed by the whitespace runs g1 and
      g2, the register number is the whole run of digits that follows, kept as
      text: non-empty, digits only, leading zeros included. */
  lemma RegisterNumberIsFirstDigitRun(s: string, i: nat, g1: nat, g2: nat)
    requires IsRegisterParse(s, i, RegisterParse(g1, g2, 1))
    requires forall j: nat :: j < i ==> !RegisterOccursAt(s, j)
    ensures var k := i + 14 + g1 + g2;
      RegisterNumber(s) == s[k..k + Span(s, k, IsDigit)]
    ensures RegisterNumber(s) != [] && forall k :: 0 <= k < |RegisterNumber(s)| ==> IsDigit(RegisterNumber(s)[k])
  {
    RegisterSearchFindsFirst(s, i, g1, g2);
    ChoiceAtParse(s, i, g1, g2);
    RegisterNumberAt(s, i, g1, g2, Span(s, i + 14 + g1 + g2, IsDigit));
    RegisterNumberDigits(s);
  }

  /** The choice at a parse of the label takes the parse's whitespace runs
      and the whole digit run after them. */
  lemma ChoiceAtParse(s: string, i: nat, g1: nat, g2: nat)
    requires IsRegisterParse(s, i, RegisterParse(g1, g2, 1))
    ensures var k := i + 14 + g1 + g2;
      k <= |s| && RegisterChoice(s, i) == Some(RegisterParse(g1, g2, Span(s, k, IsDigit)))
  {
    GapsForced(s, i, RegisterParse(g1, g2, 1));
    RegisterChoiceAt(s, i, g1, g2);
  }

  /** The register number when the search stops at a choice. */
  lemma RegisterNumberAt(s: string, i: nat, g1: nat, g2: nat, d: nat)
    requires RegisterSearch(s) == Some(i) && RegisterChoice(s, i) == Some(RegisterParse(g1, g2, d))
    ensures i + 14 + g1 + g2 + d <= |s|
    ensures RegisterNumber(s) == s[i + 14 + g1 + g2..i + 14 + g1 + g2 + d]
  {
    GroupOfChoice(s, i, g1, g2, d);
  }

  /** The group of a choice is the digit run the choice spans. */
  lemma GroupOfChoice(s: string, i: nat, g1: nat, g2: nat, d: nat)
    requires RegisterChoice(s, i) == Some(RegisterParse(g1, g2, d))
    ensures i + 14 + g1 + g2 + d <= |s|
    ensures GroupAt(s, i) == s[i + 14 + g1 + g2..i + 14 + g1 + g2 + d]
  {
    assert DigitsStart(i, RegisterParse(g1, g2, d)) == i + 14 + g1 + g2;
  }

  /** The choice at a parse takes the parse's whitespace runs and the whole
      digit run. */
  lemma RegisterChoiceAt(s: string, i: nat, g1: nat, g2: nat)
    requires CiMatch(s, i, "register") && CiMatch(s, i + 8 + g1, "number")
    requires g1 >= 1 && g2 >= 1 && Span(s, i + 8, IsSpace) == g1 && Span(s, i + 14 + g1, IsSpace) == g2
    requires i + 14 + g1 + g2 < |s| && IsDigit(s[i + 14 + g1 + g2])
    ensures RegisterChoice(s, i) == Some(RegisterParse(g1, g2, Span(s, i + 14 + g1 + g2, IsDigit)))
  {
  }

  /** Whatever the register number is when the pattern matches, it is a
      non-empty run of digits. */
  lemma RegisterNumberDigits(s: string)
    requires RegisterSearch(s).Some?
    ensures RegisterNumber(s) != [] && forall k :: 0 <= k < |RegisterNumber(s)| ==> IsDigit(RegisterNumber(s)[k])
  {
    var i := RegisterSearch(s).value;
    var m := RegisterChoice(s, i).value;
    var k := DigitsStart(i, m);
    var r := RegisterNumber(s);
    forall t | 0 <= t < |r| ensures IsDigit(r[t]) {
      assert r[t] == s[k + t];
    }
  }
}
