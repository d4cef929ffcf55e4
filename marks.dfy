/**
 * The subject totals of extract_name_and_marks (pdfextract.py:86-100): for
 * each label of `subjects`, in order, `re.search(rf"{subject}.*?(\d+)\s+[A-Z+]",
 * text, re.DOTALL)`, and on a match `marks_dict[subject] = int(match.group(1))`.
 * The subjects hold no regular-expression metacharacters, so each one matches
 * itself, case-sensitively.
 */
module Marks {
  import opened Options
  import opened Chars
  import opened Records

  /** The `subjects` list. */
  const Subjects: seq<string> :=
    ["ENGLISH", "HINDI", "PHYSICS", "CHEMISTRY", "COMPUTER SCIENCE", "MATHEMATICS-SCI"]

  // ---------------------------------------------------------------------------
  // One subject pattern

  /** s[j..] begins with `(\d+)\s+[A-Z+]`, the group taking d digits and `\s+`
      taking w whitespace characters. */
  ghost predicate IsTotalAt(s: string, j: nat, d: nat, w: nat) {
    && d >= 1 && All(s, j, d, IsDigit)
    && w >= 1 && All(s, j + d, w, IsSpace)
    && j + d + w < |s| && IsGradeChar(s[j + d + w])
  }

  /** One way the subject pattern can match at a start position: how many
      characters `.*?` skips after the label, the digit group, the whitespace. */
  datatype SubjectParse = SubjectParse(skip: nat, digits: nat, gap: nat)

  ghost predicate IsSubjectParse(s: string, subject: string, i: nat, m: SubjectParse) {
    Match(s, i, subject) && IsTotalAt(s, i + |subject| + m.skip, m.digits, m.gap)
  }

  /** The greedy `(\d+)\s+` at j is followed by `[A-Z+]`. */
  predicate TotalStartsAt(s: string, j: nat) {
    j <= |s| &&
    var d := Span(s, j, IsDigit);
    d >= 1 &&
    var w := Span(s, j + d, IsSpace);
    w >= 1 && j + d + w < |s| && IsGradeChar(s[j + d + w])
  }

  /** Backtracking into `(\d+)\s+` never helps: the digit group has to be the
      whole digit run, and `\s+` the whole whitespace run. */
  lemma TotalAtIsGreedy(s: string, j: nat, d: nat, w: nat)
    requires IsTotalAt(s, j, d, w)
    ensures TotalStartsAt(s, j) && Span(s, j, IsDigit) == d && Span(s, j + d, IsSpace) == w
  {
    SpanUnique(s, j, d, IsDigit);
    SpanUnique(s, j + d, w, IsSpace);
  }

  lemma TotalStartsIsTotal(s: string, j: nat)
    requires TotalStartsAt(s, j)
    ensures IsTotalAt(s, j, Span(s, j, IsDigit), Span(s, j + Span(s, j, IsDigit), IsSpace))
  {
  }

  /** The lazy `.*?`: the first position from lo on where the rest of the
      pattern matches. */
  function FirstTotal(s: string, lo: nat): (r: Option<nat>)
    ensures r.Some? ==> lo <= r.value && TotalStartsAt(s, r.value)
    ensures r.Some? ==> forall j: nat :: lo <= j < r.value ==> !TotalStartsAt(s, j)
    ensures r.None? ==> forall j: nat :: lo <= j ==> !TotalStartsAt(s, j)
  {
    var starts := (j: nat) => TotalStartsAt(s, j);
    assert forall j: nat :: starts(j) <==> TotalStartsAt(s, j);
    First(starts, lo, |s|)
  }

  /** The parse Python's matcher settles on at i: the shortest skip, then the
      greedy digit group and whitespace. */
  function SubjectChoice(s: string, subject: string, i: nat): (r: Option<SubjectParse>)
    ensures r.Some? ==> Match(s, i, subject) && i + |subject| + r.value.skip + r.value.digits < |s|
  {
    if !Match(s, i, subject) then None
    else
      match FirstTotal(s, i + |subject|)
      case None => None
      case Some(j) =>
        var d := Span(s, j, IsDigit);
        var w := Span(s, j + d, IsSpace);
        Some(SubjectParse(j - i - |subject|, d, w))
  }

  /** The choice is a parse. */
  lemma SubjectChoiceIsParse(s: string, subject: string, i: nat)
    requires SubjectChoice(s, subject, i).Some?
    ensures IsSubjectParse(s, subject, i, SubjectChoice(s, subject, i).value)
  {
    TotalStartsIsTotal(s, FirstTotal(s, i + |subject|).value);
  }

  /** The choice at i is the parse the matcher prefers: no parse at i skips
      less, and one that skips as much has the same group; when there is no
      choice, nothing matches at i. */
  lemma SubjectChoiceIsPreferred(s: string, subject: string, i: nat, m: SubjectParse)
    requires IsSubjectParse(s, subject, i, m)
    ensures SubjectChoice(s, subject, i).Some?
    ensures var c := SubjectChoice(s, subject, i).value;
      c.skip <= m.skip && (c.skip == m.skip ==> c.digits == m.digits && c.gap == m.gap)
  {
    TotalAtIsGreedy(s, i + |subject| + m.skip, m.digits, m.gap);
  }

  /** `re.search` with the subject pattern. */
  function SubjectSearch(s: string, subject: string): (r: Option<nat>)
    ensures r.Some? ==> SubjectChoice(s, subject, r.value).Some?
    ensures r.Some? ==> forall j: nat :: j < r.value ==> SubjectChoice(s, subject, j).None?
    ensures r.None? ==> forall j: nat :: SubjectChoice(s, subject, j).None?
  {
    var matches := (j: nat) => SubjectChoice(s, subject, j).Some?;
    assert forall j: nat :: matches(j) <==> SubjectChoice(s, subject, j).Some?;
    First(matches, 0, |s|)
  }

  /** `int(match.group(1))` when the subject pattern matches. */
  function SubjectTotal(s: string, subject: string): Option<nat> {
    match SubjectSearch(s, subject)
    case None => None
    case Some(i) =>
      var m := SubjectChoice(s, subject, i).value;
      var j := i + |subject| + m.skip;
      Some(Value(s[j..j + m.digits]))
  }

  /** The label occurs at i and nowhere before. */
  ghost predicate FirstOccurrence(s: string, subject: string, i: nat) {
    Match(s, i, subject) && forall j: nat :: j < i ==> !Match(s, j, subject)
  }

  /** When the pattern matches at all, it matches from the label's first
      occurrence: whatever follows a later occurrence follows the first one
      too. */
  lemma SubjectSearchAtFirstOccurrence(s: string, subject: string, i: nat)
    requires FirstOccurrence(s, subject, i)
    requires SubjectSearch(s, subject).Some?
    ensures SubjectSearch(s, subject) == Some(i)
  {
    var j := SubjectSearch(s, subject).value;
    if i < j {
      var m := SubjectChoice(s, subject, j).value;
      var t := j + |subject| + m.skip;
      SubjectChoiceIsParse(s, subject, j);
      TotalAtIsGreedy(s, t, m.digits, m.gap);
      NoChoiceNoTotal(s, subject, i);
      assert false;
    }
  }

  /** Where the label occurs but the matcher finds no parse, no total follows
      the label anywhere. */
  lemma NoChoiceNoTotal(s: string, subject: string, i: nat)
    requires Match(s, i, subject) && SubjectChoice(s, subject, i).None?
    ensures forall t: nat :: i + |subject| <= t ==> !TotalStartsAt(s, t)
  {
    assert FirstTotal(s, i + |subject|).None?;
  }

  /** A subject gets a total exactly when its label occurs and is followed,
      somewhere later, by digits, whitespace and `[A-Z+]`. */
  lemma SubjectTotalPresent(s: string, subject: string)
    ensures SubjectTotal(s, subject).Some? <==> exists i, m :: IsSubjectParse(s, subject, i, m)
  {
    if SubjectTotal(s, subject).Some? {
      var i := SubjectSearch(s, subject).value;
      SubjectChoiceIsParse(s, subject, i);
    } else {
      forall i, m | IsSubjectParse(s, subject, i, m) ensures false {
        SubjectChoiceIsPreferred(s, subject, i, m);
      }
    }
  }

  /** With the label at i and the first digits-whitespace-`[A-Z+]` after it
      at j, the matcher's parse at i is the one that skips to j. */
  lemma SubjectChoiceAt(s: string, subject: string, i: nat, j: nat, d: nat, w: nat)
    requires Match(s, i, subject)
    requires i + |subject| <= j && IsTotalAt(s, j, d, w)
    requires forall k: nat :: i + |subject| <= k < j ==> !TotalStartsAt(s, k)
    ensures SubjectChoice(s, subject, i) == Some(SubjectParse(j - i - |subject|, d, w))
  {
    TotalAtIsGreedy(s, j, d, w);
    FirstTotalAt(s, i + |subject|, j);
  }

  /** The lazy skip stops at the first total. */
  lemma FirstTotalAt(s: string, lo: nat, j: nat)
    requires lo <= j && TotalStartsAt(s, j)
    requires forall k: nat :: lo <= k < j ==> !TotalStartsAt(s, k)
    ensures FirstTotal(s, lo) == Some(j)
  {
  }

  /** With the label first at i, and the first digits-whitespace-`[A-Z+]`
      after it starting at j, the total is the integer those d digits denote. */
  lemma SubjectTotalIsFirstRun(s: string, subject: string, i: nat, j: nat, d: nat, w: nat)
    requires FirstOccurrence(s, subject, i)
    requires i + |subject| <= j && IsTotalAt(s, j, d, w)
    requires forall k: nat :: i + |subject| <= k < j ==> !TotalStartsAt(s, k)
    ensures SubjectTotal(s, subject) == Some(Value(s[j..j + d]))
  {
    SubjectChoiceAt(s, subject, i, j, d, w);
    SubjectSearchAtFirstOccurrence(s, subject, i);
  }

  /** One more digit in front of a total is a longer total. */
  lemma ExtendTotal(s: string, j: nat, d: nat, w: nat)
    requires 1 <= j <= |s| && IsDigit(s[j - 1]) && IsTotalAt(s, j, d, w)
    ensures IsTotalAt(s, j - 1, d + 1, w)
  {
  }

  /** A label that does not end in a digit is never followed directly by the
      tail of a longer digit run: the total's digits are a whole run. */
  lemma FirstRunIsWhole(s: string, subject: string, i: nat, j: nat, d: nat, w: nat)
    requires Match(s, i, subject) && subject != [] && !IsDigit(subject[|subject| - 1])
    requires i + |subject| <= j && IsTotalAt(s, j, d, w)
    requires forall k: nat :: i + |subject| <= k < j ==> !TotalStartsAt(s, k)
    ensures !IsDigit(s[j - 1])
  {
    if IsDigit(s[j - 1]) {
      if j > i + |subject| {
        ExtendTotal(s, j, d, w);
        TotalAtIsGreedy(s, j - 1, d + 1, w);
      }
    }
  }

  /** In "PHYSICS 78 A+" the label is first at 0 and the first total after
      it is "78 A". */
  lemma PhysicsParse(s: string)
    requires s == "PHYSICS 78 A+"
    ensures FirstOccurrence(s, "PHYSICS", 0) && IsTotalAt(s, 8, 2, 1)
    ensures forall k: nat :: 7 <= k < 8 ==> !TotalStartsAt(s, k)
  {
    assert Match(s, 0, "PHYSICS");
    assert !IsDigit(s[7]);
  }

  /** "PHYSICS 78 A+" gives PHYSICS the total 78. */
  lemma PhysicsExample(s: string)
    requires s == "PHYSICS 78 A+"
    ensures SubjectTotal(s, "PHYSICS") == Some(78)
  {
    PhysicsParse(s);
    SubjectTotalIsFirstRun(s, "PHYSICS", 0, 8, 2, 1);
    var d := s[8..10];
    assert d[0] == '7' && d[1] == '8';
    ValueOfTwo(d);
  }

  // ---------------------------------------------------------------------------
  // marks_dict

  /** The value stored under key, if any. */
  function Lookup(m: seq<Mark>, key: string): Option<nat> {
    if m == [] then None
    else if m[0].subject == key then Some(m[0].total)
    else Lookup(m[1..], key)
  }

  /** The keys in dict order. */
  function Keys(m: seq<Mark>): (r: seq<string>)
    ensures |r| == |m|
    ensures forall k :: 0 <= k < |m| ==> r[k] == m[k].subject
  {
    if m == [] then [] else [m[0].subject] + Keys(m[1..])
  }

  /** `marks_dict[key] = value`: a key already present keeps its place and
      takes the new value, a new key goes at the end. */
  function Put(m: seq<Mark>, key: string, value: nat): (r: seq<Mark>)
    ensures Lookup(r, key) == Some(value)
    ensures forall k :: k != key ==> Lookup(r, k) == Lookup(m, k)
    ensures Lookup(m, key).None? ==> r == m + [Mark(key, value)]
    ensures Lookup(m, key).Some? ==> Keys(r) == Keys(m)
  {
    if m == [] then [Mark(key, value)]
    else if m[0].subject == key then [Mark(key, value)] + m[1..]
    else
      var rest := Put(m[1..], key, value);
      assert Keys([m[0]] + rest) == [m[0].subject] + Keys(rest);
      [m[0]] + rest
  }

  /** The dict after the loop has run over subjects. */
  function MarksFor(s: string, subjects: seq<string>): seq<Mark> {
    if subjects == [] then []
    else
      var m := MarksFor(s, subjects[..|subjects| - 1]);
      var subject := subjects[|subjects| - 1];
      match SubjectTotal(s, subject)
      case None => m
      case Some(total) => Put(m, subject, total)
  }

  /** The loop of pdfextract.py:95-100, over the list it is given. */
  method ExtractMarks(s: string, subjects: seq<string>) returns (marks: seq<Mark>)
    ensures marks == MarksFor(s, subjects)
  {
    marks := [];
    for k := 0 to |subjects|
      invariant marks == MarksFor(s, subjects[..k])
    {
      var subject := subjects[k];
      assert subjects[..k + 1][..k] == subjects[..k];
      var total := SubjectTotal(s, subject);
      if total.Some? {
        marks := Put(marks, subject, total.value);
      }
    }
    assert subjects[..|subjects|] == subjects;
  }

  /** Every listed subject maps to its own total, or is absent when it has
      none, and nothing outside the list is a key. */
  lemma {:induction false} MarksLookup(s: string, subjects: seq<string>, key: string)
    ensures Lookup(MarksFor(s, subjects), key) == if key in subjects then SubjectTotal(s, key) else None
  {
    if subjects != [] {
      var init := subjects[..|subjects| - 1];
      MarksLookup(s, init, key);
      assert subjects == init + [subjects[|subjects| - 1]];
      assert key in subjects <==> key in init || key == subjects[|subjects| - 1];
    }
  }

  /** The subjects that get a total, in list order. */
  function Present(s: string, subjects: seq<string>): seq<string> {
    if subjects == [] then []
    else
      var init := Present(s, subjects[..|subjects| - 1]);
      var subject := subjects[|subjects| - 1];
      if SubjectTotal(s, subject).Some? then init + [subject] else init
  }

  predicate Distinct(keys: seq<string>) {
    forall a, b :: 0 <= a < b < |keys| ==> keys[a] != keys[b]
  }

  /** With distinct subjects, the dict's keys are the subjects that got a total,
      in list order, each once. */
  lemma {:induction false} MarksKeys(s: string, subjects: seq<string>)
    requires Distinct(subjects)
    ensures Keys(MarksFor(s, subjects)) == Present(s, subjects)
  {
    if subjects != [] {
      var init := subjects[..|subjects| - 1];
      var subject := subjects[|subjects| - 1];
      assert Distinct(init);
      MarksKeys(s, init);
      if SubjectTotal(s, subject).Some? {
        MarksLookup(s, init, subject);
        assert subject !in init;
        var m := MarksFor(s, init);
        var r := Put(m, subject, SubjectTotal(s, subject).value);
        assert r == m + [Mark(subject, SubjectTotal(s, subject).value)];
        assert Keys(r) == Keys(m) + [subject];
      }
    }
  }

  /** The labels that get a total are the listed labels that have one; with
      distinct labels, each appears once. */
  lemma {:induction false} PresentMembers(s: string, subjects: seq<string>)
    ensures forall x :: x in Present(s, subjects) <==> x in subjects && SubjectTotal(s, x).Some?
    ensures Distinct(subjects) ==> Distinct(Present(s, subjects))
  {
    if subjects != [] {
      var init := subjects[..|subjects| - 1];
      var subject := subjects[|subjects| - 1];
      PresentMembers(s, init);
      assert subjects == init + [subject];
      if Distinct(subjects) {
        assert Distinct(init);
        assert subject !in init;
      }
    }
  }

  /** marks_dict is empty exactly when no listed subject gets a total. */
  lemma MarksEmpty(s: string, subjects: seq<string>)
    ensures MarksFor(s, subjects) == [] <==> forall k :: 0 <= k < |subjects| ==> SubjectTotal(s, subjects[k]).None?
  {
    var m := MarksFor(s, subjects);
    if m != [] {
      MarksLookup(s, subjects, m[0].subject);
      assert Lookup(m, m[0].subject).Some?;
    } else {
      forall k | 0 <= k < |subjects| ensures SubjectTotal(s, subjects[k]).None? {
        MarksLookup(s, subjects, subjects[k]);
      }
    }
  }
}
