/**
 * The name rule of extract_name_and_marks (pdfextract.py:80-84): first
 * `re.search(r"(?:Mr|Ms|Mr\.|Ms\.)\s*([A-Z\s.]+)", text, re.IGNORECASE)`; only
 * when that finds nothing, `re.search(r"certify\s+that\s+([A-Z\s.]+)\s+appeared",
 * text, re.IGNORECASE)`; the name is group 1 of whichever matched, stripped of
 * whitespace, or "Unknown" when neither matched.
 */
module Name {
  import opened Options
  import opened Chars
  import opened Records

  // ---------------------------------------------------------------------------
  // The honorific pattern

  /** The alternatives of `(?:Mr|Ms|Mr\.|Ms\.)` in the order the matcher tries
      them, in lower case since the pattern ignores case. */
  const Honorifics: seq<string> := ["mr", "ms", "mr.", "ms."]

  /** One way the honorific pattern can match at a start position: which
      alternative, how much whitespace `\s*` takes, how long the group is. */
  datatype HonorificParse = HonorificParse(alt: nat, gap: nat, group: nat)

  ghost predicate IsHonorificParse(s: string, i: nat, m: HonorificParse) {
    && m.alt < |Honorifics| && CiMatch(s, i, Honorifics[m.alt])
    && All(s, i + |Honorifics[m.alt]|, m.gap, IsSpace)
    && m.group >= 1 && All(s, i + |Honorifics[m.alt]| + m.gap, m.group, IsNameChar)
  }

  ghost predicate HonorificOccursAt(s: string, i: nat) {
    exists m :: IsHonorificParse(s, i, m)
  }

  /** Whitespace belongs to the name class, so the whitespace run at p lies
      inside the name run at p. */
  lemma SpaceRunInNameRun(s: string, p: nat)
    requires p <= |s|
    ensures Span(s, p, IsSpace) <= Span(s, p, IsNameChar)
  {
    SpanBound(s, p, Span(s, p, IsSpace), IsNameChar);
  }

  /** The parse Python's matcher settles on at i: the first alternative that
      leads to a match, then the greedy `\s*`, given back one character when
      the name run is whitespace only, then the greedy group. */
  function HonorificChoice(s: string, i: nat): (r: Option<HonorificParse>)
    ensures r.Some? ==> r.value.alt < 2 && i + 2 + r.value.gap + r.value.group <= |s|
  {
    var alt := if CiMatch(s, i, "mr") then 0 else if CiMatch(s, i, "ms") then 1 else 2;
    if alt == 2 || i + 2 == |s| || !IsNameChar(s[i + 2]) then None
    else
      var gap := Span(s, i + 2, IsSpace);
      var run := Span(s, i + 2, IsNameChar);
      SpaceRunInNameRun(s, i + 2);
      if gap < run then Some(HonorificParse(alt, gap, run - gap))
      else Some(HonorificParse(alt, gap - 1, 1))
  }

  /** The choice is a parse. */
  lemma HonorificChoiceIsParse(s: string, i: nat)
    requires HonorificChoice(s, i).Some?
    ensures IsHonorificParse(s, i, HonorificChoice(s, i).value)
  {
    SpaceRunInNameRun(s, i + 2);
  }

  /** The choice at i is the parse the matcher prefers over every other parse
      at i, so the dotted alternatives `Mr.` and `Ms.` are never the ones that
      match; and when there is no choice, nothing matches at i. */
  lemma HonorificChoiceIsPreferred(s: string, i: nat, m: HonorificParse)
    requires IsHonorificParse(s, i, m)
    ensures HonorificChoice(s, i).Some?
    ensures var c := HonorificChoice(s, i).value;
      && c.alt <= m.alt
      && (c.alt == m.alt ==> m.gap <= c.gap && (m.gap == c.gap ==> m.group <= c.group))
  {
    var p := i + 2;
    var h := Honorifics[m.alt];
    assert h == "mr" || h == "ms" || h == "mr." || h == "ms.";
    assert Lower(s[i]) == h[0] && Lower(s[i + 1]) == h[1];
    assert h[1] == 'r' ==> CiMatch(s, i, "mr");
    assert h[1] == 's' ==> CiMatch(s, i, "ms");
    if m.alt >= 2 {
      assert Lower(s[p]) == h[2];
      assert Lower(s[p]) == '.';
    } else if m.gap == 0 {
      assert IsNameChar(s[p]);
    } else {
      assert IsSpace(s[p]);
    }
    var c := HonorificChoice(s, i).value;
    if c.alt == m.alt {
      RunPreferred(s, p, m.gap, m.group);
    }
  }

  /** Against any whitespace-then-name split of the name run at p, the
      matcher's split (all the whitespace, or all but one character of it when
      nothing else follows) takes at least as much whitespace, and as much
      name when the whitespace is the same. */
  lemma RunPreferred(s: string, p: nat, gap: nat, group: nat)
    requires p <= |s| && All(s, p, gap, IsSpace)
    requires group >= 1 && All(s, p + gap, group, IsNameChar)
    ensures var ws, run := Span(s, p, IsSpace), Span(s, p, IsNameChar);
      var cgap, cgroup := if ws < run then ws else ws - 1, if ws < run then run - ws else 1;
      gap <= cgap && (gap == cgap ==> group <= cgroup)
  {
    SpanBound(s, p, gap, IsSpace);
    assert All(s, p, gap + group, IsNameChar);
    SpanBound(s, p, gap + group, IsNameChar);
    SpaceRunInNameRun(s, p);
  }

  /** `re.search` with the honorific pattern. */
  function HonorificSearch(s: string): (r: Option<nat>)
    ensures r.Some? ==> HonorificChoice(s, r.value).Some?
    ensures r.Some? ==> forall j: nat :: j < r.value ==> HonorificChoice(s, j).None?
    ensures r.None? ==> forall j: nat :: HonorificChoice(s, j).None?
  {
    var matches := (j: nat) => HonorificChoice(s, j).Some?;
    assert forall j: nat :: matches(j) <==> HonorificChoice(s, j).Some?;
    assert forall j: nat :: j > |s| ==> !CiMatch(s, j, "mr") && !CiMatch(s, j, "ms");
    First(matches, 0, |s|)
  }

  /** Group 1 of the honorific match at i. */
  function HonorificGroup(s: string, i: nat): string
    requires HonorificChoice(s, i).Some?
  {
    var m := HonorificChoice(s, i).value;
    s[i + 2 + m.gap..i + 2 + m.gap + m.group]
  }

  /** The name run right after the two-letter honorific at i. */
  function NameRunAfter(s: string, i: nat): string
    requires i + 2 <= |s|
  {
    s[i + 2..i + 2 + Span(s, i + 2, IsNameChar)]
  }

  /** Stripped, the group is the whole name run after the honorific: the
      whitespace `\s*` took, or the one character it gave back, is stripped
      anyway. */
  lemma HonorificGroupStrips(s: string, i: nat)
    requires HonorificChoice(s, i).Some?
    ensures Strip(HonorificGroup(s, i)) == Strip(NameRunAfter(s, i))
  {
    var m := HonorificChoice(s, i).value;
    var p := i + 2;
    var gap := Span(s, p, IsSpace);
    var run := NameRunAfter(s, i);
    var g := HonorificGroup(s, i);
    SpaceRunInNameRun(s, p);
    if gap < |run| {
      assert run == s[p..p + gap] + g + [];
      StripPadded(s[p..p + gap], g, []);
    } else {
      assert Span(s, p, IsNameChar) == gap;
      SpaceSlice(s, p, p, p + gap);
      SpaceSlice(s, p, p + m.gap, p + m.gap + m.group);
      StripEmpty(run);
      StripEmpty(g);
    }
  }

  /** Any slice of the whitespace run at p is whitespace only. */
  lemma SpaceSlice(s: string, p: nat, lo: nat, hi: nat)
    requires p <= lo <= hi && p <= |s| && hi <= p + Span(s, p, IsSpace)
    ensures AllSpace(s[lo..hi])
  {
    forall k | 0 <= k < hi - lo ensures IsSpace(s[lo..hi][k]) {
      assert s[lo..hi][k] == s[lo + k];
    }
  }

  // ---------------------------------------------------------------------------
  // The `certify ... appeared` pattern

  /** One way the fallback pattern can match at a start position: the
      whitespace after "certify", the whitespace before the group, the group,
      and the whitespace before "appeared". */
  datatype CertifyParse = CertifyParse(gap1: nat, lead: nat, group: nat, gap2: nat)

  /** Where the text after "certify<ws>that" begins. */
  function AfterThat(i: nat, gap1: nat): nat {
    i + 11 + gap1
  }

  /** Where the group of a parse at i ends. */
  function GroupStop(i: nat, m: CertifyParse): nat {
    AfterThat(i, m.gap1) + m.lead + m.group
  }

  ghost predicate IsCertifyParse(s: string, i: nat, m: CertifyParse) {
    && CiMatch(s, i, "certify")
    && m.gap1 >= 1 && All(s, i + 7, m.gap1, IsSpace)
    && CiMatch(s, i + 7 + m.gap1, "that")
    && m.lead >= 1 && All(s, AfterThat(i, m.gap1), m.lead, IsSpace)
    && m.group >= 1 && All(s, AfterThat(i, m.gap1) + m.lead, m.group, IsNameChar)
    && m.gap2 >= 1 && All(s, GroupStop(i, m), m.gap2, IsSpace)
    && CiMatch(s, GroupStop(i, m) + m.gap2, "appeared")
  }

  ghost predicate CertifyOccursAt(s: string, i: nat) {
    exists m :: IsCertifyParse(s, i, m)
  }

  /** c is a place where the group that starts after whitespace at p can stop:
      s[p..c] holds whitespace and at least one more name character, all of it
      in the name class, and whitespace then "appeared" follow. */
  predicate GroupCanStop(s: string, p: nat, c: nat) {
    && p + 2 <= c < |s|
    && IsSpace(s[p])
    && All(s, p, c - p, IsNameChar)
    && IsSpace(s[c])
    && CiMatch(s, c + Span(s, c, IsSpace), "appeared")
  }

  /** The last place in the name run at p where the group can stop: the
      greedy group backtracks from the end of the run to there. */
  function LastGroupStop(s: string, p: nat): (r: Option<nat>)
    requires p <= |s|
    ensures r.Some? ==> GroupCanStop(s, p, r.value)
    ensures r.Some? ==> forall c: nat :: r.value < c ==> !GroupCanStop(s, p, c)
    ensures r.None? ==> forall c: nat :: !GroupCanStop(s, p, c)
  {
    var run := Span(s, p, IsNameChar);
    var stops := (c: nat) => GroupCanStop(s, p, c);
    assert forall c: nat :: stops(c) <==> GroupCanStop(s, p, c);
    assert forall c: nat :: GroupCanStop(s, p, c) ==> c <= p + run by {
      forall c: nat | GroupCanStop(s, p, c) ensures c <= p + run {
        SpanBound(s, p, c - p, IsNameChar);
      }
    }
    Last(stops, p + 2, p + run)
  }

  /** The parse Python's matcher settles on at i. The whitespace runs around
      "certify" and "that" are forced. Then `\s+` first takes all the
      whitespace, and the group backtracks to the last place it can stop; only
      if there is none after that whitespace does `\s+` give characters back,
      which can leave a group of one whitespace character. */
  function CertifyChoice(s: string, i: nat): Option<CertifyParse> {
    if !CiMatch(s, i, "certify") then None
    else
      var gap1 := Span(s, i + 7, IsSpace);
      if gap1 == 0 || !CiMatch(s, i + 7 + gap1, "that") then None
      else
        var p := AfterThat(i, gap1);
        match LastGroupStop(s, p)
        case None => None
        case Some(c) =>
          var lead := Span(s, p, IsSpace);
          var gap2 := Span(s, c, IsSpace);
          if p + lead < c then Some(CertifyParse(gap1, lead, c - p - lead, gap2))
          else Some(CertifyParse(gap1, c - p - 1, 1, gap2))
  }

  /** The choice at i is a parse, and its group stops at the last place the
      name run allows. */
  lemma CertifyChoiceParses(s: string, i: nat)
    requires CertifyChoice(s, i).Some?
    ensures var m := CertifyChoice(s, i).value;
      IsCertifyParse(s, i, m) && LastGroupStop(s, AfterThat(i, m.gap1)) == Some(GroupStop(i, m))
  {
    var m := CertifyChoice(s, i).value;
    var p := AfterThat(i, m.gap1);
    var c := LastGroupStop(s, p).value;
    var lead := Span(s, p, IsSpace);
    assert GroupStop(i, m) == c;
    if p + lead >= c {
      assert c - 1 < p + lead;
      assert All(s, p, c - p - 1, IsSpace);
    }
  }

  /** The choice at i is the parse the matcher prefers over every other parse
      at i: the longest leading whitespace, then the longest group, so the
      group runs to the last "appeared" inside the name run; and when there is
      no choice, nothing matches at i. */
  lemma CertifyChoiceIsPreferred(s: string, i: nat, m: CertifyParse)
    requires IsCertifyParse(s, i, m)
    ensures CertifyChoice(s, i).Some?
    ensures var c := CertifyChoice(s, i).value;
      && c.gap1 == m.gap1 && m.lead <= c.lead
      && (m.lead == c.lead ==> m.group <= c.group && (m.group == c.group ==> m.gap2 == c.gap2))
  {
    ParseStops(s, i, m);
    var p := AfterThat(i, m.gap1);
    var stop := GroupStop(i, m);
    var c := LastGroupStop(s, p).value;
    CertifyChoiceAt(s, i, m.gap1);
  }

  /** What a parse tells about the computed pieces: the whitespace after
      "certify" is all of it, the group's end is a place where it can stop,
      and the whitespace before the group is at most the whole run. */
  lemma ParseStops(s: string, i: nat, m: CertifyParse)
    requires IsCertifyParse(s, i, m)
    ensures m.gap1 == Span(s, i + 7, IsSpace)
    ensures GroupCanStop(s, AfterThat(i, m.gap1), GroupStop(i, m))
    ensures Span(s, GroupStop(i, m), IsSpace) == m.gap2
    ensures m.lead <= Span(s, AfterThat(i, m.gap1), IsSpace)
  {
    CiMatchNotSpace(s, i + 7 + m.gap1, "that");
    SpanUnique(s, i + 7, m.gap1, IsSpace);
    ParseTailStops(s, i, m);
  }

  /** The tail of a parse, in the parse's own terms. */
  lemma ParseTailStops(s: string, i: nat, m: CertifyParse)
    requires IsCertifyParse(s, i, m)
    ensures GroupCanStop(s, AfterThat(i, m.gap1), GroupStop(i, m))
    ensures Span(s, GroupStop(i, m), IsSpace) == m.gap2
    ensures m.lead <= Span(s, AfterThat(i, m.gap1), IsSpace)
  {
    var p := AfterThat(i, m.gap1);
    assert GroupStop(i, m) == p + m.lead + m.group;
    GroupRunStops(s, p, m.lead, m.group, m.gap2);
  }

  /** The tail of a parse, after "that": leading whitespace, group,
      whitespace, "appeared". */
  lemma GroupRunStops(s: string, p: nat, lead: nat, group: nat, gap2: nat)
    requires lead >= 1 && All(s, p, lead, IsSpace)
    requires group >= 1 && All(s, p + lead, group, IsNameChar)
    requires gap2 >= 1 && All(s, p + lead + group, gap2, IsSpace)
    requires CiMatch(s, p + lead + group + gap2, "appeared")
    ensures GroupCanStop(s, p, p + lead + group)
    ensures Span(s, p + lead + group, IsSpace) == gap2
    ensures lead <= Span(s, p, IsSpace)
  {
    var stop := p + lead + group;
    CiMatchNotSpace(s, stop + gap2, "appeared");
    SpanUnique(s, stop, gap2, IsSpace);
    forall k | p <= k < stop ensures IsNameChar(s[k]) {
      if k < p + lead { assert IsSpace(s[k]); }
    }
    SpanBound(s, p, lead, IsSpace);
  }

  /** The choice once "certify<ws>that" has matched with gap1 and the name
      run has a last stop c. */
  lemma CertifyChoiceAt(s: string, i: nat, gap1: nat)
    requires CiMatch(s, i, "certify") && gap1 == Span(s, i + 7, IsSpace) && gap1 >= 1
    requires CiMatch(s, i + 7 + gap1, "that")
    requires LastGroupStop(s, AfterThat(i, gap1)).Some?
    ensures var p := AfterThat(i, gap1);
      var c := LastGroupStop(s, p).value;
      var lead, gap2 := Span(s, p, IsSpace), Span(s, c, IsSpace);
      CertifyChoice(s, i) == Some(if p + lead < c then CertifyParse(gap1, lead, c - p - lead, gap2)
                                  else CertifyParse(gap1, c - p - 1, 1, gap2))
  {
  }

  /** `re.search` with the fallback pattern. */
  function CertifySearch(s: string): (r: Option<nat>)
    ensures r.Some? ==> CertifyChoice(s, r.value).Some?
    ensures r.Some? ==> forall j: nat :: j < r.value ==> CertifyChoice(s, j).None?
    ensures r.None? ==> forall j: nat :: CertifyChoice(s, j).None?
  {
    var matches := (j: nat) => CertifyChoice(s, j).Some?;
    assert forall j: nat :: matches(j) <==> CertifyChoice(s, j).Some?;
    assert forall j: nat :: j > |s| ==> !CiMatch(s, j, "certify");
    First(matches, 0, |s|)
  }

  /** Group 1 of the fallback match at i. */
  function CertifyGroup(s: string, i: nat): string
    requires CertifyChoice(s, i).Some?
  {
    var m := CertifyChoice(s, i).value;
    s[AfterThat(i, m.gap1) + m.lead..GroupStop(i, m)]
  }

  // ---------------------------------------------------------------------------
  // The name

  /** `name_match.group(1).strip() if name_match else "Unknown"`, where the
      fallback search runs only when the honorific search found nothing. */
  function NameOf(s: string): string {
    match HonorificSearch(s)
    case Some(i) => Strip(HonorificGroup(s, i))
    case None =>
      match CertifySearch(s)
      case Some(i) => Strip(CertifyGroup(s, i))
      case None => Unknown
  }

  /** Where the honorific search settles on a parse, the pattern occurs. */
  lemma HonorificChoiceOccurs(s: string, j: nat)
    requires HonorificChoice(s, j).Some?
    ensures HonorificOccursAt(s, j)
  {
    HonorificChoiceIsParse(s, j);
  }

  /** Where the fallback search settles on a parse, the pattern occurs. */
  lemma CertifyChoiceOccurs(s: string, j: nat)
    requires CertifyChoice(s, j).Some?
    ensures CertifyOccursAt(s, j)
  {
    CertifyChoiceParses(s, j);
  }

  /** When an honorific first occurs at i, the name is the run of name
      characters right after its two letters, stripped, so it has no
      whitespace at either end; the honorific that matched is `mr` or `ms` in
      some case, never the dotted form. */
  lemma NameFromHonorific(s: string, i: nat, m: HonorificParse)
    requires IsHonorificParse(s, i, m)
    requires forall j: nat :: j < i ==> !HonorificOccursAt(s, j)
    ensures i + 2 <= |s| && NameOf(s) == Strip(NameRunAfter(s, i))
    ensures NameOf(s) != [] ==> !IsSpace(NameOf(s)[0]) && !IsSpace(NameOf(s)[|NameOf(s)| - 1])
    ensures CiMatch(s, i, "mr") || CiMatch(s, i, "ms")
  {
    HonorificSearchFindsFirst(s, i, m);
    NameAtHonorific(s, i);
    HonorificGroupStrips(s, i);
    HonorificChoiceTwoLetters(s, i);
  }

  /** The honorific search stops at the first occurrence. */
  lemma HonorificSearchFindsFirst(s: string, i: nat, m: HonorificParse)
    requires IsHonorificParse(s, i, m)
    requires forall j: nat :: j < i ==> !HonorificOccursAt(s, j)
    ensures HonorificSearch(s) == Some(i)
  {
    HonorificChoiceIsPreferred(s, i, m);
    HonorificSearchAtMost(s, i);
    var j := HonorificSearch(s).value;
    if j < i {
      HonorificChoiceOccurs(s, j);
      assert false;
    }
  }

  /** The honorific search stops no later than any position where the
      matcher settles on a parse. */
  lemma HonorificSearchAtMost(s: string, i: nat)
    requires HonorificChoice(s, i).Some?
    ensures HonorificSearch(s).Some? && HonorificSearch(s).value <= i
  {
  }

  /** Where the honorific search stops, the name is that match's group,
      stripped. */
  lemma NameAtHonorific(s: string, i: nat)
    requires HonorificSearch(s) == Some(i)
    ensures NameOf(s) == Strip(HonorificGroup(s, i))
  {
  }

  /** The matcher's choice is one of the two-letter alternatives. */
  lemma HonorificChoiceTwoLetters(s: string, i: nat)
    requires HonorificChoice(s, i).Some?
    ensures i + 2 <= |s| && (CiMatch(s, i, "mr") || CiMatch(s, i, "ms"))
  {
    assert Honorifics[HonorificChoice(s, i).value.alt] in ["mr", "ms"];
  }

  /** When no honorific occurs anywhere and the fallback pattern first occurs
      at i, the name is everything between "that" and the last place before
      "appeared" where the group can stop, stripped. */
  lemma NameFromCertify(s: string, i: nat, m: CertifyParse)
    requires forall j: nat :: !HonorificOccursAt(s, j)
    requires IsCertifyParse(s, i, m)
    requires forall j: nat :: j < i ==> !CertifyOccursAt(s, j)
    requires forall m' :: IsCertifyParse(s, i, m') ==> GroupStop(i, m') <= GroupStop(i, m)
    ensures NameOf(s) == Strip(s[AfterThat(i, m.gap1)..GroupStop(i, m)])
  {
    NameIsCertifyGroup(s, i, m);
    CertifyChoiceIsPreferred(s, i, m);
    CertifyChoiceParses(s, i);
    ParseStops(s, i, m);
    var ch := CertifyChoice(s, i).value;
    var p, stop := AfterThat(i, m.gap1), GroupStop(i, m);
    assert GroupStop(i, ch) == stop && ch.gap1 == m.gap1;
    assert CertifyGroup(s, i) == s[p + ch.lead..stop];
    StripSkipsLeadingSpaces(s, p, ch.lead, stop);
  }

  /** Under the same conditions, the name comes from the fallback match at i. */
  lemma NameIsCertifyGroup(s: string, i: nat, m: CertifyParse)
    requires forall j: nat :: !HonorificOccursAt(s, j)
    requires IsCertifyParse(s, i, m)
    requires forall j: nat :: j < i ==> !CertifyOccursAt(s, j)
    ensures CertifyChoice(s, i).Some? && NameOf(s) == Strip(CertifyGroup(s, i))
  {
    if HonorificSearch(s).Some? {
      HonorificChoiceOccurs(s, HonorificSearch(s).value);
      assert false;
    }
    CertifyChoiceIsPreferred(s, i, m);
    var j := CertifySearch(s).value;
    if j < i {
      CertifyChoiceOccurs(s, j);
      assert false;
    }
    assert CertifySearch(s) == Some(i);
  }

  /** When neither pattern occurs anywhere, the name is "Unknown". */
  lemma NameUnknownWithoutMatch(s: string)
    requires forall j: nat :: !HonorificOccursAt(s, j)
    requires forall j: nat :: !CertifyOccursAt(s, j)
    ensures NameOf(s) == Unknown
  {
    if HonorificSearch(s).Some? {
      HonorificChoiceOccurs(s, HonorificSearch(s).value);
    } else if CertifySearch(s).Some? {
      CertifyChoiceOccurs(s, CertifySearch(s).value);
    }
  }

  /** "Mr. JOHN" gives ". JOHN": the dot is in the name class, so the plain
      `Mr` alternative matches and keeps it. */
  lemma DotStaysInName(s: string)
    requires s == "Mr. JOHN"
    ensures NameOf(s) == ". JOHN"
  {
    MrJohnParse(s);
    NameFromHonorific(s, 0, HonorificParse(0, 0, 6));
    StripTrimmed(". JOHN");
  }

  /** In "Mr. JOHN" the plain `Mr` matches at 0 and the name run after it is
      ". JOHN". */
  lemma MrJohnParse(s: string)
    requires s == "Mr. JOHN"
    ensures IsHonorificParse(s, 0, HonorificParse(0, 0, 6))
    ensures NameRunAfter(s, 0) == ". JOHN"
  {
    assert Lower(s[0]) == 'm' && Lower(s[1]) == 'r';
    assert CiMatch(s, 0, Honorifics[0]);
    assert All(s, 2, 6, IsNameChar) by {
      forall k | 2 <= k < 8 ensures IsNameChar(s[k]) {
        assert s[k] in {'.', ' ', 'J', 'O', 'H', 'N'};
      }
    }
    SpanUnique(s, 2, 6, IsNameChar);
    assert s[2..8] == ". JOHN";
  }

  /** "Mr 1" gives the empty name, not "Unknown": the honorific matches with
      a single space as its group. */
  lemma EmptyName(s: string)
    requires s == "Mr 1"
    ensures NameOf(s) == ""
  {
    assert Lower(s[0]) == 'm' && Lower(s[1]) == 'r';
    assert CiMatch(s, 0, Honorifics[0]);
    assert IsNameChar(s[2]);
    assert IsHonorificParse(s, 0, HonorificParse(0, 0, 1));
    NameFromHonorific(s, 0, HonorificParse(0, 0, 1));
    SpanUnique(s, 2, 1, IsNameChar);
    assert NameRunAfter(s, 0) == " ";
  }

  /** "Mr Unknown" gives "Unknown" although the honorific rule matched: the
      default value cannot be told apart from a name that spells it. */
  lemma UnknownFromHonorific(s: string)
    requires s == "Mr Unknown"
    ensures NameOf(s) == Unknown && HonorificSearch(s).Some?
  {
    MrUnknownParse(s);
    NameFromHonorific(s, 0, HonorificParse(0, 0, 8));
    StripsToUnknown(NameRunAfter(s, 0));
  }

  lemma MrUnknownParse(s: string)
    requires s == "Mr Unknown"
    ensures IsHonorificParse(s, 0, HonorificParse(0, 0, 8))
    ensures NameRunAfter(s, 0) == " Unknown"
  {
    assert Lower(s[0]) == 'm' && Lower(s[1]) == 'r';
    assert CiMatch(s, 0, Honorifics[0]);
    assert All(s, 2, 8, IsNameChar) by {
      forall k | 2 <= k < 10 ensures IsNameChar(s[k]) {
        assert s[k] in {' ', 'U', 'n', 'k', 'o', 'w'};
      }
    }
    SpanUnique(s, 2, 8, IsNameChar);
  }

  lemma StripsToUnknown(t: string)
    requires t == " Unknown"
    ensures Strip(t) == Unknown
  {
    assert t == " " + Unknown + [];
    StripPadded(" ", Unknown, []);
    StripTrimmed(Unknown);
  }
}
