/** The overview tab of a course page
    (`src/components/details-courses/Overview.tsx`): the description cut
    into paragraphs at blank lines, the learning objectives, the skill chips
    and the requirements with their default list. */
module Overview {
  import opened Types
  import opened JsStrings
  import opened Sequences

  const ParagraphBreak: string := "\n\n"

  /** `p.trim()` is truthy. */
  predicate NonBlank(p: string) {
    Trim(p) != ""
  }

  /** `.filter(p => p.trim())`: the non-blank pieces, in order. */
  function KeepNonBlank(ps: seq<string>): (r: seq<string>)
    ensures forall p :: p in r <==> p in ps && NonBlank(p)
    ensures forall p :: multiset(r)[p] == if NonBlank(p) then multiset(ps)[p] else 0
    ensures IsSubsequence(r, ps)
  {
    if ps == [] then []
    else
      var rest := KeepNonBlank(ps[1..]);
      FilterStep(ps, NonBlank, rest);
      if NonBlank(ps[0]) then [ps[0]] + rest else rest
  }

  /** `course.description?.split('\n\n').filter(p => p.trim()) || []` */
  function DescriptionParagraphs(description: Option<string>): (r: seq<string>)
    ensures description.None? ==> r == []
    ensures forall p :: p in r ==> NonBlank(p)
  {
    match description
    case None => []
    case Some(d) => KeepNonBlank(Split(d, ParagraphBreak))
  }

  /** Each paragraph is a piece of the description between blank-line
      breaks, and none holds a break itself. */
  lemma ParagraphsArePieces(d: string)
    ensures forall p :: p in DescriptionParagraphs(Some(d)) ==> p in Split(d, ParagraphBreak) && !Includes(p, ParagraphBreak)
    ensures IsSubsequence(DescriptionParagraphs(Some(d)), Split(d, ParagraphBreak))
    ensures Join(Split(d, ParagraphBreak), ParagraphBreak) == d
  {
    SplitPiecesAvoidSeparator(d, ParagraphBreak);
    SplitJoin(d, ParagraphBreak);
  }

  /** Every character of a split piece comes from the string split. */
  lemma {:induction false} SplitPiecesChars(s: string, sep: string)
    requires sep != []
    ensures forall p, c :: p in Split(s, sep) && c in p ==> c in s
    decreases |s|
  {
    match FirstIndexOf(s, sep)
    case None =>
    case Some(i) =>
      var rest := s[i + |sep|..];
      SplitPiecesChars(rest, sep);
      assert Split(s, sep) == [s[..i]] + Split(rest, sep);
      assert forall c :: c in s[..i] || c in rest ==> c in s;
  }

  /** A description of white space only has no paragraph, and the page
      shows "No description available." */
  lemma BlankDescriptionHasNoParagraphs(d: string)
    requires Trim(d) == ""
    ensures DescriptionParagraphs(Some(d)) == []
  {
    TrimEmptyIff(d);
    assert forall c :: c in d ==> IsWhitespace(c);
    var pieces := Split(d, ParagraphBreak);
    SplitPiecesChars(d, ParagraphBreak);
    forall p | p in pieces ensures !NonBlank(p) {
      BlankPiece(p, d);
    }
    KeepNothingBlank(pieces);
  }

  lemma {:induction false} KeepNothingBlank(ps: seq<string>)
    requires forall p :: p in ps ==> !NonBlank(p)
    ensures KeepNonBlank(ps) == []
  {
    if ps != [] {
      assert ps[0] in ps;
      assert forall p :: p in ps[1..] ==> p in ps;
      KeepNothingBlank(ps[1..]);
    }
  }

  lemma BlankPiece(p: string, d: string)
    requires forall c :: c in d ==> IsWhitespace(c)
    requires forall c :: c in p ==> c in d
    ensures !NonBlank(p)
  {
    assert forall i :: 0 <= i < |p| ==> p[i] in p;
    TrimEmptyIff(p);
  }

  /** A description without a blank line and with some text is a single
      paragraph, itself. */
  lemma SingleParagraph(d: string)
    requires !Includes(d, ParagraphBreak) && NonBlank(d)
    ensures DescriptionParagraphs(Some(d)) == [d]
  {
    SplitWithoutSeparator(d, ParagraphBreak);
    assert KeepNonBlank([d]) == [d] + KeepNonBlank([]);
  }

  /** Each paragraph is shown trimmed. */
  function RenderedParagraphs(description: Option<string>): (r: seq<string>)
    ensures |r| == |DescriptionParagraphs(description)|
    ensures forall i :: 0 <= i < |r| ==> r[i] == Trim(DescriptionParagraphs(description)[i]) && r[i] != ""
  {
    var ps := DescriptionParagraphs(description);
    var r := seq(|ps|, i requires 0 <= i < |ps| => Trim(ps[i]));
    TrimmedNonEmpty(ps, r);
    r
  }

  lemma TrimmedNonEmpty(ps: seq<string>, r: seq<string>)
    requires forall p :: p in ps ==> NonBlank(p)
    requires |r| == |ps| && forall i :: 0 <= i < |r| ==> r[i] == Trim(ps[i])
    ensures forall i :: 0 <= i < |r| ==> r[i] != ""
  {
    forall i | 0 <= i < |r| ensures r[i] != "" {
      assert ps[i] in ps;
    }
  }

  /** `learningObjectives.filter(Boolean)`, or no objectives when the field
      is absent. */
  function LearningObjectives(objectives: Option<seq<string>>): (r: seq<string>)
    ensures forall o :: o in r <==> objectives.Some? && o in objectives.value && o != ""
    ensures objectives.Some? ==> forall o :: multiset(r)[o] == if o != "" then multiset(objectives.value)[o] else 0
    ensures objectives.Some? ==> IsSubsequence(r, objectives.value)
  {
    match objectives
    case None => []
    case Some(os) => KeepNonEmpty(os)
  }

  function KeepNonEmpty(os: seq<string>): (r: seq<string>)
    ensures forall o :: o in r <==> o in os && o != ""
    ensures forall o :: multiset(r)[o] == if o != "" then multiset(os)[o] else 0
    ensures IsSubsequence(r, os)
  {
    if os == [] then []
    else
      var rest := KeepNonEmpty(os[1..]);
      assert multiset(os) == multiset{os[0]} + multiset(os[1..]) by {
        assert os == [os[0]] + os[1..];
      }
      assert forall o :: o in os <==> o == os[0] || o in os[1..] by {
        assert os == [os[0]] + os[1..];
      }
      if os[0] != "" then [os[0]] + rest
      else
        assert rest == [] || rest[0] in rest;
        rest
  }

  /** "What you'll learn" is shown when an objective is left. */
  predicate ShowWhatYouLearn(objectives: Option<seq<string>>) {
    |LearningObjectives(objectives)| > 0
  }

  /** `[course.category, ...learningObjectives.slice(0, 3)]` with the falsy
      entries dropped: the category when it is a non-empty string, then at
      most three objectives. */
  function Skills(category: Option<string>, objectives: Option<seq<string>>): (r: seq<string>)
    ensures |r| <= 4
    ensures forall i :: 0 <= i < |r| ==> r[i] != ""
    ensures category.Some? && category.value != "" ==> |r| >= 1 && r[0] == category.value
    ensures var os := LearningObjectives(objectives);
      var k := if category.Some? && category.value != "" then 1 else 0;
      |r| == k + Min(3, |os|) && r[k..] == os[..Min(3, |os|)]
  {
    var os := LearningObjectives(objectives);
    var head := if category.Some? && category.value != "" then [category.value] else [];
    JsSliceNonNegative(os, 0, 3);
    assert forall i :: 0 <= i < |os| ==> os[i] in os;
    head + JsSlice(os, 0, 3)
  }

  /** Each chip shows its skill lower-cased. */
  function SkillLabels(skills: seq<string>): (r: seq<string>)
    ensures |r| == |skills| && forall i :: 0 <= i < |r| ==> r[i] == ToLower(skills[i])
  {
    seq(|skills|, i requires 0 <= i < |skills| => ToLower(skills[i]))
  }

  /** The requirements shown when the course gives none. */
  const DefaultRequirements: seq<string> := [
    "Basic knowledge of HTML, CSS, and JavaScript",
    "Understanding of ES6+ JavaScript features",
    "A computer with internet connection",
    "Text editor (VS Code recommended)"
  ]

  /** `course.requirements || [...]`: an array is truthy even when empty,
      so only a missing list is replaced by the default. */
  function Requirements(requirements: Option<seq<string>>): (r: seq<string>)
    ensures requirements.Some? ==> r == requirements.value
    ensures requirements.None? ==> r == DefaultRequirements && |r| == 4
  {
    requirements.GetOr(DefaultRequirements)
  }

  /** "No specific requirements listed." appears only for a course that
      gives an empty list. */
  lemma NoRequirementsOnlyForEmptyList(requirements: Option<seq<string>>)
    ensures |Requirements(requirements)| == 0 <==> requirements == Some([])
  {
  }
}
