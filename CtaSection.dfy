/** The call-to-action block of a course page (`src/components/CTASection.tsx`):
    the slug made from the course title when none is given, whether the
    visitor counts as enrolled, and which link the block offers. */
module CtaSection {
  import opened Types
  import opened JsStrings
  import opened Sequences

  predicate IsSlugChar(c: char) {
    ('a' <= c <= 'z') || ('0' <= c <= '9') || c == '-'
  }

  /** The characters `/[^a-z0-9\s-]/g` leaves in place. */
  predicate IsSlugCharOrSpace(c: char) {
    IsSlugChar(c) || IsWhitespace(c)
  }

  predicate IsHyphen(c: char) {
    c == '-'
  }

  predicate NoDoubleHyphen(s: string) {
    forall i :: 0 <= i < |s| - 1 ==> !(s[i] == '-' && s[i + 1] == '-')
  }

  /** The first two steps: lower-case, then drop every character other than
      `a-z`, `0-9`, white space and `-`. */
  function KeepSlugChars(title: string): (r: string)
    ensures forall c :: c in r ==> IsSlugCharOrSpace(c)
    ensures IsSubsequence(r, ToLower(title))
    ensures forall c :: multiset(r)[c] == if IsSlugCharOrSpace(c) then multiset(ToLower(title))[c] else 0
  {
    var r := KeepChars(ToLower(title), IsSlugCharOrSpace);
    assert forall c :: c in r ==> IsSlugCharOrSpace(c) by {
      forall c | c in r ensures IsSlugCharOrSpace(c) {
        var i :| 0 <= i < |r| && r[i] == c;
      }
    }
    r
  }

  /** Trim, then turn each run of white space into `-`. */
  function DashSpaces(s: string): (r: string)
    requires forall c :: c in s ==> IsSlugCharOrSpace(c)
    ensures forall c :: c in r ==> IsSlugChar(c)
  {
    var trimmed := Trim(s);
    assert forall c :: c in trimmed ==> c in s by {
      forall c | c in trimmed ensures c in s {
        var i :| 0 <= i < |trimmed| && trimmed[i] == c;
      }
    }
    var r := ReplaceRuns(trimmed, IsWhitespace, '-');
    assert forall c :: c in r ==> IsSlugChar(c) by {
      forall c | c in r ensures IsSlugChar(c) {
        var i :| 0 <= i < |r| && r[i] == c;
        assert r[i] == '-' || (r[i] in trimmed && !IsWhitespace(r[i]));
        if c != '-' {
          assert c in s;
          assert IsSlugCharOrSpace(c);
        }
      }
    }
    r
  }

  /** Turn each run of `-` into a single `-`. */
  function CollapseHyphens(s: string): (r: string)
    requires forall c :: c in s ==> IsSlugChar(c)
    ensures forall c :: c in r ==> IsSlugChar(c)
    ensures NoDoubleHyphen(r)
  {
    var r := ReplaceRuns(s, IsHyphen, '-');
    assert forall c :: c in r ==> IsSlugChar(c) by {
      forall c | c in r ensures IsSlugChar(c) {
        var i :| 0 <= i < |r| && r[i] == c;
      }
    }
    r
  }

  /** `generateSlug`: the four steps in order. The result holds only `a-z`,
      `0-9` and `-`, and never two hyphens in a row. */
  function GenerateSlug(title: string): (r: string)
    ensures forall c :: c in r ==> IsSlugChar(c)
    ensures NoDoubleHyphen(r)
  {
    CollapseHyphens(DashSpaces(KeepSlugChars(title)))
  }

  /** A string that is already a slug (only `a-z`, `0-9`, `-`, no two
      hyphens in a row) is its own slug; in particular leading and trailing
      hyphens are kept, as `trim` removes only white space. */
  lemma SlugIsFixedPoint(s: string)
    requires forall i :: 0 <= i < |s| ==> IsSlugChar(s[i])
    requires NoDoubleHyphen(s)
    ensures GenerateSlug(s) == s
  {
    ToLowerNoUpper(s);
    assert KeepSlugChars(s) == s;
    assert NoWhitespace(s);
    ReplaceRunsIdentity(s, IsWhitespace, '-');
    assert DashSpaces(s) == s;
    ReplaceRunsIdentity(s, IsHyphen, '-');
  }

  /** Slug generation is idempotent: a generated slug is its own slug. */
  lemma GenerateSlugIdempotent(title: string)
    ensures GenerateSlug(GenerateSlug(title)) == GenerateSlug(title)
  {
    var s := GenerateSlug(title);
    assert forall i :: 0 <= i < |s| ==> IsSlugChar(s[i]) by {
      forall i | 0 <= i < |s| ensures IsSlugChar(s[i]) {
        assert s[i] in s;
      }
    }
    SlugIsFixedPoint(s);
  }

  /** A slug word between two hyphens keeps both: `trim` removes only white
      space, and single hyphens are not collapsed. */
  lemma HyphensAtEndsKept(w: string)
    requires w != [] && w[0] != '-' && w[|w| - 1] != '-'
    requires forall i :: 0 <= i < |w| ==> IsSlugChar(w[i])
    requires NoDoubleHyphen(w)
    ensures GenerateSlug("-" + w + "-") == "-" + w + "-"
  {
    var s := "-" + w + "-";
    forall i | 0 <= i < |s| - 1 ensures !(s[i] == '-' && s[i + 1] == '-') {
      if i == 0 {
        assert s[1] == w[0];
      } else if i == |s| - 2 {
        assert s[i] == w[|w| - 1];
      } else {
        assert s[i] == w[i - 1] && s[i + 1] == w[i];
      }
    }
    forall i | 0 <= i < |s| ensures IsSlugChar(s[i]) {
      if 0 < i < |s| - 1 { assert s[i] == w[i - 1]; }
    }
    SlugIsFixedPoint(s);
  }

  lemma SlugWordsKeepStep(ws: seq<string>)
    requires |ws| >= 1 && forall k :: 0 <= k < |ws| ==> IsWord(ws[k])
    ensures KeepSlugChars(Join(ws, " ")) == Join(LowerWords(ws), " ")
  {
    var lw := LowerWords(ws);
    LowerWordsAreLower(ws);
    SpacedLowerJoin(ws);
    LowerWordsSlugChars(lw);
    JoinChars(lw, " ", IsSlugCharOrSpace);
  }

  lemma SpacedLowerJoin(ws: seq<string>)
    requires |ws| >= 1
    ensures ToLower(Join(ws, " ")) == Join(LowerWords(ws), " ")
  {
    ToLowerJoin(ws, " ");
    assert ToLower(" ") == " ";
  }

  lemma LowerWordsSlugChars(lw: seq<string>)
    requires forall k :: 0 <= k < |lw| ==> IsLowerWord(lw[k])
    ensures forall k, i :: 0 <= k < |lw| && 0 <= i < |lw[k]| ==> IsSlugCharOrSpace(lw[k][i])
  {
    forall k, i | 0 <= k < |lw| && 0 <= i < |lw[k]| ensures IsSlugCharOrSpace(lw[k][i]) {
      LowerWordCharNotWhitespace(lw[k], i);
    }
  }

  lemma SlugWordsDashStep(lw: seq<string>)
    requires |lw| >= 1 && forall k :: 0 <= k < |lw| ==> IsLowerWord(lw[k])
    ensures forall c :: c in Join(lw, " ") ==> IsSlugCharOrSpace(c)
    ensures DashSpaces(Join(lw, " ")) == Join(lw, "-")
  {
    var spaced := Join(lw, " ");
    SlugWordsSpacedChars(lw);
    SlugWordsTrimStep(lw);
    SlugWordsNoWhitespace(lw);
    ReplaceRunsJoin(lw, ' ', IsWhitespace, '-');
    assert ReplaceRuns(Trim(spaced), IsWhitespace, '-') == Join(lw, "-");
  }

  lemma SlugWordsNoWhitespace(lw: seq<string>)
    requires |lw| >= 1 && forall k :: 0 <= k < |lw| ==> IsLowerWord(lw[k])
    ensures forall k :: 0 <= k < |lw| ==> lw[k] != []
    ensures forall k, i :: 0 <= k < |lw| && 0 <= i < |lw[k]| ==> !IsWhitespace(lw[k][i])
  {
    forall k, i | 0 <= k < |lw| && 0 <= i < |lw[k]| ensures !IsWhitespace(lw[k][i]) {
      LowerWordCharNotWhitespace(lw[k], i);
    }
  }

  lemma SlugWordsSpacedChars(lw: seq<string>)
    requires |lw| >= 1 && forall k :: 0 <= k < |lw| ==> IsLowerWord(lw[k])
    ensures forall c :: c in Join(lw, " ") ==> IsSlugCharOrSpace(c)
  {
    forall k, i | 0 <= k < |lw| && 0 <= i < |lw[k]| ensures IsSlugCharOrSpace(lw[k][i]) {
      LowerWordCharNotWhitespace(lw[k], i);
    }
    JoinChars(lw, " ", IsSlugCharOrSpace);
    var spaced := Join(lw, " ");
    forall c | c in spaced ensures IsSlugCharOrSpace(c) {
      var i :| 0 <= i < |spaced| && spaced[i] == c;
    }
  }

  lemma SlugWordsTrimStep(lw: seq<string>)
    requires |lw| >= 1 && forall k :: 0 <= k < |lw| ==> IsLowerWord(lw[k])
    ensures Trim(Join(lw, " ")) == Join(lw, " ")
  {
    var last := lw[|lw| - 1];
    assert forall k :: 0 <= k < |lw| ==> lw[k] != [];
    LowerWordCharNotWhitespace(lw[0], 0);
    LowerWordCharNotWhitespace(last, |last| - 1);
    JoinTrim(lw, " ");
  }

  lemma LowerWordCharNotWhitespace(w: string, i: int)
    requires IsLowerWord(w) && 0 <= i < |w|
    ensures !IsWhitespace(w[i]) && IsSlugChar(w[i]) && !IsHyphen(w[i])
  {
  }

  lemma SlugWordsCollapseStep(lw: seq<string>)
    requires |lw| >= 1 && forall k :: 0 <= k < |lw| ==> IsLowerWord(lw[k])
    ensures forall c :: c in Join(lw, "-") ==> IsSlugChar(c)
    ensures CollapseHyphens(Join(lw, "-")) == Join(lw, "-")
  {
    assert forall k, i :: 0 <= k < |lw| && 0 <= i < |lw[k]| ==> IsSlugChar(lw[k][i]) && !IsHyphen(lw[k][i]) by {
      forall k, i | 0 <= k < |lw| && 0 <= i < |lw[k]| ensures IsSlugChar(lw[k][i]) && !IsHyphen(lw[k][i]) {
        assert IsLowerWord(lw[k]);
      }
    }
    JoinChars(lw, "-", IsSlugChar);
    assert forall c :: c in Join(lw, "-") ==> IsSlugChar(c);
    ReplaceRunsJoin(lw, '-', IsHyphen, '-');
  }

  /** A title of words separated by single spaces becomes the lower-cased
      words joined by hyphens. */
  lemma GenerateSlugOfWords(ws: seq<string>)
    requires |ws| >= 1 && forall k :: 0 <= k < |ws| ==> IsWord(ws[k])
    ensures GenerateSlug(Join(ws, " ")) == Join(LowerWords(ws), "-")
  {
    var lw := LowerWords(ws);
    LowerWordsAreLower(ws);
    SlugWordsKeepStep(ws);
    SlugWordsDashStep(lw);
    SlugWordsCollapseStep(lw);
  }

  /** Dropping the other characters first changes nothing: the slug of a
      title is the slug of what the filter keeps of it, so punctuation only
      disappears. */
  lemma GenerateSlugOfKept(title: string)
    ensures KeepSlugChars(KeepSlugChars(title)) == KeepSlugChars(title)
    ensures GenerateSlug(KeepSlugChars(title)) == GenerateSlug(title)
  {
    var k := KeepSlugChars(title);
    forall i | 0 <= i < |k| ensures !IsUpper(k[i]) && IsSlugCharOrSpace(k[i]) {
      assert k[i] in k;
    }
    ToLowerNoUpper(k);
  }

  /** Words without white space, separated by runs of white space of any
      length and padded by white space at either end: trimming and dashing
      joins the words with single `-`. */
  lemma DashSpacesOfWords(lead: string, ws: seq<string>, gs: seq<string>, trail: string)
    requires |ws| >= 1 && |gs| == |ws| - 1
    requires forall k :: 0 <= k < |ws| ==> ws[k] != []
    requires forall k, i :: 0 <= k < |ws| && 0 <= i < |ws[k]| ==> IsSlugChar(ws[k][i])
    requires forall k :: 0 <= k < |gs| ==> gs[k] != []
    requires forall k, i :: 0 <= k < |gs| && 0 <= i < |gs[k]| ==> IsWhitespace(gs[k][i])
    requires forall i :: 0 <= i < |lead| ==> IsWhitespace(lead[i])
    requires forall i :: 0 <= i < |trail| ==> IsWhitespace(trail[i])
    ensures forall c :: c in lead + Interleave(ws, gs) + trail ==> IsSlugCharOrSpace(c)
    ensures DashSpaces(lead + Interleave(ws, gs) + trail) == Join(ws, "-")
  {
    var mid := Interleave(ws, gs);
    PaddedSlugChars(lead, ws, gs, trail, IsSlugCharOrSpace);
    InterleaveEnds(ws, gs);
    ReplaceRunsInterleaveAlone(ws, gs, IsWhitespace, '-');
    DashSpacesAround(lead, mid, trail, Join(ws, "-"));
  }

  /** Dashing a piece padded by white space, where the piece has none at
      its ends, dashes the piece alone. */
  lemma DashSpacesAround(lead: string, mid: string, trail: string, out: string)
    requires forall c :: c in lead + mid + trail ==> IsSlugCharOrSpace(c)
    requires forall i :: 0 <= i < |lead| ==> IsWhitespace(lead[i])
    requires forall i :: 0 <= i < |trail| ==> IsWhitespace(trail[i])
    requires mid != [] ==> !IsWhitespace(mid[0]) && !IsWhitespace(mid[|mid| - 1])
    requires ReplaceRuns(mid, IsWhitespace, '-') == out
    ensures DashSpaces(lead + mid + trail) == out
  {
    TrimStrip(lead, mid, trail);
  }

  /** Every character of a padded interleaving satisfies `p` when those of
      the words, the gaps and the ends do. */
  lemma PaddedSlugChars(lead: string, ws: seq<string>, gs: seq<string>, trail: string, p: char -> bool)
    requires |ws| >= 1 && |gs| == |ws| - 1
    requires forall k, i :: 0 <= k < |ws| && 0 <= i < |ws[k]| ==> p(ws[k][i])
    requires forall k, i :: 0 <= k < |gs| && 0 <= i < |gs[k]| ==> p(gs[k][i])
    requires forall i :: 0 <= i < |lead| ==> p(lead[i])
    requires forall i :: 0 <= i < |trail| ==> p(trail[i])
    ensures forall c :: c in lead + Interleave(ws, gs) + trail ==> p(c)
  {
    var mid := Interleave(ws, gs);
    InterleaveChars(ws, gs, p);
    var s := lead + mid + trail;
    forall c | c in s ensures p(c) {
      var i :| 0 <= i < |s| && s[i] == c;
      if i < |lead| {
        assert s[i] == lead[i];
      } else if i < |lead| + |mid| {
        assert s[i] == mid[i - |lead|];
      } else {
        assert s[i] == trail[i - |lead| - |mid|];
      }
    }
  }

  /** Slug characters other than `-`, separated by runs of `-` of any length
      and padded by runs of `-` at either end: each run becomes one `-`. */
  lemma CollapseHyphensOfRuns(lead: string, ws: seq<string>, gs: seq<string>, trail: string)
    requires |ws| >= 1 && |gs| == |ws| - 1
    requires forall k :: 0 <= k < |ws| ==> ws[k] != []
    requires forall k, i :: 0 <= k < |ws| && 0 <= i < |ws[k]| ==> IsSlugChar(ws[k][i]) && ws[k][i] != '-'
    requires forall k :: 0 <= k < |gs| ==> gs[k] != []
    requires forall k, i :: 0 <= k < |gs| && 0 <= i < |gs[k]| ==> gs[k][i] == '-'
    requires forall i :: 0 <= i < |lead| ==> lead[i] == '-'
    requires forall i :: 0 <= i < |trail| ==> trail[i] == '-'
    ensures forall c :: c in lead + Interleave(ws, gs) + trail ==> IsSlugChar(c)
    ensures CollapseHyphens(lead + Interleave(ws, gs) + trail) == RunMark(lead, '-') + Join(ws, "-") + RunMark(trail, '-')
  {
    PaddedSlugChars(lead, ws, gs, trail, IsSlugChar);
    ReplaceRunsPadded(lead, ws, gs, trail, IsHyphen, '-');
  }

  /** A title of words separated by runs of white space of any length, with
      white space allowed at either end, becomes the lower-cased words
      joined by single hyphens. */
  lemma GenerateSlugOfSpacedWords(title: string, lead: string, ws: seq<string>, gs: seq<string>, trail: string)
    requires |ws| >= 1 && |gs| == |ws| - 1 && forall k :: 0 <= k < |ws| ==> IsWord(ws[k])
    requires forall k :: 0 <= k < |gs| ==> gs[k] != []
    requires forall k, i :: 0 <= k < |gs| && 0 <= i < |gs[k]| ==> IsWhitespace(gs[k][i])
    requires forall i :: 0 <= i < |lead| ==> IsWhitespace(lead[i])
    requires forall i :: 0 <= i < |trail| ==> IsWhitespace(trail[i])
    requires title == lead + Interleave(ws, gs) + trail
    ensures GenerateSlug(title) == Join(LowerWords(ws), "-")
  {
    var lw := LowerWords(ws);
    var lowered := lead + Interleave(lw, gs) + trail;
    SpacedTitleKept(title, lead, ws, gs, trail);
    SpacedLowerWordsDash(lead, lw, gs, trail);
    SlugWordsCollapseStep(lw);
    SlugOfSteps(title, lowered, Join(lw, "-"));
  }

  /** The filter keeps all of a lower-cased title of words and white space. */
  lemma SpacedTitleKept(title: string, lead: string, ws: seq<string>, gs: seq<string>, trail: string)
    requires |ws| >= 1 && |gs| == |ws| - 1 && forall k :: 0 <= k < |ws| ==> IsWord(ws[k])
    requires forall k, i :: 0 <= k < |gs| && 0 <= i < |gs[k]| ==> IsWhitespace(gs[k][i])
    requires forall i :: 0 <= i < |lead| ==> IsWhitespace(lead[i])
    requires forall i :: 0 <= i < |trail| ==> IsWhitespace(trail[i])
    requires title == lead + Interleave(ws, gs) + trail
    ensures forall k :: 0 <= k < |ws| ==> IsLowerWord(LowerWords(ws)[k])
    ensures KeepSlugChars(title) == lead + Interleave(LowerWords(ws), gs) + trail
  {
    var lw := LowerWords(ws);
    ToLowerPadded(lead, ws, gs, trail);
    LowerWordsAreLower(ws);
    LowerWordsSlugChars(lw);
    PaddedSlugChars(lead, lw, gs, trail, IsSlugCharOrSpace);
    KeepAllSlugChars(title, lead + Interleave(lw, gs) + trail);
  }

  /** `DashSpacesOfWords` for lower-case words. */
  lemma SpacedLowerWordsDash(lead: string, lw: seq<string>, gs: seq<string>, trail: string)
    requires |lw| >= 1 && |gs| == |lw| - 1 && forall k :: 0 <= k < |lw| ==> IsLowerWord(lw[k])
    requires forall k :: 0 <= k < |gs| ==> gs[k] != []
    requires forall k, i :: 0 <= k < |gs| && 0 <= i < |gs[k]| ==> IsWhitespace(gs[k][i])
    requires forall i :: 0 <= i < |lead| ==> IsWhitespace(lead[i])
    requires forall i :: 0 <= i < |trail| ==> IsWhitespace(trail[i])
    ensures forall c :: c in lead + Interleave(lw, gs) + trail ==> IsSlugCharOrSpace(c)
    ensures DashSpaces(lead + Interleave(lw, gs) + trail) == Join(lw, "-")
  {
    forall k, i | 0 <= k < |lw| && 0 <= i < |lw[k]| ensures IsSlugChar(lw[k][i]) {
      LowerWordCharNotWhitespace(lw[k], i);
    }
    DashSpacesOfWords(lead, lw, gs, trail);
  }

  lemma KeepAllSlugChars(title: string, lowered: string)
    requires ToLower(title) == lowered
    requires forall c :: c in lowered ==> IsSlugCharOrSpace(c)
    ensures KeepSlugChars(title) == lowered
  {
    assert forall i :: 0 <= i < |lowered| ==> IsSlugCharOrSpace(lowered[i]) by {
      forall i | 0 <= i < |lowered| ensures IsSlugCharOrSpace(lowered[i]) {
        assert lowered[i] in lowered;
      }
    }
  }

  lemma SlugOfSteps(title: string, kept: string, dashed: string)
    requires KeepSlugChars(title) == kept
    requires forall c :: c in kept ==> IsSlugCharOrSpace(c)
    requires DashSpaces(kept) == dashed
    requires forall c :: c in dashed ==> IsSlugChar(c)
    requires CollapseHyphens(dashed) == dashed
    ensures GenerateSlug(title) == dashed
  {
  }

  /** The title of the page that renders the block without a slug. */
  lemma GenerateSlugExample()
    ensures GenerateSlug("Advanced React Development") == "advanced-react-development"
  {
    var ws := ["Advanced", "React", "Development"];
    ExampleTitleWords();
    GenerateSlugOfWords(ws);
    ExampleSlugWords();
  }

  lemma ExampleTitleWords()
    ensures forall k :: 0 <= k < 3 ==> IsWord(["Advanced", "React", "Development"][k])
    ensures Join(["Advanced", "React", "Development"], " ") == "Advanced React Development"
  {
    ExampleWordsAreWords();
    ExampleTitleJoin();
  }

  lemma ExampleWordsAreWords()
    ensures IsWord("Advanced") && IsWord("React") && IsWord("Development")
  {
  }

  lemma ExampleTitleJoin()
    ensures Join(["Advanced", "React", "Development"], " ") == "Advanced React Development"
  {
  }

  lemma ExampleSlugWords()
    ensures Join(LowerWords(["Advanced", "React", "Development"]), "-") == "advanced-react-development"
  {
    ExampleLowerWords();
    ExampleSlugJoin();
  }

  lemma ExampleSlugJoin()
    ensures Join(["advanced", "react", "development"], "-") == "advanced-react-development"
  {
  }

  lemma ExampleLowerWords()
    ensures LowerWords(["Advanced", "React", "Development"]) == ["advanced", "react", "development"]
  {
    assert ToLower("Advanced") == "advanced";
    assert ToLower("React") == "react";
    assert ToLower("Development") == "development";
  }

  /** `slug || generateSlug(courseTitle)`: a missing or empty slug is
      replaced by the generated one. */
  function EffectiveSlug(slug: Option<string>, courseTitle: string): (r: string)
    ensures slug.Some? && slug.value != "" ==> r == slug.value
    ensures slug.None? || slug.value == "" ==> r == GenerateSlug(courseTitle)
  {
    if slug.Some? && slug.value != "" then slug.value else GenerateSlug(courseTitle)
  }

  /** The `status` prop, defaulting to "available" when it is not given. */
  function StatusOf(status: Option<string>): string {
    status.GetOr("available")
  }

  /** `isEnrolled`, computed from the status as given, before an unknown
      status is replaced by "available". */
  function CtaIsEnrolled(slug: Option<string>, courseTitle: string, status: Option<string>, enrolledIds: seq<string>): (r: bool)
    ensures StatusOf(status) != "available" ==> !r
    ensures StatusOf(status) == "available" ==> (r <==> EffectiveSlug(slug, courseTitle) in enrolledIds)
  {
    StatusOf(status) == "available" && EffectiveSlug(slug, courseTitle) in enrolledIds
  }

  /** The block's main link: the notify page for a coming-soon course, the
      learning page for an enrolled visitor, the course page otherwise (an
      unknown status renders as "available"). */
  function CtaLink(slug: Option<string>, courseTitle: string, status: Option<string>, enrolledIds: seq<string>): (r: string)
  {
    var s := EffectiveSlug(slug, courseTitle);
    if StatusOf(status) == "coming-soon" then "/courses/" + s + "/notify"
    else if CtaIsEnrolled(slug, courseTitle, status, enrolledIds) then "/courses/" + s + "/learn"
    else "/courses/" + s
  }

  /** The three link targets, in terms of the status and enrolment. */
  lemma CtaLinkCases(slug: Option<string>, courseTitle: string, status: Option<string>, enrolledIds: seq<string>)
    ensures var s := EffectiveSlug(slug, courseTitle);
      var link := CtaLink(slug, courseTitle, status, enrolledIds);
      && (status == Some("coming-soon") ==> link == "/courses/" + s + "/notify")
      && (StatusOf(status) == "available" && s in enrolledIds ==> link == "/courses/" + s + "/learn")
      && (StatusOf(status) != "available" && status != Some("coming-soon") ==> link == "/courses/" + s)
      && (StatusOf(status) == "available" && s !in enrolledIds ==> link == "/courses/" + s)
  {
    var s := EffectiveSlug(slug, courseTitle);
    if status == Some("coming-soon") {
      NotifyLink(slug, courseTitle, status, enrolledIds);
    } else if StatusOf(status) == "available" && s in enrolledIds {
      LearnLink(slug, courseTitle, status, enrolledIds);
    } else if StatusOf(status) == "available" {
      CourseLink(slug, courseTitle, status, enrolledIds);
    } else {
      OtherStatusLink(slug, courseTitle, status, enrolledIds);
    }
  }

  lemma NotifyLink(slug: Option<string>, courseTitle: string, status: Option<string>, enrolledIds: seq<string>)
    requires status == Some("coming-soon")
    ensures CtaLink(slug, courseTitle, status, enrolledIds) == "/courses/" + EffectiveSlug(slug, courseTitle) + "/notify"
  {
  }

  lemma LearnLink(slug: Option<string>, courseTitle: string, status: Option<string>, enrolledIds: seq<string>)
    requires StatusOf(status) == "available" && EffectiveSlug(slug, courseTitle) in enrolledIds
    ensures CtaLink(slug, courseTitle, status, enrolledIds) == "/courses/" + EffectiveSlug(slug, courseTitle) + "/learn"
  {
  }

  lemma CourseLink(slug: Option<string>, courseTitle: string, status: Option<string>, enrolledIds: seq<string>)
    requires StatusOf(status) == "available" && EffectiveSlug(slug, courseTitle) !in enrolledIds
    ensures CtaLink(slug, courseTitle, status, enrolledIds) == "/courses/" + EffectiveSlug(slug, courseTitle)
  {
  }

  lemma OtherStatusLink(slug: Option<string>, courseTitle: string, status: Option<string>, enrolledIds: seq<string>)
    requires StatusOf(status) != "available" && status != Some("coming-soon")
    ensures CtaLink(slug, courseTitle, status, enrolledIds) == "/courses/" + EffectiveSlug(slug, courseTitle)
  {
  }
}
