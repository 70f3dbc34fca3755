/** The curriculum panel of a course page
    (`src/components/details-courses/Curriculum.tsx`): which sections are
    expanded, the section and lesson counts with their plurals, and which
    lesson is highlighted as selected. */
module Curriculum {
  import opened Types
  import opened Sequences

  /** `[course.curriculum[0]?.id || '']`: the first section's id, or the
      empty string when there is no section or its id is empty. */
  function InitialExpanded(curriculum: seq<CourseModule>): (r: seq<string>)
    ensures |r| == 1
    ensures curriculum != [] ==> r == [curriculum[0].id]
    ensures curriculum == [] ==> r == [""]
  {
    [if curriculum != [] && curriculum[0].id != "" then curriculum[0].id else ""]
  }

  /** The `setExpandedModules` updater of `toggleModule`: an expanded id is
      removed everywhere it occurs, any other id is appended. */
  function Toggle(expanded: seq<string>, id: string): (r: seq<string>)
    ensures id in expanded ==> id !in r
    ensures id !in expanded ==> id in r
    ensures forall x :: x != id ==> (x in r <==> x in expanded)
  {
    if id in expanded then
      var r := RemoveAll(expanded, id);
      assert forall x :: x != id ==> (x in r <==> x in multiset(r)) && (x in expanded <==> x in multiset(expanded));
      r
    else expanded + [id]
  }

  /** Toggling keeps a list free of repeated ids. */
  lemma ToggleKeepsDistinct(expanded: seq<string>, id: string)
    requires NoDuplicates(expanded)
    ensures NoDuplicates(Toggle(expanded, id))
  {
    if id in expanded {
      RemoveAllDistinct(expanded, id);
    } else {
      var r := expanded + [id];
      forall i, j | 0 <= i < j < |r| ensures r[i] != r[j] {
        if j == |expanded| {
          assert r[i] == expanded[i];
        }
      }
    }
  }

  /** Toggling the same section twice restores which sections are
      expanded; from a collapsed section it restores the list itself. */
  lemma ToggleTwice(expanded: seq<string>, id: string)
    ensures forall x :: x in Toggle(Toggle(expanded, id), id) <==> x in expanded
    ensures id !in expanded ==> Toggle(Toggle(expanded, id), id) == expanded
  {
    if id !in expanded {
      RemoveAllAppend(expanded, [id], id);
      RemoveAllAbsent(expanded, id);
      assert RemoveAll([id], id) == [];
    }
  }

  /** Toggling different sections commutes, as far as which sections are
      expanded. */
  lemma ToggleCommutes(expanded: seq<string>, a: string, b: string)
    ensures forall x :: x in Toggle(Toggle(expanded, a), b) <==> x in Toggle(Toggle(expanded, b), a)
  {
  }

  /** `reduce((total, module) => total + module.lessons.length, 0)` */
  function TotalLessons(curriculum: seq<CourseModule>): nat {
    if curriculum == [] then 0 else |curriculum[0].lessons| + TotalLessons(curriculum[1..])
  }

  /** All the lessons of the course, section after section. */
  function AllLessons(curriculum: seq<CourseModule>): seq<Lesson> {
    if curriculum == [] then [] else curriculum[0].lessons + AllLessons(curriculum[1..])
  }

  /** The lesson count is the number of lessons over all sections. */
  lemma {:induction false} TotalLessonsCounts(curriculum: seq<CourseModule>)
    ensures TotalLessons(curriculum) == |AllLessons(curriculum)|
  {
    if curriculum != [] {
      TotalLessonsCounts(curriculum[1..]);
    }
  }

  /** The count adds up over a split curriculum. */
  lemma {:induction false} TotalLessonsAppend(a: seq<CourseModule>, b: seq<CourseModule>)
    ensures TotalLessons(a + b) == TotalLessons(a) + TotalLessons(b)
  {
    if a == [] {
      assert a + b == b;
    } else {
      assert (a + b)[1..] == a[1..] + b;
      TotalLessonsAppend(a[1..], b);
    }
  }

  /** `n word{n !== 1 ? 's' : ''}` */
  function CountLabel(n: int, word: string): (r: string)
    ensures n == 1 ==> r == word
    ensures n != 1 ==> r == word + "s"
  {
    if n != 1 then word + "s" else word
  }

  /** The header line's two counts. */
  function SectionsLabel(curriculum: seq<CourseModule>): string {
    CountLabel(|curriculum|, "section")
  }

  function LessonsLabel(curriculum: seq<CourseModule>): string {
    CountLabel(TotalLessons(curriculum), "lesson")
  }

  /** Zero takes the plural, like every count but one. */
  lemma ZeroIsPlural()
    ensures SectionsLabel([]) == "sections" && LessonsLabel([]) == "lessons"
  {
  }

  /** "No modules available" replaces the list for an empty curriculum. */
  predicate ShowNoModules(curriculum: seq<CourseModule>) {
    |curriculum| == 0
  }

  /** `selectedLessonId === lesson.id` */
  predicate IsSelected(selectedLessonId: Option<string>, lesson: Lesson) {
    selectedLessonId == Some(lesson.id)
  }

  /** The lesson's kind label; a quiz is labelled "Assignment". */
  function KindLabel(k: LessonKind): (r: string)
    ensures r == "Video" <==> k == Video
    ensures r == "Reading" <==> k == Reading
    ensures r == "Assignment" <==> k == Quiz
  {
    match k
    case Video => "Video"
    case Reading => "Reading"
    case Quiz => "Assignment"
  }

  /** With lesson ids distinct across the course, at most one lesson is
      highlighted, and none when nothing is selected. */
  lemma AtMostOneSelected(curriculum: seq<CourseModule>, selectedLessonId: Option<string>)
    requires var ls := AllLessons(curriculum); forall i, j :: 0 <= i < j < |ls| ==> ls[i].id != ls[j].id
    ensures var ls := AllLessons(curriculum);
      forall i, j :: 0 <= i < |ls| && 0 <= j < |ls| && IsSelected(selectedLessonId, ls[i]) && IsSelected(selectedLessonId, ls[j]) ==> i == j
    ensures selectedLessonId.None? ==> forall l :: !IsSelected(selectedLessonId, l)
  {
  }

  /** The panel's own state: the list of expanded section ids. */
  class CurriculumView {
    const curriculum: seq<CourseModule>
    var expandedModules: seq<string>

    constructor (curriculum: seq<CourseModule>)
      ensures this.curriculum == curriculum
      ensures expandedModules == InitialExpanded(curriculum)
    {
      this.curriculum := curriculum;
      expandedModules := InitialExpanded(curriculum);
    }

    /** `expandedModules.includes(module.id)` */
    predicate IsExpanded(id: string)
      reads this
    {
      id in expandedModules
    }

    /** `toggleModule`: flips the given section and no other. */
    method ToggleModule(id: string)
      modifies this
      ensures expandedModules == Toggle(old(expandedModules), id)
      ensures IsExpanded(id) <==> !old(IsExpanded(id))
      ensures forall x :: x != id ==> (IsExpanded(x) <==> old(IsExpanded(x)))
      ensures old(NoDuplicates(expandedModules)) ==> NoDuplicates(expandedModules)
    {
      if NoDuplicates(expandedModules) {
        ToggleKeepsDistinct(expandedModules, id);
      }
      expandedModules := Toggle(expandedModules, id);
    }
  }

  /** A freshly shown panel has exactly the first section expanded. */
  lemma FirstSectionOpen(curriculum: seq<CourseModule>)
    requires curriculum != [] && curriculum[0].id != ""
    ensures forall x :: x in InitialExpanded(curriculum) <==> x == curriculum[0].id
  {
  }
}
