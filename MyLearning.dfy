/** The "My Learning" page (`src/app/my-learning/page.tsx`): the catalog
    courses whose slug is on the store's enrolled list, each given its
    curriculum from the curriculum table, and the heading and empty state
    around them. */
module MyLearning {
  import opened Types
  import opened Sequences
  import Enrollment
  import CourseCard

  /** `courseCurriculums[slug] ?? []` plus emptied reviews and related
      courses; `lastUpdated ?? undefined` keeps the field as it is. */
  function WithCurriculum(c: Course, curricula: map<string, seq<CourseModule>>): (r: Course)
    ensures r == c.(curriculum := r.curriculum, reviews := [], relatedCourses := [])
    ensures c.slug in curricula ==> r.curriculum == curricula[c.slug]
    ensures c.slug !in curricula ==> r.curriculum == []
  {
    c.(curriculum := if c.slug in curricula then curricula[c.slug] else [],
       reviews := [],
       relatedCourses := [])
  }

  /** `enrolledCoursesData`: filter the catalog by membership of the slug in
      the enrolled list, then attach the curricula. */
  function EnrolledCoursesData(catalog: seq<Course>, enrolled: seq<string>, curricula: map<string, seq<CourseModule>>): (r: seq<Course>)
    ensures |r| <= |catalog|
    ensures forall i :: 0 <= i < |r| ==> r[i].slug in enrolled
  {
    if catalog == [] then []
    else
      (if catalog[0].slug in enrolled then [WithCurriculum(catalog[0], curricula)] else [])
      + EnrolledCoursesData(catalog[1..], enrolled, curricula)
  }

  /** The page shows exactly the catalog courses with an enrolled slug, each
      with its curriculum attached. */
  lemma {:induction false} EnrolledCoursesMembers(catalog: seq<Course>, enrolled: seq<string>, curricula: map<string, seq<CourseModule>>)
    ensures forall c :: (c in EnrolledCoursesData(catalog, enrolled, curricula)
      <==> exists d :: d in catalog && d.slug in enrolled && c == WithCurriculum(d, curricula))
  {
    if catalog != [] {
      EnrolledCoursesMembers(catalog[1..], enrolled, curricula);
      assert forall d :: d in catalog <==> d == catalog[0] || d in catalog[1..] by {
        assert catalog == [catalog[0]] + catalog[1..];
      }
    }
  }

  /** The result follows catalog order: it distributes over a split catalog. */
  lemma {:induction false} EnrolledCoursesDataAppend(a: seq<Course>, b: seq<Course>, enrolled: seq<string>, curricula: map<string, seq<CourseModule>>)
    ensures EnrolledCoursesData(a + b, enrolled, curricula)
         == EnrolledCoursesData(a, enrolled, curricula) + EnrolledCoursesData(b, enrolled, curricula)
  {
    if a == [] {
      assert a + b == b;
    } else {
      var head: seq<Course> := if a[0].slug in enrolled then [WithCurriculum(a[0], curricula)] else [];
      var ra := EnrolledCoursesData(a[1..], enrolled, curricula);
      var rb := EnrolledCoursesData(b, enrolled, curricula);
      calc {
        EnrolledCoursesData(a + b, enrolled, curricula);
        { assert (a + b)[0] == a[0] && (a + b)[1..] == a[1..] + b; }
        head + EnrolledCoursesData(a[1..] + b, enrolled, curricula);
        { EnrolledCoursesDataAppend(a[1..], b, enrolled, curricula); }
        head + (ra + rb);
        (head + ra) + rb;
      }
    }
  }

  /** Only which slugs are enrolled matters: repeating a slug, or listing the
      slugs in another order, gives the same courses. */
  lemma {:induction false} OnlyEnrolledSetMatters(catalog: seq<Course>, e1: seq<string>, e2: seq<string>, curricula: map<string, seq<CourseModule>>)
    requires forall s :: s in e1 <==> s in e2
    ensures EnrolledCoursesData(catalog, e1, curricula) == EnrolledCoursesData(catalog, e2, curricula)
  {
    if catalog != [] {
      OnlyEnrolledSetMatters(catalog[1..], e1, e2, curricula);
    }
  }

  /** A slug that names no catalog course adds nothing. */
  lemma {:induction false} UnknownSlugAddsNothing(catalog: seq<Course>, enrolled: seq<string>, slug: string, curricula: map<string, seq<CourseModule>>)
    requires forall d :: d in catalog ==> d.slug != slug
    ensures EnrolledCoursesData(catalog, enrolled + [slug], curricula) == EnrolledCoursesData(catalog, enrolled, curricula)
  {
    if catalog != [] {
      assert catalog[0] in catalog;
      assert forall d :: d in catalog[1..] ==> d in catalog;
      UnknownSlugAddsNothing(catalog[1..], enrolled, slug, curricula);
    }
  }

  /** Each catalog course appears at most once, however often its slug is
      listed: a catalog without repeated courses gives a result without
      repeats. */
  lemma {:induction false} NoRepeatedCourses(catalog: seq<Course>, enrolled: seq<string>, curricula: map<string, seq<CourseModule>>)
    requires forall i, j :: 0 <= i < j < |catalog| ==> catalog[i].slug != catalog[j].slug
    ensures NoDuplicates(EnrolledCoursesData(catalog, enrolled, curricula))
  {
    if catalog != [] {
      var rest := EnrolledCoursesData(catalog[1..], enrolled, curricula);
      NoRepeatedCourses(catalog[1..], enrolled, curricula);
      EnrolledCoursesMembers(catalog[1..], enrolled, curricula);
      if catalog[0].slug in enrolled {
        var c := WithCurriculum(catalog[0], curricula);
        forall d | d in catalog[1..] ensures d.slug != catalog[0].slug {
          var j :| 0 <= j < |catalog[1..]| && catalog[1..][j] == d;
          assert catalog[j + 1] == d;
        }
        assert c !in rest;
        var r := [c] + rest;
        forall i, j | 0 <= i < j < |r| ensures r[i] != r[j] {
          if i == 0 {
            assert r[j] == rest[j - 1];
          } else {
            assert r[i] == rest[i - 1] && r[j] == rest[j - 1];
          }
        }
      }
    }
  }

  /** After the store enrolls a catalog course's slug the page lists that
      course; after it unenrolls the slug no course with that slug is listed. */
  lemma EnrollShowsCourse(catalog: seq<Course>, enrolled: seq<string>, d: Course, curricula: map<string, seq<CourseModule>>)
    requires d in catalog
    ensures WithCurriculum(d, curricula) in EnrolledCoursesData(catalog, Enrollment.EnrollInto(enrolled, d.slug), curricula)
    ensures forall c :: c in EnrolledCoursesData(catalog, Enrollment.UnenrollFrom(enrolled, d.slug), curricula) ==> c.slug != d.slug
  {
    EnrolledCoursesMembers(catalog, Enrollment.EnrollInto(enrolled, d.slug), curricula);
  }

  /** `user ? `${user.name}'s Learning Journey` : 'My Learning Journey'` */
  function Heading(user: Option<User>): (r: string)
    ensures user.Some? ==> |r| > |user.value.name| && r[..|user.value.name|] == user.value.name && r[|user.value.name|..] == "'s Learning Journey"
    ensures user.None? ==> r == "My Learning Journey"
  {
    match user
    case Some(u) => u.name + "'s Learning Journey"
    case None => "My Learning Journey"
  }

  /** The "haven't enrolled" message replaces the cards exactly when no
      catalog course has an enrolled slug. */
  predicate ShowEmptyState(data: seq<Course>) {
    |data| == 0
  }

  lemma EmptyStateIffNothingEnrolled(catalog: seq<Course>, enrolled: seq<string>, curricula: map<string, seq<CourseModule>>)
    ensures ShowEmptyState(EnrolledCoursesData(catalog, enrolled, curricula))
        <==> forall d :: d in catalog ==> d.slug !in enrolled
  {
    var r := EnrolledCoursesData(catalog, enrolled, curricula);
    EnrolledCoursesMembers(catalog, enrolled, curricula);
    if r != [] {
      assert r[0] in r;
    }
    if exists d :: d in catalog && d.slug in enrolled {
      var d :| d in catalog && d.slug in enrolled;
      assert WithCurriculum(d, curricula) in r;
    }
  }

  /** Every card on the page is given `isEnrolled={true}`, so every card
      links to the course's learning page with "Continue Learning". */
  lemma CardsContinueLearning(c: Course, enrolledIds: seq<string>)
    ensures CourseCard.CardIsEnrolled(Some(true), c.slug, enrolledIds)
    ensures CourseCard.CardLink(CourseCard.CardIsEnrolled(Some(true), c.slug, enrolledIds), c.slug)
         == CourseCard.CoursesPrefix + CourseCard.CardSlug(c.slug) + CourseCard.LearnSuffix
    ensures CourseCard.CardLabel(CourseCard.CardIsEnrolled(Some(true), c.slug, enrolledIds)) == "Continue Learning"
  {
  }
}
