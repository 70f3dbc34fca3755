/** The enrollment store of `src/store/enrollment.ts`: a process-wide record
    holding the current user (or none) and the list of enrolled course slugs.
    `enrollCourse` and `unenrollCourse` replace both the list and the user's
    own copy of it; `setUser` replaces the user and copies the user's list. */
module Enrollment {
  import opened Types
  import opened Sequences

  /** `[...new Set([...list, slug])]` */
  function EnrollInto(list: seq<string>, slug: string): (r: seq<string>)
    ensures slug in r
    ensures NoDuplicates(r)
    ensures r == Dedup(list) + (if slug in list then [] else [slug])
    ensures forall s :: s in r <==> s in list || s == slug
  {
    DedupAppend(list, slug);
    Dedup(list + [slug])
  }

  /** `list.filter((s) => s !== slug)` */
  function UnenrollFrom(list: seq<string>, slug: string): (r: seq<string>)
    ensures slug !in r
    ensures forall s :: s != slug ==> multiset(r)[s] == multiset(list)[s]
  {
    RemoveAll(list, slug)
  }

  /** The user update shared by both actions: a missing user stays missing, a
      present one gets `update` applied to its own list and keeps every other
      field. */
  function EnrollUser(user: Option<User>, slug: string): (r: Option<User>)
    ensures r.None? <==> user.None?
    ensures user.Some? ==> r.value == user.value.(enrolledCourses := EnrollInto(user.value.enrolledCourses, slug))
  {
    match user
    case None => None
    case Some(u) => Some(u.(enrolledCourses := EnrollInto(u.enrolledCourses, slug)))
  }

  function UnenrollUser(user: Option<User>, slug: string): (r: Option<User>)
    ensures r.None? <==> user.None?
    ensures user.Some? ==> r.value == user.value.(enrolledCourses := UnenrollFrom(user.value.enrolledCourses, slug))
  {
    match user
    case None => None
    case Some(u) => Some(u.(enrolledCourses := UnenrollFrom(u.enrolledCourses, slug)))
  }

  /** `user?.enrolledCourses || []`: an array is always truthy, so this is the
      user's own list, or the empty list when there is no user. */
  function ListOfUser(user: Option<User>): seq<string> {
    match user
    case None => []
    case Some(u) => u.enrolledCourses
  }

  /** Enrolling twice in the same course is the same as enrolling once. */
  lemma EnrollIdempotent(list: seq<string>, slug: string)
    ensures EnrollInto(EnrollInto(list, slug), slug) == EnrollInto(list, slug)
  {
    var once := EnrollInto(list, slug);
    DedupOfDistinct(once);
  }

  /** Enrolling in a course already on a duplicate-free list changes nothing. */
  lemma EnrollPresent(list: seq<string>, slug: string)
    requires NoDuplicates(list) && slug in list
    ensures EnrollInto(list, slug) == list
  {
    DedupOfDistinct(list);
  }

  /** Unenrolling keeps every other entry in its relative order, and
      unenrolling from a course not on the list changes nothing. */
  lemma UnenrollKeepsOthers(list: seq<string>, slug: string)
    ensures IsSubsequence(UnenrollFrom(list, slug), list)
    ensures slug !in list ==> UnenrollFrom(list, slug) == list
  {
    RemoveAllIsSubsequence(list, slug);
    if slug !in list {
      RemoveAllAbsent(list, slug);
    }
  }

  /** On a duplicate-free list without `slug`, enrolling and then unenrolling
      restores the original list. */
  lemma EnrollThenUnenroll(list: seq<string>, slug: string)
    requires NoDuplicates(list) && slug !in list
    ensures UnenrollFrom(EnrollInto(list, slug), slug) == list
  {
    DedupOfDistinct(list);
    RemoveAllAppend(list, [slug], slug);
    RemoveAllAbsent(list, slug);
    assert RemoveAll([slug], slug) == [];
  }

  class EnrollmentStore {
    var user: Option<User>
    var enrolledCourses: seq<string>

    /** The list the store keeps and the user's own copy agree. */
    ghost predicate Synced()
      reads this
    {
      user.Some? ==> user.value.enrolledCourses == enrolledCourses
    }

    /** The store starts with no user and no enrolled courses. */
    constructor ()
      ensures user == None && enrolledCourses == []
      ensures Synced()
    {
      user := None;
      enrolledCourses := [];
    }

    method EnrollCourse(slug: string)
      modifies this
      ensures enrolledCourses == EnrollInto(old(enrolledCourses), slug)
      ensures user == EnrollUser(old(user), slug)
      ensures slug in enrolledCourses && NoDuplicates(enrolledCourses)
      ensures old(Synced()) ==> Synced()
    {
      enrolledCourses, user := EnrollInto(enrolledCourses, slug), EnrollUser(user, slug);
    }

    method UnenrollCourse(slug: string)
      modifies this
      ensures enrolledCourses == UnenrollFrom(old(enrolledCourses), slug)
      ensures user == UnenrollUser(old(user), slug)
      ensures slug !in enrolledCourses
      ensures old(NoDuplicates(enrolledCourses)) ==> NoDuplicates(enrolledCourses)
      ensures old(Synced()) ==> Synced()
    {
      if NoDuplicates(enrolledCourses) {
        RemoveAllDistinct(enrolledCourses, slug);
      }
      enrolledCourses, user := UnenrollFrom(enrolledCourses, slug), UnenrollUser(user, slug);
    }

    method SetUser(u: Option<User>)
      modifies this
      ensures user == u
      ensures enrolledCourses == ListOfUser(u)
      ensures Synced()
    {
      user, enrolledCourses := u, ListOfUser(u);
    }
  }
}
