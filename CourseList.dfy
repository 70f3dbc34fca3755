/** The catalog query of `src/components/CourseList.tsx`: filter the catalog by
    search text, category and level, fill in the defaults of missing fields,
    sort stably by the chosen order, and cut the result into pages of six. The
    view's own state (search text, filters, sort order, current page) is the
    class `CourseListView` at the end. */
module CourseList {
  import opened Types
  import opened JsStrings
  import opened Sequences

  const CoursesPerPage: nat := 6

  /** The "no filter" value of the category and level selects. */
  const All: string := "All"

  datatype CatalogQuery = CatalogQuery(searchTerm: string, category: string, level: string, sortBy: Option<SortOption>)

  // ---------------------------------------------------------------- filter

  /** The lower-cased search text occurs in the lower-cased title, instructor
      name or description; a course without a description cannot match on it. */
  predicate MatchesSearch(c: Course, term: string) {
    var t := ToLower(term);
    Includes(ToLower(c.title), t)
    || Includes(ToLower(c.instructorName), t)
    || (c.description.Some? && Includes(ToLower(c.description.value), t))
  }

  predicate MatchesCategory(c: Course, category: string) {
    category == All || c.category == Some(category)
  }

  predicate MatchesLevel(c: Course, level: string) {
    level == All || (c.level.Some? && LevelName(c.level.value) == level)
  }

  predicate Matches(c: Course, q: CatalogQuery) {
    MatchesSearch(c, q.searchTerm) && MatchesCategory(c, q.category) && MatchesLevel(c, q.level)
  }

  /** An empty search text matches every course. */
  lemma EmptySearchMatchesAll(c: Course)
    ensures MatchesSearch(c, "")
  {
    IncludesEmpty(ToLower(c.title));
  }

  /** `coursesMeta.filter(...)`: the courses that pass all three tests, in
      catalog order. */
  function FilterCourses(catalog: seq<Course>, q: CatalogQuery): (r: seq<Course>)
    ensures forall c :: c in r <==> c in catalog && Matches(c, q)
    ensures forall c :: multiset(r)[c] == if Matches(c, q) then multiset(catalog)[c] else 0
    ensures IsSubsequence(r, catalog)
  {
    if catalog == [] then []
    else
      var rest := FilterCourses(catalog[1..], q);
      assert multiset(catalog) == multiset{catalog[0]} + multiset(catalog[1..]) by {
        assert catalog == [catalog[0]] + catalog[1..];
      }
      assert forall c :: c in catalog <==> c == catalog[0] || c in catalog[1..] by {
        assert catalog == [catalog[0]] + catalog[1..];
      }
      if Matches(catalog[0], q) then [catalog[0]] + rest
      else
        assert rest == [] || rest[0] != catalog[0];
        rest
  }

  // ------------------------------------------------------------- normalise

  function NonEmptyString(s: Option<string>): Option<string> {
    if s == Some("") then None else s
  }

  function NonZero(n: Option<int>): Option<int> {
    if n == Some(0) then None else n
  }

  /** The `.map` step: falsy optional fields become absent, `featured` becomes
      a boolean, and the curriculum, reviews and related courses are emptied.
      Strings and numbers that are already present keep their values
      (`x || ""` and `x || 0` are the identity on a string or an integer). */
  function Normalise(c: Course): (n: Course)
    ensures n.id == c.id && n.slug == c.slug && n.title == c.title && n.price == c.price
    ensures n.featured == Some(c.featured == Some(true))
    ensures n.curriculum == [] && n.reviews == [] && n.relatedCourses == []
    ensures forall o :: SortKey(o, n) == SortKey(o, c)
  {
    c.(description := NonEmptyString(c.description),
       category := NonEmptyString(c.category),
       originalPrice := NonZero(c.originalPrice),
       reviewCount := NonZero(c.reviewCount),
       students := NonZero(c.students),
       featured := Some(c.featured == Some(true)),
       curriculum := [],
       reviews := [],
       relatedCourses := [])
  }

  /** Filling in the defaults a second time changes nothing. */
  lemma NormaliseIdempotent(c: Course)
    ensures Normalise(Normalise(c)) == Normalise(c)
  {
  }

  function NormaliseAll(s: seq<Course>): (r: seq<Course>)
    ensures |r| == |s| && forall i :: 0 <= i < |s| ==> r[i] == Normalise(s[i])
  {
    seq(|s|, i requires 0 <= i < |s| => Normalise(s[i]))
  }

  // ------------------------------------------------------------------ sort

  /** The comparator of every order has the form `key(a) - key(b)`; missing
      student counts count as 0. `None` is the `default:` branch, which
      `SortOption.Featured` also reaches: featured courses (key 0) before the
      others (key 1). */
  function SortKey(o: Option<SortOption>, c: Course): int {
    match o
    case Some(PriceLow) => c.price
    case Some(PriceHigh) => -c.price
    case Some(Rating) => -c.rating
    case Some(Students) => -c.students.GetOr(0)
    case _ => if c.featured == Some(true) then 0 else 1
  }

  predicate SortedBy(o: Option<SortOption>, s: seq<Course>) {
    forall i, j :: 0 <= i < j < |s| ==> SortKey(o, s[i]) <= SortKey(o, s[j])
  }

  /** The courses of `s` whose key is `k`, in their order in `s`. A sort is
      stable when it leaves each of these sequences as it was. */
  function WithKey(o: Option<SortOption>, s: seq<Course>, k: int): seq<Course> {
    if s == [] then []
    else (if SortKey(o, s[0]) == k then [s[0]] else []) + WithKey(o, s[1..], k)
  }

  lemma {:induction false} WithKeyMembers(o: Option<SortOption>, s: seq<Course>, k: int)
    ensures forall x :: x in WithKey(o, s, k) <==> x in s && SortKey(o, x) == k
  {
    if s != [] {
      WithKeyMembers(o, s[1..], k);
      assert s == [s[0]] + s[1..];
    }
  }

  /** Insert `x` before the first course whose key is not smaller. */
  function Insert(o: Option<SortOption>, x: Course, s: seq<Course>): seq<Course> {
    if s == [] || SortKey(o, x) <= SortKey(o, s[0]) then [x] + s
    else [s[0]] + Insert(o, x, s[1..])
  }

  lemma {:induction false} InsertPermutes(o: Option<SortOption>, x: Course, s: seq<Course>)
    ensures multiset(Insert(o, x, s)) == multiset(s) + multiset{x}
  {
    if !(s == [] || SortKey(o, x) <= SortKey(o, s[0])) {
      InsertPermutes(o, x, s[1..]);
      assert s == [s[0]] + s[1..];
    }
  }

  lemma {:induction false} InsertSorted(o: Option<SortOption>, x: Course, s: seq<Course>)
    requires SortedBy(o, s)
    ensures SortedBy(o, Insert(o, x, s))
  {
    if s == [] || SortKey(o, x) <= SortKey(o, s[0]) {
      if s != [] {
        HeadBelowRest(o, s);
      }
      SortedCons(o, x, s);
    } else {
      SortedTail(o, s);
      InsertSorted(o, x, s[1..]);
      InsertMembers(o, x, s[1..]);
      HeadBelowRest(o, s);
      SortedCons(o, s[0], Insert(o, x, s[1..]));
    }
  }

  /** In a sorted sequence no key is below the first one. */
  lemma HeadBelowRest(o: Option<SortOption>, s: seq<Course>)
    requires s != [] && SortedBy(o, s)
    ensures forall c :: c in s ==> SortKey(o, s[0]) <= SortKey(o, c)
    ensures forall c :: c in s[1..] ==> SortKey(o, s[0]) <= SortKey(o, c)
  {
    forall c | c in s ensures SortKey(o, s[0]) <= SortKey(o, c) {
      var m :| 0 <= m < |s| && s[m] == c;
      if m > 0 {
        assert SortKey(o, s[0]) <= SortKey(o, s[m]);
      }
    }
    assert forall c :: c in s[1..] ==> c in s;
  }

  /** A course whose key is at most every key of a sorted sequence can go in
      front of it. */
  lemma SortedCons(o: Option<SortOption>, h: Course, t: seq<Course>)
    requires SortedBy(o, t) && forall c :: c in t ==> SortKey(o, h) <= SortKey(o, c)
    ensures SortedBy(o, [h] + t)
  {
    var r := [h] + t;
    forall i, j | 0 <= i < j < |r| ensures SortKey(o, r[i]) <= SortKey(o, r[j]) {
      assert r[j] == t[j - 1] && t[j - 1] in t;
      if i > 0 {
        assert r[i] == t[i - 1];
      }
    }
  }

  /** The inserted sequence holds `x` and the courses of `s`, nothing else. */
  lemma InsertMembers(o: Option<SortOption>, x: Course, s: seq<Course>)
    ensures forall c :: c in Insert(o, x, s) <==> c == x || c in s
  {
    InsertPermutes(o, x, s);
    forall c ensures c in Insert(o, x, s) <==> c == x || c in s {
      assert c in Insert(o, x, s) <==> c in multiset(Insert(o, x, s));
      assert c in s <==> c in multiset(s);
    }
  }

  lemma {:induction false} InsertWithKey(o: Option<SortOption>, x: Course, s: seq<Course>, k: int)
    ensures WithKey(o, Insert(o, x, s), k) == (if SortKey(o, x) == k then [x] else []) + WithKey(o, s, k)
  {
    if s == [] || SortKey(o, x) <= SortKey(o, s[0]) {
      WithKeyCons(o, x, s, k);
    } else {
      InsertWithKey(o, x, s[1..], k);
      InsertWithKeyStep(o, x, s, k);
    }
  }

  lemma InsertWithKeyStep(o: Option<SortOption>, x: Course, s: seq<Course>, k: int)
    requires s != [] && SortKey(o, s[0]) < SortKey(o, x)
    requires WithKey(o, Insert(o, x, s[1..]), k) == (if SortKey(o, x) == k then [x] else []) + WithKey(o, s[1..], k)
    ensures WithKey(o, Insert(o, x, s), k) == (if SortKey(o, x) == k then [x] else []) + WithKey(o, s, k)
  {
    var w := WithKey(o, s[1..], k);
    var hs: seq<Course> := if SortKey(o, s[0]) == k then [s[0]] else [];
    var hx: seq<Course> := if SortKey(o, x) == k then [x] else [];
    assert Insert(o, x, s) == [s[0]] + Insert(o, x, s[1..]);
    WithKeyCons(o, s[0], Insert(o, x, s[1..]), k);
    assert WithKey(o, s, k) == hs + w;
    SwapEmpty(hs, hx, w);
  }

  lemma SwapEmpty(a: seq<Course>, b: seq<Course>, w: seq<Course>)
    requires a == [] || b == []
    ensures a + (b + w) == b + (a + w)
  {
    if a == [] {
      assert a + (b + w) == b + w == b + (a + w);
    } else {
      assert a + (b + w) == a + w == b + (a + w);
    }
  }

  /** `Array.prototype.sort` with the comparator of `o`. ES2019 requires the
      sort to be stable, which fixes the result: it is sorted by the key, a
      permutation of the input, and keeps courses with equal keys in their
      input order. */
  function SortCourses(o: Option<SortOption>, s: seq<Course>): (r: seq<Course>)
    ensures multiset(r) == multiset(s)
    ensures SortedBy(o, r)
    ensures forall k :: WithKey(o, r, k) == WithKey(o, s, k)
  {
    if s == [] then []
    else
      var rest := SortCourses(o, s[1..]);
      InsertPermutes(o, s[0], rest);
      InsertSorted(o, s[0], rest);
      assert forall k :: WithKey(o, Insert(o, s[0], rest), k) == WithKey(o, s, k) by {
        forall k { InsertWithKey(o, s[0], rest, k); }
      }
      assert s == [s[0]] + s[1..];
      Insert(o, s[0], rest)
  }

  /** What each order promises about any two positions of its result: price
      ascending or descending, rating and student count (missing counts as 0)
      descending, and in the default order no course that is not featured
      before one that is. */
  lemma SortOrderMeaning(o: Option<SortOption>, s: seq<Course>, i: int, j: int)
    requires 0 <= i < j < |SortCourses(o, s)|
    ensures var r := SortCourses(o, s);
      && (o == Some(PriceLow) ==> r[i].price <= r[j].price)
      && (o == Some(PriceHigh) ==> r[i].price >= r[j].price)
      && (o == Some(Rating) ==> r[i].rating >= r[j].rating)
      && (o == Some(Students) ==> r[i].students.GetOr(0) >= r[j].students.GetOr(0))
      && ((o.None? || o == Some(Featured)) && r[j].featured == Some(true) ==> r[i].featured == Some(true))
  {
    var r := SortCourses(o, s);
    assert SortKey(o, r[i]) <= SortKey(o, r[j]);
  }

  /** A sequence sorted by the default key is its featured courses followed by
      the others. */
  lemma {:induction false} WithKeyAbsent(o: Option<SortOption>, s: seq<Course>, k: int)
    requires forall i :: 0 <= i < |s| ==> SortKey(o, s[i]) != k
    ensures WithKey(o, s, k) == []
  {
    if s != [] {
      WithKeyAbsent(o, s[1..], k);
    }
  }

  lemma {:induction false} SortedDefaultSplits(r: seq<Course>)
    requires SortedBy(None, r)
    ensures r == WithKey(None, r, 0) + WithKey(None, r, 1)
  {
    if r != [] {
      SortedTail(None, r);
      SortedDefaultSplits(r[1..]);
      if SortKey(None, r[0]) != 0 {
        NoFeaturedAfter(r);
        WithKeyAbsent(None, r[1..], 0);
      }
      SplitsCons(r[0], r[1..]);
      assert r == [r[0]] + r[1..];
    }
  }

  /** One step of the split: a course in front of a split tail. */
  lemma SplitsCons(x: Course, tail: seq<Course>)
    requires tail == WithKey(None, tail, 0) + WithKey(None, tail, 1)
    requires SortKey(None, x) != 0 ==> WithKey(None, tail, 0) == []
    ensures [x] + tail == WithKey(None, [x] + tail, 0) + WithKey(None, [x] + tail, 1)
  {
    var w0, w1 := WithKey(None, tail, 0), WithKey(None, tail, 1);
    WithKeyCons(None, x, tail, 0);
    WithKeyCons(None, x, tail, 1);
    if SortKey(None, x) == 0 {
      assert [x] + (w0 + w1) == ([x] + w0) + w1;
    }
  }

  lemma WithKeyCons(o: Option<SortOption>, x: Course, s: seq<Course>, k: int)
    ensures WithKey(o, [x] + s, k) == (if SortKey(o, x) == k then [x] else []) + WithKey(o, s, k)
  {
    assert ([x] + s)[0] == x && ([x] + s)[1..] == s;
  }

  lemma SortedTail(o: Option<SortOption>, r: seq<Course>)
    requires r != [] && SortedBy(o, r)
    ensures SortedBy(o, r[1..])
  {
    var tail := r[1..];
    forall i, j | 0 <= i < j < |tail| ensures SortKey(o, tail[i]) <= SortKey(o, tail[j]) {
      assert tail[i] == r[i + 1] && tail[j] == r[j + 1];
    }
  }

  /** In the default order nothing featured follows a course that is not. */
  lemma NoFeaturedAfter(r: seq<Course>)
    requires r != [] && SortedBy(None, r) && SortKey(None, r[0]) != 0
    ensures forall i :: 0 <= i < |r[1..]| ==> SortKey(None, r[1..][i]) != 0
  {
    var tail := r[1..];
    forall i | 0 <= i < |tail| ensures SortKey(None, tail[i]) != 0 {
      assert tail[i] == r[i + 1];
      assert SortKey(None, r[0]) <= SortKey(None, r[i + 1]);
    }
  }

  /** The default order is a stable partition: the featured courses in their
      input order, then the others in their input order. */
  lemma DefaultOrderIsStablePartition(s: seq<Course>)
    ensures SortCourses(None, s) == WithKey(None, s, 0) + WithKey(None, s, 1)
    ensures forall c :: c in WithKey(None, s, 0) <==> c in s && c.featured == Some(true)
  {
    SortedDefaultSplits(SortCourses(None, s));
    WithKeyMembers(None, s, 0);
  }

  lemma {:induction false} InsertSameKeys(o1: Option<SortOption>, o2: Option<SortOption>, x: Course, s: seq<Course>)
    requires forall c :: SortKey(o1, c) == SortKey(o2, c)
    ensures Insert(o1, x, s) == Insert(o2, x, s)
  {
    if s != [] {
      InsertSameKeys(o1, o2, x, s[1..]);
    }
  }

  /** Two orders with the same key give the same result. */
  lemma {:induction false} SameKeysSameSort(o1: Option<SortOption>, o2: Option<SortOption>, s: seq<Course>)
    requires forall c :: SortKey(o1, c) == SortKey(o2, c)
    ensures SortCourses(o1, s) == SortCourses(o2, s)
  {
    if s != [] {
      SameKeysSameSort(o1, o2, s[1..]);
      InsertSameKeys(o1, o2, s[0], SortCourses(o1, s[1..]));
    }
  }

  /** `SortOption.Featured` has no case of its own: it sorts exactly as an
      absent sort option does. */
  lemma FeaturedIsDefault(s: seq<Course>)
    ensures SortCourses(Some(Featured), s) == SortCourses(None, s)
  {
    SameKeysSameSort(Some(Featured), None, s);
  }

  /** When the key tells the courses of `a` apart, a sorted order of them
      is unique: any sorted permutation of `a` is `a` itself. */
  lemma {:induction false} SortedPermutationUnique(o: Option<SortOption>, a: seq<Course>, b: seq<Course>)
    requires SortedBy(o, a) && SortedBy(o, b) && multiset(a) == multiset(b)
    requires forall x, y :: x in a && y in a && SortKey(o, x) == SortKey(o, y) ==> x == y
    ensures a == b
  {
    assert |a| == |multiset(a)| == |multiset(b)| == |b|;
    if a != [] {
      SortedHeadsAgree(o, a, b);
      MultisetCons(a);
      MultisetCons(b);
      SortedTail(o, a);
      SortedTail(o, b);
      assert forall x :: x in a[1..] ==> x in a;
      SortedPermutationUnique(o, a[1..], b[1..]);
      HeadAndTail(a, b);
    }
  }

  lemma SortedHeadsAgree(o: Option<SortOption>, a: seq<Course>, b: seq<Course>)
    requires a != [] && b != [] && SortedBy(o, a) && SortedBy(o, b) && multiset(a) == multiset(b)
    requires forall x, y :: x in a && y in a && SortKey(o, x) == SortKey(o, y) ==> x == y
    ensures a[0] == b[0]
  {
    assert a[0] in multiset(b) && b[0] in multiset(a);
    HeadBelowRest(o, a);
    HeadBelowRest(o, b);
  }

  lemma MultisetCons(a: seq<Course>)
    requires a != []
    ensures multiset(a[1..]) == multiset(a) - multiset{a[0]}
  {
    assert a == [a[0]] + a[1..];
  }

  /** For a list whose prices are all different, sorting from low to high and
      reversing gives the sort from high to low. */
  lemma PriceLowReversedIsPriceHigh(s: seq<Course>)
    requires forall i, j :: 0 <= i < j < |s| ==> s[i].price != s[j].price
    ensures Reverse(SortCourses(Some(PriceLow), s)) == SortCourses(Some(PriceHigh), s)
  {
    var low := SortCourses(Some(PriceLow), s);
    var rev := Reverse(low);
    ReversedLowIsSortedHigh(low);
    PricesTellApart(s, rev);
    SortedPermutationUnique(Some(PriceHigh), rev, SortCourses(Some(PriceHigh), s));
  }

  lemma ReversedLowIsSortedHigh(low: seq<Course>)
    requires SortedBy(Some(PriceLow), low)
    ensures SortedBy(Some(PriceHigh), Reverse(low))
  {
    var rev := Reverse(low);
    forall i, j | 0 <= i < j < |rev| ensures SortKey(Some(PriceHigh), rev[i]) <= SortKey(Some(PriceHigh), rev[j]) {
      assert SortKey(Some(PriceLow), low[|low| - 1 - j]) <= SortKey(Some(PriceLow), low[|low| - 1 - i]);
    }
  }

  /** Among the courses of a list whose prices all differ, the price tells
      the courses apart, in any permutation of it. */
  lemma PricesTellApart(s: seq<Course>, t: seq<Course>)
    requires forall i, j :: 0 <= i < j < |s| ==> s[i].price != s[j].price
    requires multiset(t) == multiset(s)
    ensures forall x, y :: x in t && y in t && SortKey(Some(PriceHigh), x) == SortKey(Some(PriceHigh), y) ==> x == y
  {
    forall x, y | x in t && y in t && SortKey(Some(PriceHigh), x) == SortKey(Some(PriceHigh), y) ensures x == y {
      assert x in multiset(s) && y in multiset(s);
      var p :| 0 <= p < |s| && s[p] == x;
      var q :| 0 <= q < |s| && s[q] == y;
      assert p == q;
    }
  }

  /** The `.filter(...).map(...).sort(...)` chain: the normalised courses that
      pass the filter, reordered by the chosen order, with ties in catalog
      order. */
  function FilteredCourses(catalog: seq<Course>, q: CatalogQuery): (r: seq<Course>)
    ensures multiset(r) == multiset(NormaliseAll(FilterCourses(catalog, q)))
    ensures SortedBy(q.sortBy, r)
    ensures forall k :: WithKey(q.sortBy, r, k) == WithKey(q.sortBy, NormaliseAll(FilterCourses(catalog, q)), k)
  {
    SortCourses(q.sortBy, NormaliseAll(FilterCourses(catalog, q)))
  }

  lemma NormaliseAllMembers(s: seq<Course>)
    ensures forall c :: c in NormaliseAll(s) <==> exists d :: d in s && c == Normalise(d)
  {
    var n := NormaliseAll(s);
    forall c | c in n ensures exists d :: d in s && c == Normalise(d) {
      var i :| 0 <= i < |n| && n[i] == c;
      assert s[i] in s;
    }
    forall d | d in s ensures Normalise(d) in n {
      var i :| 0 <= i < |s| && s[i] == d;
      assert n[i] == Normalise(d);
    }
  }

  /** The result holds one course per catalog course that passes the filter,
      and its courses are exactly the normalised forms of those. */
  lemma FilteredCoursesMembers(catalog: seq<Course>, q: CatalogQuery)
    ensures |FilteredCourses(catalog, q)| == |FilterCourses(catalog, q)|
    ensures forall c :: c in FilteredCourses(catalog, q) <==> exists d :: d in catalog && Matches(d, q) && c == Normalise(d)
  {
    var kept := FilterCourses(catalog, q);
    var n := NormaliseAll(kept);
    var r := FilteredCourses(catalog, q);
    assert |r| == |n| by {
      assert |multiset(r)| == |multiset(n)|;
    }
    assert forall c :: c in r <==> c in n by {
      forall c ensures c in r <==> c in n {
        assert c in r <==> c in multiset(r);
        assert c in n <==> c in multiset(n);
      }
    }
    NormaliseAllMembers(kept);
  }

  // ------------------------------------------------------------ categories

  function CategoriesOf(catalog: seq<Course>): (r: seq<Option<string>>)
    ensures |r| == |catalog| && forall i :: 0 <= i < |r| ==> r[i] == catalog[i].category
  {
    seq(|catalog|, i requires 0 <= i < |catalog| => catalog[i].category)
  }

  /** `.filter((cat) => typeof cat === "string")`: drop the absent ones. */
  function PresentValues(s: seq<Option<string>>): (r: seq<string>)
    ensures forall x :: x in r <==> Some(x) in s
    ensures NoDuplicates(s) ==> NoDuplicates(r)
  {
    if s == [] then []
    else
      var rest := PresentValues(s[1..]);
      assert forall v :: v in s <==> v == s[0] || v in s[1..] by {
        assert s == [s[0]] + s[1..];
      }
      match s[0]
      case None => rest
      case Some(x) => [x] + rest
  }

  /** Dropping the absent values from a list without repeats keeps the
      order in which the present ones first occur. */
  lemma {:induction false} PresentValuesOrder(s: seq<Option<string>>)
    requires NoDuplicates(s)
    ensures forall i :: 0 <= i < |PresentValues(s)| ==> Some(PresentValues(s)[i]) in s
    ensures forall i, j :: 0 <= i < j < |PresentValues(s)| ==>
      IndexOf(s, Some(PresentValues(s)[i])) < IndexOf(s, Some(PresentValues(s)[j]))
  {
    var r := PresentValues(s);
    PresentValuesIn(s);
    if s != [] {
      var t := s[1..];
      var rt := PresentValues(t);
      NoDuplicatesTail(s);
      PresentValuesOrder(t);
      var head := if s[0].Some? then [s[0].value] else [];
      PresentValuesCons(s);
      forall i, j | 0 <= i < j < |r| ensures IndexOf(s, Some(r[i])) < IndexOf(s, Some(r[j])) {
        PresentValuesOrderStep(s, head, rt, i, j);
      }
    }
  }

  lemma PresentValuesIn(s: seq<Option<string>>)
    ensures forall i :: 0 <= i < |PresentValues(s)| ==> Some(PresentValues(s)[i]) in s
  {
    var r := PresentValues(s);
    forall i | 0 <= i < |r| ensures Some(r[i]) in s {
      assert r[i] in r;
    }
  }

  lemma PresentValuesOrderStep(s: seq<Option<string>>, head: seq<string>, rt: seq<string>, i: int, j: int)
    requires s != [] && s[0] !in s[1..]
    requires head == if s[0].Some? then [s[0].value] else []
    requires 0 <= i < j < |head| + |rt|
    requires forall a :: 0 <= a < |rt| ==> Some(rt[a]) in s[1..]
    requires forall a, b :: 0 <= a < b < |rt| ==> IndexOf(s[1..], Some(rt[a])) < IndexOf(s[1..], Some(rt[b]))
    ensures Some((head + rt)[i]) in s && Some((head + rt)[j]) in s
    ensures IndexOf(s, Some((head + rt)[i])) < IndexOf(s, Some((head + rt)[j]))
  {
    ConsIndex(head, rt, j);
    IndexOfTail(s, Some(rt[j - |head|]));
    if i >= |head| {
      ConsIndex(head, rt, i);
      IndexOfTail(s, Some(rt[i - |head|]));
    }
  }

  /** The present values of a list are its head's value, if any, followed by
      those of its tail. */
  lemma PresentValuesCons(s: seq<Option<string>>)
    requires s != []
    ensures PresentValues(s) == (if s[0].Some? then [s[0].value] else []) + PresentValues(s[1..])
  {
  }

  lemma ConsIndex(head: seq<string>, rest: seq<string>, k: int)
    requires |head| <= k < |head| + |rest|
    ensures (head + rest)[k] == rest[k - |head|]
  {
  }

  lemma IndexOfTail(s: seq<Option<string>>, v: Option<string>)
    requires s != [] && v in s[1..] && v != s[0]
    ensures v in s && IndexOf(s, v) == 1 + IndexOf(s[1..], v)
  {
  }

  /** The index of the first course in the catalog with category `x`, or the
      catalog's length when no course has it. */
  function FirstUse(catalog: seq<Course>, x: string): (k: nat)
    ensures k <= |catalog|
    ensures k < |catalog| ==> catalog[k].category == Some(x)
    ensures forall n :: 0 <= n < k ==> catalog[n].category != Some(x)
  {
    if catalog == [] then 0
    else if catalog[0].category == Some(x) then 0
    else 1 + FirstUse(catalog[1..], x)
  }

  /** The categories de-duplicated and filtered come in order of first use. */
  lemma CategoriesOrder(catalog: seq<Course>)
    ensures var pv := PresentValues(Dedup(CategoriesOf(catalog)));
      forall i, j :: 0 <= i < j < |pv| ==> FirstUse(catalog, pv[i]) < FirstUse(catalog, pv[j])
  {
    var cats := CategoriesOf(catalog);
    var d := Dedup(cats);
    var pv := PresentValues(d);
    PresentValuesOrder(d);
    DedupFirstOccurrenceOrder(cats);
    forall i, j | 0 <= i < j < |pv| ensures FirstUse(catalog, pv[i]) < FirstUse(catalog, pv[j]) {
      var a := IndexOf(d, Some(pv[i]));
      var b := IndexOf(d, Some(pv[j]));
      assert IndexOf(cats, d[a]) < IndexOf(cats, d[b]);
      FirstUseIsIndexOf(catalog, pv[i]);
      FirstUseIsIndexOf(catalog, pv[j]);
    }
  }

  lemma FirstUseIsIndexOf(catalog: seq<Course>, x: string)
    requires Some(x) in CategoriesOf(catalog)
    ensures FirstUse(catalog, x) == IndexOf(CategoriesOf(catalog), Some(x))
  {
  }

  /** "All", then every category the catalog uses, once each, in order of
      first use (the order of `Dedup`). A course without a category adds
      nothing; a category literally named "All" would be listed twice. */
  function Categories(catalog: seq<Course>): (r: seq<string>)
    ensures |r| >= 1 && r[0] == All
    ensures NoDuplicates(r[1..])
    ensures forall x :: x in r[1..] <==> exists c :: c in catalog && c.category == Some(x)
    ensures forall i, j :: 1 <= i < j < |r| ==> FirstUse(catalog, r[i]) < FirstUse(catalog, r[j])
  {
    var cats := CategoriesOf(catalog);
    var r := [All] + PresentValues(Dedup(cats));
    assert r[1..] == PresentValues(Dedup(cats));
    CategoriesOrder(catalog);
    assert forall i :: 1 <= i < |r| ==> r[i] == r[1..][i - 1];
    forall x ensures x in r[1..] <==> exists c :: c in catalog && c.category == Some(x) {
      if Some(x) in cats {
        var i :| 0 <= i < |cats| && cats[i] == Some(x);
        assert catalog[i] in catalog;
      }
      if exists c :: c in catalog && c.category == Some(x) {
        var c :| c in catalog && c.category == Some(x);
        var i :| 0 <= i < |catalog| && catalog[i] == c;
        assert cats[i] == Some(x);
      }
    }
    r
  }

  // ------------------------------------------------------------ pagination

  /** `Math.ceil(n / coursesPerPage)` */
  function TotalPages(n: nat): (t: nat)
    ensures n <= t * CoursesPerPage
    ensures n > 0 ==> (t - 1) * CoursesPerPage < n
    ensures t == 0 <==> n == 0
  {
    (n + CoursesPerPage - 1) / CoursesPerPage
  }

  /** `filteredCourses.slice(startIndex, startIndex + coursesPerPage)` with
      `startIndex = (page - 1) * coursesPerPage`. */
  function PageOf(s: seq<Course>, page: int): seq<Course> {
    var start := (page - 1) * CoursesPerPage;
    JsSlice(s, start, start + CoursesPerPage)
  }

  /** Page `p` holds the courses at positions `(p-1)*6` up to `min(p*6, n)`;
      each page up to the last is non-empty and holds at most six. */
  lemma PageContents(s: seq<Course>, p: int)
    requires 1 <= p <= TotalPages(|s|)
    ensures (p - 1) * CoursesPerPage < Min(p * CoursesPerPage, |s|)
    ensures PageOf(s, p) == s[(p - 1) * CoursesPerPage..Min(p * CoursesPerPage, |s|)]
    ensures 1 <= |PageOf(s, p)| <= CoursesPerPage
  {
    var t := TotalPages(|s|);
    assert (p - 1) * CoursesPerPage <= (t - 1) * CoursesPerPage;
    JsSliceNonNegative(s, (p - 1) * CoursesPerPage, (p - 1) * CoursesPerPage + CoursesPerPage);
  }

  /** Pages `1..k` one after the other. */
  function PagesUpTo(s: seq<Course>, k: nat): seq<Course> {
    if k == 0 then [] else PagesUpTo(s, k - 1) + PageOf(s, k)
  }

  lemma {:induction false} PagesUpToIsPrefix(s: seq<Course>, k: nat)
    ensures PagesUpTo(s, k) == s[..Min(k * CoursesPerPage, |s|)]
  {
    if k > 0 {
      var a, b := Min((k - 1) * CoursesPerPage, |s|), Min(k * CoursesPerPage, |s|);
      PagesUpToIsPrefix(s, k - 1);
      PageIsSlice(s, k);
      PrefixAppend(s, a, b, PagesUpTo(s, k - 1), PageOf(s, k), PagesUpTo(s, k));
    }
  }

  lemma PageIsSlice(s: seq<Course>, k: nat)
    requires k >= 1
    ensures Min((k - 1) * CoursesPerPage, |s|) <= Min(k * CoursesPerPage, |s|)
    ensures PageOf(s, k) == s[Min((k - 1) * CoursesPerPage, |s|)..Min(k * CoursesPerPage, |s|)]
  {
    var lo := (k - 1) * CoursesPerPage;
    assert lo + CoursesPerPage == k * CoursesPerPage;
    JsSliceNonNegative(s, lo, lo + CoursesPerPage);
  }

  lemma PrefixAppend(s: seq<Course>, a: int, b: int, prev: seq<Course>, page: seq<Course>, whole: seq<Course>)
    requires 0 <= a <= b <= |s|
    requires prev == s[..a] && page == s[a..b] && whole == prev + page
    ensures whole == s[..b]
  {
  }

  /** Pages `1..totalPages` put together are the whole list, with no gap and no
      overlap. */
  lemma PagesCoverAll(s: seq<Course>)
    ensures PagesUpTo(s, TotalPages(|s|)) == s
  {
    PagesUpToIsPrefix(s, TotalPages(|s|));
  }

  /** A page past the last one is empty. */
  lemma PageBeyondLastIsEmpty(s: seq<Course>, p: int)
    requires p > TotalPages(|s|)
    ensures PageOf(s, p) == []
  {
    JsSliceNonNegative(s, (p - 1) * CoursesPerPage, (p - 1) * CoursesPerPage + CoursesPerPage);
  }

  // ----------------------------------------------------------- sort select

  /** The `value` of each `<option>` of the sort select: the enum's values. */
  function SortOptionValue(o: SortOption): string {
    match o
    case Featured => "featured"
    case Rating => "rating"
    case Students => "students"
    case PriceLow => "price-low"
    case PriceHigh => "price-high"
  }

  /** The enum's member names. */
  function SortOptionName(o: SortOption): string {
    match o
    case Featured => "Featured"
    case Rating => "Rating"
    case Students => "Students"
    case PriceLow => "PriceLow"
    case PriceHigh => "PriceHigh"
  }

  /** `SortOption[sort as keyof typeof SortOption]`, as written: a string enum
      has no reverse mapping, so the lookup finds a member only by its name. */
  function SortOptionByName(name: string): (r: Option<SortOption>)
    ensures r.Some? ==> SortOptionName(r.value) == name
    ensures r.None? ==> forall o :: SortOptionName(o) != name
  {
    match name
    case "Featured" => Some(Featured)
    case "Rating" => Some(Rating)
    case "Students" => Some(Students)
    case "PriceLow" => Some(PriceLow)
    case "PriceHigh" => Some(PriceHigh)
    case _ => None
  }

  /** Every value the select can send misses the lookup, so every choice made
      in the select sorts in the featured order. */
  lemma SelectValueMissesLookup(o: SortOption, s: seq<Course>)
    ensures SortOptionByName(SortOptionValue(o)) == None
    ensures SortCourses(SortOptionByName(SortOptionValue(o)), s) == SortCourses(Some(Featured), s)
  {
    forall p ensures SortOptionName(p) != SortOptionValue(o) {
      NameIsNotValue(p, o);
    }
    FeaturedIsDefault(s);
  }

  /** Member names start with a capital letter, select values do not. */
  lemma NameIsNotValue(p: SortOption, o: SortOption)
    ensures SortOptionName(p) != SortOptionValue(o)
  {
    assert SortOptionName(p)[0] != SortOptionValue(o)[0];
  }

  /** A concrete case: choosing "Price: Low to High" leaves a dearer course
      before a cheaper one. */
  lemma PriceLowChoiceDoesNotSortByPrice(a: Course, b: Course)
    requires a.price > b.price && a.featured == b.featured
    ensures SortCourses(SortOptionByName(SortOptionValue(PriceLow)), [a, b]) == [a, b]
    ensures SortCourses(Some(PriceLow), [a, b]) == [b, a]
  {
    SelectChoiceKeepsPair(PriceLow, a, b);
    SortPair(Some(PriceLow), a, b);
  }

  /** Whatever is chosen in the select, two courses that are both featured or
      both not stay in their order. */
  lemma SelectChoiceKeepsPair(o: SortOption, a: Course, b: Course)
    requires a.featured == b.featured
    ensures SortCourses(SortOptionByName(SortOptionValue(o)), [a, b]) == [a, b]
  {
    SelectValueMissesLookup(o, [a, b]);
    SortPair(Some(Featured), a, b);
  }

  /** Two courses come out swapped exactly when the second has the smaller
      key. */
  lemma SortPair(o: Option<SortOption>, a: Course, b: Course)
    ensures SortCourses(o, [a, b]) == if SortKey(o, b) < SortKey(o, a) then [b, a] else [a, b]
  {
    SortSingle(o, b);
    assert [a, b][1..] == [b];
    assert SortCourses(o, [a, b]) == Insert(o, a, [b]);
  }

  lemma SortSingle(o: Option<SortOption>, b: Course)
    ensures SortCourses(o, [b]) == [b]
  {
    assert [b][1..] == [];
    assert SortCourses(o, [b]) == Insert(o, b, []);
  }

  /** The intended mapping from a select value to the sort option. */
  function SortOptionFromValue(value: string): (r: Option<SortOption>)
    ensures r.Some? ==> SortOptionValue(r.value) == value
    ensures r.None? ==> forall o :: SortOptionValue(o) != value
  {
    match value
    case "featured" => Some(Featured)
    case "rating" => Some(Rating)
    case "students" => Some(Students)
    case "price-low" => Some(PriceLow)
    case "price-high" => Some(PriceHigh)
    case _ => None
  }

  /** The corrected mapping recovers every option from its select value. */
  lemma SortOptionValueRoundTrip(o: SortOption)
    ensures SortOptionFromValue(SortOptionValue(o)) == Some(o)
  {
  }

  // ------------------------------------------------------------ view state

  /** The state of the catalog view. `coursesMeta` is the fixed catalog; the
      page-reset effect is applied together with the change that triggers it,
      and, as React skips a state update to the same value, only when the value
      actually changes. */
  class CourseListView {
    const catalog: seq<Course>
    var searchTerm: string
    var selectedCategory: string
    var selectedLevel: string
    var sortBy: Option<SortOption>
    var currentPage: int

    function Query(): CatalogQuery
      reads this
    {
      CatalogQuery(searchTerm, selectedCategory, selectedLevel, sortBy)
    }

    function Shown(): seq<Course>
      reads this
    {
      FilteredCourses(catalog, Query())
    }

    function PageCount(): nat
      reads this
    {
      TotalPages(|Shown()|)
    }

    function CurrentPageCourses(): seq<Course>
      reads this
    {
      PageOf(Shown(), currentPage)
    }

    /** The page controls render only when there is more than one page. */
    predicate ShowPagination()
      reads this
    {
      PageCount() > 1
    }

    /** The current page is 1 or one of the existing pages. */
    ghost predicate Valid()
      reads this
    {
      1 <= currentPage && (currentPage == 1 || currentPage <= PageCount())
    }

    constructor (catalog: seq<Course>)
      ensures this.catalog == catalog
      ensures searchTerm == "" && selectedCategory == All && selectedLevel == All
      ensures sortBy == Some(Featured) && currentPage == 1
      ensures Valid()
    {
      this.catalog := catalog;
      searchTerm := "";
      selectedCategory := All;
      selectedLevel := All;
      sortBy := Some(Featured);
      currentPage := 1;
    }

    method SetSearchTerm(t: string)
      modifies this
      ensures searchTerm == t
      ensures currentPage == if old(searchTerm) == t then old(currentPage) else 1
      ensures selectedCategory == old(selectedCategory) && selectedLevel == old(selectedLevel) && sortBy == old(sortBy)
      ensures old(Valid()) ==> Valid()
    {
      if t != searchTerm {
        searchTerm, currentPage := t, 1;
      }
    }

    method SetSelectedCategory(c: string)
      modifies this
      ensures selectedCategory == c
      ensures currentPage == if old(selectedCategory) == c then old(currentPage) else 1
      ensures searchTerm == old(searchTerm) && selectedLevel == old(selectedLevel) && sortBy == old(sortBy)
      ensures old(Valid()) ==> Valid()
    {
      if c != selectedCategory {
        selectedCategory, currentPage := c, 1;
      }
    }

    method SetSelectedLevel(l: string)
      modifies this
      ensures selectedLevel == l
      ensures currentPage == if old(selectedLevel) == l then old(currentPage) else 1
      ensures searchTerm == old(searchTerm) && selectedCategory == old(selectedCategory) && sortBy == old(sortBy)
      ensures old(Valid()) ==> Valid()
    {
      if l != selectedLevel {
        selectedLevel, currentPage := l, 1;
      }
    }

    method SetSortBy(o: Option<SortOption>)
      modifies this
      ensures sortBy == o
      ensures currentPage == if old(sortBy) == o then old(currentPage) else 1
      ensures searchTerm == old(searchTerm) && selectedCategory == old(selectedCategory) && selectedLevel == old(selectedLevel)
      ensures old(Valid()) ==> Valid()
    {
      if o != sortBy {
        sortBy, currentPage := o, 1;
      }
    }

    /** The sort select's change handler, with the intended value mapping. */
    method SelectSortValue(value: string)
      modifies this
      ensures sortBy == SortOptionFromValue(value)
      ensures currentPage == if old(sortBy) == sortBy then old(currentPage) else 1
      ensures searchTerm == old(searchTerm) && selectedCategory == old(selectedCategory) && selectedLevel == old(selectedLevel)
      ensures old(Valid()) ==> Valid()
    {
      SetSortBy(SortOptionFromValue(value));
    }

    /** The previous-page button: never below page 1. */
    method PreviousPage()
      modifies this
      ensures currentPage == if old(currentPage) - 1 < 1 then 1 else old(currentPage) - 1
      ensures Query() == old(Query())
      ensures old(Valid()) ==> Valid()
    {
      currentPage := if currentPage - 1 < 1 then 1 else currentPage - 1;
    }

    /** The next-page button, present only when there is more than one page:
        never beyond the last page. */
    method NextPage()
      requires ShowPagination()
      modifies this
      ensures currentPage == if old(currentPage) + 1 < PageCount() then old(currentPage) + 1 else PageCount()
      ensures Query() == old(Query())
      ensures old(Valid()) ==> Valid() && currentPage <= PageCount()
    {
      currentPage := if currentPage + 1 < PageCount() then currentPage + 1 else PageCount();
    }

    /** A numbered page button; the buttons are `1..totalPages`. */
    method GoToPage(page: int)
      requires 1 <= page <= PageCount()
      modifies this
      ensures currentPage == page && Query() == old(Query())
      ensures Valid()
    {
      currentPage := page;
    }

    /** `resetFilters` */
    method ResetFilters()
      modifies this
      ensures searchTerm == "" && selectedCategory == All && selectedLevel == All
      ensures sortBy == Some(Featured) && currentPage == 1
      ensures Valid()
    {
      searchTerm, selectedCategory, selectedLevel := "", All, All;
      sortBy, currentPage := Some(Featured), 1;
    }
  }

  /** In a valid state the current page of a non-empty list shows something. */
  lemma ValidPageNonEmpty(s: seq<Course>, page: int)
    requires 1 <= page && (page == 1 || page <= TotalPages(|s|))
    requires s != []
    ensures 1 <= |PageOf(s, page)| <= CoursesPerPage
  {
    PageContents(s, page);
  }
}
