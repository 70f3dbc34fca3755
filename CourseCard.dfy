/** The decisions of the course card (`src/components/course-list/CourseCard.tsx`):
    whether the course counts as enrolled, where its button leads and what it
    says, the discount badge and struck-through price, the skill chips, and
    the comparator that lets React skip a re-render. Prices are integers in
    the smallest currency unit, and the discount is computed exactly. */
module CourseCard {
  import opened Types
  import opened JsStrings
  import opened Sequences

  /** The card's props: the course and the optional `isEnrolled` flag. */
  datatype CardProps = CardProps(course: Course, isEnrolled: Option<bool>)

  /** `propIsEnrolled ?? enrolledCourseIds.includes(course.slug ?? '')`:
      an explicit flag wins; without one, membership of the untrimmed slug. */
  function CardIsEnrolled(prop: Option<bool>, slug: string, enrolledIds: seq<string>): (r: bool)
    ensures prop.Some? ==> r == prop.value
    ensures prop.None? ==> (r <==> slug in enrolledIds)
  {
    match prop
    case Some(b) => b
    case None => slug in enrolledIds
  }

  /** `course.slug?.trim() || ''` */
  function CardSlug(slug: string): (r: string)
    ensures |r| <= |slug|
    ensures exists i :: CutFrom(slug, r, i)
    ensures r != [] ==> !IsWhitespace(r[0]) && !IsWhitespace(r[|r| - 1])
    ensures NoWhitespace(slug) ==> r == slug
  {
    Trim(slug)
  }

  const CoursesPrefix: string := "/courses/"
  const LearnSuffix: string := "/learn"

  /** The button's `href`. */
  function CardLink(enrolled: bool, slug: string): (r: string)
    ensures |r| >= |CoursesPrefix| && r[..|CoursesPrefix|] == CoursesPrefix
    ensures enrolled ==> |r| >= |CoursesPrefix| + |LearnSuffix| && r[|r| - |LearnSuffix|..] == LearnSuffix
    ensures |r| == |CoursesPrefix| + |CardSlug(slug)| + (if enrolled then |LearnSuffix| else 0)
    ensures r[|CoursesPrefix|..|CoursesPrefix| + |CardSlug(slug)|] == CardSlug(slug)
  {
    CoursesPrefix + CardSlug(slug) + (if enrolled then LearnSuffix else "")
  }

  /** White space around the slug does not reach the link. */
  lemma CardLinkIgnoresPadding(enrolled: bool, lead: string, slug: string, trail: string)
    requires forall k :: 0 <= k < |lead| ==> IsWhitespace(lead[k])
    requires forall k :: 0 <= k < |trail| ==> IsWhitespace(trail[k])
    requires slug != [] ==> !IsWhitespace(slug[0]) && !IsWhitespace(slug[|slug| - 1])
    ensures CardLink(enrolled, lead + slug + trail) == CoursesPrefix + slug + (if enrolled then LearnSuffix else "")
  {
    TrimStrip(lead, slug, trail);
  }

  /** The button's text. */
  function CardLabel(enrolled: bool): string {
    if enrolled then "Continue Learning" else "Enroll Now"
  }

  /** The two links of a card differ, and the label tells which one is shown. */
  lemma CardLinkDistinguishesEnrolment(slug: string)
    ensures CardLink(true, slug) != CardLink(false, slug)
    ensures CardLabel(true) != CardLabel(false)
  {
    assert |CardLink(true, slug)| != |CardLink(false, slug)|;
  }

  /** A truthy number: present and not zero. */
  predicate Truthy(n: Option<int>) {
    n.Some? && n.value != 0
  }

  /** `Math.floor(a / b)` for a non-zero divisor of either sign. */
  function FloorDiv(a: int, b: int): (q: int)
    requires b != 0
    ensures b > 0 ==> q * b <= a < q * b + b
    ensures b < 0 ==> q * b >= a > q * b + b
  {
    if b > 0 then a / b else (-a) / (-b)
  }

  /** The discount percentage: present only when the original price is truthy
      and above the price, and then `Math.round((1 - price / original) * 100)`,
      the integer nearest to `100 * (original - price) / original` (halves
      rounded up), computed as `floor((200 * (o - p) + o) / (2 * o))`. */
  function DiscountPercentage(price: int, originalPrice: Option<int>): (r: Option<int>)
    ensures r.Some? <==> Truthy(originalPrice) && price < originalPrice.value
    ensures r.Some? && originalPrice.value > 0 ==>
      (2 * r.value - 1) * originalPrice.value <= 200 * (originalPrice.value - price) < (2 * r.value + 1) * originalPrice.value
  {
    if Truthy(originalPrice) && price < originalPrice.value then
      var o := originalPrice.value;
      Some(FloorDiv(200 * (o - price) + o, 2 * o))
    else None
  }

  /** For a non-negative price the percentage lies between 0 and 100. */
  lemma DiscountInRange(price: int, originalPrice: Option<int>)
    requires price >= 0 && DiscountPercentage(price, originalPrice).Some?
    ensures 0 <= DiscountPercentage(price, originalPrice).value <= 100
  {
    var o := originalPrice.value;
    var d := DiscountPercentage(price, originalPrice).value;
    assert 0 * o < 200 * (o - price) < (2 * d + 1) * o;
    MulCancel(0, 2 * d + 1, o);
    assert (2 * d - 1) * o <= 200 * (o - price) < 201 * o;
    MulCancel(2 * d - 1, 201, o);
  }

  lemma MulCancel(x: int, y: int, o: int)
    requires o > 0 && x * o < y * o
    ensures x < y
  {
    assert (y - x) * o == y * o - x * o;
  }

  /** `formattedOriginalPrice` is not null: the original price is truthy and
      above `price || 0`. */
  predicate ShowOriginalPrice(price: int, originalPrice: Option<int>) {
    Truthy(originalPrice) && originalPrice.value > price
  }

  /** The struck-through original price is shown exactly when a discount
      percentage exists. */
  lemma OriginalPriceIffDiscount(price: int, originalPrice: Option<int>)
    ensures ShowOriginalPrice(price, originalPrice) <==> DiscountPercentage(price, originalPrice).Some?
  {
  }

  /** What `{discountPercentage && <badge/>}` puts on the card. */
  datatype BadgeRender = NoBadge | StrayZero | SaveBadge(percent: int)

  /** As written: React renders a falsy number, so a discount that rounds to
      0 shows a bare "0" instead of nothing. */
  function DiscountBadgeAsWritten(d: Option<int>): BadgeRender {
    match d
    case None => NoBadge
    case Some(p) => if p == 0 then StrayZero else SaveBadge(p)
  }

  /** A price 0.01 below an original price of 100.00 rounds to a 0% discount,
      and the card shows a stray "0". */
  lemma StrayZeroOnTinyDiscount()
    ensures DiscountPercentage(9999, Some(10000)) == Some(0)
    ensures DiscountBadgeAsWritten(DiscountPercentage(9999, Some(10000))) == StrayZero
  {
  }

  /** The evidently intended badge: shown for a positive percentage only. */
  function DiscountBadge(d: Option<int>): (r: BadgeRender)
    ensures r != StrayZero
    ensures r.SaveBadge? <==> d.Some? && d.value > 0
    ensures r.SaveBadge? ==> r.percent == d.value
  {
    match d
    case None => NoBadge
    case Some(p) => if p > 0 then SaveBadge(p) else NoBadge
  }

  /** The two agree except on the stray zero. */
  lemma BadgeAgreesExceptZero(d: Option<int>)
    requires d.Some? ==> d.value >= 0
    ensures DiscountBadgeAsWritten(d) != StrayZero ==> DiscountBadgeAsWritten(d) == DiscountBadge(d)
    ensures DiscountBadgeAsWritten(d) == StrayZero <==> d == Some(0)
  {
  }

  /** The chips block: the skills shown, and the "+k more" count if any. */
  datatype SkillChips = NoChips | Chips(shown: seq<string>, more: Option<nat>)

  /** `course.skills && course.skills.length > 0` guards the block; it shows
      `skills.slice(0, 3)` and `+{length - 3} more` when there are more than
      three. */
  function CardSkillChips(skills: Option<seq<string>>): (r: SkillChips)
    ensures r.NoChips? <==> skills.None? || skills.value == []
    ensures r.Chips? ==> |r.shown| == Min(3, |skills.value|) && r.shown == skills.value[..|r.shown|]
    ensures r.Chips? ==> (r.more.Some? <==> |skills.value| > 3)
    ensures r.Chips? ==> |r.shown| + r.more.GetOr(0) == |skills.value|
  {
    match skills
    case None => NoChips
    case Some(s) =>
      if |s| == 0 then NoChips
      else
        JsSliceNonNegative(s, 0, 3);
        Chips(JsSlice(s, 0, 3), if |s| > 3 then Some(|s| - 3) else None)
  }

  /** The memo comparator: the props count as unchanged when these six
      values are. */
  predicate MemoEqual(prev: CardProps, next: CardProps) {
    && prev.course.id == next.course.id
    && prev.course.slug == next.course.slug
    && prev.course.price == next.course.price
    && prev.course.originalPrice == next.course.originalPrice
    && prev.course.featured == next.course.featured
    && prev.isEnrolled == next.isEnrolled
  }

  /** A skipped re-render loses none of the decisions the comparator covers:
      the enrolment, the link, its label, the discount and the original price
      are the same for both props. */
  lemma MemoEqualKeepsDecisions(prev: CardProps, next: CardProps, enrolledIds: seq<string>)
    requires MemoEqual(prev, next)
    ensures var e1 := CardIsEnrolled(prev.isEnrolled, prev.course.slug, enrolledIds);
      var e2 := CardIsEnrolled(next.isEnrolled, next.course.slug, enrolledIds);
      && e1 == e2
      && CardLink(e1, prev.course.slug) == CardLink(e2, next.course.slug)
      && CardLabel(e1) == CardLabel(e2)
      && DiscountPercentage(prev.course.price, prev.course.originalPrice) == DiscountPercentage(next.course.price, next.course.originalPrice)
      && ShowOriginalPrice(prev.course.price, prev.course.originalPrice) == ShowOriginalPrice(next.course.price, next.course.originalPrice)
  {
  }
}
