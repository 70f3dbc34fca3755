# CourseHub front end — a Dafny model of its page logic

CourseHub is a Next.js course marketplace. This project models the logic in
its pages and components and proves properties of that logic:

- the enrollment store;
- the catalogue list: search, category and level filters, the five sort
  orders, and pagination with six courses per page;
- the course card: enrollment, link, discount badge, original price and
  skill chips;
- the "My Learning" page;
- the call-to-action section: slug generation and the enrol / continue /
  notify links;
- the contact form: validation, email pattern and submission status;
- the help-centre search;
- the curriculum panel;
- the overview tab;
- the site header: navigation routes, the active item and the mobile menu.

Module by module:

- `Types`: the records of the catalogue: course, section, lesson, user, sort option.
- `JsStrings`: the JavaScript string operations the pages use, with JavaScript's semantics:
  - `toLowerCase` (ASCII) and `includes`;
  - `trim`, which removes the ECMAScript white-space set;
  - `split` and `join`;
  - `replace(/X+/g, c)`.
- `Sequences`: the array operations:
  - `new Set` de-duplication in insertion order;
  - `filter(x => x !== v)`;
  - `slice`, with its clamping of indices.
- `Enrollment` (`src/store/enrollment.ts`): the store, as a class whose methods update its two fields.
- `CourseList` (`src/components/CourseList.tsx`): the filter/normalise/sort pipeline, pagination, and the component's state as a class.
- `CourseCard` (`src/components/course-list/CourseCard.tsx`).
- `MyLearning` (`src/app/my-learning/page.tsx`).
- `CtaSection` (`src/components/CTASection.tsx`).
- `Contact` (`src/app/contact/page.tsx`): the validation as functions, and the form's state as a class.
- `Help` (`src/app/help/page.tsx`).
- `Curriculum` (`src/components/details-courses/Curriculum.tsx`).
- `Overview` (`src/components/details-courses/Overview.tsx`).
- `Header` (`src/components/Header.tsx`).

Prices are integers (cents or whole units): the discount is computed exactly,
as `Math.round` of a rational number.

A React state update is modelled as one atomic assignment, because React
skips a re-render when a setter receives the value already held. An effect
that depends on a value runs in the same step as the change to that value.
An example is the page reset to 1 when a filter changes.

## Model

| member | source | states |
|---|---|---|
| Enrollment.EnrollInto | src/store/enrollment.ts:18 | `[...new Set([...list, slug])]` holds the slug, has no repeats, holds exactly the old members plus the slug, and equals the old list de-duplicated with the slug appended when it was new |
| Enrollment.UnenrollFrom | src/store/enrollment.ts:25 | the slug is gone and every other slug keeps its number of occurrences |
| Enrollment.EnrollUser | src/store/enrollment.ts:19-21 | a signed-out user stays signed out; a signed-in user's list is updated as the store's list is |
| Enrollment.UnenrollUser | src/store/enrollment.ts:26-28 | the same for unenrolment |
| Enrollment.EnrollIdempotent | src/store/enrollment.ts:16-21 | enrolling twice in the same course is the same as enrolling once |
| Enrollment.EnrollPresent | src/store/enrollment.ts:18 | enrolling in a course already on a repeat-free list leaves the list unchanged |
| Enrollment.UnenrollKeepsOthers | src/store/enrollment.ts:25 | unenrolment keeps the remaining slugs in order, and does nothing for a slug that is absent |
| Enrollment.EnrollThenUnenroll | src/store/enrollment.ts:16-28 | enrolling in a new course and then unenrolling restores the list |
| Enrollment.EnrollmentStore.constructor | src/store/enrollment.ts:14-15 | no user and an empty list; the user's list and the store's list agree |
| Enrollment.EnrollmentStore.EnrollCourse | src/store/enrollment.ts:16-22 | both lists gain the slug; the list stays repeat-free; the two lists stay in agreement |
| Enrollment.EnrollmentStore.UnenrollCourse | src/store/enrollment.ts:23-29 | both lists lose the slug; the agreement and absence of repeats are kept |
| Enrollment.EnrollmentStore.SetUser | src/store/enrollment.ts:30 | the store's list becomes the new user's list, or empty when signed out |
| CourseList.EmptySearchMatchesAll | src/components/CourseList.tsx:44-47 | the empty search text matches every course |
| CourseList.FilterCourses | src/components/CourseList.tsx:43-51 | a course is kept iff it matches the search (title, instructor name or description, ignoring case), the category and the level; each kept course occurs as often as in the catalogue, and the kept courses keep their order |
| CourseList.Normalise | src/components/CourseList.tsx:52-81 | identity, slug, title and price are kept; `featured` becomes a definite boolean; curriculum, reviews and related courses are emptied; no sort key changes |
| CourseList.NormaliseIdempotent | src/components/CourseList.tsx:52-81 | normalising twice is normalising once |
| CourseList.SortCourses | src/components/CourseList.tsx:82-97 | the result is a permutation of the input, ordered by the chosen key, and courses with equal keys keep their input order (a stable sort) |
| CourseList.SortOrderMeaning | src/components/CourseList.tsx:84-95 | in the sorted list, price-low is ascending by price, and price-high, rating and students are descending; in the default order no non-featured course precedes a featured one |
| CourseList.DefaultOrderIsStablePartition | src/components/CourseList.tsx:92-95 | the default order is the featured courses in input order, followed by the others in input order |
| CourseList.SameKeysSameSort | src/components/CourseList.tsx:82-97 | two orders with the same comparison key give the same sorted list |
| CourseList.SortedPermutationUnique | src/components/CourseList.tsx:82-97 | two lists ordered by the same key, holding the same courses, where no two courses share a key, are equal |
| CourseList.PriceLowReversedIsPriceHigh | src/components/CourseList.tsx:82-86 | with distinct prices, the price-high order is the price-low order reversed |
| CourseList.FeaturedIsDefault | src/components/CourseList.tsx:92-95 | "featured" sorts as the default branch does |
| CourseList.FilteredCourses | src/components/CourseList.tsx:41-98 | the shown list is the filtered, normalised courses, sorted stably by the chosen key |
| CourseList.FilteredCoursesMembers | src/components/CourseList.tsx:41-98 | exactly the normalised matching courses are shown, one entry per match |
| CourseList.Categories | src/components/CourseList.tsx:27-35 | "All" comes first; then each category that occurs in the catalogue, once, in the order of the categories' first appearance in the catalogue |
| CourseList.FirstUse | src/components/CourseList.tsx:30 | the index of the first catalogue course in a category: that course has the category and no earlier one has it |
| CourseList.CategoriesOrder | src/components/CourseList.tsx:30-32 | `new Set` followed by the filter lists the categories by increasing first appearance |
| CourseList.PresentValuesOrder | src/components/CourseList.tsx:31-32 | the type filter keeps the present values of a repeat-free list in their order in that list |
| CourseList.TotalPages | src/components/CourseList.tsx:100 | `Math.ceil(n / 6)`: the least page count whose pages hold all n courses, and 0 only for no course |
| CourseList.PageContents | src/components/CourseList.tsx:103-106 | page p (1 <= p <= total) is the slice from (p-1)*6 to p*6 clamped, and it holds 1 to 6 courses |
| CourseList.PagesUpToIsPrefix | src/components/CourseList.tsx:103-106 | the first k pages together are the first 6k courses |
| CourseList.PagesCoverAll | src/components/CourseList.tsx:100-106 | all the pages together are the whole list, in order |
| CourseList.PageBeyondLastIsEmpty | src/components/CourseList.tsx:103-106 | a page beyond the last one is empty |
| CourseList.ValidPageNonEmpty | src/components/CourseList.tsx:197 | on a valid page of a non-empty list, "No courses found" is not shown |
| CourseList.SortOptionByName | src/components/CourseList.tsx:184 | `SortOption[name]` finds the option whose member name is `name`, or nothing |
| CourseList.SelectValueMissesLookup | src/components/CourseList.tsx:184 | every value the sort menu sends misses that lookup, so the list falls back to the default order |
| CourseList.PriceLowChoiceDoesNotSortByPrice | src/components/CourseList.tsx:184 | after "Price: Low to High" is chosen, a dearer course stays ahead of a cheaper one |
| CourseList.SortOptionFromValue | src/components/CourseList.tsx:184 | the corrected lookup by value finds the option carrying that value, or nothing |
| CourseList.SortOptionValueRoundTrip | src/components/CourseList.tsx:184 | looking up the value of any option gives back that option |
| CourseList.CourseListView.constructor | src/components/CourseList.tsx:18-23 | empty search, "All" category and level, featured order, page 1 |
| CourseList.CourseListView.SetSearchTerm | src/components/CourseList.tsx:108-111 | the search text is set; the page returns to 1 when the text changed; other filters are kept; the page stays valid |
| CourseList.CourseListView.SetSelectedCategory | src/components/CourseList.tsx:108-111 | the same for the category |
| CourseList.CourseListView.SetSelectedLevel | src/components/CourseList.tsx:108-111 | the same for the level |
| CourseList.CourseListView.SetSortBy | src/components/CourseList.tsx:108-111 | the same for the sort order |
| CourseList.CourseListView.SelectSortValue | src/components/CourseList.tsx:184 | the corrected menu handler: the order becomes the option carrying the chosen value |
| CourseList.CourseListView.PreviousPage | src/components/CourseList.tsx:237 | `Math.max(prev - 1, 1)`, with the filters unchanged |
| CourseList.CourseListView.NextPage | src/components/CourseList.tsx:270 | `Math.min(prev + 1, totalPages)` while the pagination is shown; the page stays within range |
| CourseList.CourseListView.GoToPage | src/components/CourseList.tsx:252-255 | a numbered button sets that page |
| CourseList.CourseListView.ResetFilters | src/components/CourseList.tsx:135-141 | every filter returns to its initial value and the page to 1 |
| CourseCard.CardIsEnrolled | src/components/course-list/CourseCard.tsx:41 | an explicit prop wins; otherwise enrolment is membership of the slug in the enrolled ids |
| CourseCard.CardSlug | src/components/course-list/CourseCard.tsx:43 | the trimmed slug: a contiguous piece of the slug with only white space cut off before and after it, with no white space at either end, and unchanged when the slug has no white space |
| CourseCard.CardLink | src/components/course-list/CourseCard.tsx:221 | `/courses/` followed by the trimmed slug, then `/learn` exactly when enrolled |
| CourseCard.CardLinkIgnoresPadding | src/components/course-list/CourseCard.tsx:43 | white space around a slug does not change the card's link |
| CourseCard.CardLinkDistinguishesEnrolment | src/components/course-list/CourseCard.tsx:220-230 | enrolled and not-enrolled cards differ in link and label |
| CourseCard.DiscountPercentage | src/components/course-list/CourseCard.tsx:46-51 | there is a discount iff the original price is truthy and above the price; it is `Math.round((1 - price/original) * 100)`, stated by bounds on an exact rational |
| CourseCard.DiscountInRange | src/components/course-list/CourseCard.tsx:46-51 | for a non-negative price the discount lies between 0 and 100 |
| CourseCard.OriginalPriceIffDiscount | src/components/course-list/CourseCard.tsx:46-63 | the struck-through original price shows exactly when there is a discount |
| CourseCard.StrayZeroOnTinyDiscount | src/components/course-list/CourseCard.tsx:90 | price 9999 against 10000 rounds to a 0% discount, and the badge expression renders a bare "0" |
| CourseCard.DiscountBadge | src/components/course-list/CourseCard.tsx:90-94 | the corrected badge: shown iff the discount is positive, with that percentage, and never a bare "0" |
| CourseCard.BadgeAgreesExceptZero | src/components/course-list/CourseCard.tsx:90-94 | the as-written and corrected badges differ only for a 0% discount |
| CourseCard.CardSkillChips | src/components/course-list/CourseCard.tsx:189-203 | no chips for a missing or empty list; otherwise the first min(3, n) skills, with "+k more" iff n > 3; shown plus hidden is n |
| CourseCard.MemoEqualKeepsDecisions | src/components/course-list/CourseCard.tsx:239-247 | when the memo comparison skips a re-render, the enrolment, link, label, discount and original price agree with those the new props would give |
| MyLearning.WithCurriculum | src/app/my-learning/page.tsx:18-24 | the course with its curriculum from the table (or none), and reviews and related courses emptied |
| MyLearning.EnrolledCoursesData | src/app/my-learning/page.tsx:16-24 | at most one card per catalogue course, each for an enrolled slug |
| MyLearning.EnrolledCoursesMembers | src/app/my-learning/page.tsx:16-24 | a card is shown iff it is the curriculum-filled form of a catalogue course whose slug is enrolled |
| MyLearning.EnrolledCoursesDataAppend | src/app/my-learning/page.tsx:16-24 | the page's list over a split catalogue is the concatenation of the two halves' lists |
| MyLearning.OnlyEnrolledSetMatters | src/app/my-learning/page.tsx:17 | the order and the repeats of the enrolled list do not change the page |
| MyLearning.UnknownSlugAddsNothing | src/app/my-learning/page.tsx:17 | a slug that no catalogue course has does not change the page |
| MyLearning.NoRepeatedCourses | src/app/my-learning/page.tsx:16-24 | with distinct catalogue slugs, no course is shown twice |
| MyLearning.EnrollShowsCourse | src/app/my-learning/page.tsx:14-24 | after enrolling in a catalogue course, its card is shown; after unenrolling, it is not |
| MyLearning.Heading | src/app/my-learning/page.tsx:73 | "<name>'s Learning Journey" for a signed-in user, otherwise "My Learning Journey" |
| MyLearning.EmptyStateIffNothingEnrolled | src/app/my-learning/page.tsx:76 | the empty state shows iff no catalogue course is enrolled |
| MyLearning.CardsContinueLearning | src/app/my-learning/page.tsx:105 | every card on the page is enrolled, links to `/courses/<slug>/learn` and reads "Continue Learning" |
| CtaSection.KeepSlugChars | src/components/CTASection.tsx:17-18 | after lower-casing, only `a-z`, digits, white space and `-` are left; every such character of the lower-cased title is kept as often as it occurs, in order, and every other character is dropped |
| CtaSection.DashSpaces | src/components/CTASection.tsx:19-20 | after trimming and dashing white-space runs, only slug characters are left |
| CtaSection.CollapseHyphens | src/components/CTASection.tsx:21 | only slug characters are left and no two hyphens are adjacent |
| CtaSection.GenerateSlug | src/components/CTASection.tsx:15-22 | a generated slug consists of `a-z`, digits and single hyphens |
| CtaSection.SlugIsFixedPoint | src/components/CTASection.tsx:15-22 | a string that is already a slug is its own slug |
| CtaSection.GenerateSlugIdempotent | src/components/CTASection.tsx:15-22 | generating a slug from a slug changes nothing |
| CtaSection.HyphensAtEndsKept | src/components/CTASection.tsx:19-21 | for any slug word without a leading, trailing or doubled hyphen, `"-" + w + "-"` is its own slug: the hyphens at the ends survive (`trim` removes only white space) |
| CtaSection.GenerateSlugOfWords | src/components/CTASection.tsx:15-22 | words of letters and digits, separated by single spaces, become their lower-cased forms joined by `-` |
| CtaSection.GenerateSlugOfSpacedWords | src/components/CTASection.tsx:15-22 | words separated by runs of white space of any length, with white space allowed at either end, become the lower-cased words joined by single `-` |
| CtaSection.GenerateSlugOfKept | src/components/CTASection.tsx:15-22 | the filter is idempotent, and the slug of a title is the slug of what the filter keeps of it: other characters only disappear |
| CtaSection.DashSpacesOfWords | src/components/CTASection.tsx:19-20 | words without white space, separated by white-space runs of any length and padded by white space, become the words joined by single `-` |
| CtaSection.CollapseHyphensOfRuns | src/components/CTASection.tsx:21 | runs of `-` of any length between, before and after hyphen-free words each become one `-` |
| CtaSection.GenerateSlugExample | src/components/CTASection.tsx:15-22 | "Advanced React Development" becomes "advanced-react-development" |
| CtaSection.EffectiveSlug | src/components/CTASection.tsx:26 | a non-empty slug prop wins; otherwise the slug is generated from the title |
| CtaSection.CtaIsEnrolled | src/components/CTASection.tsx:29-32 | enrolled iff the status as passed is "available" and the effective slug is among the enrolled ids |
| CtaSection.CtaLinkCases | src/components/CTASection.tsx:63-157 | coming-soon links to `/notify`; an enrolled available course to `/learn`; otherwise, including a status reset from an invalid value, to the course page |
| Contact.FormData.Set | src/app/contact/page.tsx:28 | `{ ...prev, [id]: value }` changes that field and keeps the others |
| Contact.FormErrors.Set | src/app/contact/page.tsx:29 | the same for the error object |
| Contact.EmailFormatOk | src/app/contact/page.tsx:37 | a decision procedure for the pattern: a match has no white space and at least 5 characters |
| Contact.EmailFormatMatchesPattern | src/app/contact/page.tsx:37 | the procedure accepts exactly the strings that `/^[^\s@]+@[^\s@]+\.[^\s@]+$/` matches |
| Contact.EmailPatternMeans | src/app/contact/page.tsx:37 | a match is a string without white space with exactly one `@`, not first, followed later by a `.` that is neither right after the `@` nor last |
| Contact.ValidateForm | src/app/contact/page.tsx:32-42 | each field's entry is that field's own error, independent of the other fields |
| Contact.ValidateFormMeaning | src/app/contact/page.tsx:34-40 | "Name is required" / "Message is required" iff the trimmed field is empty; for the email, "Email is required" iff its trim is empty, "Invalid email format" iff not and the pattern does not match; no entry otherwise |
| Contact.ValidateFormMessagesShown | src/app/contact/page.tsx:32-42 | every message validation produces is non-empty, so it is shown |
| Contact.ValidIff | src/app/contact/page.tsx:46-47 | validation gives no keys iff every field is non-blank and the email matches the pattern |
| Contact.EmptyFormFails | src/app/contact/page.tsx:10-42 | the initial empty form yields all three "required" messages |
| Contact.ContactForm.constructor | src/app/contact/page.tsx:10-22 | empty fields, idle, no errors, no send in flight |
| Contact.ContactForm.HandleInputChange | src/app/contact/page.tsx:24-30 | the field takes the value; its error becomes `""`, so it is hidden; the other errors and the status are kept; messages that matched their fields still do |
| Contact.ContactForm.BeginSubmit | src/app/contact/page.tsx:44-51 | an invalid form only replaces the errors by the validation result; a valid form moves to submitting and starts a send; afterwards every message on screen matches its field; the submit button is disabled while submitting |
| Contact.ContactForm.FinishSubmit | src/app/contact/page.tsx:77-85 | a send ends at whatever status the form has: success empties the form and reports success, a failure keeps the form and reports an error; the messages are untouched, none is on screen when the send ends its own round, and a failure keeps every message matching its field |
| Contact.ContactForm.ClearStatus | src/app/contact/page.tsx:81-84 | the timer returns the status to idle at any status and changes nothing else |
| Contact.SubmitRound | src/app/contact/page.tsx:44-85 | a submission is sent iff the form validates; a sent form then shows no error, and ends in success (emptied) or error (kept); after an uninterrupted round every message on screen matches its field |
| Contact.LateSuccessLeavesStaleMessage | src/app/contact/page.tsx:44-85 | a send still in flight after the timer reset the status, followed by a resubmission with a bad email, ends with the form emptied and "Invalid email format" on screen over the empty field |
| Help.FilterFaqs | src/app/help/page.tsx:55-59 | an entry is kept iff the lower-cased search text occurs in its lower-cased question or answer, in list order |
| Help.EmptySearchKeepsAll | src/app/help/page.tsx:55-59 | with the initial empty search every entry is listed |
| Help.NarrowingSearch | src/app/help/page.tsx:55-59 | an entry matching a longer text matches each of its prefixes |
| Help.NarrowingFilter | src/app/help/page.tsx:55-59 | typing more can only shrink the list |
| Help.SearchIgnoresCase | src/app/help/page.tsx:57-58 | lower-casing the search text does not change the result |
| Help.NoFaqsIffNoneMatches | src/app/help/page.tsx:92-109 | "No FAQs found" shows iff no entry matches |
| Help.QuestionsAreDistinctKeys | src/app/help/page.tsx:36-53 | the four questions, used as list keys, are distinct |
| Curriculum.InitialExpanded | src/components/details-courses/Curriculum.tsx:14 | one id expanded at first: the first section's id, or `""` when there is none |
| Curriculum.Toggle | src/components/details-courses/Curriculum.tsx:16-22 | the toggled id flips between expanded and collapsed; every other id keeps its state |
| Curriculum.ToggleKeepsDistinct | src/components/details-courses/Curriculum.tsx:16-22 | toggling keeps the list free of repeated ids |
| Curriculum.ToggleTwice | src/components/details-courses/Curriculum.tsx:16-22 | toggling twice restores which sections are expanded, and the exact list when the section was collapsed |
| Curriculum.ToggleCommutes | src/components/details-courses/Curriculum.tsx:16-22 | toggling two sections in either order expands the same sections |
| Curriculum.TotalLessonsCounts | src/components/details-courses/Curriculum.tsx:24 | the `reduce` total is the number of lessons over all sections |
| Curriculum.TotalLessonsAppend | src/components/details-courses/Curriculum.tsx:24 | the total over two parts of the curriculum is the sum of their totals |
| Curriculum.CountLabel | src/components/details-courses/Curriculum.tsx:35-36 | the singular for exactly one, the plural otherwise |
| Curriculum.ZeroIsPlural | src/components/details-courses/Curriculum.tsx:35-36 | an empty curriculum reads "0 sections • 0 lessons" |
| Curriculum.KindLabel | src/components/details-courses/Curriculum.tsx:128-132 | "Video", "Reading" and "Assignment" for video, reading and quiz, and only for those |
| Curriculum.AtMostOneSelected | src/components/details-courses/Curriculum.tsx:77 | with distinct lesson ids at most one lesson is highlighted, and none when nothing is selected |
| Curriculum.CurriculumView.constructor | src/components/details-courses/Curriculum.tsx:14 | the panel starts with the initial expanded list |
| Curriculum.CurriculumView.ToggleModule | src/components/details-courses/Curriculum.tsx:16-22 | the section flips and no other does; a repeat-free list stays repeat-free |
| Curriculum.FirstSectionOpen | src/components/details-courses/Curriculum.tsx:14 | a fresh panel has exactly the first section expanded |
| Overview.KeepNonBlank | src/components/details-courses/Overview.tsx:11 | `filter(p => p.trim())` keeps exactly the non-blank pieces, each as often as it occurs, in order |
| Overview.DescriptionParagraphs | src/components/details-courses/Overview.tsx:11 | no description gives no paragraph; every paragraph has text |
| Overview.ParagraphsArePieces | src/components/details-courses/Overview.tsx:11 | the paragraphs are, in order, pieces of the description between blank lines; none contains a blank line; the pieces joined back give the description |
| Overview.BlankDescriptionHasNoParagraphs | src/components/details-courses/Overview.tsx:11 | a description of white space only has no paragraph, so "No description available." is shown |
| Overview.SingleParagraph | src/components/details-courses/Overview.tsx:11 | a non-blank description without a blank line is one paragraph, itself |
| Overview.RenderedParagraphs | src/components/details-courses/Overview.tsx:36-38 | one non-empty trimmed text per paragraph |
| Overview.LearningObjectives | src/components/details-courses/Overview.tsx:12-14 | the non-empty objectives, each as often as it occurs, in order, and none when the field is absent |
| Overview.Skills | src/components/details-courses/Overview.tsx:16-18 | at most four non-empty chips: the category when non-empty, then the first up to three objectives |
| Overview.SkillLabels | src/components/details-courses/Overview.tsx:70 | each chip shows its skill lower-cased |
| Overview.Requirements | src/components/details-courses/Overview.tsx:20-25 | a given list (even an empty one) is used as is; a missing one becomes the four default requirements |
| Overview.NoRequirementsOnlyForEmptyList | src/components/details-courses/Overview.tsx:80-93 | "No specific requirements listed." appears iff the course gives an empty list |
| Header.GetHref | src/components/Header.tsx:47-48 | every route starts with `/` and has no white space; "Home" is `/` |
| Header.GetHrefOfWords | src/components/Header.tsx:47-48 | an item of words separated by single spaces links to `/` and the lower-cased words joined by `-` |
| Header.GetHrefOfSpacedWords | src/components/Header.tsx:47-48 | an item of words separated by white-space runs of any length links to `/` and the lower-cased words joined by single `-`; white space at either end adds one `-` there |
| Header.MyLearningDoubleSpaceHref | src/components/Header.tsx:47-48 | "My  Learning", with two spaces, still links to `/my-learning` |
| Header.DesktopHrefs | src/components/Header.tsx:38-48 | the five desktop routes are `/`, `/courses`, `/about`, `/contact` and `/my-learning` |
| Header.AtMostOneActive | src/components/Header.tsx:107-108 | for any path at most one desktop item is marked active |
| Header.MobileAuthHrefsAsWritten | src/components/Header.tsx:45-48 | the mobile "Log in" and "Sign up" link to `/log-in` and `/sign-up` |
| Header.MobileAuthDiffersFromDesktop | src/components/Header.tsx:136-147 | those differ from the desktop buttons' `/login` and `/register` |
| Header.MobileHref | src/components/Header.tsx:45-48 | the corrected mobile route: the account items go to the desktop buttons' routes, every other item as `getHref` says |
| Header.MobileMatchesDesktop | src/components/Header.tsx:136-147 | with the corrected routes every mobile item leads where the desktop link with the same label leads |
| Header.MobileItemStyle | src/components/Header.tsx:214-219 | "Sign up" is always the button; another item is highlighted iff it is active |
| Header.HeaderMenu.constructor | src/components/Header.tsx:9 | the menu starts closed |
| Header.HeaderMenu.ToggleMenu | src/components/Header.tsx:12 | toggling flips the menu |
| Header.HeaderMenu.HandleLinkClick | src/components/Header.tsx:13 | following a link closes the menu |
| JsStrings.Trim | src/components/course-list/CourseCard.tsx:43 | `trim`: the result is a contiguous piece of the input with only white space before and after it, and it has no white space at either end; a string without white space is unchanged |
| JsStrings.TrimStrip | src/components/course-list/CourseCard.tsx:43 | trimming white space around a piece without white space at its ends gives back exactly that piece |
| JsStrings.TrimEmptyIff | src/app/contact/page.tsx:34 | `!s.trim()` holds iff the string is white space only |
| JsStrings.ReplaceRuns | src/components/Header.tsx:48 | `replace(/X+/g, c)`: no two adjacent run characters remain; every kept character is the replacement or a non-run character of the input |
| JsStrings.ReplaceRunsRun | src/components/Header.tsx:48 | a whole run at the front, of any length, becomes one replacement character |
| JsStrings.ReplaceRunsInterleave | src/components/Header.tsx:48 | run-free words separated by non-empty runs of any length come out joined by the replacement character |
| JsStrings.ReplaceRunsPadded | src/components/CTASection.tsx:20-21 | the same with a run before and after, each of which becomes one replacement character when present |
| JsStrings.KeepChars | src/components/CTASection.tsx:18 | `replace(/[^...]/g, '')`: the kept characters, each as often as in the input, in their order, and no other character |
| JsStrings.SplitJoin | src/components/details-courses/Overview.tsx:11 | `split` then `join` with the same separator gives back the string |
| JsStrings.SplitAtLeftmost | src/components/details-courses/Overview.tsx:11 | `split` cuts at the leftmost occurrence of the separator |
| JsStrings.SplitTripleBreak | src/components/details-courses/Overview.tsx:11 | three line breaks give two pieces, the second starting with the third break |
| JsStrings.IncludesIffOccurs | src/app/help/page.tsx:57 | `includes` holds iff the needle occurs at some index |
| Sequences.JsSliceNonNegative | src/components/details-courses/Overview.tsx:16 | `slice` with non-negative bounds is the sub-sequence between the bounds clamped to the length |

## Left out

- Network and environment: the Telegram `fetch` and the bot token and chat id are left out. The model receives whether the send succeeded as a parameter.
- Message text: the text of the Telegram message is not modelled.
- Timers: the 3-second timers that return the contact status to idle are modelled as `ClearStatus`, which the caller may run at any time. Contact.ContactForm.ClearStatus requires nothing of the status, so a timer that fires during a later submission is allowed, as in the page. Contact.ContactForm.FinishSubmit likewise requires only that a send is in flight (a ghost count the page does not keep), so a send that completes after such a reset is modelled; the form invariant then allows a message over a field the late success emptied.
- The 500 ms loading flag and the skeleton cards of the catalogue are not modelled. They change what is drawn, not which courses are listed.
- Animations, class names, icons, images and the image-error fallback are not modelled.
- Debug logging in the call-to-action section is not modelled.
- Durations, student counts as text, instructor details, price formatting (`toFixed(2)`) and everything the other pages render are not modelled.
- The static data files: the catalogue, the curriculum table and the enrolled-ids list are parameters. The fixed enrolled-ids list and the store's list are two separate sources, as in the code. The model does not relate them.
- `src/components/course-list/Filters.tsx` is not part of this model beyond the values its sort menu sends.
- The payment flow in `src/components/enroll/EnrollPaymentPage.tsx` is not part of this model.
- Floating point: prices are integers, and the discount is computed exactly instead of in IEEE doubles. For prices whose ratio is exactly half-way after a floating-point rounding error, the rendered percentage can differ by one.
- Unicode: `toLowerCase` is modelled on ASCII letters only. `\s` is the ECMAScript white-space set listed in `JsStrings.IsWhitespace`.
- The browser: its handling of `type="email"` inputs and the disabled button's effect on implicit submission are taken as given. Contact.ContactForm.BeginSubmit requires a status other than submitting, because the only submit button is disabled then.
- CourseList.CourseListView.NextPage requires that the pagination is shown (more than one page), because the button exists only then.
- CourseList.CourseListView.GoToPage requires a page between 1 and the page count, because those are the only numbered buttons.
- Contact.EmailFormatOk decides the pattern for the model. Contact.MatchesEmailPattern states the regular expression directly, as its structure. A regular-expression engine is not modelled.
- Curriculum.TotalLessons, CtaSection.CtaLink and the display predicates (`ShowNoModules`, `ShowNoFaqs`, `ShowEmptyState`, `ShowWhatYouLearn`) carry no contract of their own. They are specified by the lemmas about them listed above.
- React rendering order: the state updates of one handler are applied together, and an effect runs together with the change it depends on.

## Findings

| source | as written | input that shows it | evidently intended | confidence | as-written member | corrected member |
|---|---|---|---|---|---|---|
| src/components/CourseList.tsx:184 | the sort menu sends the option's value (`"price-low"`), and the handler looks it up as a member name (`SortOption["price-low"]`), which is `undefined`; the list falls back to the default order | choosing "Price: Low to High" with a dearer course listed first | the option whose value was chosen becomes the sort order | high (not executed) | CourseList.PriceLowChoiceDoesNotSortByPrice | CourseList.CourseListView.SelectSortValue |
| src/components/course-list/CourseCard.tsx:90 | `{discountPercentage && ...}` renders the number `0` as text when the discount rounds to 0% | price 9999, original price 10000 | no badge for a 0% discount | high (not executed) | CourseCard.StrayZeroOnTinyDiscount | CourseCard.DiscountBadge |
| src/components/Header.tsx:45-48 | the mobile "Log in" and "Sign up" items go through `getHref`, giving `/log-in` and `/sign-up` | opening the mobile menu and tapping "Log in" | the desktop buttons' routes `/login` and `/register` (lines 136, 147) | medium (not executed) | Header.MobileAuthDiffersFromDesktop | Header.MobileMatchesDesktop |
