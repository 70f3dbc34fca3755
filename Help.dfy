/** The help centre (`src/app/help/page.tsx`): a fixed list of questions
    with answers, filtered by a case-insensitive substring search over the
    question and the answer. */
module Help {
  import opened JsStrings
  import opened Sequences

  datatype Faq = Faq(question: string, answer: string)

  /** The four questions the page lists, in order, with their answers. */
  const Faqs: seq<Faq> := [
    Faq("How do I enroll in a course?", "To enroll, browse our course catalog, select a course, and click \"Enroll Now.\" You’ll need to sign in or create an account to complete the process."),
    Faq("Can I access courses on mobile devices?", "Yes, CourseHub is fully responsive and available on iOS and Android apps, as well as mobile browsers."),
    Faq("What is the refund policy?", "We offer a 30-day money-back guarantee for most courses. Check the course details for specific refund terms."),
    Faq("How do I contact an instructor?", "You can message instructors directly through the course dashboard or contact support for assistance.")
  ]

  /** The search text occurs, ignoring case, in the question or the answer. */
  predicate MatchesFaq(faq: Faq, term: string) {
    var t := ToLower(term);
    Includes(ToLower(faq.question), t) || Includes(ToLower(faq.answer), t)
  }

  /** `faqs.filter(...)`: exactly the matching entries, in their order. */
  function FilterFaqs(faqs: seq<Faq>, term: string): (r: seq<Faq>)
    ensures forall f :: f in r <==> f in faqs && MatchesFaq(f, term)
    ensures forall f :: multiset(r)[f] == if MatchesFaq(f, term) then multiset(faqs)[f] else 0
    ensures IsSubsequence(r, faqs)
  {
    if faqs == [] then []
    else
      var rest := FilterFaqs(faqs[1..], term);
      assert multiset(faqs) == multiset{faqs[0]} + multiset(faqs[1..]) by {
        assert faqs == [faqs[0]] + faqs[1..];
      }
      assert forall f :: f in faqs <==> f == faqs[0] || f in faqs[1..] by {
        assert faqs == [faqs[0]] + faqs[1..];
      }
      if MatchesFaq(faqs[0], term) then [faqs[0]] + rest
      else
        assert rest == [] || rest[0] != faqs[0];
        rest
  }

  /** The empty search keeps every entry. */
  lemma {:induction false} EmptySearchKeepsAll(faqs: seq<Faq>)
    ensures FilterFaqs(faqs, "") == faqs
  {
    if faqs != [] {
      IncludesEmpty(ToLower(faqs[0].question));
      EmptySearchKeepsAll(faqs[1..]);
    }
  }

  /** Typing more text can only narrow the result: an entry that matches a
      longer search text matches every prefix of it. */
  lemma NarrowingSearch(faq: Faq, term: string, more: string)
    requires MatchesFaq(faq, term + more)
    ensures MatchesFaq(faq, term)
  {
    ToLowerAppend(term, more);
    if Includes(ToLower(faq.question), ToLower(term + more)) {
      IncludesPrefixOfNeedle(ToLower(faq.question), ToLower(term), ToLower(more));
    } else {
      IncludesPrefixOfNeedle(ToLower(faq.answer), ToLower(term), ToLower(more));
    }
  }

  /** The result for a longer search text is contained in the result for
      its prefix. */
  lemma NarrowingFilter(faqs: seq<Faq>, term: string, more: string)
    ensures forall f :: f in FilterFaqs(faqs, term + more) ==> f in FilterFaqs(faqs, term)
  {
    forall f | f in FilterFaqs(faqs, term + more) ensures f in FilterFaqs(faqs, term) {
      NarrowingSearch(f, term, more);
    }
  }

  /** The search ignores the case of what is typed. */
  lemma SearchIgnoresCase(faqs: seq<Faq>, term: string)
    ensures FilterFaqs(faqs, ToLower(term)) == FilterFaqs(faqs, term)
    decreases |faqs|
  {
    assert ToLower(ToLower(term)) == ToLower(term);
    if faqs != [] {
      SearchIgnoresCase(faqs[1..], term);
    }
  }

  /** "No FAQs found" replaces the list exactly when no entry matches. */
  predicate ShowNoFaqs(faqs: seq<Faq>, term: string) {
    |FilterFaqs(faqs, term)| == 0
  }

  lemma NoFaqsIffNoneMatches(faqs: seq<Faq>, term: string)
    ensures ShowNoFaqs(faqs, term) <==> forall f :: f in faqs ==> !MatchesFaq(f, term)
  {
    var r := FilterFaqs(faqs, term);
    if r != [] {
      assert r[0] in r;
    }
  }

  /** The list is keyed by question, and no two questions are equal. */
  lemma QuestionsAreDistinctKeys()
    ensures forall i, j :: 0 <= i < j < |Faqs| ==> Faqs[i].question != Faqs[j].question
  {
  }
}
