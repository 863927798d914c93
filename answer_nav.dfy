/**
 * `updateAnswerNavLink`, the same function in static/js/answer_survey_ajax.js,
 * static/js/survey_detail_ajax.js and static/js/answer_form_ajax.js, defined
 * once here: the navigation bar's unanswered count and its "answer" link,
 * which is a live `<a>` while questions remain and a greyed-out `<span>`
 * (keeping the URL in `data-answer-url`) when none do.
 */
module AnswerNav {
  import opened Wrappers
  import opened Text

  datatype Tag = Span | Anchor

  /**
   * The element with id `answer-nav-link`; `url` is the anchor's `href` or
   * the span's `data-answer-url`.
   */
  datatype NavLink = NavLink(tag: Tag, className: string, url: string, innerHtml: string)

  /** The two elements the function looks up; either may be missing from the page. */
  datatype NavBar = NavBar(countText: Option<string>, link: Option<NavLink>)

  const AnchorClass: string := "nav-link"
  const SpanClass: string := "nav-link text-secondary"

  /** The class the element gets when it is created as `tag`. */
  function ClassFor(tag: Tag): string {
    match tag
    case Anchor => AnchorClass
    case Span => SpanClass
  }

  /** A link whose class is the one its tag is created with. */
  predicate Styled(link: NavLink) {
    link.className == ClassFor(link.tag)
  }

  /**
   * `updateAnswerNavLink(count)`: the count element shows the number; a span
   * becomes an anchor when the count is positive, an anchor becomes a span
   * when it is zero, carrying the URL and inner HTML across.
   */
  function UpdateNavLink(nav: NavBar, count: int): (r: NavBar)
    ensures r.countText == if nav.countText.Some? then Some(IntToString(count)) else None
    ensures r.link.Some? <==> nav.link.Some?
    ensures r.link.Some? ==>
      && r.link.value.tag == (if count > 0 then Anchor else if count == 0 then Span else nav.link.value.tag)
      && r.link.value.url == nav.link.value.url
      && r.link.value.innerHtml == nav.link.value.innerHtml
    ensures r.link.Some? && r.link.value.tag != nav.link.value.tag ==> Styled(r.link.value)
    ensures r.link.Some? && r.link.value.tag == nav.link.value.tag ==> r.link == nav.link
  {
    var countText := if nav.countText.Some? then Some(IntToString(count)) else None;
    match nav.link
    case None => NavBar(countText, None)
    case Some(link) =>
      if count > 0 && link.tag == Span then
        NavBar(countText, Some(NavLink(Anchor, AnchorClass, link.url, link.innerHtml)))
      else if count == 0 && link.tag == Anchor then
        NavBar(countText, Some(NavLink(Span, SpanClass, link.url, link.innerHtml)))
      else
        assert count > 0 ==> link.tag.Anchor?;
        assert count == 0 ==> link.tag.Span?;
        NavBar(countText, nav.link)
  }

  /** Applying the same count twice is the same as once. */
  lemma UpdateIdempotent(nav: NavBar, count: int)
    ensures UpdateNavLink(UpdateNavLink(nav, count), count) == UpdateNavLink(nav, count)
  {
  }

  /** A styled link stays styled, whatever the count. */
  lemma UpdateKeepsStyle(nav: NavBar, count: int)
    requires nav.link.Some? ==> Styled(nav.link.value)
    ensures UpdateNavLink(nav, count).link.Some? ==> Styled(UpdateNavLink(nav, count).link.value)
  {
  }

  /**
   * Running out of questions and then getting some back restores a styled
   * anchor exactly, and the count shown is the last one given.
   */
  lemma DisableThenEnable(nav: NavBar, n: int)
    requires nav.link.Some? && nav.link.value.tag == Anchor && Styled(nav.link.value)
    requires n > 0
    ensures UpdateNavLink(UpdateNavLink(nav, 0), n).link == nav.link
    ensures UpdateNavLink(UpdateNavLink(nav, 0), n).countText == UpdateNavLink(nav, n).countText
  {
  }

  /** The text shown reads back as the count given. */
  lemma CountTextReadsBack(nav: NavBar, count: int)
    requires nav.countText.Some?
    ensures ParseInt(UpdateNavLink(nav, count).countText.value) == Some(count)
  {
    ParseIntToString(count);
  }
}
