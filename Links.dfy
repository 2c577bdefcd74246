/** The external link of an event row: `getNoticeUrl` and the two link rules,
    with the notice-URL fallback (static page) and without it (root page). */
module Links {
  import opened Wrappers
  import opened Data

  const BaseLinkUrl: string := "https://bandori.fandom.com/wiki/"
  const NoticeBaseUrl: string := "https://web.star.craftegg.jp/information/"

  /** Which of the two pages: `static/index.js` or the root `index.js`. */
  datatype Page = StaticPage | RootPage

  /** `getNoticeUrl(schema, area)`: nothing without a notice id, the official
      notice page for Japan, and an error for a notice id of any other region. */
  function NoticeUrl(s: Schema, a: Area): (r: Result<Option<string>>)
    ensures r.Failure? <==> a != Japan && RegionOf(s, a).Some? && Truthy(RegionOf(s, a).value.noticeId)
    ensures r == Success(None) <==> RegionOf(s, a).None? || !Truthy(RegionOf(s, a).value.noticeId)
    ensures r.Success? && r.value.Some? ==> a == Japan && r.value.value == NoticeBaseUrl + s.japan.noticeId.value
    ensures r.Failure? ==> r.error == "noticeId not supported for " + AreaKey(a)
  {
    var region := RegionOf(s, a);
    if region.None? || !Truthy(region.value.noticeId) then Success(None)
    else if a == Japan then Success(Some(NoticeBaseUrl + region.value.noticeId.value))
    else Failure("noticeId not supported for " + AreaKey(a))
  }

  /** The static page's link: the wiki page when `linkId` is truthy, otherwise the
      target's notice URL, falling back to the base's (`??` only skips a missing URL). */
  function StaticLink(s: Schema, base: Area, target: Area): (r: Result<Option<string>>)
    ensures Truthy(s.linkId) ==> r == Success(Some(BaseLinkUrl + s.linkId.value))
    ensures !Truthy(s.linkId) && NoticeUrl(s, target) != Success(None) ==> r == NoticeUrl(s, target)
    ensures !Truthy(s.linkId) && NoticeUrl(s, target) == Success(None) ==> r == NoticeUrl(s, base)
    ensures r.Failure? <==>
      (!Truthy(s.linkId) &&
       (NoticeUrl(s, target).Failure? || (NoticeUrl(s, target) == Success(None) && NoticeUrl(s, base).Failure?)))
  {
    if Truthy(s.linkId) then Success(Some(BaseLinkUrl + s.linkId.value))
    else
      var t := NoticeUrl(s, target);
      if t.Failure? then t
      else if t.value.Some? then t
      else NoticeUrl(s, base)
  }

  /** The root page's link: `schema.linkId && baseLinkUrl + linkId`, so a falsy
      `linkId` is passed through as it is. */
  function RootLink(s: Schema): (r: Option<string>)
    ensures Truthy(r) <==> Truthy(s.linkId)
    ensures Truthy(s.linkId) ==> r == Some(BaseLinkUrl + s.linkId.value)
    ensures !Truthy(s.linkId) ==> r == s.linkId
  {
    match s.linkId
    case None => None
    case Some(id) => if id == "" then Some("") else Some(BaseLinkUrl + id)
  }

  /** The `externalLink` field the page's generator computes. */
  function ExternalLink(page: Page, s: Schema, base: Area, target: Area): (r: Result<Option<string>>)
    ensures page == RootPage ==> r.Success?
    ensures Truthy(s.linkId) ==> r == Success(Some(BaseLinkUrl + s.linkId.value))
    ensures page == StaticPage ==> r == StaticLink(s, base, target)
    ensures page == RootPage ==> r == Success(RootLink(s))
  {
    match page
    case StaticPage => StaticLink(s, base, target)
    case RootPage => Success(RootLink(s))
  }
}
