/** The static-pages editor: a list of informational pages, a sidebar of five fixed slugs, and
    one open page (`pageData`) whose bilingual fields and extra `data` keys are edited. */
module PagesEdit {
  import opened Common

  /** One static page. Every bilingual field and the `data` object may be missing: the sidebar's
      stand-in for a page the store does not have carries a German title only. `extra` holds the
      stored top-level keys the editor does not name, which every spread carries along. */
  datatype StaticPage = StaticPage(
    page: string, title: Option<Text>, subtitle: Option<Text>, content: Option<Text>,
    data: Option<map<string, string>>, extra: map<string, string>)

  /** The bilingual fields of a page. */
  datatype PageField = PageTitle | PageSubtitle | PageContent

  function FieldOf(p: StaticPage, f: PageField): Option<Text> {
    match f
    case PageTitle => p.title
    case PageSubtitle => p.subtitle
    case PageContent => p.content
  }

  // ---------------------------------------------------------------- reading

  /** `pageData[field]?.[lang] || ''` and `pageData.data?.[key] || ''`: what an input box shows,
      the stored string under its key, or the empty string when the object or the key is missing
      (a stored empty string is shown as the empty string either way). */
  function Shown<K>(t: Option<map<K, string>>, key: K): (r: string)
    ensures t.Some? && key in t.value ==> r == t.value[key]
    ensures !(t.Some? && key in t.value) ==> r == ""
  {
    if t.Some? && key in t.value then t.value[key] else ""
  }

  // ---------------------------------------------------------------- editing

  /** `updateField(field, lang, value)`: `{ ...pageData, [field]: { ...pageData[field], [lang]: value } }`;
      spreading a missing field gives `{}`. */
  function UpdateField(p: StaticPage, field: PageField, lang: Lang, value: string): (r: StaticPage)
    ensures FieldOf(r, field) == Some(FieldOf(p, field).GetOr(map[])[lang := value])
    ensures forall g :: g != field ==> FieldOf(r, g) == FieldOf(p, g)
    ensures r.page == p.page && r.data == p.data && r.extra == p.extra
  {
    var t := FieldOf(p, field).GetOr(map[])[lang := value];
    match field
    case PageTitle => p.(title := Some(t))
    case PageSubtitle => p.(subtitle := Some(t))
    case PageContent => p.(content := Some(t))
  }

  /** What was typed is what the box shows, and every other box shows what it showed before. */
  lemma UpdateFieldShows(p: StaticPage, field: PageField, lang: Lang, value: string)
    ensures Shown(FieldOf(UpdateField(p, field, lang, value), field), lang) == value
    ensures forall g, l :: (g != field || l != lang) ==>
      Shown(FieldOf(UpdateField(p, field, lang, value), g), l) == Shown(FieldOf(p, g), l)
  {
  }

  /** `updateDataField(subField, value)`: `{ ...pageData, data: { ...pageData.data, [subField]: value } }`. */
  function UpdateDataField(p: StaticPage, key: string, value: string): (r: StaticPage)
    ensures r.data.Some? && key in r.data.value && r.data.value[key] == value
    ensures forall k :: k != key ==> (r.data.Some? && k in r.data.value) == (p.data.Some? && k in p.data.value)
    ensures forall k :: k != key && p.data.Some? && k in p.data.value ==> r.data.value[k] == p.data.value[k]
    ensures r == p.(data := r.data)
  {
    p.(data := Some(p.data.GetOr(map[])[key := value]))
  }

  /** What was typed into a contact box is what it shows, and the other boxes are unchanged. */
  lemma UpdateDataFieldShows(p: StaticPage, key: string, value: string)
    ensures Shown(UpdateDataField(p, key, value).data, key) == value
    ensures forall k :: k != key ==> Shown(UpdateDataField(p, key, value).data, k) == Shown(p.data, k)
  {
  }

  /** The spreads of both editing handlers carry every top-level key they do not name. */
  lemma EditsKeepUnknownKeys(p: StaticPage, field: PageField, lang: Lang, key: string, value: string)
    ensures UpdateField(p, field, lang, value).extra == p.extra
    ensures UpdateDataField(p, key, value).extra == p.extra
  {
  }

  // ---------------------------------------------------------------- the page list

  /** `pages.find(p => p.page === slug)`: the first page with that slug. */
  function Find(pages: seq<StaticPage>, slug: string): (r: Option<StaticPage>)
    ensures r.Some? <==> exists k :: 0 <= k < |pages| && pages[k].page == slug
    ensures r.Some? ==> r.value.page == slug && r.value in pages
    ensures r.Some? ==> exists k :: 0 <= k < |pages| && pages[k] == r.value
                                   && forall j :: 0 <= j < k ==> pages[j].page != slug
  {
    if pages == [] then None
    else if pages[0].page == slug then Some(pages[0])
    else
      var rest := Find(pages[1..], slug);
      assert forall k :: 1 <= k < |pages| ==> pages[k] == pages[1..][k - 1];
      rest
  }

  /** `pages.map(p => p.page === saved.page ? saved : p)`, the local list update after a save. */
  function ReplaceBySlug(pages: seq<StaticPage>, saved: StaticPage): (r: seq<StaticPage>)
    ensures |r| == |pages|
    ensures forall k :: 0 <= k < |pages| && pages[k].page == saved.page ==> r[k] == saved
    ensures forall k :: 0 <= k < |pages| && pages[k].page != saved.page ==> r[k] == pages[k]
  {
    if pages == [] then []
    else [if pages[0].page == saved.page then saved else pages[0]] + ReplaceBySlug(pages[1..], saved)
  }

  /** After a save the list finds the saved page under its slug, if the slug was listed at all,
      and finds every other slug as before. */
  lemma {:induction false} FindAfterReplace(pages: seq<StaticPage>, saved: StaticPage, slug: string)
    ensures slug == saved.page ==>
      Find(ReplaceBySlug(pages, saved), slug) == (if Find(pages, slug).Some? then Some(saved) else None)
    ensures slug != saved.page ==> Find(ReplaceBySlug(pages, saved), slug) == Find(pages, slug)
    decreases |pages|
  {
    if pages != [] {
      FindAfterReplace(pages[1..], saved, slug);
      var r := ReplaceBySlug(pages, saved);
      assert r[1..] == ReplaceBySlug(pages[1..], saved);
    }
  }

  /** Saving twice is saving once. */
  lemma ReplaceIdempotent(pages: seq<StaticPage>, saved: StaticPage)
    ensures ReplaceBySlug(ReplaceBySlug(pages, saved), saved) == ReplaceBySlug(pages, saved)
  {
  }

  // ---------------------------------------------------------------- sidebar

  /** The slugs the sidebar lists, in order. */
  const Slugs: seq<string> := ["about", "contact", "impressum", "datenschutz", "agb"]

  /** `toUpperCase` on ASCII letters; the five slugs contain nothing else. */
  function Upper(s: string): (r: string)
    ensures |r| == |s|
    ensures forall k :: 0 <= k < |s| ==> r[k] == (if 'a' <= s[k] <= 'z' then (s[k] as int - 32) as char else s[k])
  {
    if s == [] then []
    else [if 'a' <= s[0] <= 'z' then (s[0] as int - 32) as char else s[0]] + Upper(s[1..])
  }

  /** The stand-in for a page the list does not have: `{ page: slug, title: { de: slug.toUpperCase() } }`. */
  function Fallback(slug: string): (p: StaticPage)
    ensures p.page == slug
    ensures Shown(p.title, De) == Upper(slug) && Shown(p.title, En) == ""
    ensures p.title.Some? && p.title.value.Keys == {De}
    ensures p.subtitle.None? && p.content.None? && p.data.None? && p.extra == map[]
  {
    StaticPage(slug, Some(map[De := Upper(slug)]), None, None, None, map[])
  }

  /** The page a sidebar button opens. */
  function SidebarEntry(pages: seq<StaticPage>, slug: string): (p: StaticPage)
    ensures p.page == slug
    ensures Find(pages, slug).Some? ==> p == Find(pages, slug).value
    ensures Find(pages, slug).None? ==> p == Fallback(slug)
  {
    Find(pages, slug).GetOr(Fallback(slug))
  }

  /** The sidebar: exactly the five slugs, in order, each backed by its page or its stand-in. */
  function Sidebar(pages: seq<StaticPage>): (r: seq<StaticPage>)
    ensures |r| == |Slugs| == 5
    ensures forall k :: 0 <= k < |r| ==> r[k].page == Slugs[k]
    ensures forall k :: 0 <= k < |r| ==> r[k] == SidebarEntry(pages, Slugs[k])
  {
    seq(|Slugs|, k requires 0 <= k < |Slugs| => SidebarEntry(pages, Slugs[k]))
  }

  /** A slug the list does not have shows its upper-cased slug as German title and nothing else. */
  lemma FallbackShowsUpperSlug(pages: seq<StaticPage>, slug: string)
    requires forall k :: 0 <= k < |pages| ==> pages[k].page != slug
    ensures Shown(SidebarEntry(pages, slug).title, De) == Upper(slug)
    ensures Shown(SidebarEntry(pages, slug).title, En) == ""
    ensures SidebarEntry(pages, slug).subtitle.None? && SidebarEntry(pages, slug).data.None?
  {
  }

  // ---------------------------------------------------------------- editor state

  /** The page list, the highlighted sidebar page and the open copy. */
  datatype PagesState = PagesState(pages: seq<StaticPage>, selectedPage: Option<StaticPage>, pageData: Option<StaticPage>)

  const InitialState := PagesState([], None, None)

  /** `handleSelectPage(page)`: highlights the page and opens a copy of it. */
  function SelectPage(s: PagesState, p: StaticPage): (r: PagesState)
    ensures r.selectedPage == Some(p) && r.pageData == Some(p)
    ensures r.pages == s.pages
  {
    s.(selectedPage := Some(p), pageData := Some(p))
  }

  /** `selectedPage?.page === slug`, which sidebar button is highlighted. */
  function IsHighlighted(s: PagesState, slug: string): bool {
    s.selectedPage.Some? && s.selectedPage.value.page == slug
  }

  /** A button is highlighted only while a page is selected; the selected page's own slug is
      highlighted, and no two different slugs are. */
  lemma HighlightedIsSelectedSlug(s: PagesState, slug: string, other: string)
    ensures IsHighlighted(s, slug) ==> s.selectedPage.Some?
    ensures s.selectedPage.Some? ==> IsHighlighted(s, s.selectedPage.value.page)
    ensures IsHighlighted(s, slug) && IsHighlighted(s, other) ==> other == slug
  {
  }

  /** Opening a sidebar entry highlights exactly its slug. */
  lemma SelectHighlightsOne(s: PagesState, pages: seq<StaticPage>, k: nat)
    requires k < |Slugs|
    ensures forall j :: 0 <= j < |Slugs| ==>
      (IsHighlighted(SelectPage(s, Sidebar(pages)[k]), Slugs[j]) <==> j == k)
  {
    assert Sidebar(pages)[k].page == Slugs[k];
    SlugsDistinct();
  }

  /** The five slugs are pairwise different: their lengths already are. */
  lemma SlugsDistinct()
    ensures forall i, j :: 0 <= i < |Slugs| && 0 <= j < |Slugs| && i != j ==> Slugs[i] != Slugs[j]
  {
    assert |Slugs[0]| == 5 && |Slugs[1]| == 7 && |Slugs[2]| == 9 && |Slugs[3]| == 11 && |Slugs[4]| == 3;
  }

  /** The fetch completing (`fetchPages`): the list is stored and, when it is not empty,
      its first page is opened. */
  function PagesFetched(s: PagesState, list: seq<StaticPage>): (r: PagesState)
    ensures r.pages == list
    ensures |list| > 0 ==> r.selectedPage == Some(list[0]) && r.pageData == Some(list[0])
    ensures |list| == 0 ==> r.selectedPage == s.selectedPage && r.pageData == s.pageData
  {
    var t := s.(pages := list);
    if |list| > 0 then SelectPage(t, list[0]) else t
  }

  /** Before the fetch completes nothing is open, and a fetch that returns no pages opens nothing either:
      no sidebar button is highlighted and there is no page to edit. */
  lemma EmptyFetchOpensNothing()
    ensures InitialState.pages == [] && InitialState.pageData.None?
    ensures PagesFetched(InitialState, []).pageData.None?
    ensures forall slug :: !IsHighlighted(PagesFetched(InitialState, []), slug)
  {
  }

  /** `handleSave`, local part after the write succeeded: the open page replaces its slug in the list. */
  function PageSaved(s: PagesState): (r: PagesState)
    requires s.pageData.Some?
    ensures |r.pages| == |s.pages|
    ensures forall k :: 0 <= k < |s.pages| ==>
      r.pages[k] == (if s.pages[k].page == s.pageData.value.page then s.pageData.value else s.pages[k])
    ensures r == s.(pages := r.pages)
  {
    s.(pages := ReplaceBySlug(s.pages, s.pageData.value))
  }

  /** After a save the sidebar shows the saved page under its slug when the list had that slug,
      and its stand-in otherwise; every other entry stays as it was. */
  lemma SidebarAfterSave(s: PagesState, slug: string)
    requires s.pageData.Some?
    ensures slug == s.pageData.value.page && Find(s.pages, slug).Some? ==>
      SidebarEntry(PageSaved(s).pages, slug) == s.pageData.value
    ensures slug == s.pageData.value.page && Find(s.pages, slug).None? ==>
      SidebarEntry(PageSaved(s).pages, slug) == Fallback(slug)
    ensures slug != s.pageData.value.page ==>
      SidebarEntry(PageSaved(s).pages, slug) == SidebarEntry(s.pages, slug)
  {
    FindAfterReplace(s.pages, s.pageData.value, slug);
  }
}
