# Dental catalog dashboard: the three content editors

This project models, in Dafny, the editing logic of three pages of the administration
dashboard of a dental-implant manufacturer's web site. It then proves what those pages
promise about the records they produce.

- **Catalog editor** (`CatalogEdit`, with `Lengths`). A stored catalog section is
  normalized when it loads. Legacy plain-string texts become `{de, en}` pairs, missing
  texts become blank pairs, and a missing article list becomes empty. The form is edited
  one bilingual field, variant, length list or article at a time. A save writes back the
  whole record.
- **Home-page editor** (`HomeEdit`). This is an ordered list of typed sections: hero
  slider, features, stats and about. The list supports:
  - moving a section (exchanges two `order` values);
  - adding a section (`order` one past the maximum, `data` from the type registry);
  - deleting and activating or deactivating a section;
  - the four sub-editors, each of which edits its own key of the section's `data` object.
- **Static-pages editor** (`PagesEdit`). A sidebar lists five fixed slugs. A slug the
  store has no page for falls back to a stand-in with the upper-cased slug as its German
  title. The editor supports selecting a page, editing its bilingual fields and its contact
  `data` keys, and putting the saved page back into the local list.

`Common` holds what the three pages share:
- `Option`, for a key that is `undefined` or `null`;
- the bilingual object, as a partial map from `Lang` to `string`;
- the two list idioms: `filter` by position, and "copy the array, then assign one slot".

Each handler that copies an array and then assigns into the copy is a `method`. It does the
copy in a fresh Dafny array. Pure expressions (object spreads, `filter`, `map`, `find`) are
functions. A field-name argument becomes an enumeration of the record's fields that the handler
can assign. The optional language argument is paired with it by a precondition: a language is
given exactly for the bilingual fields. This pairing is the one every call site in the forms
uses. The enumerations and the language are more general than the forms' call sites:
- `VariantField.Color` and `SlideField.SlideSubtitle` are fields that no form passes. The
  catalog form edits a variant's diameter, hex and two images (CatalogEdit.jsx lines 321-359).
  The slider form edits image, link and title (HomeEdit.jsx lines 245-257).
- The features, stats and about forms pass only the German language `'de'`, while the model
  admits `En` as well. The slider form passes both languages.

Some points where the code itself decides the shape of the data:
- A section's `data` is an open record. Every key is optional, because each sub-editor
  spreads `data` and keeps keys it does not know. Those unknown keys are held in
  `HomeEdit.SectionData.extra`, and every edit carries them along. It is not a tagged union.
  A static page likewise keeps its unnamed top-level keys in `PagesEdit.StaticPage.extra`.
- Hero-slider slides keep `title` and `subtitle`, because the slider editor still creates
  both (a new slide carries blank ones) and edits `title`. No form edits `subtitle`.
- None of the three pages checks an entry's shape before saving, so no validator is modelled.

## Model

| member | source | states |
|---|---|---|
| Common.RemoveAt | src/pages/CatalogEdit.jsx:90 | Filtering by position drops exactly the element at an in-range index (the result is the slice before it followed by the slice after it); an out-of-range index drops nothing |
| Common.RemoveAppended | src/pages/CatalogEdit.jsx:83-90 | Removing the element at the position just appended to gives back the original list |
| Common.AssignAt | src/pages/CatalogEdit.jsx:75-76 | A copy with one slot assigned has the same length, holds the new item at that index, and holds the old element at every other index |
| Lengths.Trim | src/pages/CatalogEdit.jsx:96 | The result has no white space at either end, it sits in the input between white-space padding, and an already trimmed string is returned unchanged |
| Lengths.Split | src/pages/CatalogEdit.jsx:96 | `split(',')` yields one more piece than there are commas, and no piece contains a comma |
| Lengths.JoinSplit | src/pages/CatalogEdit.jsx:96 | Joining the pieces of `split(',')` with commas gives back the input, so splitting loses no character |
| Lengths.Join | src/pages/CatalogEdit.jsx:343 | `join` of no parts is the empty string, and the joined text begins with the first part |
| Lengths.ShowLengths | src/pages/CatalogEdit.jsx:343 | The empty list shows as the empty box. A non-empty list of comma-free entries shows as a text whose comma-separated pieces are the first entry, then each later entry with one space in front |
| Lengths.ParseLengths | src/pages/CatalogEdit.jsx:96 | The parsed list has one entry per comma-separated piece, in input order. Entry k is the k-th piece with its leading and trailing white space removed, so it is trimmed and comma-free |
| Lengths.ParseShowRoundTrip | src/pages/CatalogEdit.jsx:343 | Parsing the box text `join(', ')` shows gives back the list, for every non-empty list of trimmed, comma-free entries |
| Lengths.EmptyListShowsAsOneEmptyEntry | src/pages/CatalogEdit.jsx:343 | An empty lengths list shows as an empty box, which parses to a list of one empty entry, not back to the empty list |
| Lengths.SplitKeepsEmptyPieces | src/pages/CatalogEdit.jsx:96 | `"a,,b".split(',')` keeps the empty piece between the two commas, in place |
| Lengths.ParseKeepsEmptyPieces | src/pages/CatalogEdit.jsx:96 | Parsing `"a,,b"` gives `["a", "", "b"]`, and parsing the empty box gives `[""]` |
| Lengths.ParseShownBox | src/pages/CatalogEdit.jsx:343 | The box `8.0 mm, 10 mm, 12 mm` parses to exactly its three lengths |
| Lengths.ShownBoxText | src/pages/CatalogEdit.jsx:343-344 | The three placeholder lengths show as the placeholder text `8.0 mm, 10 mm, 12 mm` |
| CatalogEdit.WithText | src/pages/CatalogEdit.jsx:70 | Replacing one bilingual field changes that field only, and every non-bilingual key stays as it was |
| CatalogEdit.InitialFormIsBlank | src/pages/CatalogEdit.jsx:27-38 | The form before loading holds blank texts in both languages, the `product` type, an empty hero image and no variants or articles |
| CatalogEdit.NormalizeText | src/pages/CatalogEdit.jsx:49-54 | A legacy plain string becomes the same text in both languages, a stored object is kept as it is, and a missing value becomes the blank pair |
| CatalogEdit.Normalize | src/pages/CatalogEdit.jsx:47-56 | On load, every bilingual field is coerced, a missing article list becomes empty, a present one is kept, and every other stored key is carried over unchanged |
| CatalogEdit.Store | src/pages/CatalogEdit.jsx:128 | A save writes every bilingual field as an object holding the form's text, writes the article list, and writes every other key as the form holds it |
| CatalogEdit.SaveThenLoad | src/pages/CatalogEdit.jsx:128 | The record a save writes is in the current shape, and loading it again gives back the form field for field |
| CatalogEdit.LoadCurrentShapeUnchanged | src/pages/CatalogEdit.jsx:47-56 | Loading a record that is already in the current shape and saving it again writes exactly the stored record |
| CatalogEdit.NormalizeIdempotent | src/pages/CatalogEdit.jsx:47-56 | Normalizing an already normalized record changes nothing |
| CatalogEdit.EmptyRecordLoadsAsInitialForm | src/pages/CatalogEdit.jsx:27-38 | A stored record with no bilingual fields and no articles loads as the editor's initial form |
| CatalogEdit.HeaderTitle | src/pages/CatalogEdit.jsx:156 | The header shows the German name when it is non-empty, and otherwise the English name or nothing |
| CatalogEdit.ListTitle | src/pages/CatalogList.jsx:101 | The list shows a legacy string as it is, an object as its non-empty German text or else its English text, and a missing name as nothing |
| CatalogEdit.ListAndHeaderAgree | src/pages/CatalogList.jsx:101 | For every stored name (legacy string, object or missing), the catalog list shows the same title as the editor header shows after normalization |
| CatalogEdit.HeaderFollowsNameEdits | src/pages/CatalogEdit.jsx:156 | Typing a non-empty German name shows it in the header; typing an English name leaves a non-empty German header unchanged |
| CatalogEdit.BilingualInputChange | src/pages/CatalogEdit.jsx:67-72 | The edited language of the edited field holds the value; the other language, the other bilingual fields and every other key are unchanged |
| CatalogEdit.SetHeroImage | src/pages/CatalogEdit.jsx:458 | The upload or the URL box sets the hero image and changes nothing else |
| CatalogEdit.AddVariant | src/pages/CatalogEdit.jsx:80-85 | Appends one variant (black hex, no lengths, blank texts) behind the unchanged existing variants |
| CatalogEdit.RemoveVariant | src/pages/CatalogEdit.jsx:87-92 | Drops the variant at an in-range index, and only that one; any other index leaves the form unchanged |
| CatalogEdit.AddThenRemoveVariant | src/pages/CatalogEdit.jsx:80-92 | Removing the variant just added restores the form |
| CatalogEdit.SetVariantText | src/pages/CatalogEdit.jsx:76 | The assigned text field of a variant holds the value; the other fields and the lengths are unchanged |
| CatalogEdit.VariantChange | src/pages/CatalogEdit.jsx:74-78 | Only the variant at the index changes, by one field; the variant count and every other key are unchanged |
| CatalogEdit.LengthsChange | src/pages/CatalogEdit.jsx:94-98 | The variant's lengths become the parsed box, with one entry per comma plus one; the rest of that variant, the other variants and the other keys are unchanged |
| CatalogEdit.AddArticle | src/pages/CatalogEdit.jsx:110-115 | Appends one blank article behind the unchanged existing articles |
| CatalogEdit.RemoveArticle | src/pages/CatalogEdit.jsx:117-122 | Drops the article at an in-range index, and only that one; any other index leaves the form unchanged |
| CatalogEdit.AddThenRemoveArticle | src/pages/CatalogEdit.jsx:110-122 | Removing the article just added restores the form |
| CatalogEdit.EditArticle | src/pages/CatalogEdit.jsx:102-106 | With a language, one language of a bilingual article field is set and the other kept; without one, the plain field is replaced; the rest of the article is unchanged |
| CatalogEdit.ArticleChange | src/pages/CatalogEdit.jsx:100-108 | Only the article at the index changes, as the article edit says; the article count and every other key are unchanged |
| HomeEdit.DefaultDataForType | src/pages/HomeEdit.jsx:96-104 | Each of the four known types gets exactly its own key, holding an empty list or the blank about record; any other type gets `{}` |
| HomeEdit.FreshSectionOpensEmpty | src/pages/HomeEdit.jsx:91 | A fresh section of any type opens with empty slide, feature and stat lists, and with the about record the about editor would fall back to |
| HomeEdit.MaxOrder | src/pages/HomeEdit.jsx:90 | `Math.max` over the orders is at least every section's order and equals one of them |
| HomeEdit.NextOrder | src/pages/HomeEdit.jsx:90 | A new order is 1 for an empty list; otherwise it is larger than every existing order and exactly one past the largest |
| HomeEdit.AddNewSection | src/pages/HomeEdit.jsx:84-94 | Appends one active section with the given identifier and type and the registry's data. Its order is exactly one past the largest existing order (1 for an empty list), so it is above all others. The existing sections are unchanged |
| HomeEdit.DeleteSection | src/pages/HomeEdit.jsx:51 | No section with the identifier remains, every other section is kept, nothing new appears, and a list without the identifier is unchanged |
| HomeEdit.DeleteSplits | src/pages/HomeEdit.jsx:51 | Deleting from a concatenation deletes from each part, so the kept sections keep their relative order |
| HomeEdit.SwapOrders | src/pages/HomeEdit.jsx:64-67 | The two sections exchange their order values; every other field and every other section is unchanged |
| HomeEdit.SwapOrdersTwice | src/pages/HomeEdit.jsx:64-67 | Exchanging the same two orders again restores the list |
| HomeEdit.Move | src/pages/HomeEdit.jsx:59-67 | With no neighbour in the given direction the list is unchanged; otherwise the orders of the section and its neighbour are exchanged |
| HomeEdit.MoveDownTradesPlaces | src/pages/HomeEdit.jsx:59-76 | In a list sorted by order, moving a section down and re-sorting puts the two sections into each other's places, with the same order values |
| HomeEdit.Toggled | src/pages/HomeEdit.jsx:114 | Exactly one section's `isActive` is flipped; nothing else changes |
| HomeEdit.ToggleTwice | src/pages/HomeEdit.jsx:112-117 | Toggling the same section twice restores the list |
| HomeEdit.ToggleActive | src/pages/HomeEdit.jsx:112-117 | The copied list is the list with that section toggled |
| HomeEdit.UpdateSectionData | src/pages/HomeEdit.jsx:106-110 | Only the section at the index changes, and only its `data`, which becomes the new data |
| HomeEdit.SlidesOf | src/pages/HomeEdit.jsx:222 | The slider editor works on the stored slide list, or on the empty list when `data` has none |
| HomeEdit.AddSlide | src/pages/HomeEdit.jsx:231 | Appends a blank slide numbered one past the current count; the existing slides and the other data keys are unchanged |
| HomeEdit.RemoveSlide | src/pages/HomeEdit.jsx:232 | Drops exactly the slide at an in-range index, without renumbering; the other data keys are unchanged |
| HomeEdit.AddSlideKeepsNumbering | src/pages/HomeEdit.jsx:231 | Adding a slide to slides numbered by position keeps them numbered by position |
| HomeEdit.RemoveThenAddRepeatsOrder | src/pages/HomeEdit.jsx:231-232 | Removing the first of two slides and adding one leaves two slides that both have order 2 |
| HomeEdit.EditSlide | src/pages/HomeEdit.jsx:226-227 | With a language, that language of the title or subtitle is set; without one, the image or link is replaced; the rest of the slide is unchanged |
| HomeEdit.UpdateSlide | src/pages/HomeEdit.jsx:224-229 | Only the slide at the index changes, as the slide edit says; the other slides and the other data keys are unchanged |
| HomeEdit.FeaturesOf | src/pages/HomeEdit.jsx:270 | The features editor works on the stored feature list, or on the empty list when `data` has none |
| HomeEdit.AddFeature | src/pages/HomeEdit.jsx:279 | Appends a blank feature with the `Zap` icon behind the unchanged existing features |
| HomeEdit.RemoveFeature | src/pages/HomeEdit.jsx:280 | Drops exactly the feature at an in-range index; the other data keys are unchanged |
| HomeEdit.EditFeature | src/pages/HomeEdit.jsx:274-275 | With a language, that language of the title or content is set; without one, the icon is replaced; the rest of the feature is unchanged |
| HomeEdit.UpdateFeature | src/pages/HomeEdit.jsx:272-277 | Only the feature at the index changes, as the feature edit says; the other features and the other data keys are unchanged |
| HomeEdit.StatsOf | src/pages/HomeEdit.jsx:314 | The stats editor works on the stored stat list, or on the empty list when `data` has none |
| HomeEdit.AddStat | src/pages/HomeEdit.jsx:323 | Appends a stat with number `'0'` and a blank label behind the unchanged existing stats |
| HomeEdit.RemoveStat | src/pages/HomeEdit.jsx:324 | Drops exactly the stat at an in-range index; the other data keys are unchanged |
| HomeEdit.SubEditorsKeepUnknownKeys | src/pages/HomeEdit.jsx:228-324 | Every add and remove in the slider, features and stats editors keeps the `data` keys that no sub-editor knows |
| HomeEdit.EditStat | src/pages/HomeEdit.jsx:318-319 | With a language, that language of the label is set; without one, the number is replaced; the other field is unchanged |
| HomeEdit.UpdateStat | src/pages/HomeEdit.jsx:316-321 | Only the stat at the index changes, as the stat edit says; the other stats and the other data keys are unchanged |
| HomeEdit.AboutOf | src/pages/HomeEdit.jsx:350 | The about editor works on the stored about record, or on the blank record (blank title and content, empty image and link) when `data` has none |
| HomeEdit.EditAbout | src/pages/HomeEdit.jsx:354-355 | With a language, that language of the title or content is set; without one, the image or link is replaced; the rest of the record is unchanged |
| HomeEdit.UpdateAbout | src/pages/HomeEdit.jsx:350-357 | The about key becomes the edited copy of the stored about record, or of the blank fallback when none is stored; the other data keys are unchanged |
| PagesEdit.Shown | src/pages/PagesEdit.jsx:144-230 | An input box shows the stored text of its language (or the contact value of its key), or the empty string when the field, `data` or the key is missing |
| PagesEdit.UpdateField | src/pages/PagesEdit.jsx:48-56 | The edited field becomes its old object (or `{}`) with the one language set; the other fields, the slug and `data` are unchanged |
| PagesEdit.UpdateFieldShows | src/pages/PagesEdit.jsx:48-56 | After an edit, the edited box shows what was typed, and every other box shows what it showed before |
| PagesEdit.UpdateDataField | src/pages/PagesEdit.jsx:58-66 | `data` holds the value under the key, keeps every other key and its value, and the rest of the page is unchanged |
| PagesEdit.UpdateDataFieldShows | src/pages/PagesEdit.jsx:58-66 | After an edit, the edited contact box shows what was typed, and the other boxes are unchanged |
| PagesEdit.EditsKeepUnknownKeys | src/pages/PagesEdit.jsx:48-66 | Editing a bilingual field or a `data` key keeps every top-level key of the page that the editor does not name |
| PagesEdit.Find | src/pages/PagesEdit.jsx:91 | A page is found exactly when some listed page has the slug. What is found is the first listed page with that slug: no earlier page has it |
| PagesEdit.ReplaceBySlug | src/pages/PagesEdit.jsx:40 | Every listed page with the saved slug becomes the saved page, every other page is unchanged, and the length is kept |
| PagesEdit.FindAfterReplace | src/pages/PagesEdit.jsx:40 | After a save, the saved slug finds the saved page if the slug was listed and nothing if it was not, and every other slug finds what it found before |
| PagesEdit.ReplaceIdempotent | src/pages/PagesEdit.jsx:40 | Putting the same saved page into the list twice is the same as once |
| PagesEdit.Upper | src/pages/PagesEdit.jsx:91 | Upper-casing keeps the length, maps each lower-case ASCII letter to its capital, and keeps every other character |
| PagesEdit.Fallback | src/pages/PagesEdit.jsx:91 | The stand-in page carries the slug, shows the upper-cased slug as its German title and an empty English title, and has only a German title key, no subtitle, no content and no data |
| PagesEdit.SidebarEntry | src/pages/PagesEdit.jsx:91 | A sidebar button opens the listed page with its slug, or the stand-in when no page has it; either way it carries the slug |
| PagesEdit.Sidebar | src/pages/PagesEdit.jsx:90-91 | The sidebar has exactly the five slugs in their fixed order, and each entry is that slug's page or stand-in |
| PagesEdit.FallbackShowsUpperSlug | src/pages/PagesEdit.jsx:91 | An unlisted slug opens with its upper-cased slug as German title, an empty English title, and no subtitle and no data |
| PagesEdit.SelectPage | src/pages/PagesEdit.jsx:30-33 | Selecting highlights the page and opens it for editing; the list is unchanged |
| PagesEdit.HighlightedIsSelectedSlug | src/pages/PagesEdit.jsx:92 | A button is highlighted only while a page is selected. The selected page's slug is highlighted, and no two different slugs are |
| PagesEdit.SelectHighlightsOne | src/pages/PagesEdit.jsx:92 | Opening a sidebar entry highlights that slug's button and no other |
| PagesEdit.PagesFetched | src/pages/PagesEdit.jsx:16-22 | A fetched list is stored, its first page is opened when the list is not empty, and otherwise the open page is kept |
| PagesEdit.EmptyFetchOpensNothing | src/pages/PagesEdit.jsx:6-22 | Initially the list is empty and no page is open. A fetch that returns no pages opens none and highlights no sidebar button |
| PagesEdit.PageSaved | src/pages/PagesEdit.jsx:35-46 | After a save, the open page replaces every listed page with its slug; nothing else changes |
| PagesEdit.SidebarAfterSave | src/pages/PagesEdit.jsx:40 | After a save, the saved slug's button opens the saved page if the slug was listed and its stand-in if not; every other button is unchanged |

## Left out

- Network access is not modelled: the `api` GET, PUT, POST and DELETE calls, the `Promise.all` pair of writes after a move, the refetch that follows it, and `navigate`. Every handler is modelled by its local state update only. Where that update happens only after a write succeeds (delete, the pages save), it is modelled as the success outcome.
- A failed fetch or write is not modelled: the error messages and `console.error`. Where the local state is set only after the write succeeds (delete, the pages save), a failure keeps the old state.
- Loading, saving and message flags, the three-second message timers, and the `activeLang` tab are not modelled. They are user-interface state. The active language is the `lang` parameter.
- HomeEdit.AddNewSection: the identifier `` `${type}-${Date.now()}` `` reads the clock, so it is a parameter.
- HomeEdit.DeleteSection: the `window.confirm` prompt is outside the model; the function models the path where the user confirms.
- `handleSaveSection` is not modelled, because it is a network write plus a refetch. Toggling is modelled only by its local update.
- HomeEdit.Move: the swap assigns the `order` fields of the section objects that the current `sections` state shares with the shallow copy, and it does so before the two writes. A failed move therefore does not keep the old orders: the displayed sections carry the swapped orders, and a later save of either section writes its swapped order. The model returns a new list and does not capture this shared update.
- Common.AssignAt: the handlers make a shallow copy of the array, and then mutate an element object that the previous state also references. The model works on values, so that aliasing and the shared in-place change are not captured.
- Common.AssignAt, HomeEdit.Move and the other `…Change`/`Update…` methods require an in-range index. Every call site in the forms passes the position of a rendered entry. An assignment outside the array, which in the source would grow it or throw, is not modelled.
- The language and field-name arguments are limited to the record's assignable fields, paired with a language exactly for the bilingual fields. A key name outside the record, which in the source would add a new key, is not modelled.
- Missing keys other than the ones the code defaults are not modelled. A stored catalog section is assumed to carry `type`, `images` and `variants`. The load defaults only the six texts and `articles` (CatalogEdit.jsx lines 47-56), so a record without `variants` keeps it undefined. Then `addVariant` throws on the spread at line 83 and the variant list fails to render, and a record without `images` fails at line 457. Likewise, a home section is assumed to carry `data` (HomeEdit.jsx line 222), and a slide to carry `title` (line 253). The model has no such missing state and no crash.
- Stored values of other types are not modelled: numbers or booleans in a text field, and non-string values among the unnamed keys. The three `extra` maps (`CatalogEdit.CatalogSection`, `HomeEdit.SectionData`, `PagesEdit.StaticPage`) hold string values only.
- A plain-string bilingual value is modelled only in the six catalog texts, the only place the code converts one into a `{de, en}` pair (CatalogEdit.jsx lines 49-54). Everywhere else a bilingual value is assumed to be an object. This covers an article's `description` and `category` (kept as stored, line 55), the slide, feature, stat and about texts, and the static-page `title`, `subtitle` and `content`. No code converts these. With a string there, the source shows an empty box, because indexing a string by `de` or `en` gives `undefined` (CatalogEdit.jsx line 408, PagesEdit.jsx line 144). An edit then spreads the string's characters into index keys `0`, `1`, … beside the new language key (CatalogEdit.jsx line 103, PagesEdit.jsx line 52). In the home sub-editors, assigning a language into a string (HomeEdit.jsx lines 226, 274, 318, 354) throws a `TypeError`, because module code runs in strict mode. None of this is modelled.
- Only `HomeEdit.SectionData`, `PagesEdit.StaticPage` and `CatalogEdit.CatalogSection` carry unnamed keys. The other records are closed: `CatalogEdit.Images`, `Variant`, `Article`, `HomeEdit.Section`, `Slide`, `Feature`, `Stat` and `About`. The source's spreads would keep any extra key on them too, for example `{ ...prev.images, hero }` (CatalogEdit.jsx line 458) and the copied slide, feature, stat and about objects. For these records the "nothing else changes" frames are stated for the named fields only.
- The catalog list crashes on a `null` name (`typeof null === 'object'`); the model's `Absent` stands for `undefined` only in `ListTitle`.
- HomeEdit.MaxOrder: order values are unbounded integers. JavaScript numbers are doubles, and `Math.max` over a non-numeric order gives `NaN`; neither is modelled.
- PagesEdit.Upper: models `toUpperCase` on ASCII letters only. That covers the five fixed slugs, which are all the sidebar upper-cases.
- React rendering, the JSX markup, `ImageUpload`, the authentication context, the login page, routing and the dashboard layout are not part of this model.
- A save-time check of each section's `data` against its type is not modelled: none of the three pages performs one before writing.
