/** The catalog editor: a stored catalog section is normalized into the form record when it is
    loaded, edited one field, one variant or one article at a time, and written back whole. */
module CatalogEdit {
  import opened Common
  import Lengths

  datatype Images = Images(hero: string)

  /** One purchasable configuration of a product. */
  datatype Variant = Variant(
    diameter: string, color: string, hex: string, lengths: seq<string>,
    boxImage: string, implantImage: string)

  /** One article row of the catalog section. */
  datatype Article = Article(artNr: string, description: Text, category: Text, image: string)

  /** The form record. `kind` is the stored `type` tag; `extra` holds the stored keys the form
      does not know about, which the object spread carries along untouched. */
  datatype CatalogSection = CatalogSection(
    name: Text, title: Text, description: Text, subDescription: Text,
    benefitBar: Text, applicationArea: Text,
    kind: string, images: Images, variants: seq<Variant>, articles: seq<Article>,
    extra: map<string, string>)

  /** The six bilingual fields of a catalog section. */
  datatype TextField = Name | Title | Description | SubDescription | BenefitBar | ApplicationArea

  function TextOf(c: CatalogSection, f: TextField): Text {
    match f
    case Name => c.name
    case Title => c.title
    case Description => c.description
    case SubDescription => c.subDescription
    case BenefitBar => c.benefitBar
    case ApplicationArea => c.applicationArea
  }

  /** Everything but the six bilingual fields agrees. */
  predicate SameNonText(c: CatalogSection, d: CatalogSection) {
    c.kind == d.kind && c.images == d.images && c.variants == d.variants
    && c.articles == d.articles && c.extra == d.extra
  }

  /** Replaces one bilingual field and nothing else. */
  function WithText(c: CatalogSection, f: TextField, t: Text): (r: CatalogSection)
    ensures TextOf(r, f) == t
    ensures forall g :: g != f ==> TextOf(r, g) == TextOf(c, g)
    ensures SameNonText(r, c)
  {
    match f
    case Name => c.(name := t)
    case Title => c.(title := t)
    case Description => c.(description := t)
    case SubDescription => c.(subDescription := t)
    case BenefitBar => c.(benefitBar := t)
    case ApplicationArea => c.(applicationArea := t)
  }

  /** The form before anything has been loaded. */
  const InitialForm := CatalogSection(
    Blank, Blank, Blank, Blank, Blank, Blank, "product", Images(""), [], [], map[])

  /** The initial form holds blank texts in both languages, the `product` type, no hero image,
      and no variants or articles. */
  lemma InitialFormIsBlank()
    ensures forall f :: TextOf(InitialForm, f) == Blank && Blank[De] == "" && Blank[En] == ""
    ensures InitialForm.kind == "product" && InitialForm.images.hero == ""
    ensures InitialForm.variants == [] && InitialForm.articles == [] && InitialForm.extra == map[]
  {
  }

  // ---------------------------------------------------------------- loading

  /** A bilingual field as a stored record holds it: a legacy plain string, an object,
      or nothing (`undefined` or `null`). */
  datatype StoredText = Legacy(s: string) | Stored(t: Text) | Absent

  /** A catalog section as the store returns it. `articles` may be missing. */
  datatype StoredCatalog = StoredCatalog(
    name: StoredText, title: StoredText, description: StoredText, subDescription: StoredText,
    benefitBar: StoredText, applicationArea: StoredText,
    kind: string, images: Images, variants: seq<Variant>, articles: Option<seq<Article>>,
    extra: map<string, string>)

  function StoredTextOf(d: StoredCatalog, f: TextField): StoredText {
    match f
    case Name => d.name
    case Title => d.title
    case Description => d.description
    case SubDescription => d.subDescription
    case BenefitBar => d.benefitBar
    case ApplicationArea => d.applicationArea
  }

  /** The legacy coercion: a plain string becomes the content of both languages, an object is
      kept as it is, and a missing value becomes the blank pair. */
  function NormalizeText(v: StoredText): (t: Text)
    ensures v.Legacy? ==> t.Keys == {De, En} && t[De] == v.s && t[En] == v.s
    ensures v.Stored? ==> t == v.t
    ensures v.Absent? ==> t == Blank
  {
    match v
    case Legacy(s) => map[De := s, En := s]
    case Stored(t) => t
    case Absent => Blank
  }

  /** The record put into the form on load: each bilingual field coerced, a missing article
      list replaced by the empty one, every other key carried over by the spread. */
  function Normalize(d: StoredCatalog): (c: CatalogSection)
    ensures forall f :: TextOf(c, f) == NormalizeText(StoredTextOf(d, f))
    ensures c.kind == d.kind && c.images == d.images && c.variants == d.variants && c.extra == d.extra
    ensures d.articles.Some? ==> c.articles == d.articles.value
    ensures d.articles.None? ==> c.articles == []
  {
    CatalogSection(
      NormalizeText(d.name), NormalizeText(d.title), NormalizeText(d.description),
      NormalizeText(d.subDescription), NormalizeText(d.benefitBar), NormalizeText(d.applicationArea),
      d.kind, d.images, d.variants, d.articles.GetOr([]), d.extra)
  }

  /** The document a save writes: the form record as it stands, every bilingual field an object. */
  function Store(c: CatalogSection): (d: StoredCatalog)
    ensures forall f :: StoredTextOf(d, f) == Stored(TextOf(c, f))
    ensures d.articles == Some(c.articles)
    ensures d.kind == c.kind && d.images == c.images && d.variants == c.variants && d.extra == c.extra
  {
    StoredCatalog(
      Stored(c.name), Stored(c.title), Stored(c.description), Stored(c.subDescription),
      Stored(c.benefitBar), Stored(c.applicationArea),
      c.kind, c.images, c.variants, Some(c.articles), c.extra)
  }

  /** A stored record already in the current shape: every bilingual field an object and an article list present. */
  predicate IsCurrentShape(d: StoredCatalog) {
    (forall f :: StoredTextOf(d, f).Stored?) && d.articles.Some?
  }

  /** Saving a form and loading it again gives the form back, field for field:
      nothing is collapsed into plain strings again. */
  lemma SaveThenLoad(c: CatalogSection)
    ensures IsCurrentShape(Store(c))
    ensures Normalize(Store(c)) == c
  {
  }

  /** Normalizing a record already in the current shape changes nothing. */
  lemma LoadCurrentShapeUnchanged(d: StoredCatalog)
    requires IsCurrentShape(d)
    ensures Store(Normalize(d)) == d
  {
    assert StoredTextOf(d, Name).Stored? && StoredTextOf(d, Title).Stored?;
    assert StoredTextOf(d, Description).Stored? && StoredTextOf(d, SubDescription).Stored?;
    assert StoredTextOf(d, BenefitBar).Stored? && StoredTextOf(d, ApplicationArea).Stored?;
  }

  /** Normalization is idempotent. */
  lemma NormalizeIdempotent(d: StoredCatalog)
    ensures Normalize(Store(Normalize(d))) == Normalize(d)
  {
    SaveThenLoad(Normalize(d));
  }

  /** A stored record holding none of the bilingual fields and no articles loads as the initial form. */
  lemma EmptyRecordLoadsAsInitialForm()
    ensures Normalize(StoredCatalog(Absent, Absent, Absent, Absent, Absent, Absent,
                                    "product", Images(""), [], None, map[])) == InitialForm
  {
  }

  // ---------------------------------------------------------------- header title

  /** `formData.name.de || formData.name.en`, the title in the editor's header. */
  function HeaderTitle(name: Text): (r: string)
    ensures De in name && name[De] != "" ==> r == name[De]
    ensures !(De in name && name[De] != "") ==> r == (if En in name then name[En] else "")
  {
    if De in name && name[De] != "" then name[De]
    else if En in name then name[En]
    else ""
  }

  /** The catalog list's title: an object shows `de || en`, anything else is shown as it is. */
  function ListTitle(v: StoredText): (r: string)
    ensures v.Legacy? ==> r == v.s
    ensures v.Absent? ==> r == ""
    ensures v.Stored? && De in v.t && v.t[De] != "" ==> r == v.t[De]
    ensures v.Stored? && !(De in v.t && v.t[De] != "") ==> r == (if En in v.t then v.t[En] else "")
  {
    match v
    case Stored(t) => HeaderTitle(t)
    case Legacy(s) => s
    case Absent => ""
  }

  /** The catalog list and the editor header show the same title for every stored name. */
  lemma ListAndHeaderAgree(v: StoredText)
    ensures HeaderTitle(NormalizeText(v)) == ListTitle(v)
  {
  }

  /** Typing a non-empty German name shows it in the header; typing an English name leaves a
      non-empty German header as it was. */
  lemma HeaderFollowsNameEdits(c: CatalogSection, value: string)
    ensures value != "" ==> HeaderTitle(BilingualInputChange(c, Name, De, value).name) == value
    ensures De in c.name && c.name[De] != "" ==>
      HeaderTitle(BilingualInputChange(c, Name, En, value).name) == c.name[De]
  {
  }

  // ---------------------------------------------------------------- bilingual fields

  /** `handleBilingualInputChange(field, lang, value)`: `{ ...prev, [field]: { ...prev[field], [lang]: value } }`. */
  function BilingualInputChange(c: CatalogSection, field: TextField, lang: Lang, value: string): (r: CatalogSection)
    ensures lang in TextOf(r, field) && TextOf(r, field)[lang] == value
    ensures forall l :: l != lang ==> (l in TextOf(r, field) <==> l in TextOf(c, field))
    ensures forall l :: l != lang && l in TextOf(c, field) ==> TextOf(r, field)[l] == TextOf(c, field)[l]
    ensures forall g :: g != field ==> TextOf(r, g) == TextOf(c, g)
    ensures SameNonText(r, c)
  {
    WithText(c, field, TextOf(c, field)[lang := value])
  }

  /** `images: { ...prev.images, hero: url }`, from the upload or the direct URL box. */
  function SetHeroImage(c: CatalogSection, url: string): (r: CatalogSection)
    ensures r.images.hero == url
    ensures r == c.(images := r.images)
  {
    c.(images := c.images.(hero := url))
  }

  // ---------------------------------------------------------------- variants

  /** The entry `addVariant` appends. */
  const DefaultVariant := Variant("", "", "#000000", [], "", "")

  /** `addVariant`. */
  function AddVariant(c: CatalogSection): (r: CatalogSection)
    ensures |r.variants| == |c.variants| + 1
    ensures r.variants[..|c.variants|] == c.variants
    ensures r.variants[|c.variants|] == DefaultVariant
    ensures r.variants[|c.variants|].hex == "#000000" && r.variants[|c.variants|].lengths == []
    ensures r == c.(variants := r.variants)
  {
    c.(variants := c.variants + [DefaultVariant])
  }

  /** `removeVariant(index)`: drops exactly the entry at `index`; any other index drops nothing. */
  function RemoveVariant(c: CatalogSection, index: int): (r: CatalogSection)
    ensures 0 <= index < |c.variants| ==>
      |r.variants| == |c.variants| - 1 && r.variants == c.variants[..index] + c.variants[index + 1..]
    ensures !(0 <= index < |c.variants|) ==> r.variants == c.variants
    ensures r == c.(variants := r.variants)
  {
    c.(variants := RemoveAt(c.variants, index))
  }

  /** Removing the variant just added restores the form. */
  lemma AddThenRemoveVariant(c: CatalogSection)
    ensures RemoveVariant(AddVariant(c), |c.variants|) == c
  {
    RemoveAppended(c.variants, DefaultVariant);
  }

  /** The text fields of a variant the form edits through `handleVariantChange`. */
  datatype VariantField = Diameter | Color | Hex | BoxImage | ImplantImage

  function VariantText(v: Variant, f: VariantField): string {
    match f
    case Diameter => v.diameter
    case Color => v.color
    case Hex => v.hex
    case BoxImage => v.boxImage
    case ImplantImage => v.implantImage
  }

  /** `variant[field] = value`. */
  function SetVariantText(v: Variant, f: VariantField, value: string): (r: Variant)
    ensures VariantText(r, f) == value
    ensures forall g :: g != f ==> VariantText(r, g) == VariantText(v, g)
    ensures r.lengths == v.lengths
  {
    match f
    case Diameter => v.(diameter := value)
    case Color => v.(color := value)
    case Hex => v.(hex := value)
    case BoxImage => v.(boxImage := value)
    case ImplantImage => v.(implantImage := value)
  }

  /** `handleVariantChange(index, field, value)`: copies the variant list and assigns one
      field of one entry. */
  method VariantChange(c: CatalogSection, index: nat, field: VariantField, value: string) returns (r: CatalogSection)
    requires index < |c.variants|
    ensures |r.variants| == |c.variants|
    ensures r.variants[index] == SetVariantText(c.variants[index], field, value)
    ensures forall k :: 0 <= k < |c.variants| && k != index ==> r.variants[k] == c.variants[k]
    ensures r == c.(variants := r.variants)
  {
    var newVariants := AssignAt(c.variants, index, SetVariantText(c.variants[index], field, value));
    r := c.(variants := newVariants);
  }

  /** `handleLengthsChange(vIdx, value)`: the entry's lengths become the parsed box. */
  method LengthsChange(c: CatalogSection, vIdx: nat, value: string) returns (r: CatalogSection)
    requires vIdx < |c.variants|
    ensures |r.variants| == |c.variants|
    ensures r.variants[vIdx].lengths == Lengths.ParseLengths(value)
    ensures |r.variants[vIdx].lengths| == Lengths.Commas(value) + 1
    ensures r.variants[vIdx].(lengths := c.variants[vIdx].lengths) == c.variants[vIdx]
    ensures forall k :: 0 <= k < |c.variants| && k != vIdx ==> r.variants[k] == c.variants[k]
    ensures r == c.(variants := r.variants)
  {
    var edited := c.variants[vIdx].(lengths := Lengths.ParseLengths(value));
    var newVariants := AssignAt(c.variants, vIdx, edited);
    r := c.(variants := newVariants);
  }

  // ---------------------------------------------------------------- articles

  /** The entry `addArticle` appends. */
  const DefaultArticle := Article("", Blank, Blank, "")

  /** `addArticle`. */
  function AddArticle(c: CatalogSection): (r: CatalogSection)
    ensures |r.articles| == |c.articles| + 1
    ensures r.articles[..|c.articles|] == c.articles
    ensures r.articles[|c.articles|] == DefaultArticle
    ensures r == c.(articles := r.articles)
  {
    c.(articles := c.articles + [DefaultArticle])
  }

  /** `removeArticle(index)`: drops exactly the entry at `index`; any other index drops nothing. */
  function RemoveArticle(c: CatalogSection, index: int): (r: CatalogSection)
    ensures 0 <= index < |c.articles| ==>
      |r.articles| == |c.articles| - 1 && r.articles == c.articles[..index] + c.articles[index + 1..]
    ensures !(0 <= index < |c.articles|) ==> r.articles == c.articles
    ensures r == c.(articles := r.articles)
  {
    c.(articles := RemoveAt(c.articles, index))
  }

  /** Removing the article just added restores the form. */
  lemma AddThenRemoveArticle(c: CatalogSection)
    ensures RemoveArticle(AddArticle(c), |c.articles|) == c
  {
    RemoveAppended(c.articles, DefaultArticle);
  }

  /** The fields of an article the form edits through `handleArticleChange`. */
  datatype ArticleField = ArtNr | ArticleDescription | ArticleCategory | ArticleImage

  /** The bilingual article fields, the ones the form edits one language at a time. */
  predicate IsTextArticleField(f: ArticleField) {
    f == ArticleDescription || f == ArticleCategory
  }

  /** `article[field] = { ...article[field], [lang]: value }` with a language,
      `article[field] = value` without one. */
  function EditArticle(a: Article, field: ArticleField, lang: Option<Lang>, value: string): (r: Article)
    requires lang.Some? <==> IsTextArticleField(field)
    ensures field == ArtNr ==> r.artNr == value && r.(artNr := a.artNr) == a
    ensures field == ArticleImage ==> r.image == value && r.(image := a.image) == a
    ensures field == ArticleDescription ==>
      r.description == a.description[lang.value := value] && r.(description := a.description) == a
    ensures field == ArticleCategory ==>
      r.category == a.category[lang.value := value] && r.(category := a.category) == a
  {
    match field
    case ArtNr => a.(artNr := value)
    case ArticleImage => a.(image := value)
    case ArticleDescription => a.(description := a.description[lang.value := value])
    case ArticleCategory => a.(category := a.category[lang.value := value])
  }

  /** `handleArticleChange(index, field, lang, value)`: copies the article list and edits one entry. */
  method ArticleChange(c: CatalogSection, index: nat, field: ArticleField, lang: Option<Lang>, value: string)
    returns (r: CatalogSection)
    requires index < |c.articles|
    requires lang.Some? <==> IsTextArticleField(field)
    ensures |r.articles| == |c.articles|
    ensures r.articles[index] == EditArticle(c.articles[index], field, lang, value)
    ensures forall k :: 0 <= k < |c.articles| && k != index ==> r.articles[k] == c.articles[k]
    ensures r == c.(articles := r.articles)
  {
    var newArticles := AssignAt(c.articles, index, EditArticle(c.articles[index], field, lang, value));
    r := c.(articles := newArticles);
  }
}
