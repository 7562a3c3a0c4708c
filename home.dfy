/** The home-page editor: an ordered list of typed content sections, each with a `data`
    object that a type-specific sub-editor edits. */
module HomeEdit {
  import opened Common

  datatype Slide = Slide(image: string, title: Text, subtitle: Text, link: string, order: int)

  datatype Feature = Feature(icon: string, title: Text, content: Text)

  datatype Stat = Stat(number: string, statLabel: Text)

  datatype About = About(title: Text, content: Text, image: string, link: string)

  /** A section's `data` object. Each key the sub-editors read may be absent; a sub-editor
      spreads the object, so the keys it does not touch are carried along, among them the
      keys no sub-editor knows, held in `extra`. */
  datatype SectionData = SectionData(
    slides: Option<seq<Slide>>, features: Option<seq<Feature>>,
    stats: Option<seq<Stat>>, about: Option<About>, extra: map<string, string>)

  /** `{}`. */
  const NoData := SectionData(None, None, None, None, map[])

  /** One home-page section. `section` is its identifier and persistence key, `sectionType`
      its `type` tag. */
  datatype Section = Section(section: string, sectionType: string, isActive: bool, order: int, data: SectionData)

  /** The about record the registry creates, and the one the about editor falls back to. */
  const BlankAbout := About(Blank, Blank, "", "")

  // ---------------------------------------------------------------- type registry

  /** `getDefaultDataForType(type)`: each known tag gets exactly its own key holding an empty
      payload; any other tag gets `{}`. */
  function DefaultDataForType(sectionType: string): (r: SectionData)
    ensures r.slides.Some? <==> sectionType == "hero-slider"
    ensures r.features.Some? <==> sectionType == "features"
    ensures r.stats.Some? <==> sectionType == "stats"
    ensures r.about.Some? <==> sectionType == "about"
    ensures r.slides.Some? ==> r.slides.value == []
    ensures r.features.Some? ==> r.features.value == []
    ensures r.stats.Some? ==> r.stats.value == []
    ensures r.about.Some? ==> r.about.value == BlankAbout
    ensures r.extra == map[]
  {
    if sectionType == "hero-slider" then NoData.(slides := Some([]))
    else if sectionType == "features" then NoData.(features := Some([]))
    else if sectionType == "stats" then NoData.(stats := Some([]))
    else if sectionType == "about" then NoData.(about := Some(BlankAbout))
    else NoData
  }

  /** A fresh section of any type opens with empty sub-editors, and the about record the
      registry creates is the one the about editor would fall back to without it. */
  lemma FreshSectionOpensEmpty(sectionType: string)
    ensures SlidesOf(DefaultDataForType(sectionType)) == []
    ensures FeaturesOf(DefaultDataForType(sectionType)) == []
    ensures StatsOf(DefaultDataForType(sectionType)) == []
    ensures AboutOf(DefaultDataForType(sectionType)) == AboutOf(NoData)
  {
  }

  // ---------------------------------------------------------------- section list

  /** `Math.max(...sections.map(s => s.order))`. */
  function MaxOrder(sections: seq<Section>): (m: int)
    requires |sections| > 0
    ensures forall k :: 0 <= k < |sections| ==> sections[k].order <= m
    ensures exists k :: 0 <= k < |sections| && sections[k].order == m
  {
    if |sections| == 1 then sections[0].order
    else
      var rest := MaxOrder(sections[1..]);
      assert forall k :: 1 <= k < |sections| ==> sections[k] == sections[1..][k - 1];
      if sections[0].order >= rest then sections[0].order else rest
  }

  /** The order a new section gets: one past the largest, or 1 for an empty list. */
  function NextOrder(sections: seq<Section>): (n: int)
    ensures |sections| == 0 ==> n == 1
    ensures forall k :: 0 <= k < |sections| ==> sections[k].order < n
    ensures |sections| > 0 ==> exists k :: 0 <= k < |sections| && sections[k].order == n - 1
  {
    if |sections| > 0 then MaxOrder(sections) + 1 else 1
  }

  /** `addNewSection(type)`, with `sectionId` the identifier the caller built from the type and the clock. */
  function AddNewSection(sections: seq<Section>, sectionType: string, sectionId: string): (r: seq<Section>)
    ensures |r| == |sections| + 1 && r[..|sections|] == sections
    ensures r[|sections|].section == sectionId && r[|sections|].sectionType == sectionType
    ensures r[|sections|].isActive && r[|sections|].data == DefaultDataForType(sectionType)
    ensures r[|sections|].order == NextOrder(sections)
    ensures |sections| > 0 ==> r[|sections|].order == MaxOrder(sections) + 1
    ensures forall k :: 0 <= k < |sections| ==> sections[k].order < r[|sections|].order
    ensures |sections| == 0 ==> r[0].order == 1
  {
    sections + [Section(sectionId, sectionType, true, NextOrder(sections), DefaultDataForType(sectionType))]
  }

  /** `sections.filter(s => s.section !== sectionId)`, the local update after a delete. */
  function DeleteSection(sections: seq<Section>, sectionId: string): (r: seq<Section>)
    ensures |r| <= |sections|
    ensures forall k :: 0 <= k < |r| ==> r[k].section != sectionId
    ensures forall x :: x in r ==> x in sections
    ensures forall k :: 0 <= k < |sections| && sections[k].section != sectionId ==> sections[k] in r
    ensures (forall k :: 0 <= k < |sections| ==> sections[k].section != sectionId) ==> r == sections
  {
    if sections == [] then []
    else
      var rest := DeleteSection(sections[1..], sectionId);
      assert sections == [sections[0]] + sections[1..];
      if sections[0].section == sectionId then rest else [sections[0]] + rest
  }

  /** Deleting keeps the remaining sections in their order: it works piece by piece. */
  lemma {:induction false} DeleteSplits(a: seq<Section>, b: seq<Section>, sectionId: string)
    ensures DeleteSection(a + b, sectionId) == DeleteSection(a, sectionId) + DeleteSection(b, sectionId)
    decreases |a|
  {
    if a != [] {
      assert (a + b)[1..] == a[1..] + b;
      DeleteSplits(a[1..], b, sectionId);
    } else {
      assert a + b == b;
    }
  }

  /** The two sections' orders exchanged, everything else as it was. */
  function SwapOrders(sections: seq<Section>, i: nat, j: nat): (r: seq<Section>)
    requires i < |sections| && j < |sections|
    ensures |r| == |sections|
    ensures r[i].order == sections[j].order && r[j].order == sections[i].order
    ensures forall k :: 0 <= k < |r| ==> r[k] == sections[k].(order := r[k].order)
    ensures forall k :: 0 <= k < |r| && k != i && k != j ==> r[k] == sections[k]
  {
    sections[i := sections[i].(order := sections[j].order)][j := sections[j].(order := sections[i].order)]
  }

  /** Swapping the same two orders again restores the list. */
  lemma SwapOrdersTwice(sections: seq<Section>, i: nat, j: nat)
    requires i < |sections| && j < |sections|
    ensures SwapOrders(SwapOrders(sections, i, j), i, j) == sections
  {
    var r := SwapOrders(SwapOrders(sections, i, j), i, j);
    assert forall k :: 0 <= k < |r| ==> r[k] == sections[k];
  }

  /** `handleMove(index, direction)`, local part: copies the list and swaps the `order` of the
      section at `index` with its neighbour through a temporary; no neighbour, no change. */
  method Move(sections: seq<Section>, index: nat, direction: int) returns (r: seq<Section>)
    requires index < |sections|
    ensures !(0 <= index + direction < |sections|) ==> r == sections
    ensures 0 <= index + direction < |sections| ==> r == SwapOrders(sections, index, index + direction)
  {
    var newSections := new Section[|sections|](k requires 0 <= k < |sections| => sections[k]);
    var targetIndex := index + direction;
    if targetIndex < 0 || targetIndex >= newSections.Length {
      return sections;
    }
    var tempOrder := newSections[index].order;
    newSections[index] := newSections[index].(order := newSections[targetIndex].order);
    newSections[targetIndex] := newSections[targetIndex].(order := tempOrder);
    r := newSections[..];
  }

  /** The list is in display order: order values strictly increase. */
  predicate InDisplayOrder(sections: seq<Section>) {
    forall a, b :: 0 <= a < b < |sections| ==> sections[a].order < sections[b].order
  }

  /** After moving section `i` down in a list in display order, the list with the two sections
      traded in place is again in display order, with the very same order values: it is the
      list a fetch sorted by order returns once both writes have succeeded. */
  lemma MoveDownTradesPlaces(sections: seq<Section>, i: nat)
    requires InDisplayOrder(sections)
    requires i + 1 < |sections|
    ensures var t := SwapOrders(sections, i, i + 1);
            var shown: seq<Section> := t[i := t[i + 1]][i + 1 := t[i]];
            InDisplayOrder(shown)
            && (forall k :: 0 <= k < |shown| ==> shown[k].order == sections[k].order)
            && shown[i].section == sections[i + 1].section && shown[i + 1].section == sections[i].section
  {
    var t := SwapOrders(sections, i, i + 1);
    var shown: seq<Section> := t[i := t[i + 1]][i + 1 := t[i]];
    assert forall k :: 0 <= k < |shown| ==> shown[k].order == sections[k].order;
  }

  /** The section at `index` with `isActive` flipped, nothing else changed. */
  function Toggled(sections: seq<Section>, index: nat): (r: seq<Section>)
    requires index < |sections|
    ensures |r| == |sections|
    ensures r[index].isActive == !sections[index].isActive
    ensures r[index].(isActive := sections[index].isActive) == sections[index]
    ensures forall k :: 0 <= k < |r| && k != index ==> r[k] == sections[k]
  {
    sections[index := sections[index].(isActive := !sections[index].isActive)]
  }

  /** Toggling twice restores the list. */
  lemma ToggleTwice(sections: seq<Section>, index: nat)
    requires index < |sections|
    ensures Toggled(Toggled(sections, index), index) == sections
  {
    var r := Toggled(Toggled(sections, index), index);
    assert forall k :: 0 <= k < |r| ==> r[k] == sections[k];
  }

  /** `toggleActive(index)`, local part: copies the list and flips one section's `isActive`. */
  method ToggleActive(sections: seq<Section>, index: nat) returns (r: seq<Section>)
    requires index < |sections|
    ensures r == Toggled(sections, index)
  {
    var s := sections[index];
    r := AssignAt(sections, index, s.(isActive := !s.isActive));
  }

  /** `updateSectionData(index, newData)`: copies the list and replaces one section's `data`. */
  method UpdateSectionData(sections: seq<Section>, index: nat, newData: SectionData) returns (r: seq<Section>)
    requires index < |sections|
    ensures |r| == |sections|
    ensures r[index].data == newData && r[index].(data := sections[index].data) == sections[index]
    ensures forall k :: 0 <= k < |r| && k != index ==> r[k] == sections[k]
  {
    var s := sections[index];
    r := AssignAt(sections, index, s.(data := newData));
  }

  // ---------------------------------------------------------------- slider editor

  /** `data.slides || []`. */
  function SlidesOf(d: SectionData): (r: seq<Slide>)
    ensures d.slides.Some? ==> r == d.slides.value
    ensures d.slides.None? ==> r == []
  {
    d.slides.GetOr([])
  }

  /** `addSlide`: a blank slide numbered one past the current count. */
  function AddSlide(d: SectionData): (r: SectionData)
    ensures r.slides.Some? && |SlidesOf(r)| == |SlidesOf(d)| + 1
    ensures SlidesOf(r)[..|SlidesOf(d)|] == SlidesOf(d)
    ensures SlidesOf(r)[|SlidesOf(d)|] == Slide("", Blank, Blank, "", |SlidesOf(d)| + 1)
    ensures r == d.(slides := r.slides)
  {
    var slides := SlidesOf(d);
    d.(slides := Some(slides + [Slide("", Blank, Blank, "", |slides| + 1)]))
  }

  /** `removeSlide(idx)`: drops exactly the slide at `idx`; the others keep their order numbers. */
  function RemoveSlide(d: SectionData, idx: int): (r: SectionData)
    ensures r.slides.Some?
    ensures 0 <= idx < |SlidesOf(d)| ==> SlidesOf(r) == SlidesOf(d)[..idx] + SlidesOf(d)[idx + 1..]
    ensures !(0 <= idx < |SlidesOf(d)|) ==> SlidesOf(r) == SlidesOf(d)
    ensures r == d.(slides := r.slides)
  {
    d.(slides := Some(RemoveAt(SlidesOf(d), idx)))
  }

  /** Slides numbered by position. */
  predicate NumberedByPosition(slides: seq<Slide>) {
    forall k :: 0 <= k < |slides| ==> slides[k].order == k + 1
  }

  /** Adding keeps slides numbered by position. */
  lemma AddSlideKeepsNumbering(d: SectionData)
    requires NumberedByPosition(SlidesOf(d))
    ensures NumberedByPosition(SlidesOf(AddSlide(d)))
  {
    var before := SlidesOf(d);
    var after := SlidesOf(AddSlide(d));
    forall k | 0 <= k < |after| ensures after[k].order == k + 1 {
      if k < |before| {
        assert after[k] == after[..|before|][k];
      }
    }
  }

  /** Removing a slide does not renumber the rest, so a later add can repeat an order number. */
  lemma RemoveThenAddRepeatsOrder()
    ensures var d := NoData.(slides := Some([Slide("", Blank, Blank, "", 1), Slide("", Blank, Blank, "", 2)]));
            var r := SlidesOf(AddSlide(RemoveSlide(d, 0)));
            |r| == 2 && r[0].order == 2 && r[1].order == 2
  {
    var d := NoData.(slides := Some([Slide("", Blank, Blank, "", 1), Slide("", Blank, Blank, "", 2)]));
    assert SlidesOf(RemoveSlide(d, 0)) == [Slide("", Blank, Blank, "", 2)];
  }

  /** The slide fields the slider editor edits. */
  datatype SlideField = SlideImage | SlideLink | SlideTitle | SlideSubtitle

  predicate IsTextSlideField(f: SlideField) {
    f == SlideTitle || f == SlideSubtitle
  }

  /** `slide[field][sub] = val` with a language, `slide[field] = val` without one. */
  function EditSlide(s: Slide, field: SlideField, val: string, sub: Option<Lang>): (r: Slide)
    requires sub.Some? <==> IsTextSlideField(field)
    ensures field == SlideImage ==> r.image == val && r.(image := s.image) == s
    ensures field == SlideLink ==> r.link == val && r.(link := s.link) == s
    ensures field == SlideTitle ==> r.title == s.title[sub.value := val] && r.(title := s.title) == s
    ensures field == SlideSubtitle ==> r.subtitle == s.subtitle[sub.value := val] && r.(subtitle := s.subtitle) == s
  {
    match field
    case SlideImage => s.(image := val)
    case SlideLink => s.(link := val)
    case SlideTitle => s.(title := s.title[sub.value := val])
    case SlideSubtitle => s.(subtitle := s.subtitle[sub.value := val])
  }

  /** `updateSlide(idx, field, val, sub)`: copies the slide list and edits one slide. */
  method UpdateSlide(d: SectionData, idx: nat, field: SlideField, val: string, sub: Option<Lang>) returns (r: SectionData)
    requires idx < |SlidesOf(d)|
    requires sub.Some? <==> IsTextSlideField(field)
    ensures r.slides.Some? && |SlidesOf(r)| == |SlidesOf(d)|
    ensures SlidesOf(r)[idx] == EditSlide(SlidesOf(d)[idx], field, val, sub)
    ensures forall k :: 0 <= k < |SlidesOf(d)| && k != idx ==> SlidesOf(r)[k] == SlidesOf(d)[k]
    ensures r == d.(slides := r.slides)
  {
    var slides := SlidesOf(d);
    var newSlides := AssignAt(slides, idx, EditSlide(slides[idx], field, val, sub));
    r := d.(slides := Some(newSlides));
  }

  // ---------------------------------------------------------------- features editor

  /** `data.features || []`. */
  function FeaturesOf(d: SectionData): (r: seq<Feature>)
    ensures d.features.Some? ==> r == d.features.value
    ensures d.features.None? ==> r == []
  {
    d.features.GetOr([])
  }

  /** `addFeature`: a blank feature with the `Zap` icon. */
  function AddFeature(d: SectionData): (r: SectionData)
    ensures r.features.Some? && |FeaturesOf(r)| == |FeaturesOf(d)| + 1
    ensures FeaturesOf(r)[..|FeaturesOf(d)|] == FeaturesOf(d)
    ensures FeaturesOf(r)[|FeaturesOf(d)|] == Feature("Zap", Blank, Blank)
    ensures r == d.(features := r.features)
  {
    d.(features := Some(FeaturesOf(d) + [Feature("Zap", Blank, Blank)]))
  }

  /** `removeFeature(idx)`: drops exactly the feature at `idx`. */
  function RemoveFeature(d: SectionData, idx: int): (r: SectionData)
    ensures r.features.Some?
    ensures 0 <= idx < |FeaturesOf(d)| ==> FeaturesOf(r) == FeaturesOf(d)[..idx] + FeaturesOf(d)[idx + 1..]
    ensures !(0 <= idx < |FeaturesOf(d)|) ==> FeaturesOf(r) == FeaturesOf(d)
    ensures r == d.(features := r.features)
  {
    d.(features := Some(RemoveAt(FeaturesOf(d), idx)))
  }

  /** The feature fields the features editor edits. */
  datatype FeatureField = FeatureIcon | FeatureTitle | FeatureContent

  predicate IsTextFeatureField(f: FeatureField) {
    f == FeatureTitle || f == FeatureContent
  }

  /** `feature[field][sub] = val` with a language, `feature[field] = val` without one. */
  function EditFeature(f: Feature, field: FeatureField, val: string, sub: Option<Lang>): (r: Feature)
    requires sub.Some? <==> IsTextFeatureField(field)
    ensures field == FeatureIcon ==> r.icon == val && r.(icon := f.icon) == f
    ensures field == FeatureTitle ==> r.title == f.title[sub.value := val] && r.(title := f.title) == f
    ensures field == FeatureContent ==> r.content == f.content[sub.value := val] && r.(content := f.content) == f
  {
    match field
    case FeatureIcon => f.(icon := val)
    case FeatureTitle => f.(title := f.title[sub.value := val])
    case FeatureContent => f.(content := f.content[sub.value := val])
  }

  /** `updateFeature(idx, field, val, sub)`: copies the feature list and edits one feature. */
  method UpdateFeature(d: SectionData, idx: nat, field: FeatureField, val: string, sub: Option<Lang>) returns (r: SectionData)
    requires idx < |FeaturesOf(d)|
    requires sub.Some? <==> IsTextFeatureField(field)
    ensures r.features.Some? && |FeaturesOf(r)| == |FeaturesOf(d)|
    ensures FeaturesOf(r)[idx] == EditFeature(FeaturesOf(d)[idx], field, val, sub)
    ensures forall k :: 0 <= k < |FeaturesOf(d)| && k != idx ==> FeaturesOf(r)[k] == FeaturesOf(d)[k]
    ensures r == d.(features := r.features)
  {
    var features := FeaturesOf(d);
    var newFeatures := AssignAt(features, idx, EditFeature(features[idx], field, val, sub));
    r := d.(features := Some(newFeatures));
  }

  // ---------------------------------------------------------------- stats editor

  /** `data.stats || []`. */
  function StatsOf(d: SectionData): (r: seq<Stat>)
    ensures d.stats.Some? ==> r == d.stats.value
    ensures d.stats.None? ==> r == []
  {
    d.stats.GetOr([])
  }

  /** `addStat`: a stat showing the number `'0'` with a blank label. */
  function AddStat(d: SectionData): (r: SectionData)
    ensures r.stats.Some? && |StatsOf(r)| == |StatsOf(d)| + 1
    ensures StatsOf(r)[..|StatsOf(d)|] == StatsOf(d)
    ensures StatsOf(r)[|StatsOf(d)|] == Stat("0", Blank)
    ensures r == d.(stats := r.stats)
  {
    d.(stats := Some(StatsOf(d) + [Stat("0", Blank)]))
  }

  /** `removeStat(idx)`: drops exactly the stat at `idx`. */
  function RemoveStat(d: SectionData, idx: int): (r: SectionData)
    ensures r.stats.Some?
    ensures 0 <= idx < |StatsOf(d)| ==> StatsOf(r) == StatsOf(d)[..idx] + StatsOf(d)[idx + 1..]
    ensures !(0 <= idx < |StatsOf(d)|) ==> StatsOf(r) == StatsOf(d)
    ensures r == d.(stats := r.stats)
  {
    d.(stats := Some(RemoveAt(StatsOf(d), idx)))
  }

  /** The stat fields the stats editor edits. */
  datatype StatField = StatNumber | StatLabel

  /** `stat[field][sub] = val` with a language, `stat[field] = val` without one. */
  function EditStat(s: Stat, field: StatField, val: string, sub: Option<Lang>): (r: Stat)
    requires sub.Some? <==> field == StatLabel
    ensures field == StatNumber ==> r.number == val && r.statLabel == s.statLabel
    ensures field == StatLabel ==> r.statLabel == s.statLabel[sub.value := val] && r.number == s.number
  {
    match field
    case StatNumber => s.(number := val)
    case StatLabel => s.(statLabel := s.statLabel[sub.value := val])
  }

  /** `updateStat(idx, field, val, sub)`: copies the stat list and edits one stat. */
  method UpdateStat(d: SectionData, idx: nat, field: StatField, val: string, sub: Option<Lang>) returns (r: SectionData)
    requires idx < |StatsOf(d)|
    requires sub.Some? <==> field == StatLabel
    ensures r.stats.Some? && |StatsOf(r)| == |StatsOf(d)|
    ensures StatsOf(r)[idx] == EditStat(StatsOf(d)[idx], field, val, sub)
    ensures forall k :: 0 <= k < |StatsOf(d)| && k != idx ==> StatsOf(r)[k] == StatsOf(d)[k]
    ensures r == d.(stats := r.stats)
  {
    var stats := StatsOf(d);
    var newStats := AssignAt(stats, idx, EditStat(stats[idx], field, val, sub));
    r := d.(stats := Some(newStats));
  }

  /** The spread `{ ...data, key: … }` of every add and remove carries the keys no sub-editor knows. */
  lemma SubEditorsKeepUnknownKeys(d: SectionData, idx: int)
    ensures AddSlide(d).extra == d.extra && RemoveSlide(d, idx).extra == d.extra
    ensures AddFeature(d).extra == d.extra && RemoveFeature(d, idx).extra == d.extra
    ensures AddStat(d).extra == d.extra && RemoveStat(d, idx).extra == d.extra
  {
  }

  // ---------------------------------------------------------------- about editor

  /** `data.about || { title: {de:'', en:''}, content: {de:'', en:''}, image: '', link: '' }`. */
  function AboutOf(d: SectionData): (r: About)
    ensures d.about.Some? ==> r == d.about.value
    ensures d.about.None? ==> r == BlankAbout && r.title == Blank && r.content == Blank && r.image == "" && r.link == ""
  {
    d.about.GetOr(BlankAbout)
  }

  /** The about fields the about editor edits. */
  datatype AboutField = AboutTitle | AboutContent | AboutImage | AboutLink

  predicate IsTextAboutField(f: AboutField) {
    f == AboutTitle || f == AboutContent
  }

  /** `about[field][sub] = val` with a language, `about[field] = val` without one. */
  function EditAbout(a: About, field: AboutField, val: string, sub: Option<Lang>): (r: About)
    requires sub.Some? <==> IsTextAboutField(field)
    ensures field == AboutTitle ==> r.title == a.title[sub.value := val] && r.(title := a.title) == a
    ensures field == AboutContent ==> r.content == a.content[sub.value := val] && r.(content := a.content) == a
    ensures field == AboutImage ==> r.image == val && r.(image := a.image) == a
    ensures field == AboutLink ==> r.link == val && r.(link := a.link) == a
  {
    match field
    case AboutTitle => a.(title := a.title[sub.value := val])
    case AboutContent => a.(content := a.content[sub.value := val])
    case AboutImage => a.(image := val)
    case AboutLink => a.(link := val)
  }

  /** The about editor's `update(field, val, sub)`: copies the about record (or its fallback),
      edits one field of the copy and stores it under `about`. */
  method UpdateAbout(d: SectionData, field: AboutField, val: string, sub: Option<Lang>) returns (r: SectionData)
    requires sub.Some? <==> IsTextAboutField(field)
    ensures r.about == Some(EditAbout(AboutOf(d), field, val, sub))
    ensures r == d.(about := r.about)
  {
    var newAbout := AboutOf(d);
    newAbout := EditAbout(newAbout, field, val, sub);
    r := d.(about := Some(newAbout));
  }
}
