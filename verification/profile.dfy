/** The single profile document and the merge `save` performs: each field
    takes the supplied value unless it is null or undefined, then the stored
    one, then a default; sections get ids and positions; the metadata is
    kept or created.

    Generated ids and the ISO time text are parameters. */
module ProfileService {
  import opened Wrappers

  datatype Section = Section(id: string, heading: string, subheading: string, content: string, order: int)

  datatype Vitals = Vitals(
    experience: string, level: string, location: string, status: string,
    availability: Option<string>)

  datatype Profile = Profile(
    id: string,
    name: string, title: string, location: string, bio: string,
    profileImage: Option<string>,
    sections: seq<Section>,
    vitals: Vitals,
    email: Option<string>, github: Option<string>, linkedin: Option<string>,
    twitter: Option<string>, website: Option<string>,
    createdAt: Option<string>, updatedAt: Option<string>)

  /** A section as supplied: its id and order may be missing. */
  datatype SectionInput = SectionInput(
    id: Option<string>, heading: string, subheading: string, content: string, order: Option<int>)

  datatype VitalsInput = VitalsInput(
    experience: Option<string>, level: Option<string>, location: Option<string>, status: Option<string>)

  /** The object passed to `save`: every field may be missing. */
  datatype ProfileInput = ProfileInput(
    name: Option<string>, title: Option<string>, location: Option<string>, bio: Option<string>,
    profileImage: Option<string>,
    sections: Option<seq<SectionInput>>,
    vitals: Option<VitalsInput>,
    email: Option<string>, github: Option<string>, linkedin: Option<string>,
    twitter: Option<string>, website: Option<string>)

  const EmptyInput: ProfileInput :=
    ProfileInput(None, None, None, None, None, None, None, None, None, None, None, None)

  /** `a ?? b` over a stored value that may itself be absent. */
  function Or<T>(supplied: Option<T>, stored: Option<T>): (r: Option<T>)
    ensures supplied.Some? ==> r == supplied
    ensures supplied.None? ==> r == stored
  {
    if supplied.Some? then supplied else stored
  }

  /** `supplied ?? stored ?? ''`. */
  function Text3(supplied: Option<string>, stored: Option<string>): (r: string)
    ensures supplied.Some? ==> r == supplied.value
    ensures supplied.None? && stored.Some? ==> r == stored.value
    ensures supplied.None? && stored.None? ==> r == ""
  {
    Or(supplied, stored).GetOr("")
  }

  /** The `??` rule for a text field: the supplied value when present, even
      empty; else the stored one; else the empty string. */
  predicate MergedAs(supplied: Option<string>, stored: Option<string>, r: string) {
    match supplied
    case Some(v) => r == v
    case None => r == stored.GetOr("")
  }

  /** A field of the stored profile, if there is one. */
  function Stored<T>(existing: Option<Profile>, field: Profile -> T): Option<T> {
    if existing.Some? then Some(field(existing.value)) else None
  }

  function AsInput(s: Section): SectionInput {
    SectionInput(Some(s.id), s.heading, s.subheading, s.content, Some(s.order))
  }

  /** One section of the saved list: a non-empty id is kept, otherwise a
      generated one is used; a missing order becomes the section's index. */
  function NormalizeSection(s: SectionInput, index: nat, generated: string): (r: Section)
    ensures s.id.Some? && s.id.value != "" ==> r.id == s.id.value
    ensures !(s.id.Some? && s.id.value != "") ==> r.id == generated
    ensures r.order == s.order.GetOr(index)
    ensures r.heading == s.heading && r.subheading == s.subheading && r.content == s.content
  {
    Section(
      if s.id.Some? && s.id.value != "" then s.id.value else generated,
      s.heading, s.subheading, s.content,
      s.order.GetOr(index))
  }

  function NormalizeSections(ss: seq<SectionInput>, sectionIds: nat -> string): (r: seq<Section>)
    ensures |r| == |ss|
    ensures forall k :: 0 <= k < |ss| ==> r[k] == NormalizeSection(ss[k], k, sectionIds(k))
  {
    seq(|ss|, k requires 0 <= k < |ss| => NormalizeSection(ss[k], k, sectionIds(k)))
  }

  /** The sections the save starts from: the supplied list, else the stored
      one, else none. */
  function SectionSource(data: ProfileInput, existing: Option<Profile>): seq<SectionInput> {
    if data.sections.Some? then data.sections.value
    else if existing.Some? then seq(|existing.value.sections|, k requires 0 <= k < |existing.value.sections| => AsInput(existing.value.sections[k]))
    else []
  }

  /** The four vitals fields, each merged on its own; any other stored
      vitals field is not carried over. */
  function MergeVitals(data: Option<VitalsInput>, existing: Option<Profile>): (r: Vitals)
    ensures var v := data.GetOr(VitalsInput(None, None, None, None));
      && MergedAs(v.experience, Stored(existing, (p: Profile) => p.vitals.experience), r.experience)
      && MergedAs(v.level, Stored(existing, (p: Profile) => p.vitals.level), r.level)
      && MergedAs(v.location, Stored(existing, (p: Profile) => p.vitals.location), r.location)
      && MergedAs(v.status, Stored(existing, (p: Profile) => p.vitals.status), r.status)
    ensures r.availability.None?
  {
    var v := if data.Some? then data.value else VitalsInput(None, None, None, None);
    Vitals(
      Text3(v.experience, Stored(existing, (p: Profile) => p.vitals.experience)),
      Text3(v.level, Stored(existing, (p: Profile) => p.vitals.level)),
      Text3(v.location, Stored(existing, (p: Profile) => p.vitals.location)),
      Text3(v.status, Stored(existing, (p: Profile) => p.vitals.status)),
      None)
  }

  /** `save`: the document written, which is also the value returned.
      `newId` is the id generated when the stored profile has none,
      `sectionIds(k)` the one generated for the k-th section, and `now` the
      ISO text of the current time. */
  function Save(existing: Option<Profile>, data: ProfileInput, newId: string,
                sectionIds: nat -> string, now: string): (r: Profile)
    ensures MergedAs(data.name, Stored(existing, (p: Profile) => p.name), r.name)
    ensures MergedAs(data.title, Stored(existing, (p: Profile) => p.title), r.title)
    ensures MergedAs(data.location, Stored(existing, (p: Profile) => p.location), r.location)
    ensures MergedAs(data.bio, Stored(existing, (p: Profile) => p.bio), r.bio)
    ensures r.vitals == MergeVitals(data.vitals, existing)
    ensures data.email.Some? ==> r.email == data.email
    ensures data.email.None? && existing.Some? ==> r.email == existing.value.email
    ensures data.profileImage.Some? ==> r.profileImage == data.profileImage
    ensures data.profileImage.None? && existing.Some? ==> r.profileImage == existing.value.profileImage
    ensures data.github.Some? ==> r.github == data.github
    ensures data.linkedin.Some? ==> r.linkedin == data.linkedin
    ensures data.twitter.Some? ==> r.twitter == data.twitter
    ensures data.website.Some? ==> r.website == data.website
    ensures existing.None? ==>
      r.email == data.email && r.profileImage == data.profileImage && r.github == data.github
      && r.linkedin == data.linkedin && r.twitter == data.twitter && r.website == data.website
    ensures data.github.None? && existing.Some? ==> r.github == existing.value.github
    ensures data.linkedin.None? && existing.Some? ==> r.linkedin == existing.value.linkedin
    ensures data.twitter.None? && existing.Some? ==> r.twitter == existing.value.twitter
    ensures data.website.None? && existing.Some? ==> r.website == existing.value.website
    ensures existing.Some? && existing.value.id != "" ==> r.id == existing.value.id
    ensures !(existing.Some? && existing.value.id != "") ==> r.id == newId
    ensures existing.None? ==> r.createdAt == Some(now)
    ensures existing.Some? && (existing.value.createdAt.None? || existing.value.createdAt.value == "") ==>
      r.createdAt == Some(now)
    ensures existing.Some? && existing.value.createdAt.Some? && existing.value.createdAt.value != "" ==>
      r.createdAt == existing.value.createdAt
    ensures r.updatedAt == Some(now)
    ensures data.sections.Some? ==> |r.sections| == |data.sections.value|
    ensures data.sections.None? && existing.Some? ==> |r.sections| == |existing.value.sections|
    ensures data.sections.None? && existing.None? ==> r.sections == []
    ensures var source := SectionSource(data, existing);
      && |r.sections| == |source|
      && forall k :: 0 <= k < |source| ==> r.sections[k] == NormalizeSection(source[k], k, sectionIds(k))
    ensures forall k :: 0 <= k < |r.sections| ==> r.sections[k].id != "" || sectionIds(k) == ""
  {
    var stored := existing;
    Profile(
      if existing.Some? && existing.value.id != "" then existing.value.id else newId,
      Text3(data.name, Stored(stored, (p: Profile) => p.name)),
      Text3(data.title, Stored(stored, (p: Profile) => p.title)),
      Text3(data.location, Stored(stored, (p: Profile) => p.location)),
      Text3(data.bio, Stored(stored, (p: Profile) => p.bio)),
      Or(data.profileImage, if existing.Some? then existing.value.profileImage else None),
      NormalizeSections(SectionSource(data, existing), sectionIds),
      MergeVitals(data.vitals, existing),
      Or(data.email, if existing.Some? then existing.value.email else None),
      Or(data.github, if existing.Some? then existing.value.github else None),
      Or(data.linkedin, if existing.Some? then existing.value.linkedin else None),
      Or(data.twitter, if existing.Some? then existing.value.twitter else None),
      Or(data.website, if existing.Some? then existing.value.website else None),
      if existing.Some? && existing.value.createdAt.Some? && existing.value.createdAt.value != "" then existing.value.createdAt
      else Some(now),
      Some(now))
  }

  /** A stored profile whose ids and creation time are all set. */
  predicate Complete(p: Profile) {
    && p.id != ""
    && p.createdAt.Some? && p.createdAt.value != ""
    && forall k :: 0 <= k < |p.sections| ==> p.sections[k].id != ""
  }

  /** Saving nothing over a complete profile changes only its update time
      (and drops the vitals' availability, which the merge does not copy):
      omitting a field never erases what is stored. */
  lemma SaveNothingKeeps(p: Profile, newId: string, sectionIds: nat -> string, now: string)
    requires Complete(p)
    ensures Save(Some(p), EmptyInput, newId, sectionIds, now)
      == p.(updatedAt := Some(now), vitals := p.vitals.(availability := None))
  {
    var r := Save(Some(p), EmptyInput, newId, sectionIds, now);
    assert r.sections == p.sections;
  }

  /** Supplied values win even when they are empty strings, unlike `||`. */
  lemma EmptyStringOverrides(p: Profile, data: ProfileInput, newId: string, sectionIds: nat -> string, now: string)
    requires data.name == Some("") && data.bio == Some("")
    ensures Save(Some(p), data, newId, sectionIds, now).name == ""
    ensures Save(Some(p), data, newId, sectionIds, now).bio == ""
  {
  }

  /** Saving the returned profile again changes only the update time: the
      merge is stable. */
  lemma SaveTwiceStable(existing: Option<Profile>, data: ProfileInput, newId: string,
                        sectionIds: nat -> string, now: string, later: string)
    requires now != ""
    requires forall k :: sectionIds(k) != ""
    ensures var r := Save(existing, data, newId, sectionIds, now);
      newId != "" ==> Save(Some(r), EmptyInput, newId, sectionIds, later) == r.(updatedAt := Some(later))
  {
    var r := Save(existing, data, newId, sectionIds, now);
    if newId != "" {
      SaveNothingKeeps(r, newId, sectionIds, later);
    }
  }
}
