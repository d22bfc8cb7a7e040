/** The section list of the profile editor's form: a section is appended
    blank, edited one text field at a time, or removed. No edit touches a
    field outside the section list. The fresh id of a new section is a
    parameter. */
module ProfileEditor {
  import opened Seqs
  import opened ProfileService

  /** The text fields the form edits. */
  datatype SectionField = Heading | Subheading | Content

  /** The value of one text field. */
  function FieldOf(s: Section, f: SectionField): string {
    match f
    case Heading => s.heading
    case Subheading => s.subheading
    case Content => s.content
  }

  /** `{ ...section, [field]: value }`. */
  function WithField(s: Section, f: SectionField, value: string): (r: Section)
    ensures FieldOf(r, f) == value
    ensures forall g :: g != f ==> FieldOf(r, g) == FieldOf(s, g)
    ensures r.id == s.id && r.order == s.order
  {
    match f
    case Heading => s.(heading := value)
    case Subheading => s.(subheading := value)
    case Content => s.(content := value)
  }

  /** `addSection`: a blank section with a fresh id and the section count as
      its order goes at the end. */
  function AddSection(form: Profile, newId: string): (r: Profile)
    ensures |r.sections| == |form.sections| + 1
    ensures r.sections[..|form.sections|] == form.sections
    ensures r.sections[|form.sections|] == Section(newId, "", "", "", |form.sections|)
    ensures r == form.(sections := r.sections)
  {
    form.(sections := form.sections + [Section(newId, "", "", "", |form.sections|)])
  }

  /** `updateSection`: one field of one section takes the typed value. */
  function UpdateSection(form: Profile, index: int, f: SectionField, value: string): (r: Profile)
    requires 0 <= index < |form.sections|
    ensures |r.sections| == |form.sections|
    ensures FieldOf(r.sections[index], f) == value
    ensures forall g :: g != f ==> FieldOf(r.sections[index], g) == FieldOf(form.sections[index], g)
    ensures r.sections[index].id == form.sections[index].id && r.sections[index].order == form.sections[index].order
    ensures forall k :: 0 <= k < |r.sections| && k != index ==> r.sections[k] == form.sections[k]
    ensures r == form.(sections := r.sections)
  {
    form.(sections := form.sections[index := WithField(form.sections[index], f, value)])
  }

  /** `removeSection`: the section at `index` goes; the others keep their
      order. Any other index changes nothing. */
  function RemoveSection(form: Profile, index: int): (r: Profile)
    ensures 0 <= index < |form.sections| ==> r.sections == form.sections[..index] + form.sections[index + 1..]
    ensures !(0 <= index < |form.sections|) ==> r == form
    ensures r == form.(sections := r.sections)
  {
    form.(sections := FilterIndex(form.sections, index))
  }

  /** Removing the section just added restores the form. */
  lemma AddThenRemove(form: Profile, newId: string)
    ensures RemoveSection(AddSection(form, newId), |form.sections|) == form
  {
    var r := AddSection(form, newId);
    assert r.sections[..|form.sections|] + r.sections[|form.sections| + 1..] == form.sections;
  }

  /** Typing back a field's old value restores the form. */
  lemma UpdateRestores(form: Profile, index: int, f: SectionField, value: string)
    requires 0 <= index < |form.sections|
    ensures UpdateSection(UpdateSection(form, index, f, value), index, f, FieldOf(form.sections[index], f)) == form
  {
    var r := UpdateSection(UpdateSection(form, index, f, value), index, f, FieldOf(form.sections[index], f));
    assert r.sections[index] == form.sections[index] by {
      assert forall g: SectionField :: FieldOf(r.sections[index], g) == FieldOf(form.sections[index], g);
      assert FieldOf(r.sections[index], Heading) == FieldOf(form.sections[index], Heading);
      assert FieldOf(r.sections[index], Subheading) == FieldOf(form.sections[index], Subheading);
      assert FieldOf(r.sections[index], Content) == FieldOf(form.sections[index], Content);
    }
    assert r.sections == form.sections;
  }
}
