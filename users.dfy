/** The records the component keeps: people, the form draft and its error messages. */
module Users {
  import opened Wrappers

  /** The ages a drop writes: the value each of the four columns passes to the drop handler. */
  predicate IsAnchor(age: int) {
    age == 18 || age == 25 || age == 45 || age == 46
  }

  type Anchor = a: int | IsAnchor(a) witness 18

  /**
   * The `age` field is declared a string, but the drop handler stores a JavaScript number
   * in it; both kinds of value occur at run time.
   */
  datatype AgeField = Str(text: string) | Num(anchor: Anchor)

  /** `UserType`. */
  datatype User = User(id: string, name: string, email: string, phone: string, age: AgeField)

  /**
   * The form draft `data`. It is declared `UserFormData`, but entering edit mode stores the
   * whole record in it, so it may carry the record's `id` and a numeric age.
   */
  datatype Draft = Draft(name: string, email: string, phone: string, age: AgeField, id: Option<string>)

  /** `UserFormErrors`: one message per field, "" meaning no error. */
  datatype FormErrors = FormErrors(name: string, email: string, phone: string, age: string)

  /** The four inputs of the form, by their `name` attribute. */
  datatype Field = Name | Email | Phone | Age

  const EmptyDraft: Draft := Draft("", "", "", Str(""), None)

  const NoErrors: FormErrors := FormErrors("", "", "", "")

  /** The draft after `setData(item)`: every field of the record, its id included. */
  function DraftOf(u: User): Draft {
    Draft(u.name, u.email, u.phone, u.age, Some(u.id))
  }

  /**
   * `{ ...user, ...data }`: the draft's fields override the record's, its id too when it has
   * one. A draft without an id, or with the record's own id, keeps the record's id, and
   * loading the merged record back into the form gives the draft again.
   */
  function Merge(u: User, d: Draft): (v: User)
    ensures d.id.None? || d.id == Some(u.id) ==> v.id == u.id
    ensures d.id.Some? ==> DraftOf(v) == d
    ensures d.id.None? ==> DraftOf(v) == d.(id := Some(u.id))
  {
    User(if d.id.Some? then d.id.value else u.id, d.name, d.email, d.phone, d.age)
  }

  /** Merging a loaded record's draft into any record yields the loaded record. */
  lemma LoadThenMerge(u: User, v: User)
    ensures Merge(u, DraftOf(v)) == v
  {
  }
}
