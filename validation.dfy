/** The form's validation rules: per field on change, all four at once on save. */
module Validation {
  import opened JsString
  import EmailPattern
  import opened Users

  /** `value.trim() === ""`. */
  predicate Blank(value: string) {
    Trim(value) == []
  }

  /** The rule for one field: the e-mail pattern for `email`, non-blank for the others. */
  predicate FieldValid(f: Field, value: string) {
    if f == Email then EmailPattern.CheckEmailValidation(value) else !Blank(value)
  }

  /** The message `handleChange` records for field f after the input changes to value. */
  function ChangeError(f: Field, value: string): (msg: string)
    ensures msg == "" <==> FieldValid(f, value)
  {
    if f == Email && !EmailPattern.CheckEmailValidation(value) then "Invalid email address"
    else if f == Phone && Blank(value) then "Phone is required"
    else if f == Age && Blank(value) then "Age is required"
    else if f == Name && Blank(value) then "Name is required"
    else ""
  }

  /**
   * What a field's error on change means, in terms of the input itself: the e-mail
   * pattern matches the lower-cased trimmed text, or the text is not all white space.
   */
  lemma ChangeErrorMeaning(f: Field, value: string)
    ensures ChangeError(f, value) == "" <==>
      if f == Email then EmailPattern.EmailRe(Trim(ToLower(value))) else !AllSpace(value)
  {
    TrimEmptyIffAllSpace(value);
  }

  /** The text of field f in a draft whose age is a string. */
  function TextOf(d: Draft, f: Field): string
    requires d.age.Str?
  {
    match f
    case Name => d.name
    case Email => d.email
    case Phone => d.phone
    case Age => d.age.text
  }

  function ErrorOf(e: FormErrors, f: Field): string {
    match f
    case Name => e.name
    case Email => e.email
    case Phone => e.phone
    case Age => e.age
  }

  /** `{ ...errors, [f]: msg }`. */
  function WithError(e: FormErrors, f: Field, msg: string): (e': FormErrors)
    ensures ErrorOf(e', f) == msg
    ensures forall g :: g != f ==> ErrorOf(e', g) == ErrorOf(e, g)
  {
    match f
    case Name => e.(name := msg)
    case Email => e.(email := msg)
    case Phone => e.(phone := msg)
    case Age => e.(age := msg)
  }

  /** `{ ...data, [f]: value }`: the input's text replaces one field, the id is kept. */
  function WithText(d: Draft, f: Field, value: string): (d': Draft)
    ensures d'.id == d.id
    ensures f == Name ==> d'.name == value
    ensures f == Email ==> d'.email == value
    ensures f == Phone ==> d'.phone == value
    ensures f == Age ==> d'.age == Str(value)
    ensures f != Name ==> d'.name == d.name
    ensures f != Email ==> d'.email == d.email
    ensures f != Phone ==> d'.phone == d.phone
    ensures f != Age ==> d'.age == d.age
  {
    match f
    case Name => d.(name := value)
    case Email => d.(email := value)
    case Phone => d.(phone := value)
    case Age => d.(age := Str(value))
  }

  /** A draft passes all four rules. */
  predicate DraftValid(d: Draft)
    requires d.age.Str?
  {
    FieldValid(Name, d.name) && FieldValid(Email, d.email) &&
    FieldValid(Phone, d.phone) && FieldValid(Age, d.age.text)
  }

  /** Some message is non-empty: the test `errors.email || errors.name || ...`. */
  predicate HasError(e: FormErrors) {
    e.email != "" || e.name != "" || e.phone != "" || e.age != ""
  }

  /** The four messages `handleClick` computes before saving. */
  function SubmitErrors(d: Draft): (e: FormErrors)
    requires d.age.Str?
    ensures e.name == "" <==> FieldValid(Name, d.name)
    ensures e.email == "" <==> FieldValid(Email, d.email)
    ensures e.phone == "" <==> FieldValid(Phone, d.phone)
    ensures e.age == "" <==> FieldValid(Age, d.age.text)
    ensures HasError(e) <==> !DraftValid(d)
  {
    FormErrors(
      name := if Blank(d.name) then "Enter name" else "",
      email := if !EmailPattern.CheckEmailValidation(d.email) then "Invalid email address" else "",
      phone := if Blank(d.phone) then "Phone is required" else "",
      age := if Blank(d.age.text) then "Enter age" else "")
  }

  /** Saving flags a field exactly when editing it to the same text would flag it. */
  lemma SubmitAgreesWithChange(d: Draft, f: Field)
    requires d.age.Str?
    ensures ErrorOf(SubmitErrors(d), f) == "" <==> ChangeError(f, TextOf(d, f)) == ""
  {
    var e := SubmitErrors(d);
    assert ErrorOf(e, f) == "" <==> FieldValid(f, TextOf(d, f)) by {
      match f
      case Name =>
      case Email =>
      case Phone =>
      case Age =>
    }
  }

  /** The texts differ for a blank name or age: "Enter name" on save, "Name is required" on change. */
  lemma ErrorTextsDiffer(d: Draft)
    requires d.age.Str?
    ensures Blank(d.name) ==> SubmitErrors(d).name == "Enter name" && ChangeError(Name, d.name) == "Name is required"
    ensures Blank(d.age.text) ==> SubmitErrors(d).age == "Enter age" && ChangeError(Age, d.age.text) == "Age is required"
  {
    if Blank(d.name) {
      BlankMessages(d.name);
    }
    if Blank(d.age.text) {
      BlankMessages(d.age.text);
    }
  }

  lemma BlankMessages(v: string)
    requires Blank(v)
    ensures ChangeError(Name, v) == "Name is required" && ChangeError(Age, v) == "Age is required"
  {
    assert !(Name == Email && !EmailPattern.CheckEmailValidation(v));
    assert !(Age == Email && !EmailPattern.CheckEmailValidation(v));
  }
}
