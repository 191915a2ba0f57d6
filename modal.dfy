/**
 * The `BasicModal` component's state and handlers. Each handler is one atomic state
 * transition: it replaces the `useState` fields with values built by `map`, `filter` and
 * object spread.
 */
module Modal {
  import opened Wrappers
  import opened Seqs
  import opened Users
  import opened Validation
  import opened Categorizer
  import opened Store

  class BasicModal {
    var userData: seq<User>
    var activeId: Option<string>
    var isEditClicked: bool
    var data: Draft
    var errors: FormErrors

    /**
     * In edit mode the draft is the record being edited, so it carries the active id; out of
     * edit mode it is a plain form draft: no id and a textual age.
     */
    ghost predicate Valid()
      reads this
    {
      (isEditClicked ==> activeId.Some? && data.id == activeId) &&
      (!isEditClicked ==> data.id.None? && data.age.Str?)
    }

    /** The initial state: no records, an empty draft, no errors, not editing. */
    constructor ()
      ensures Valid()
      ensures userData == [] && activeId == None && !isEditClicked
      ensures data == EmptyDraft && errors == NoErrors
    {
      userData := [];
      activeId := None;
      isEditClicked := false;
      data := EmptyDraft;
      errors := NoErrors;
    }

    /**
     * `handleChange`: input f now reads value. Only that field of the draft and only that
     * error change, and the new error is empty exactly when the value passes f's rule.
     */
    method HandleChange(f: Field, value: string)
      requires Valid()
      modifies this
      ensures Valid()
      ensures data.name == if f == Name then value else old(data.name)
      ensures data.email == if f == Email then value else old(data.email)
      ensures data.phone == if f == Phone then value else old(data.phone)
      ensures data.age == if f == Age then Str(value) else old(data.age)
      ensures data.id == old(data.id)
      ensures errors == WithError(old(errors), f, ChangeError(f, value))
      ensures ErrorOf(errors, f) == "" <==> FieldValid(f, value)
      ensures forall g :: g != f ==> ErrorOf(errors, g) == ErrorOf(old(errors), g)
      ensures userData == old(userData) && activeId == old(activeId)
      ensures isEditClicked == old(isEditClicked)
    {
      data := WithText(data, f, value);
      errors := WithError(errors, f, ChangeError(f, value));
    }

    /** `getData`: append a record at the end. */
    method GetData(newUser: User)
      requires Valid()
      modifies this
      ensures Valid()
      ensures userData == old(userData) + [newUser]
      ensures data == old(data) && errors == old(errors)
      ensures activeId == old(activeId) && isEditClicked == old(isEditClicked)
    {
      userData := userData + [newUser];
    }

    /**
     * `handleClick`, the Save button, shown only out of edit mode. All four errors are
     * recomputed; if one is non-empty nothing else changes, otherwise the draft is appended
     * as a new record with the given id and the draft is cleared.
     */
    method HandleClick(freshId: string)
      requires Valid() && !isEditClicked
      modifies this
      ensures Valid()
      ensures errors == SubmitErrors(old(data))
      ensures HasError(errors) <==> !DraftValid(old(data))
      ensures HasError(errors) ==> userData == old(userData) && data == old(data)
      ensures !HasError(errors) ==>
        userData == old(userData) + [User(freshId, old(data).name, old(data).email, old(data).phone, old(data).age)] &&
        data == EmptyDraft
      ensures activeId == old(activeId) && isEditClicked == old(isEditClicked)
    {
      var e := SubmitErrors(data);
      if !HasError(e) {
        var newUser := User(freshId, data.name, data.email, data.phone, data.age);
        GetData(newUser);
        data := EmptyDraft;
      }
      errors := e;
    }

    /**
     * `hangleDropAgeBelow18`: the record with the payload's id gets the column's anchor as
     * its age. With a dropped id no record has, or an age that is no anchor, nothing changes.
     */
    method HandleDrop(id: string, age: int)
      requires Valid()
      modifies this
      ensures Valid()
      ensures userData == Reassign(old(userData), id, age)
      ensures (!IsAnchor(age) || forall u :: u in old(userData) ==> u.id != id) ==>
        userData == old(userData)
      ensures forall b :: age == ColumnAnchor(b) ==>
        forall u :: u in userData && u.id == id ==> u in View(userData, b)
      ensures data == old(data) && errors == old(errors)
      ensures activeId == old(activeId) && isEditClicked == old(isEditClicked)
    {
      var before := userData;
      userData := Reassign(userData, id, age);
      if !IsAnchor(age) || forall u :: u in before ==> u.id != id {
        DropIgnored(before, id, age);
      }
      forall b | age == ColumnAnchor(b)
        ensures forall u :: u in userData && u.id == id ==> u in View(userData, b)
      {
        DropLandsInColumn(before, id, b);
      }
    }

    /** `changeData`: load a record into the form and enter edit mode on its id. */
    method ChangeData(item: User)
      requires Valid()
      modifies this
      ensures Valid()
      ensures data == DraftOf(item) && isEditClicked && activeId == Some(item.id)
      ensures userData == old(userData) && errors == old(errors)
    {
      data := DraftOf(item);
      isEditClicked := true;
      activeId := Some(item.id);
    }

    /**
     * `handleUpdate`: merge the draft, unvalidated, into the records whose id is the active
     * id, keeping their ids; leave edit mode and clear the draft.
     */
    method HandleUpdate()
      requires Valid()
      modifies this
      ensures Valid()
      ensures userData == MergeUpdate(old(userData), old(activeId), old(data))
      ensures |userData| == |old(userData)|
      ensures forall i :: 0 <= i < |userData| ==> userData[i].id == old(userData)[i].id
      ensures forall i :: 0 <= i < |userData| && old(activeId) != Some(old(userData)[i].id) ==>
        userData[i] == old(userData)[i]
      ensures !isEditClicked && data == EmptyDraft
      ensures errors == old(errors) && activeId == old(activeId)
    {
      UpdateKeepsIds(userData, activeId, data);
      userData := MergeUpdate(userData, activeId, data);
      isEditClicked := false;
      data := EmptyDraft;
    }

    /** `deleteData`: drop exactly the records with this id, keeping the rest in order. */
    method DeleteData(id: string)
      requires Valid()
      modifies this
      ensures Valid()
      ensures userData == Remove(old(userData), id)
      ensures forall u :: u in userData <==> u in old(userData) && u.id != id
      ensures IsSubsequence(userData, old(userData))
      ensures (forall u :: u in old(userData) ==> u.id != id) ==> userData == old(userData)
      ensures data == old(data) && errors == old(errors)
      ensures activeId == old(activeId) && isEditClicked == old(isEditClicked)
    {
      userData := Remove(userData, id);
    }
  }

  /** A client that relies on the contracts alone: a record dragged to the 19-25 column. */
  method DragScenario(a: User, b: User)
    requires a.id != b.id && a.age == Str("10")
  {
    var m := new BasicModal();
    m.GetData(a);
    m.GetData(b);
    assert m.userData == [a, b];
    m.HandleDrop(a.id, ColumnAnchor(Above18));
    var a' := m.userData[0];
    assert a'.id == a.id && a'.name == a.name && a'.age == Num(25);
    assert m.userData[1] == b;
    assert a' in View(m.userData, Above18);
    ExactlyOneView(m.userData, a');
    assert a' !in View(m.userData, Below18);
  }

  /** A client that edits a record's name and deletes an id no record has. */
  method EditScenario(a: User, b: User, newName: string, gone: string)
    requires a.id != b.id && gone != a.id && gone != b.id
  {
    var m := new BasicModal();
    m.GetData(a);
    m.GetData(b);
    m.ChangeData(b);
    m.HandleChange(Name, newName);
    m.HandleUpdate();
    assert m.userData[0] == a;
    assert m.userData[1].id == b.id && m.userData[1].name == newName;
    assert !m.isEditClicked;

    var before := m.userData;
    assert forall u :: u in before ==> u.id == a.id || u.id == b.id;
    m.DeleteData(gone);
    assert m.userData == before;
  }
}
