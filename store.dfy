/**
 * The new record lists the handlers build with `map` and `filter`: the drop reassignment,
 * the merge of an edited draft and the deletion by id.
 */
module Store {
  import opened Wrappers
  import opened Seqs
  import opened Users
  import opened Categorizer

  /**
   * The anchor a column's drop zone passes to the drop handler. It falls in that column's
   * range and in no other, and different columns pass different anchors.
   */
  function ColumnAnchor(b: Bucket): (a: Anchor)
    ensures InRange(b, a)
    ensures forall c :: InRange(c, a) ==> c == b
  {
    match b
    case Below18 => 18
    case Above18 => 25
    case Above25 => 45
    case Above45 => 46
  }

  /** The callback of the drop handler's `map`: its four guarded branches and the fallback. */
  function DropOne(u: User, id: string, age: int): User {
    if u.id == id && age == 18 then u.(age := Num(18))
    else if u.id == id && age == 25 then u.(age := Num(25))
    else if u.id == id && age == 45 then u.(age := Num(45))
    else if u.id == id && age == 46 then u.(age := Num(46))
    else u
  }

  /**
   * The list the drop handler stores: every record whose id is the payload's gets the anchor
   * as its age when the anchor is one of the four; nothing else changes.
   */
  function Reassign(users: seq<User>, id: string, age: int): (r: seq<User>)
    ensures |r| == |users|
    ensures forall i :: 0 <= i < |users| ==>
      r[i].id == users[i].id && r[i].name == users[i].name &&
      r[i].email == users[i].email && r[i].phone == users[i].phone
    ensures forall i :: 0 <= i < |users| ==>
      r[i].age == if users[i].id == id && IsAnchor(age) then Num(age as Anchor) else users[i].age
  {
    seq(|users|, i requires 0 <= i < |users| => DropOne(users[i], id, age))
  }

  /** A drop with an age that is not an anchor, or with an id no record has, changes nothing. */
  lemma DropIgnored(users: seq<User>, id: string, age: int)
    requires !IsAnchor(age) || forall u :: u in users ==> u.id != id
    ensures Reassign(users, id, age) == users
  {
    var r := Reassign(users, id, age);
    forall i | 0 <= i < |users| ensures r[i] == users[i] {
      assert users[i] in users;
    }
  }

  /** After a drop on a column, every record with the dropped id shows in that column and no other. */
  lemma DropLandsInColumn(users: seq<User>, id: string, b: Bucket)
    ensures forall u :: u in Reassign(users, id, ColumnAnchor(b)) && u.id == id ==>
      u in View(Reassign(users, id, ColumnAnchor(b)), b) &&
      forall c :: c != b ==> u !in View(Reassign(users, id, ColumnAnchor(b)), c)
  {
    var r := Reassign(users, id, ColumnAnchor(b));
    forall u | u in r && u.id == id
      ensures u in View(r, b) && forall c :: c != b ==> u !in View(r, c)
    {
      var i :| 0 <= i < |r| && r[i] == u;
      assert u.age == Num(ColumnAnchor(b));
      ExactlyOneView(r, u);
    }
  }

  /** The list `handleUpdate` stores: the records whose id is `activeId` take the draft's fields. */
  function MergeUpdate(users: seq<User>, activeId: Option<string>, d: Draft): (r: seq<User>)
    ensures |r| == |users|
    ensures forall i :: 0 <= i < |users| && activeId != Some(users[i].id) ==> r[i] == users[i]
    ensures forall i :: 0 <= i < |users| && activeId == Some(users[i].id) ==>
      r[i].name == d.name && r[i].email == d.email && r[i].phone == d.phone && r[i].age == d.age
  {
    seq(|users|, i requires 0 <= i < |users| =>
      if activeId == Some(users[i].id) then Merge(users[i], d) else users[i])
  }

  /** When the draft's id, if any, is the active id, the update keeps every record's id. */
  lemma UpdateKeepsIds(users: seq<User>, activeId: Option<string>, d: Draft)
    requires d.id.None? || d.id == activeId
    ensures forall i :: 0 <= i < |users| ==> MergeUpdate(users, activeId, d)[i].id == users[i].id
  {
    var r := MergeUpdate(users, activeId, d);
    forall i | 0 <= i < |users| ensures r[i].id == users[i].id {
      if activeId == Some(users[i].id) {
        assert r[i] == Merge(users[i], d);
      }
    }
  }

  /**
   * Entering edit mode on a record and updating without touching the form writes that
   * record back: every record with its id becomes a copy of it, the others stay.
   */
  lemma EditThenUpdate(users: seq<User>, item: User)
    ensures forall i :: 0 <= i < |users| ==>
      MergeUpdate(users, Some(item.id), DraftOf(item))[i] ==
        if users[i].id == item.id then item else users[i]
  {
    var r := MergeUpdate(users, Some(item.id), DraftOf(item));
    forall i | 0 <= i < |users| && users[i].id == item.id ensures r[i] == item {
      LoadThenMerge(users[i], item);
    }
  }

  /** An update whose active id matches no record, or that has no active id, changes nothing. */
  lemma UpdateAbsent(users: seq<User>, activeId: Option<string>, d: Draft)
    requires forall u :: u in users ==> activeId != Some(u.id)
    ensures MergeUpdate(users, activeId, d) == users
  {
    var r := MergeUpdate(users, activeId, d);
    forall i | 0 <= i < |users| ensures r[i] == users[i] {
      assert users[i] in users;
    }
  }

  /** `userData.filter((item) => item.id !== id)`. */
  function Remove(users: seq<User>, id: string): (r: seq<User>)
    ensures forall u :: u in r <==> u in users && u.id != id
    ensures forall u :: multiset(r)[u] == if u.id != id then multiset(users)[u] else 0
    ensures IsSubsequence(r, users)
    ensures (forall u :: u in users ==> u.id != id) ==> r == users
  {
    Filter(users, (u: User) => u.id != id)
  }
}
