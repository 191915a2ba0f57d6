/**
 * The four column views `ageBelow18`, `ageAbove18`, `ageAbove25` and `ageAbove45`: each
 * filters the records by `parseInt(user.age, 10)` against fixed bounds.
 */
module Categorizer {
  import opened Wrappers
  import opened JsString
  import opened Seqs
  import opened Users

  /** The four columns, named after the function that fills each. */
  datatype Bucket = Below18 | Above18 | Above25 | Above45

  /** `String(a)` for an anchor age: what parseInt reads when handed the number a. */
  function AnchorText(a: Anchor): (t: string)
    ensures |t| == 2 && IsDigit(t[0]) && IsDigit(t[1])
    ensures DecimalValue(t) == a
  {
    assert IsAnchor(a);
    if a == 18 then "18" else if a == 25 then "25" else if a == 45 then "45" else "46"
  }

  /**
   * `parseInt(user.age, 10)`; None is NaN. A numeric age is first converted to its decimal
   * text, as parseInt does with a number argument, and reads back as itself.
   */
  function ParseAge(age: AgeField): (r: Option<int>)
    ensures age.Str? ==> r == ParseInt(age.text)
    ensures age.Num? ==> r == Some(age.anchor as int)
  {
    match age
    case Str(s) => ParseInt(s)
    case Num(a) =>
      var t := AnchorText(a);
      ParseIntReads("", "", t, "");
      assert "" + ("" + (t + "")) == t;
      ParseInt(t)
  }

  /** The filter condition of each view, with its comparisons exactly as written. */
  predicate InRange(b: Bucket, n: int) {
    match b
    case Below18 => n <= 18
    case Above18 => n > 18 && n <= 25
    case Above25 => n <= 45 && n > 25
    case Above45 => n > 45
  }

  /** A record passes a view's filter. Every comparison with NaN is false, so an unparsable age passes none. */
  predicate InView(b: Bucket, u: User) {
    match ParseAge(u.age)
    case None => false
    case Some(n) => InRange(b, n)
  }

  /** `userData.filter(...)` for one column: its records, in store order. */
  function View(users: seq<User>, b: Bucket): (r: seq<User>)
    ensures forall u :: u in r <==> u in users && InView(b, u)
    ensures forall u :: multiset(r)[u] == if InView(b, u) then multiset(users)[u] else 0
    ensures IsSubsequence(r, users)
  {
    Filter(users, (u: User) => InView(b, u))
  }

  /** The records whose age does not parse: they appear in no column. */
  function Unparsed(users: seq<User>): (r: seq<User>)
    ensures forall u :: multiset(r)[u] == if ParseAge(u.age).None? then multiset(users)[u] else 0
  {
    Filter(users, (u: User) => ParseAge(u.age).None?)
  }

  /** The column for a parsed age, read off the ranges [0,18], (18,25], (25,45], (45,inf). */
  function Classify(n: int): Bucket {
    if n <= 18 then Below18 else if n <= 25 then Above18 else if n <= 45 then Above25 else Above45
  }

  /** The four filter conditions carve the integers into the four ranges: each n passes exactly one. */
  lemma InRangeExactlyOne(b: Bucket, n: int)
    ensures InRange(b, n) <==> b == Classify(n)
  {
  }

  /** A record whose age parses is in exactly one view; one whose age is NaN is in none. */
  lemma ExactlyOneView(users: seq<User>, u: User)
    requires u in users
    ensures ParseAge(u.age).Some? ==>
      forall b :: u in View(users, b) <==> b == Classify(ParseAge(u.age).value)
    ensures ParseAge(u.age).None? ==> forall b :: u !in View(users, b)
  {
    if ParseAge(u.age).Some? {
      forall b ensures u in View(users, b) <==> b == Classify(ParseAge(u.age).value) {
        InRangeExactlyOne(b, ParseAge(u.age).value);
      }
    }
  }

  /** The views are pairwise disjoint. */
  lemma ViewsDisjoint(users: seq<User>, b: Bucket, c: Bucket)
    requires b != c
    ensures forall u :: u in View(users, b) ==> u !in View(users, c)
  {
    forall u | u in View(users, b) ensures u !in View(users, c) {
      ExactlyOneView(users, u);
    }
  }

  /** One record's count: it is counted in its own column, or among the NaN records. */
  lemma PartitionAt(users: seq<User>, u: User)
    ensures multiset(View(users, Below18))[u] + multiset(View(users, Above18))[u] +
            multiset(View(users, Above25))[u] + multiset(View(users, Above45))[u] +
            multiset(Unparsed(users))[u] == multiset(users)[u]
  {
    match ParseAge(u.age)
    case None =>
    case Some(n) => InRangeExactlyOne(Classify(n), n);
  }

  /**
   * The views and the unparsable records partition the store: together they hold every
   * record exactly as often as the store does.
   */
  lemma ViewsPartition(users: seq<User>)
    ensures multiset(View(users, Below18)) + multiset(View(users, Above18)) +
            multiset(View(users, Above25)) + multiset(View(users, Above45)) +
            multiset(Unparsed(users)) == multiset(users)
    ensures |View(users, Below18)| + |View(users, Above18)| + |View(users, Above25)| +
            |View(users, Above45)| + |Unparsed(users)| == |users|
  {
    var m := multiset(View(users, Below18)) + multiset(View(users, Above18)) +
             multiset(View(users, Above25)) + multiset(View(users, Above45)) +
             multiset(Unparsed(users));
    forall u ensures m[u] == multiset(users)[u] {
      PartitionAt(users, u);
    }
    assert m == multiset(users);
  }
}
