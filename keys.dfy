/** The ids of a table, taken in the ascending order a scan of the table visits them. */
module Keys {

  /** A set with no member is the empty set. */
  lemma NoMemberEmpty(ids: set<int>)
    ensures (forall x :: x !in ids) ==> ids == {}
  {
    if forall x :: x !in ids { assert ids == {}; }
  }

  lemma Least(ids: set<int>) returns (m: int)
    requires ids != {}
    ensures m in ids
    ensures forall y :: y in ids ==> m <= y
  {
    NoMemberEmpty(ids);
    var x :| x in ids;
    if ids == {x} {
      m := x;
    } else {
      var rest := ids - {x};
      var m' := Least(rest);
      m := if x < m' then x else m';
      forall y | y in ids ensures m <= y {
        if y != x { assert y in rest; }
      }
    }
  }

  lemma HasLeast(ids: set<int>)
    requires ids != {}
    ensures exists m :: m in ids && forall y :: y in ids ==> m <= y
  {
    var m := Least(ids);
  }

  /** The least of a non-empty set of ids. */
  function LeastOf(ids: set<int>): (m: int)
    requires ids != {}
    ensures m in ids && forall y :: y in ids ==> m <= y
  {
    HasLeast(ids);
    var m :| m in ids && forall y :: y in ids ==> m <= y;
    m
  }

  /** The ids of a table in ascending order: the order the table is scanned in. */
  function Ascending(ids: set<int>): (r: seq<int>)
    ensures |r| == |ids|
    ensures forall x :: x in r <==> x in ids
    ensures forall i, j :: 0 <= i < j < |r| ==> r[i] < r[j]
  {
    if ids == {} then []
    else
      var m := LeastOf(ids);
      var rest := Ascending(ids - {m});
      assert forall j :: 0 <= j < |rest| ==> m < rest[j] by {
        forall j | 0 <= j < |rest| ensures m < rest[j] {
          assert rest[j] in ids - {m};
        }
      }
      [m] + rest
  }
}
