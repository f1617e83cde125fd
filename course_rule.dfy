/** The same-course rule that both serializers enforce, over the only two
    attributes of a related row that the rule reads: its primary key and its
    `course_id`. */
module CourseRule {

  /** A related student or subject as a validator sees it. */
  datatype Row = Row(id: nat, course: nat)

  /** The ids of the rows of a payload list that lie outside `course`, in list
      order. */
  function OutsideIds(rows: seq<Row>, course: nat): (r: seq<nat>)
    ensures |r| <= |rows|
    ensures r == [] <==> forall i :: 0 <= i < |rows| ==> rows[i].course == course
    ensures forall i :: 0 <= i < |rows| && rows[i].course != course ==> rows[i].id in r
  {
    if rows == [] then []
    else
      var rest := OutsideIds(rows[1..], course);
      assert forall i :: 1 <= i < |rows| ==> rows[i] == rows[1..][i - 1];
      (if rows[0].course != course then [rows[0].id] else []) + rest
  }

  /** The same comprehension over a related manager's `all()`, which has no
      order. */
  function OutsideSet(rows: set<Row>, course: nat): (r: set<nat>)
    ensures r == {} <==> forall x :: x in rows ==> x.course == course
    ensures forall x :: x in rows && x.course != course ==> x.id in r
  {
    var r := set x | x in rows && x.course != course :: x.id;
    assert forall x :: x in rows && x.course != course ==> x.id in r;
    r
  }

  /** The rows of a payload list, as a set. */
  function RowSet(rows: seq<Row>): (r: set<Row>)
    ensures forall x :: x in r <==> x in rows
  {
    set i | 0 <= i < |rows| :: rows[i]
  }

  /** The primary keys of a payload list. */
  function IdSet(rows: seq<Row>): (r: set<nat>)
    ensures forall k :: k in r <==> exists i :: 0 <= i < |rows| && rows[i].id == k
  {
    set i | 0 <= i < |rows| :: rows[i].id
  }

  /** Every row lies in `course`. */
  predicate AllIn(rows: set<Row>, course: nat) {
    forall x :: x in rows ==> x.course == course
  }
}
