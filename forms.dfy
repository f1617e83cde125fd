/** What the student form and the subject form have in common: a relation
    picker that shows the candidates of the chosen course, a selection of
    candidate ids, the route-id handling of `ngOnInit`, and the create/update
    choice of `onSubmit`. Both components keep identical code for these; it is
    defined once here and each component's class uses it. */
module Forms {
  import opened Common

  /** A pickable entity (a subject for the student form, a student for the
      subject form) as the picker sees it: its id and the id of its course. */
  datatype Candidate = Candidate(id: nat, course: nat)

  /** An entry of the course drop-down. */
  datatype CourseOption = CourseOption(id: nat, name: string)

  // ---------------------------------------------------------------------
  // filterSubjects / filterStudents

  /** The candidates whose course is `c`, in list order. */
  function OfCourse(all: seq<Candidate>, c: nat): (r: seq<Candidate>)
    ensures |r| <= |all|
    ensures forall i :: 0 <= i < |r| ==> r[i] in all && r[i].course == c
    ensures forall i :: 0 <= i < |all| && all[i].course == c ==> all[i] in r
  {
    Keep(all, (x: Candidate) => x.course == c)
  }

  /** The candidate list shown for course control value `c` (0 when the
      control is empty, which JavaScript treats as false). */
  function Filtered(all: seq<Candidate>, c: nat): (r: seq<Candidate>)
    ensures c == 0 ==> r == []
    ensures c != 0 ==> forall x :: x in r <==> x in all && x.course == c
  {
    if c != 0 then OfCourse(all, c) else []
  }

  /** The shown list is, in order, exactly the candidates of the chosen course:
      a subsequence of the full list in which each candidate of that course
      occurs as often as in the full list and no other candidate occurs. */
  lemma FilteredIsOrderedSelection(all: seq<Candidate>, c: nat)
    requires c != 0
    ensures IsSubsequence(Filtered(all, c), all)
    ensures forall x :: multiset(Filtered(all, c))[x] == if x.course == c then multiset(all)[x] else 0
  {
    KeepIsSubsequence(all, (x: Candidate) => x.course == c);
    KeepCounts(all, (x: Candidate) => x.course == c);
  }

  // ---------------------------------------------------------------------
  // onCourseChange

  /** Some candidate with this id belongs to course `c`. */
  predicate HasCandidate(all: seq<Candidate>, id: nat, c: nat) {
    exists i :: 0 <= i < |all| && all[i].id == id && all[i].course == c
  }

  /** The selection after a change to course `c`: the old selection, in order,
      restricted to ids of candidates of course `c`. */
  function Prune(selected: seq<nat>, all: seq<Candidate>, c: nat): (r: seq<nat>)
    ensures |r| <= |selected|
    ensures forall id :: id in r <==> id in selected && HasCandidate(all, id, c)
  {
    Keep(selected, (id: nat) => HasCandidate(all, id, c))
  }

  /** Every selected id names a candidate of course `c`. */
  predicate SelectionWithin(selected: seq<nat>, all: seq<Candidate>, c: nat) {
    forall i :: 0 <= i < |selected| ==> HasCandidate(all, selected[i], c)
  }

  /** Pruning never adds an id and keeps the order of the old selection;
      afterwards every selected id belongs to the new course. */
  lemma PruneShrinksInOrder(selected: seq<nat>, all: seq<Candidate>, c: nat)
    ensures IsSubsequence(Prune(selected, all, c), selected)
    ensures SelectionWithin(Prune(selected, all, c), all, c)
    ensures Distinct(selected) ==> Distinct(Prune(selected, all, c))
  {
    var p := (id: nat) => HasCandidate(all, id, c);
    KeepIsSubsequence(selected, p);
    if Distinct(selected) {
      KeepDistinct(selected, p);
    }
  }

  /** A second change to the same course changes nothing: both the shown list
      and the selection are the same as after the first. */
  lemma CourseChangeIdempotent(selected: seq<nat>, all: seq<Candidate>, c: nat)
    ensures Prune(Prune(selected, all, c), all, c) == Prune(selected, all, c)
  {
    KeepIdempotent(selected, (id: nat) => HasCandidate(all, id, c));
  }

  // ---------------------------------------------------------------------
  // isSubjectSelected / toggleSubject (and the student counterparts)

  /** `s.indexOf(x)`: the first position of `x`, or -1. */
  function IndexOf(s: seq<nat>, x: nat): (r: int)
    ensures -1 <= r < |s|
    ensures r == -1 <==> x !in s
    ensures r >= 0 ==> s[r] == x && x !in s[..r]
  {
    if s == [] then -1
    else if s[0] == x then 0
    else
      var k := IndexOf(s[1..], x);
      assert k >= 0 ==> s[1..][..k] == s[1..k + 1];
      if k == -1 then -1 else k + 1
  }

  /** `splice(index, 1)` when the id is present, `push` otherwise. */
  function Toggle(s: seq<nat>, x: nat): (r: seq<nat>)
  {
    var index := IndexOf(s, x);
    if index > -1 then s[..index] + s[index + 1..] else s + [x]
  }

  /** Toggling appends an absent id at the end and removes the first
      occurrence of a present one; as a multiset, it adds or removes one copy. */
  lemma ToggleShape(s: seq<nat>, x: nat)
    ensures x !in s ==> Toggle(s, x) == s + [x]
    ensures x in s ==> exists i :: 0 <= i < |s| && s[i] == x && x !in s[..i] && Toggle(s, x) == s[..i] + s[i + 1..]
    ensures multiset(Toggle(s, x)) == if x in s then multiset(s) - multiset{x} else multiset(s) + multiset{x}
  {
    var index := IndexOf(s, x);
    if index > -1 {
      assert s == s[..index] + [x] + s[index + 1..];
      assert multiset(s) == multiset(s[..index]) + multiset{x} + multiset(s[index + 1..]);
    }
  }

  /** The membership of every other id is unchanged; on a selection without
      duplicates the toggled id's membership flips. */
  lemma ToggleMembership(s: seq<nat>, x: nat, y: nat)
    ensures y != x ==> (y in Toggle(s, x) <==> y in s)
    ensures Distinct(s) ==> (x in Toggle(s, x) <==> x !in s)
  {
    ToggleShape(s, x);
    assert y in Toggle(s, x) <==> multiset(Toggle(s, x))[y] > 0;
    assert y in s <==> multiset(s)[y] > 0;
    if Distinct(s) && x in s {
      var i := IndexOf(s, x);
      assert x !in s[i + 1..] by {
        forall j | i + 1 <= j < |s| ensures s[j] != x { assert s[i] != s[j]; }
      }
    }
  }

  /** Toggling keeps a selection free of duplicates. */
  lemma ToggleKeepsDistinct(s: seq<nat>, x: nat)
    requires Distinct(s)
    ensures Distinct(Toggle(s, x))
  {
    var t := Toggle(s, x);
    var index := IndexOf(s, x);
    if index > -1 {
      assert |t| == |s| - 1;
      assert forall k :: 0 <= k < |t| ==> t[k] == s[if k < index then k else k + 1];
    } else {
      forall i, j | 0 <= i < j < |t| ensures t[i] != t[j] {
        if j == |s| { assert t[i] == s[i]; assert s[i] in s; }
      }
    }
  }

  /** Toggling an absent id twice restores the selection exactly; toggling a
      present id twice restores its membership (the id moves to the end). */
  lemma ToggleTwice(s: seq<nat>, x: nat)
    ensures x !in s ==> Toggle(Toggle(s, x), x) == s
    ensures Distinct(s) ==> forall y :: y in Toggle(Toggle(s, x), x) <==> y in s
  {
    if x !in s {
      ToggleShape(s, x);
      var t := s + [x];
      assert IndexOf(t, x) == |s| by {
        var k := IndexOf(t, x);
        assert t[|s|] == x;
      }
      assert t[..|s|] == s;
    }
    if Distinct(s) {
      ToggleKeepsDistinct(s, x);
      forall y ensures y in Toggle(Toggle(s, x), x) <==> y in s {
        ToggleMembership(s, x, y);
        ToggleMembership(Toggle(s, x), x, y);
      }
    }
  }

  /** Toggling an id of the chosen course keeps the selection within it. */
  lemma ToggleWithinCourse(s: seq<nat>, all: seq<Candidate>, c: nat, x: nat)
    requires SelectionWithin(s, all, c)
    requires HasCandidate(all, x, c)
    ensures SelectionWithin(Toggle(s, x), all, c)
  {
    var t := Toggle(s, x);
    forall i | 0 <= i < |t| ensures HasCandidate(all, t[i], c) {
      ToggleMembership(s, x, t[i]);
      assert t[i] in t;
      if t[i] != x {
        var j :| 0 <= j < |s| && s[j] == t[i];
      }
    }
  }

  // ---------------------------------------------------------------------
  // ngOnInit: the route parameter `id`

  /** A JavaScript number held in `studentId` / `subjectId`: `null` before
      `ngOnInit`, `NaN` when the route id is not numeric, or a number. */
  datatype NumericId = Null | NaN | Number(n: nat) {
    /** JavaScript truthiness: `null`, `NaN` and `0` are false. */
    predicate Truthy() { Number? && n != 0 }
  }

  predicate IsDigit(c: char) { '0' <= c <= '9' }

  function DecimalValue(s: string): nat
    requires forall i :: 0 <= i < |s| ==> IsDigit(s[i])
  {
    if s == [] then 0
    else
      assert IsDigit(s[|s| - 1]);
      DecimalValue(s[..|s| - 1]) * 10 + (s[|s| - 1] as int - '0' as int)
  }

  /** `+id` on a route segment: a string of decimal digits gives its value;
      any other string gives NaN. */
  function Coerce(s: string): (r: NumericId)
    requires s != ""
    ensures r.Number? <==> forall i :: 0 <= i < |s| ==> IsDigit(s[i])
  {
    if forall i :: 0 <= i < |s| ==> IsDigit(s[i]) then Number(DecimalValue(s)) else NaN
  }

  /** The decimal text of a number, as it appears in a route such as
      `/dashboard/students/42/edit`. */
  function DecimalText(n: nat): (r: string)
    ensures r != [] && forall i :: 0 <= i < |r| ==> IsDigit(r[i])
  {
    var d := [('0' as int + n % 10) as char];
    if n < 10 then d else DecimalText(n / 10) + d
  }

  /** The route id of an entity coerces back to that entity's id. */
  lemma {:induction false} CoerceDecimalText(n: nat)
    ensures Coerce(DecimalText(n)) == Number(n)
  {
    var s := DecimalText(n);
    DecimalTextValue(n);
  }

  lemma {:induction false} DecimalTextValue(n: nat)
    ensures DecimalValue(DecimalText(n)) == n
  {
    var s := DecimalText(n);
    if n >= 10 {
      DecimalTextValue(n / 10);
      assert s[..|s| - 1] == DecimalText(n / 10);
    }
  }

  /** The mode `ngOnInit` chooses. */
  datatype Mode = CreateMode | EditMode(id: NumericId)

  /** Edit mode for a non-empty route id other than "new", holding the
      id coerced to a number; create mode otherwise. */
  function ModeFor(routeId: Option<string>): (m: Mode)
    ensures m.CreateMode? <==> routeId == None || routeId == Some("") || routeId == Some("new")
    ensures m.EditMode? ==> m.id.NaN? || m.id.Number?
    ensures routeId.Some? && routeId.value != "" && routeId.value != "new"
      ==> m == EditMode(Coerce(routeId.value))
  {
    match routeId
    case None => CreateMode
    case Some(id) => if id != "" && id != "new" then EditMode(Coerce(id)) else CreateMode
  }

  /** A route that names entity `n` puts the form into edit mode for `n`. */
  lemma EditRouteSetsId(n: nat)
    ensures ModeFor(Some(DecimalText(n))) == EditMode(Number(n))
  {
    CoerceDecimalText(n);
    var s := DecimalText(n);
    assert s[0] != 'n';
    assert s != "new";
  }

  // ---------------------------------------------------------------------
  // onSubmit

  /** Update is chosen only in edit mode with a truthy id. */
  predicate ChoosesUpdate(isEdit: bool, id: NumericId) {
    isEdit && id.Truthy()
  }

  /** The alert text: the backend's detail when it is a non-empty string,
      the fallback otherwise. */
  function AlertText(detail: Option<string>, fallback: string): (r: string)
    ensures detail.Some? && detail.value != "" ==> r == detail.value
    ensures r == fallback || (detail.Some? && r == detail.value)
    ensures r == fallback <==> detail.None? || detail.value == "" || detail.value == fallback
    ensures fallback != "" ==> r != ""
  {
    if detail.Some? && detail.value != "" then detail.value else fallback
  }
}
