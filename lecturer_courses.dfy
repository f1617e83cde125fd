/** `LecturerDetailSerializer.get_courses`: the distinct courses of a
    lecturer's subjects, gathered in a dict keyed by course id. */
module LecturerCourses {
  import opened Common

  /** A `{"id", "name"}` entry of a lecturer's course list; also the course
      of one of the lecturer's subjects, as the loop reads it. */
  datatype CourseSummary = CourseSummary(id: nat, name: string)

  function Ids(s: seq<CourseSummary>): (r: seq<nat>)
    ensures |r| == |s| && forall i :: 0 <= i < |s| ==> r[i] == s[i].id
  {
    if s == [] then [] else Ids(s[..|s| - 1]) + [s[|s| - 1].id]
  }

  /** The distinct elements of `s`, each where it first occurs. */
  function FirstOccurrences(s: seq<nat>): (r: seq<nat>)
    ensures forall x :: x in r <==> x in s
    ensures Distinct(r)
    ensures |r| <= |s|
  {
    if s == [] then []
    else
      var front := FirstOccurrences(s[..|s| - 1]);
      assert forall x :: x in s <==> x in s[..|s| - 1] || x == s[|s| - 1];
      if s[|s| - 1] in s[..|s| - 1] then front else front + [s[|s| - 1]]
  }

  /** The name of the last entry for `id` (the value a dict keeps when a key
      is assigned repeatedly). */
  function LastName(s: seq<CourseSummary>, id: nat): string {
    if s == [] then ""
    else if s[|s| - 1].id == id then s[|s| - 1].name
    else LastName(s[..|s| - 1], id)
  }

  lemma IdsSnoc(s: seq<CourseSummary>, x: CourseSummary)
    ensures Ids(s + [x]) == Ids(s) + [x.id]
  {
    assert (s + [x])[..|s + [x]| - 1] == s;
  }

  lemma FirstOccurrencesSnoc(s: seq<nat>, x: nat)
    ensures FirstOccurrences(s + [x]) == if x in s then FirstOccurrences(s) else FirstOccurrences(s) + [x]
  {
    assert (s + [x])[..|s + [x]| - 1] == s;
  }

  lemma LastNameSnoc(s: seq<CourseSummary>, x: CourseSummary)
    ensures forall id :: LastName(s + [x], id) == if x.id == id then x.name else LastName(s, id)
  {
    assert (s + [x])[..|s + [x]| - 1] == s;
  }

  /** The dict after the loop has read `seen`: `order` is its key order and
      `courses` its entries. */
  ghost predicate DictOf(seen: seq<CourseSummary>, order: seq<nat>, courses: map<nat, string>) {
    && order == FirstOccurrences(Ids(seen))
    && (forall k :: k in courses <==> k in order)
    && (forall k :: k in courses ==> courses[k] == LastName(seen, k))
  }

  /** One iteration: `courses[s.id] = ...` appends a new key to the order and
      overwrites the entry of a known one. */
  lemma Step(seen: seq<CourseSummary>, s: CourseSummary, order: seq<nat>, courses: map<nat, string>)
    requires DictOf(seen, order, courses)
    ensures DictOf(seen + [s], if s.id in courses then order else order + [s.id], courses[s.id := s.name])
  {
    IdsSnoc(seen, s);
    FirstOccurrencesSnoc(Ids(seen), s.id);
    LastNameSnoc(seen, s);
  }

  lemma PrefixSnoc(s: seq<CourseSummary>, i: nat)
    requires i < |s|
    ensures s[..i + 1] == s[..i] + [s[i]]
  {
  }

  /** `get_courses`, on the courses of the lecturer's subjects in query order.
      The dict is kept as its insertion order plus its entries. */
  method GetCourses(subjectCourses: seq<CourseSummary>) returns (r: seq<CourseSummary>)
    ensures |r| == |FirstOccurrences(Ids(subjectCourses))|
    ensures forall j :: 0 <= j < |r| ==>
      r[j].id == FirstOccurrences(Ids(subjectCourses))[j] && r[j].name == LastName(subjectCourses, r[j].id)
  {
    var order: seq<nat> := [];
    var courses: map<nat, string> := map[];
    for i := 0 to |subjectCourses|
      invariant DictOf(subjectCourses[..i], order, courses)
    {
      var s := subjectCourses[i];
      Step(subjectCourses[..i], s, order, courses);
      PrefixSnoc(subjectCourses, i);
      if s.id !in courses {
        order := order + [s.id];
      }
      courses := courses[s.id := s.name];
    }
    assert subjectCourses[..|subjectCourses|] == subjectCourses;
    r := seq(|order|, j requires 0 <= j < |order| => CourseSummary(order[j], courses[order[j]]));
  }

  /** When every entry for a course carries the same name (they are read from
      one course row), the kept name is that name. */
  lemma {:induction false} LastNameIsTheName(s: seq<CourseSummary>, i: nat)
    requires i < |s|
    requires forall a, b :: 0 <= a < |s| && 0 <= b < |s| && s[a].id == s[b].id ==> s[a].name == s[b].name
    ensures LastName(s, s[i].id) == s[i].name
    decreases |s|
  {
    if s[|s| - 1].id != s[i].id {
      LastNameIsTheName(s[..|s| - 1], i);
    }
  }

  /** The position of the first occurrence of `x`. */
  function FirstIndex(s: seq<nat>, x: nat): (k: nat)
    requires x in s
    ensures k < |s| && s[k] == x && x !in s[..k]
  {
    if s[0] == x then 0
    else
      assert x in s[1..];
      var k := FirstIndex(s[1..], x);
      assert s[..k + 1] == [s[0]] + s[1..][..k];
      k + 1
  }

  /** The entries of `FirstOccurrences` are ordered by where each first occurs. */
  lemma {:induction false} FirstOccurrenceOrder(s: seq<nat>)
    ensures forall a, b :: 0 <= a < b < |FirstOccurrences(s)| ==>
      FirstIndex(s, FirstOccurrences(s)[a]) < FirstIndex(s, FirstOccurrences(s)[b])
  {
    if s != [] {
      var init := s[..|s| - 1];
      var last := s[|s| - 1];
      FirstOccurrenceOrder(init);
      var front := FirstOccurrences(init);
      forall x | x in init ensures FirstIndex(s, x) == FirstIndex(init, x) {
        FirstIndexOfPrefix(s, init, x);
      }
      assert forall x :: x in init ==> x in s;
      if last !in init {
        assert FirstIndex(s, last) == |s| - 1 by {
          assert last !in s[..|s| - 1];
        }
        forall a, b | 0 <= a < b < |front| + 1
          ensures FirstIndex(s, (front + [last])[a]) < FirstIndex(s, (front + [last])[b])
        {
          assert (front + [last])[a] == front[a] && front[a] in init;
          if b < |front| {
            assert (front + [last])[b] == front[b] && front[b] in init;
          }
        }
      } else {
        forall a, b | 0 <= a < b < |front|
          ensures FirstIndex(s, front[a]) < FirstIndex(s, front[b])
        {
          assert front[a] in init && front[b] in init;
        }
      }
    }
  }

  /** A prefix that contains `x` already holds its first occurrence. */
  lemma FirstIndexOfPrefix(s: seq<nat>, p: seq<nat>, x: nat)
    requires |p| <= |s| && p == s[..|p|] && x in p
    ensures FirstIndex(s, x) == FirstIndex(p, x)
  {
    var k := FirstIndex(p, x);
    var j := FirstIndex(s, x);
    assert s[k] == x;
    assert forall t :: 0 <= t < k ==> p[..k][t] == s[t];
    assert forall t :: 0 <= t < j ==> s[..j][t] == s[t];
  }

  /** A lecturer without subjects has no courses. */
  lemma NoSubjectsNoCourses()
    ensures FirstOccurrences(Ids([])) == []
  {
  }
}
