/**
 The export the "Simpan" button triggers: walk the aspects in roster order,
 give each a fresh inner object under its slug, and fill that object with
 the student slug of every student whose grade reads as set.

 `Inner` and `Export` state what the walk computes as folds over the
 rosters taken in order; `HandleSave` is the walk itself, two nested loops
 that rebuild the outer map entry by entry. The lemmas say the same thing
 without reference to the order of the walk: which keys exist, which value
 a key ends up with, and who wins when slugs collide. They hold for any
 reader of the store; `HandleSave` uses `getGrade`.
 */
module Exporter {
  import opened Slugs
  import opened GradeStore

  datatype Student = Student(id: nat, name: string)

  datatype Aspect = Aspect(id: nat, name: string)

  /** A reader of the store, as `getGrade` is: (student id, aspect id) to grade. */
  type Lookup = (nat, nat) -> Grade

  /** The exported object: aspect slug to student slug to score. */
  type Snapshot = map<string, map<string, int>>

  /** The inner object of one aspect after the students have been walked in order. */
  function Inner(students: seq<Student>, aspectId: nat, lookup: Lookup): map<string, int>
    decreases |students|
  {
    if students == [] then map[]
    else
      var before := Inner(students[..|students| - 1], aspectId, lookup);
      var student := students[|students| - 1];
      match lookup(student.id, aspectId)
      case Unset => before
      case Score(v) => before[Slug(student.name) := v]
  }

  /** The outer object after the aspects have been walked in order. */
  function Export(students: seq<Student>, aspects: seq<Aspect>, lookup: Lookup): Snapshot
    decreases |aspects|
  {
    if aspects == [] then map[]
    else
      var aspect := aspects[|aspects| - 1];
      Export(students, aspects[..|aspects| - 1], lookup)[Slug(aspect.name) := Inner(students, aspect.id, lookup)]
  }

  /** `handleSave`: the nested walk that builds the exported object from the store. */
  method HandleSave(students: seq<Student>, aspects: seq<Aspect>, grades: Grades) returns (formatted: Snapshot)
    ensures formatted == Export(students, aspects, Reader(grades))
    ensures formatted.Keys == AspectSlugs(aspects)
  {
    formatted := map[];
    var i := 0;
    while i < |aspects|
      invariant 0 <= i <= |aspects|
      invariant formatted == Export(students, aspects[..i], Reader(grades))
    {
      var aspect := aspects[i];
      var aspectKey := Slug(aspect.name);
      formatted := formatted[aspectKey := map[]];
      var j := 0;
      while j < |students|
        invariant 0 <= j <= |students|
        invariant formatted == Export(students, aspects[..i], Reader(grades))[aspectKey := Inner(students[..j], aspect.id, Reader(grades))]
      {
        var student := students[j];
        var grade := GetGrade(grades, student.id, aspect.id);
        assert students[..j + 1][..j] == students[..j];
        if grade != Unset {
          var studentKey := Slug(student.name);
          formatted := formatted[aspectKey := formatted[aspectKey][studentKey := grade.value]];
        }
        j := j + 1;
      }
      assert students[..j] == students;
      assert aspects[..i + 1][..i] == aspects[..i];
      i := i + 1;
    }
    assert aspects[..i] == aspects;
    ExportKeys(students, aspects, Reader(grades));
  }

  /** The slugs of all aspects. */
  ghost function AspectSlugs(aspects: seq<Aspect>): set<string> {
    set i | 0 <= i < |aspects| :: Slug(aspects[i].name)
  }

  /** The slugs of the students whose grade for the aspect reads as set. */
  ghost function GradedSlugs(students: seq<Student>, aspectId: nat, lookup: Lookup): set<string> {
    set j | 0 <= j < |students| && lookup(students[j].id, aspectId).Score? :: Slug(students[j].name)
  }

  /** The inner object holds exactly the slugs of the students graded for the aspect. */
  lemma {:induction false} InnerKeys(students: seq<Student>, aspectId: nat, lookup: Lookup)
    ensures Inner(students, aspectId, lookup).Keys == GradedSlugs(students, aspectId, lookup)
    decreases |students|
  {
    if students != [] {
      var n := |students| - 1;
      var init := students[..n];
      InnerKeys(init, aspectId, lookup);
      var last := if lookup(students[n].id, aspectId).Score? then {Slug(students[n].name)} else {};
      forall k | k in GradedSlugs(students, aspectId, lookup)
        ensures k in GradedSlugs(init, aspectId, lookup) + last
      {
        var j :| 0 <= j < |students| && lookup(students[j].id, aspectId).Score? && k == Slug(students[j].name);
        if j < n {
          assert init[j] == students[j];
        }
      }
      forall k | k in GradedSlugs(init, aspectId, lookup)
        ensures k in GradedSlugs(students, aspectId, lookup)
      {
        var j :| 0 <= j < |init| && lookup(init[j].id, aspectId).Score? && k == Slug(init[j].name);
        assert init[j] == students[j];
      }
    }
  }

  /**
   Later students win: a graded student whose slug no later graded student
   shares leaves its score under its slug.
   */
  lemma {:induction false} InnerLastWriterWins(students: seq<Student>, aspectId: nat, lookup: Lookup, j: nat)
    requires j < |students|
    requires lookup(students[j].id, aspectId).Score?
    requires forall k :: j < k < |students| && Slug(students[k].name) == Slug(students[j].name) ==>
               lookup(students[k].id, aspectId).Unset?
    ensures Slug(students[j].name) in Inner(students, aspectId, lookup)
    ensures Inner(students, aspectId, lookup)[Slug(students[j].name)] == lookup(students[j].id, aspectId).value
    decreases |students|
  {
    var n := |students| - 1;
    if j < n {
      var init := students[..n];
      assert init[j] == students[j];
      InnerLastWriterWins(init, aspectId, lookup, j);
    }
  }

  /** No two students share a slug. */
  ghost predicate DistinctStudentSlugs(students: seq<Student>) {
    forall j, k :: 0 <= j < k < |students| ==> Slug(students[j].name) != Slug(students[k].name)
  }

  /** No two aspects share a slug. */
  ghost predicate DistinctAspectSlugs(aspects: seq<Aspect>) {
    forall i, k :: 0 <= i < k < |aspects| ==> Slug(aspects[i].name) != Slug(aspects[k].name)
  }

  /**
   Without slug collisions among students, a student's slug is in the inner
   object exactly when the student's grade reads as set, and then maps to it.
   */
  lemma InnerCell(students: seq<Student>, aspectId: nat, lookup: Lookup, j: nat)
    requires DistinctStudentSlugs(students)
    requires j < |students|
    ensures Slug(students[j].name) in Inner(students, aspectId, lookup) <==> lookup(students[j].id, aspectId).Score?
    ensures lookup(students[j].id, aspectId).Score? ==>
              Inner(students, aspectId, lookup)[Slug(students[j].name)] == lookup(students[j].id, aspectId).value
  {
    InnerKeys(students, aspectId, lookup);
    if lookup(students[j].id, aspectId).Score? {
      InnerLastWriterWins(students, aspectId, lookup, j);
    }
  }

  /** An aspect nobody is graded for gets an empty inner object. */
  lemma InnerNoneGraded(students: seq<Student>, aspectId: nat, lookup: Lookup)
    requires forall k :: 0 <= k < |students| ==> lookup(students[k].id, aspectId).Unset?
    ensures Inner(students, aspectId, lookup) == map[]
  {
    InnerKeys(students, aspectId, lookup);
    assert GradedSlugs(students, aspectId, lookup) == {};
  }

  /** An aspect exactly one student is graded for holds exactly that student's score. */
  lemma InnerOneGraded(students: seq<Student>, aspectId: nat, lookup: Lookup, j: nat)
    requires j < |students|
    requires lookup(students[j].id, aspectId).Score?
    requires forall k :: 0 <= k < |students| && k != j ==> lookup(students[k].id, aspectId).Unset?
    ensures Inner(students, aspectId, lookup) == map[Slug(students[j].name) := lookup(students[j].id, aspectId).value]
  {
    InnerKeys(students, aspectId, lookup);
    assert GradedSlugs(students, aspectId, lookup) == {Slug(students[j].name)};
    InnerLastWriterWins(students, aspectId, lookup, j);
  }

  /** The outer object holds exactly the slugs of the aspects, graded or not. */
  lemma {:induction false} ExportKeys(students: seq<Student>, aspects: seq<Aspect>, lookup: Lookup)
    ensures Export(students, aspects, lookup).Keys == AspectSlugs(aspects)
    decreases |aspects|
  {
    if aspects != [] {
      var n := |aspects| - 1;
      var init := aspects[..n];
      ExportKeys(students, init, lookup);
      forall k | k in AspectSlugs(aspects)
        ensures k in AspectSlugs(init) + {Slug(aspects[n].name)}
      {
        var i :| 0 <= i < |aspects| && k == Slug(aspects[i].name);
        if i < n {
          assert init[i] == aspects[i];
        }
      }
      forall k | k in AspectSlugs(init)
        ensures k in AspectSlugs(aspects)
      {
        var i :| 0 <= i < |init| && k == Slug(init[i].name);
        assert init[i] == aspects[i];
      }
    }
  }

  /**
   Later aspects win: under an aspect's slug stands that aspect's whole inner
   object, unless a later aspect has the same slug.
   */
  lemma {:induction false} ExportLastAspectWins(students: seq<Student>, aspects: seq<Aspect>, lookup: Lookup, i: nat)
    requires i < |aspects|
    requires forall k :: i < k < |aspects| ==> Slug(aspects[k].name) != Slug(aspects[i].name)
    ensures Slug(aspects[i].name) in Export(students, aspects, lookup)
    ensures Export(students, aspects, lookup)[Slug(aspects[i].name)] == Inner(students, aspects[i].id, lookup)
    decreases |aspects|
  {
    var n := |aspects| - 1;
    if i < n {
      var init := aspects[..n];
      assert init[i] == aspects[i];
      ExportLastAspectWins(students, init, lookup, i);
    }
  }

  /**
   Without slug collisions, student j appears under aspect i exactly when
   their grade for it reads as set, and then with that grade.
   */
  lemma ExportCell(students: seq<Student>, aspects: seq<Aspect>, lookup: Lookup, i: nat, j: nat)
    requires DistinctAspectSlugs(aspects) && DistinctStudentSlugs(students)
    requires i < |aspects| && j < |students|
    ensures Slug(aspects[i].name) in Export(students, aspects, lookup)
    ensures var inner := Export(students, aspects, lookup)[Slug(aspects[i].name)];
            && (Slug(students[j].name) in inner <==> lookup(students[j].id, aspects[i].id).Score?)
            && (lookup(students[j].id, aspects[i].id).Score? ==>
                  inner[Slug(students[j].name)] == lookup(students[j].id, aspects[i].id).value)
  {
    ExportLastAspectWins(students, aspects, lookup, i);
    InnerCell(students, aspects[i].id, lookup, j);
  }

  /** A store no cell of which reads as set exports one empty object per aspect slug. */
  lemma {:induction false} ExportNothingGraded(students: seq<Student>, aspects: seq<Aspect>, lookup: Lookup)
    requires forall j, i :: 0 <= j < |students| && 0 <= i < |aspects| ==> lookup(students[j].id, aspects[i].id).Unset?
    ensures Export(students, aspects, lookup).Keys == AspectSlugs(aspects)
    ensures forall k :: k in Export(students, aspects, lookup) ==> Export(students, aspects, lookup)[k] == map[]
    decreases |aspects|
  {
    ExportKeys(students, aspects, lookup);
    if aspects != [] {
      var n := |aspects| - 1;
      ExportNothingGraded(students, aspects[..n], lookup);
      InnerNoneGraded(students, aspects[n].id, lookup);
    }
  }

  /** Before any edit the export is one empty object per aspect slug. */
  lemma ExportOfEmptyStore(students: seq<Student>, aspects: seq<Aspect>)
    ensures Export(students, aspects, Reader(map[])).Keys == AspectSlugs(aspects)
    ensures forall k :: k in Export(students, aspects, Reader(map[])) ==> Export(students, aspects, Reader(map[]))[k] == map[]
  {
    ExportNothingGraded(students, aspects, Reader(map[]));
  }

  /**
   As written: without slug collisions, student j appears under aspect i
   exactly when the stored value is a nonzero number, so a stored 0 is left
   out like an empty cell.
   */
  lemma SavedCell(students: seq<Student>, aspects: seq<Aspect>, grades: Grades, i: nat, j: nat)
    requires DistinctAspectSlugs(aspects) && DistinctStudentSlugs(students)
    requires i < |aspects| && j < |students|
    ensures Slug(aspects[i].name) in Export(students, aspects, Reader(grades))
    ensures var key := Key(students[j].id, aspects[i].id);
            var inner := Export(students, aspects, Reader(grades))[Slug(aspects[i].name)];
            && (Slug(students[j].name) in inner <==> key in grades && Truthy(grades[key]))
            && (Slug(students[j].name) in inner ==> inner[Slug(students[j].name)] == grades[key].n)
  {
    ExportCell(students, aspects, Reader(grades), i, j);
  }

  /**
   With the intended reader: without slug collisions, student j appears under
   aspect i exactly when a number is stored, 0 included.
   */
  lemma ExplicitSavedCell(students: seq<Student>, aspects: seq<Aspect>, grades: Grades, i: nat, j: nat)
    requires DistinctAspectSlugs(aspects) && DistinctStudentSlugs(students)
    requires i < |aspects| && j < |students|
    ensures Slug(aspects[i].name) in Export(students, aspects, ExplicitReader(grades))
    ensures var key := Key(students[j].id, aspects[i].id);
            var inner := Export(students, aspects, ExplicitReader(grades))[Slug(aspects[i].name)];
            && (Slug(students[j].name) in inner <==> key in grades && grades[key].Num?)
            && (Slug(students[j].name) in inner ==> inner[Slug(students[j].name)] == grades[key].n)
  {
    ExportCell(students, aspects, ExplicitReader(grades), i, j);
  }
}
