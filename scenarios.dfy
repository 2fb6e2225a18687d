/**
 The form as it ships: ten students and four aspects, and what the export
 yields for a few sequences of edits.
 */
module FormScenarios {
  import opened Decimal
  import opened Slugs
  import opened GradeStore
  import opened Exporter

  /** The student roster of the form. */
  function Students(): seq<Student> {
    [ Student(1, "Mahasiswa 1"), Student(2, "Mahasiswa 2"), Student(3, "Mahasiswa 3"),
      Student(4, "Mahasiswa 4"), Student(5, "Mahasiswa 5"), Student(6, "Mahasiswa 6"),
      Student(7, "Mahasiswa 7"), Student(8, "Mahasiswa 8"), Student(9, "Mahasiswa 9"),
      Student(10, "Mahasiswa 10") ]
  }

  /** The aspect roster of the form. */
  function Aspects(): seq<Aspect> {
    [ Aspect(1, "Aspek Penilaian 1"), Aspect(2, "Aspek Penilaian 2"),
      Aspect(3, "Aspek Penilaian 3"), Aspect(4, "Aspek Penilaian 4") ]
  }

  /** One empty object per aspect of the form. */
  function EmptyExport(): Snapshot {
    map["aspek_penilaian_1" := map[], "aspek_penilaian_2" := map[],
        "aspek_penilaian_3" := map[], "aspek_penilaian_4" := map[]]
  }

  /** The slug of a name of the form "W N" for a one-digit N whose lowered W is given. */
  lemma NumberedSlug(name: string, slug: string)
    requires |name| == |slug| >= 2
    requires name[|name| - 2] == ' ' && slug[|slug| - 2] == '_'
    requires forall i :: 0 <= i < |name| && i != |name| - 2 ==> SlugChar(name[i]) == slug[i]
    ensures Slug(name) == slug
  {
    assert forall i :: 0 <= i < |name| ==> Slug(name)[i] == slug[i];
  }

  /** The slugs of the form's aspects. */
  lemma AspectSlugValues()
    ensures Slug(Aspects()[0].name) == "aspek_penilaian_1"
    ensures Slug(Aspects()[1].name) == "aspek_penilaian_2"
    ensures Slug(Aspects()[2].name) == "aspek_penilaian_3"
    ensures Slug(Aspects()[3].name) == "aspek_penilaian_4"
  {
    NumberedSlug(Aspects()[0].name, "aspek_penilaian_1");
    NumberedSlug(Aspects()[1].name, "aspek_penilaian_2");
    NumberedSlug(Aspects()[2].name, "aspek_penilaian_3");
    NumberedSlug(Aspects()[3].name, "aspek_penilaian_4");
  }

  /** The form's aspects have pairwise distinct slugs, the keys of `EmptyExport()`. */
  lemma AspectSlugsOfForm()
    ensures AspectSlugs(Aspects()) == EmptyExport().Keys
    ensures DistinctAspectSlugs(Aspects())
  {
    AspectSlugValues();
    var a := Aspects();
    assert "aspek_penilaian_1"[16] != "aspek_penilaian_2"[16];
    assert "aspek_penilaian_1"[16] != "aspek_penilaian_3"[16];
    assert "aspek_penilaian_1"[16] != "aspek_penilaian_4"[16];
    assert "aspek_penilaian_2"[16] != "aspek_penilaian_3"[16];
    assert "aspek_penilaian_2"[16] != "aspek_penilaian_4"[16];
    assert "aspek_penilaian_3"[16] != "aspek_penilaian_4"[16];
    assert AspectSlugs(a) == {Slug(a[0].name), Slug(a[1].name), Slug(a[2].name), Slug(a[3].name)};
  }

  /** Slugs of the first students of the form. */
  lemma StudentSlugsOfForm()
    ensures Slug(Students()[0].name) == "mahasiswa_1"
    ensures Slug(Students()[2].name) == "mahasiswa_3"
  {
    NumberedSlug(Students()[0].name, "mahasiswa_1");
    NumberedSlug(Students()[2].name, "mahasiswa_3");
  }

  /** No two students of the form share a slug. */
  lemma StudentSlugsDistinct()
    ensures DistinctStudentSlugs(Students())
  {
    var st := Students();
    forall j, k | 0 <= j < k < |st| ensures Slug(st[j].name) != Slug(st[k].name) {
      SlugShape(st[j].name);
      SlugShape(st[k].name);
      if k == 9 {
        assert |st[j].name| == 11 && |st[k].name| == 12;
      } else {
        assert st[j].name[10] != st[k].name[10];
        assert Slug(st[j].name)[10] == SlugChar(st[j].name[10]);
        assert Slug(st[k].name)[10] == SlugChar(st[k].name[10]);
      }
    }
  }

  /** Student k of the roster (counting from 0) has id k + 1. */
  lemma StudentIds()
    ensures |Students()| == 10
    ensures forall k :: 0 <= k < |Students()| ==> Students()[k].id == k + 1
  {
  }

  /** Aspect k of the roster (counting from 0) has id k + 1. */
  lemma AspectIds()
    ensures |Aspects()| == 4
    ensures forall k :: 0 <= k < |Aspects()| ==> Aspects()[k].id == k + 1
  {
  }

  /**
   As written, on the form: student `s` appears under aspect `a` of the saved
   export exactly when the store holds a nonzero number for their cell, and
   then with that number.
   */
  lemma FormSavedCell(grades: Grades, s: nat, a: nat)
    requires 1 <= s <= 10 && 1 <= a <= 4
    ensures Slug(Aspects()[a - 1].name) in Export(Students(), Aspects(), Reader(grades))
    ensures var inner := Export(Students(), Aspects(), Reader(grades))[Slug(Aspects()[a - 1].name)];
            && (Slug(Students()[s - 1].name) in inner <==> Key(s, a) in grades && Truthy(grades[Key(s, a)]))
            && (Slug(Students()[s - 1].name) in inner ==> inner[Slug(Students()[s - 1].name)] == grades[Key(s, a)].n)
  {
    StudentIds();
    AspectIds();
    StudentSlugsDistinct();
    AspectSlugsOfForm();
    SavedCell(Students(), Aspects(), grades, a - 1, s - 1);
  }

  /**
   With the intended reader, on the form: student `s` appears under aspect `a`
   exactly when the store holds a number for their cell, 0 included.
   */
  lemma FormExplicitSavedCell(grades: Grades, s: nat, a: nat)
    requires 1 <= s <= 10 && 1 <= a <= 4
    ensures Slug(Aspects()[a - 1].name) in Export(Students(), Aspects(), ExplicitReader(grades))
    ensures var inner := Export(Students(), Aspects(), ExplicitReader(grades))[Slug(Aspects()[a - 1].name)];
            && (Slug(Students()[s - 1].name) in inner <==> Key(s, a) in grades && grades[Key(s, a)].Num?)
            && (Slug(Students()[s - 1].name) in inner ==> inner[Slug(Students()[s - 1].name)] == grades[Key(s, a)].n)
  {
    StudentIds();
    AspectIds();
    StudentSlugsDistinct();
    AspectSlugsOfForm();
    ExplicitSavedCell(Students(), Aspects(), grades, a - 1, s - 1);
  }

  /** After a single edit of an untouched form, at most the edited cell reads as set. */
  lemma OneEditReader(sid: nat, aid: nat, value: string)
    ensures forall s: nat, a: nat ::
              Reader(UpdateGrade(map[], sid, aid, value))(s, a)
              == if (s, a) == (sid, aid) && Truthy(ParseCell(value)) then Score(ParseCell(value).n) else Unset
    ensures forall s: nat, a: nat ::
              ExplicitReader(UpdateGrade(map[], sid, aid, value))(s, a)
              == if (s, a) == (sid, aid) && ParseCell(value).Num? then Score(ParseCell(value).n) else Unset
  {
    forall s: nat, a: nat | Key(s, a) == Key(sid, aid) ensures (s, a) == (sid, aid) {
      KeyInjective(s, a, sid, aid);
    }
  }

  /** For any reader, the form exports one inner object per aspect, under its slug. */
  lemma FormExportShape(lookup: Lookup)
    ensures Export(Students(), Aspects(), lookup).Keys == EmptyExport().Keys
    ensures Export(Students(), Aspects(), lookup)["aspek_penilaian_1"] == Inner(Students(), 1, lookup)
    ensures Export(Students(), Aspects(), lookup)["aspek_penilaian_2"] == Inner(Students(), 2, lookup)
    ensures Export(Students(), Aspects(), lookup)["aspek_penilaian_3"] == Inner(Students(), 3, lookup)
    ensures Export(Students(), Aspects(), lookup)["aspek_penilaian_4"] == Inner(Students(), 4, lookup)
  {
    AspectSlugValues();
    AspectSlugsOfForm();
    ExportKeys(Students(), Aspects(), lookup);
    ExportLastAspectWins(Students(), Aspects(), lookup, 0);
    ExportLastAspectWins(Students(), Aspects(), lookup, 1);
    ExportLastAspectWins(Students(), Aspects(), lookup, 2);
    ExportLastAspectWins(Students(), Aspects(), lookup, 3);
  }

  /** A store in which no cell of the form reads as set exports one empty object per aspect. */
  lemma ExportsEmpty(lookup: Lookup)
    requires forall s: nat, a: nat :: lookup(s, a).Unset?
    ensures Export(Students(), Aspects(), lookup) == EmptyExport()
  {
    FormExportShape(lookup);
    InnerNoneGraded(Students(), 1, lookup);
    InnerNoneGraded(Students(), 2, lookup);
    InnerNoneGraded(Students(), 3, lookup);
    InnerNoneGraded(Students(), 4, lookup);
  }

  /**
   A reader under which only the cell of student `sid` and aspect `aid`
   reads as set exports that one score under that aspect and nothing else.
   */
  lemma FormInnerOfOneCell(lookup: Lookup, sid: nat, aid: nat, v: int, a: nat)
    requires 1 <= sid <= 10
    requires forall s: nat, a: nat :: lookup(s, a) == if (s, a) == (sid, aid) then Score(v) else Unset
    ensures Inner(Students(), a, lookup) == if a == aid then map[Slug(Students()[sid - 1].name) := v] else map[]
  {
    StudentIds();
    if a == aid {
      InnerOneGraded(Students(), a, lookup, sid - 1);
    } else {
      InnerNoneGraded(Students(), a, lookup);
    }
  }

  /**
   A reader under which only one cell of the form reads as set exports one
   empty object per aspect, except for that cell's aspect, whose object holds
   that cell's student and score alone.
   */
  lemma FormExportOfOneCell(lookup: Lookup, sid: nat, aid: nat, v: int)
    requires 1 <= sid <= 10 && 1 <= aid <= 4
    requires forall s: nat, a: nat :: lookup(s, a) == if (s, a) == (sid, aid) then Score(v) else Unset
    ensures Export(Students(), Aspects(), lookup)
         == EmptyExport()[Slug(Aspects()[aid - 1].name) := map[Slug(Students()[sid - 1].name) := v]]
  {
    AspectSlugValues();
    FormExportShape(lookup);
    FormInnerOfOneCell(lookup, sid, aid, v, 1);
    FormInnerOfOneCell(lookup, sid, aid, v, 2);
    FormInnerOfOneCell(lookup, sid, aid, v, 3);
    FormInnerOfOneCell(lookup, sid, aid, v, 4);
  }

  /** Saving before any edit gives `{ aspek_penilaian_1: {}, ..., aspek_penilaian_4: {} }`. */
  lemma SaveUntouchedForm()
    ensures Export(Students(), Aspects(), Reader(map[])) == EmptyExport()
  {
    ExportsEmpty(Reader(map[]));
  }

  /** Selecting 7 for student 1 under aspect 1 exports `{ mahasiswa_1: 7 }` there and nothing else. */
  lemma SaveAfterSevenForFirstCell()
    ensures Export(Students(), Aspects(), Reader(UpdateGrade(map[], 1, 1, "7")))
         == EmptyExport()["aspek_penilaian_1" := map["mahasiswa_1" := 7]]
  {
    OneEditReader(1, 1, "7");
    assert ParseCell("7") == Num(7) by {
      assert NatToString(7) == "7";
      ParseIntOfNatToString(7);
    }
    AspectSlugValues();
    StudentSlugsOfForm();
    FormExportOfOneCell(Reader(UpdateGrade(map[], 1, 1, "7")), 1, 1, 7);
  }

  /**
   As written, selecting 0 for student 3 under aspect 2 exports nothing at
   all: the export is the same as for the untouched form.
   */
  lemma SaveAfterZeroDropsIt()
    ensures Export(Students(), Aspects(), Reader(UpdateGrade(map[], 3, 2, "0"))) == EmptyExport()
  {
    OneEditReader(3, 2, "0");
    assert ParseCell("0") == Num(0) by {
      assert NatToString(0) == "0";
      ParseIntOfNatToString(0);
    }
    ExportsEmpty(Reader(UpdateGrade(map[], 3, 2, "0")));
  }

  /** With the intended reader the same edit exports `{ mahasiswa_3: 0 }` under aspect 2. */
  lemma ExplicitSaveAfterZeroKeepsIt()
    ensures Export(Students(), Aspects(), ExplicitReader(UpdateGrade(map[], 3, 2, "0")))
         == EmptyExport()["aspek_penilaian_2" := map["mahasiswa_3" := 0]]
  {
    OneEditReader(3, 2, "0");
    assert ParseCell("0") == Num(0) by {
      assert NatToString(0) == "0";
      ParseIntOfNatToString(0);
    }
    AspectSlugValues();
    StudentSlugsOfForm();
    FormExportOfOneCell(ExplicitReader(UpdateGrade(map[], 3, 2, "0")), 3, 2, 0);
  }

  /** Selecting 9 and then the empty value for the same cell exports nothing for it. */
  lemma SaveAfterClearing()
    ensures Export(Students(), Aspects(), Reader(UpdateGrade(UpdateGrade(map[], 5, 4, "9"), 5, 4, ""))) == EmptyExport()
  {
    var g := UpdateGrade(UpdateGrade(map[], 5, 4, "9"), 5, 4, "");
    assert g == UpdateGrade(map[], 5, 4, "");
    OneEditReader(5, 4, "");
    ExportsEmpty(Reader(g));
  }
}
