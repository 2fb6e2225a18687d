/**
 The grade store of the grading form: a flat object from the cell key
 `${studentId}-${aspectId}` to what the cell's selector last set, a number or
 the empty string. `UpdateGrade` is the copy-with-one-key-changed write the
 form performs on every edit, `GetGrade` the point lookup with its
 `|| ""` fallback.
 */
module GradeStore {
  import opened Decimal

  /** A stored value: the empty string, or the number `parseInt` produced (possibly `NaN`). */
  datatype Cell = Blank | Num(n: int) | NaN

  /** What `getGrade` hands back: the empty string, or a number (never 0, never `NaN`). */
  datatype Grade = Unset | Score(value: int)

  /** The state object, keyed by `Key(studentId, aspectId)`. */
  type Grades = map<string, Cell>

  /** The cell key `${studentId}-${aspectId}`. */
  function Key(studentId: nat, aspectId: nat): string {
    NatToString(studentId) + "-" + NatToString(aspectId)
  }

  /** No two cells share a key: a key determines its student and its aspect. */
  lemma KeyInjective(s1: nat, a1: nat, s2: nat, a2: nat)
    requires Key(s1, a1) == Key(s2, a2)
    ensures s1 == s2 && a1 == a2
  {
    var x1, y1 := NatToString(s1), NatToString(a1);
    var x2, y2 := NatToString(s2), NatToString(a2);
    var k := Key(s1, a1);
    FirstDash(x1, y1);
    FirstDash(x2, y2);
    assert |x1| == |x2|;
    assert x1 == k[..|x1|] == x2;
    assert y1 == k[|x1| + 1..] == y2;
    NatToStringInjective(s1, s2);
    NatToStringInjective(a1, a2);
  }

  /** In `x + "-" + y` with `x` all digits, the first '-' is the one after `x`. */
  lemma FirstDash(x: string, y: string)
    requires AllDigits(x)
    ensures (x + "-" + y)[|x|] == '-'
    ensures forall i :: 0 <= i < |x| ==> (x + "-" + y)[i] != '-'
  {
  }

  /** What an edit stores: `""` for the empty string, otherwise `parseInt(value, 10)`. */
  function ParseCell(value: string): Cell {
    if value == "" then Blank
    else match ParseInt(value)
      case None => NaN
      case Some(n) => Num(n)
  }

  /**
   `updateGrade`: a copy of the state in which the cell's key, and only that
   key, holds the parsed value.
   */
  function UpdateGrade(grades: Grades, studentId: nat, aspectId: nat, value: string): (r: Grades)
    ensures r.Keys == grades.Keys + {Key(studentId, aspectId)}
    ensures r[Key(studentId, aspectId)] == ParseCell(value)
    ensures forall k :: k in grades && k != Key(studentId, aspectId) ==> r[k] == grades[k]
  {
    grades[Key(studentId, aspectId) := ParseCell(value)]
  }

  /** JavaScript truthiness of a stored value: `""`, 0 and `NaN` are falsy. */
  predicate Truthy(c: Cell) {
    c.Num? && c.n != 0
  }

  /** `getGrade`: the stored value if it is truthy, otherwise `""`. */
  function GetGrade(grades: Grades, studentId: nat, aspectId: nat): (g: Grade)
    ensures g.Score? ==> g.value != 0
  {
    var k := Key(studentId, aspectId);
    if k in grades && Truthy(grades[k]) then Score(grades[k].n) else Unset
  }

  /** `getGrade`, as the function value the export calls. */
  function Reader(grades: Grades): (nat, nat) -> Grade {
    (studentId: nat, aspectId: nat) => GetGrade(grades, studentId, aspectId)
  }

  /**
   What `getGrade` reads for every kind of cell: a never-written cell, an
   empty one, a `NaN` and a stored 0 all read as unset; a stored nonzero
   integer reads as itself.
   */
  lemma GetGradeCases(grades: Grades, studentId: nat, aspectId: nat)
    ensures Key(studentId, aspectId) !in grades ==> GetGrade(grades, studentId, aspectId) == Unset
    ensures Key(studentId, aspectId) in grades && grades[Key(studentId, aspectId)] in {Blank, NaN, Num(0)} ==>
              GetGrade(grades, studentId, aspectId) == Unset
    ensures Key(studentId, aspectId) in grades && grades[Key(studentId, aspectId)].Num? && grades[Key(studentId, aspectId)].n != 0 ==>
              GetGrade(grades, studentId, aspectId) == Score(grades[Key(studentId, aspectId)].n)
  {
  }

  /** Before any edit every cell reads as unset. */
  lemma GetGradeInitial(studentId: nat, aspectId: nat)
    ensures GetGrade(map[], studentId, aspectId) == Unset
  {
  }

  /** An edit leaves every other cell reading exactly as before. */
  lemma UpdateGradeFrame(grades: Grades, studentId: nat, aspectId: nat, value: string, otherStudent: nat, otherAspect: nat)
    requires (otherStudent, otherAspect) != (studentId, aspectId)
    ensures GetGrade(UpdateGrade(grades, studentId, aspectId, value), otherStudent, otherAspect)
         == GetGrade(grades, otherStudent, otherAspect)
  {
    if Key(otherStudent, otherAspect) == Key(studentId, aspectId) {
      KeyInjective(otherStudent, otherAspect, studentId, aspectId);
    }
  }

  /** Selecting the empty string stores `""`, which reads as unset, whatever was there. */
  lemma UpdateGradeBlank(grades: Grades, studentId: nat, aspectId: nat)
    ensures UpdateGrade(grades, studentId, aspectId, "")[Key(studentId, aspectId)] == Blank
    ensures GetGrade(UpdateGrade(grades, studentId, aspectId, ""), studentId, aspectId) == Unset
  {
  }

  /**
   Selecting the numeral of `n` stores the integer `n`; it reads back as `n`,
   except that 0 reads back as unset.
   */
  lemma UpdateGradeNumeral(grades: Grades, studentId: nat, aspectId: nat, n: nat)
    ensures UpdateGrade(grades, studentId, aspectId, NatToString(n))[Key(studentId, aspectId)] == Num(n)
    ensures GetGrade(UpdateGrade(grades, studentId, aspectId, NatToString(n)), studentId, aspectId)
         == if n == 0 then Unset else Score(n)
  {
    ParseIntOfNatToString(n);
  }

  /** Text with no leading digit (after white space and sign) stores `NaN`, which reads as unset. */
  lemma UpdateGradeNonNumeral(grades: Grades, studentId: nat, aspectId: nat, value: string)
    requires value != [] && !IsSpace(value[0]) && !IsDigit(value[0]) && value[0] != '-' && value[0] != '+'
    ensures UpdateGrade(grades, studentId, aspectId, value)[Key(studentId, aspectId)] == NaN
    ensures GetGrade(UpdateGrade(grades, studentId, aspectId, value), studentId, aspectId) == Unset
  {
    ParseIntOfNonNumeral(value);
  }

  /** The values the cell's selector offers: the option "0", then the options 1 to 10. */
  function SelectValues(): seq<string> {
    ["0", "1", "2", "3", "4", "5", "6", "7", "8", "9", "10"]
  }

  /** The i-th choice of the selector is the numeral of i. */
  lemma SelectValuesAreNumerals()
    ensures |SelectValues()| == 11
    ensures forall i :: 0 <= i < 11 ==> SelectValues()[i] == NatToString(i)
  {
    assert NatToString(10) == NatToString(1) + [DigitChar(0)];
  }

  /**
   Picking choice i of the selector stores i; i reads back as itself for
   1 to 10 and as unset for 0.
   */
  lemma SelectChoiceReadsBack(grades: Grades, studentId: nat, aspectId: nat, i: nat)
    requires i < |SelectValues()|
    ensures UpdateGrade(grades, studentId, aspectId, SelectValues()[i])[Key(studentId, aspectId)] == Num(i)
    ensures GetGrade(UpdateGrade(grades, studentId, aspectId, SelectValues()[i]), studentId, aspectId)
         == if i == 0 then Unset else Score(i)
  {
    SelectValuesAreNumerals();
    UpdateGradeNumeral(grades, studentId, aspectId, i);
  }

  /** As written, the score 0 does not survive a write followed by a read. */
  lemma ZeroScoreReadsUnset(grades: Grades, studentId: nat, aspectId: nat)
    ensures UpdateGrade(grades, studentId, aspectId, "0")[Key(studentId, aspectId)] == Num(0)
    ensures GetGrade(UpdateGrade(grades, studentId, aspectId, "0"), studentId, aspectId) == Unset
  {
    UpdateGradeNumeral(grades, studentId, aspectId, 0);
  }

  /**
   The intended reader: unset only for a missing cell, `""` or
   `NaN`; every stored integer, 0 included, is a score.
   */
  function GetGradeExplicit(grades: Grades, studentId: nat, aspectId: nat): Grade {
    var k := Key(studentId, aspectId);
    if k in grades && grades[k].Num? then Score(grades[k].n) else Unset
  }

  function ExplicitReader(grades: Grades): (nat, nat) -> Grade {
    (studentId: nat, aspectId: nat) => GetGradeExplicit(grades, studentId, aspectId)
  }

  /**
   With the intended reader every numeral, 0 included, reads back as the
   number written, and the empty string still reads as unset.
   */
  lemma ExplicitReadsBack(grades: Grades, studentId: nat, aspectId: nat, n: nat)
    ensures GetGradeExplicit(UpdateGrade(grades, studentId, aspectId, NatToString(n)), studentId, aspectId) == Score(n)
    ensures GetGradeExplicit(UpdateGrade(grades, studentId, aspectId, ""), studentId, aspectId) == Unset
  {
    ParseIntOfNatToString(n);
  }

  /** The two readers differ only on a stored 0. */
  lemma ReadersAgreeExceptZero(grades: Grades, studentId: nat, aspectId: nat)
    ensures GetGrade(grades, studentId, aspectId) != GetGradeExplicit(grades, studentId, aspectId) <==>
              Key(studentId, aspectId) in grades && grades[Key(studentId, aspectId)] == Num(0)
  {
  }
}
