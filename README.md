# Student grading form: grade store and export, in Dafny

The grading page (`src/app/page.tsx`) shows a grid of selectors, one per
(student, aspect) cell, each offering the scores 0 to 10. Every change of a
selector writes the grade store: a flat object keyed by
`${studentId}-${aspectId}` whose values are either a number (what
`parseInt(value, 10)` made of the selection) or the empty string for "unset".
Reading a cell uses `grades[key] || ""`, so a missing key, the empty string,
`NaN` and the number 0 all read as unset. The "Simpan" button runs
`handleSave`: for each aspect in roster order it takes the aspect's slug
(lower-cased, every space turned into `_`), puts a fresh empty object under
it, and fills that object with `studentSlug: grade` for every student, in
roster order, whose grade does not read as unset.

The model has five modules:

- `Decimal` (`decimal.dfy`): how a template literal prints a non-negative id
  (`NatToString`) and how `parseInt(s, 10)` reads a numeral (`ParseInt`:
  leading white space, an optional sign, the longest run of digits, `NaN`
  when there is none), with their round trip.
- `Slugs` (`slug.dfy`): the slug rule (`Slug`), on ASCII letters.
- `GradeStore` (`grade_store.dfy`): stored values (`Cell`: `""`, a number,
  or `NaN`), read values (`Grade`), the cell key (`Key`) and its injectivity,
  `UpdateGrade` (the copy-with-one-key-changed write) and `GetGrade` (the
  lookup with its falsy fallback), and the selector's choices.
- `Exporter` (`export.dfy`): the rosters' records, `Inner` and `Export`
  (what the walk of `handleSave` computes, as folds over the rosters in
  order), `HandleSave` (the walk itself: two nested loops that rebuild the
  outer map entry by entry, proved equal to `Export`), and the lemmas that describe
  the export without reference to the walk. These lemmas take the reader of
  the store as a parameter, so they hold for `getGrade` as written and for
  the intended reader of the finding below.
- `FormScenarios` (`scenarios.dfy`): the form's own rosters (ten students,
  four aspects) and what the export gives after a few sequences of edits.

The grade store is modelled as a value, as `updateGrade` treats it: each edit
returns a new map. The export takes the store as a value parameter, so it
cannot change it, and the object it returns shares nothing with it.

## Model

| member | source | states |
|---|---|---|
| `Decimal.NatToString` | src/app/page.tsx:64 | `${n}` of an id is non-empty, all decimal digits, and starts with `0` only for 0 |
| `Decimal.ParseInt` | src/app/page.tsx:64 | `parseInt(value, 10)`: skip leading white space, take an optional sign and the longest run of digits, `NaN` (`None`) when there is no digit; its contract is stated by `ParseIntOfNatToString`, `ParseIntOfNegative`, `ParseIntOfNonNumeral` and `ParseIntIgnoresTrailing` |
| `Decimal.DigitsValueOfNatToString` | src/app/page.tsx:64 | the digits `${n}` prints denote `n` again |
| `Decimal.NatToStringInjective` | src/app/page.tsx:64 | distinct ids print as distinct numerals |
| `Decimal.ParseIntOfNatToString` | src/app/page.tsx:64 | `parseInt(${n}, 10)` is `n` for every non-negative integer `n` |
| `Decimal.ParseIntOfNegative` | src/app/page.tsx:64 | a leading `-` makes `parseInt` return the negated numeral |
| `Decimal.ParseIntOfNonNumeral` | src/app/page.tsx:64 | text that starts with neither white space, a sign nor a digit parses to `NaN` |
| `Decimal.ParseIntIgnoresTrailing` | src/app/page.tsx:64 | characters after the leading digits (starting with a non-digit) do not change what `parseInt` returns |
| `Slugs.ToLowerAscii` | src/app/page.tsx:84 | lower-casing maps each upper-case ASCII letter 32 code points up, to its lower-case form, and leaves every other character alone |
| `Slugs.SlugChar` | src/app/page.tsx:90-92 | what one character of a name becomes: lowered, and a space turned into `_`; `SlugCollision` states slug equality through it |
| `Slugs.Slug` | src/app/page.tsx:84 | `name.toLowerCase().replace(/ /g, "_")`, character by character; its contract is stated by `SlugShape`, `SlugIdempotent` and `SlugCollision` |
| `Slugs.SlugShape` | src/app/page.tsx:84 | a slug is as long as the name, contains no space and no upper-case ASCII letter, and keeps every other character in place |
| `Slugs.SlugIdempotent` | src/app/page.tsx:90-92 | slugging a slug gives the same slug |
| `Slugs.SlugCollision` | src/app/page.tsx:90-92 | two names slug alike exactly when they have the same length and agree character by character after lowering and space replacement |
| `Slugs.SlugCollisionExample` | src/app/page.tsx:84 | the distinct names "Aspek Penilaian 1" and "aspek_penilaian_1" share a slug |
| `Slugs.SlugExample` | src/app/page.tsx:84 | "Aspek Penilaian 1" becomes "aspek_penilaian_1" and "Mahasiswa 10" becomes "mahasiswa_10" |
| `GradeStore.Key` | src/app/page.tsx:64 | the cell key `${studentId}-${aspectId}` that both the write and the read (line 73) use; `KeyInjective` states that it identifies its cell |
| `GradeStore.KeyInjective` | src/app/page.tsx:64 | `${s}-${a}` determines both `s` and `a`: no two cells share a key |
| `GradeStore.ParseCell` | src/app/page.tsx:64 | what an edit stores: `""` for the empty value, otherwise `parseInt(value, 10)` (possibly `NaN`); stated by `UpdateGradeBlank`, `UpdateGradeNumeral` and `UpdateGradeNonNumeral` |
| `GradeStore.UpdateGrade` | src/app/page.tsx:62-65 | the new state has the old keys plus the cell's key, holds the parsed value (or `""`) there, and every other key keeps its value |
| `GradeStore.Truthy` | src/app/page.tsx:73 | the JavaScript truthiness of a stored value: only a nonzero number is truthy, `""`, `NaN` and 0 are falsy; `GetGradeCases` and `SavedCell` state its role |
| `GradeStore.GetGrade` | src/app/page.tsx:73 | a score read from the store is never 0 |
| `GradeStore.GetGradeCases` | src/app/page.tsx:73 | a never-written cell, `""`, `NaN` and a stored 0 all read as unset; a stored nonzero integer reads as itself |
| `GradeStore.GetGradeInitial` | src/app/page.tsx:56 | before any edit every cell reads as unset |
| `GradeStore.UpdateGradeFrame` | src/app/page.tsx:62-65 | an edit leaves every other (student, aspect) cell reading exactly as before |
| `GradeStore.UpdateGradeBlank` | src/app/page.tsx:64 | selecting the empty string stores `""`, which reads as unset, whatever the cell held |
| `GradeStore.UpdateGradeNumeral` | src/app/page.tsx:64 | selecting the numeral of `n` stores `n`; it reads back as `n` when `n` is nonzero and as unset when it is 0 |
| `GradeStore.UpdateGradeNonNumeral` | src/app/page.tsx:64 | selecting text with no leading numeral stores `NaN`, which reads as unset |
| `GradeStore.SelectValues` | src/app/page.tsx:132-137 | the selector's option values in order, "0" then "1" to "10"; stated by `SelectValuesAreNumerals` and `SelectChoiceReadsBack` |
| `GradeStore.SelectValuesAreNumerals` | src/app/page.tsx:132-137 | the selector offers eleven choices and choice `i` is the numeral of `i` |
| `GradeStore.SelectChoiceReadsBack` | src/app/page.tsx:125-137 | picking choice `i` stores `i`; it reads back as `i` for 1 to 10 and as unset for 0 |
| `GradeStore.ZeroScoreReadsUnset` | src/app/page.tsx:73 | as written, writing "0" stores 0 but reading the cell gives unset |
| `GradeStore.GetGradeExplicit` | src/app/page.tsx:73 | the corrected reader: unset only for a missing cell, `""` or `NaN`, every stored number (0 included) is a score; stated by `ExplicitReadsBack` and `ReadersAgreeExceptZero` |
| `GradeStore.ExplicitReadsBack` | src/app/page.tsx:73 | with the intended reader every numeral, 0 included, reads back as the number written, and `""` still reads as unset |
| `GradeStore.ReadersAgreeExceptZero` | src/app/page.tsx:73 | the as-written and the intended reader differ exactly on cells that store 0 |
| `Exporter.Inner` | src/app/page.tsx:85-95 | an aspect's inner object after the students are walked in roster order; stated by `InnerKeys`, `InnerLastWriterWins`, `InnerCell`, `InnerNoneGraded` and `InnerOneGraded` |
| `Exporter.Export` | src/app/page.tsx:83-96 | the outer object after the aspects are walked in roster order; stated by `ExportKeys`, `ExportLastAspectWins`, `ExportCell` and `ExportNothingGraded`, and equal to what `HandleSave` returns |
| `Exporter.HandleSave` | src/app/page.tsx:79-99 | the nested walk yields exactly `Export` of the rosters under `getGrade`, whose keys are exactly the aspect slugs |
| `Exporter.InnerKeys` | src/app/page.tsx:87-95 | an aspect's inner object holds exactly the slugs of the students whose grade for it reads as set |
| `Exporter.InnerLastWriterWins` | src/app/page.tsx:93 | a graded student whose slug no later graded student shares leaves their own score under that slug: later students overwrite earlier ones |
| `Exporter.InnerCell` | src/app/page.tsx:87-94 | without student slug collisions, a student's slug is in the inner object exactly when their grade reads as set, and then maps to that grade |
| `Exporter.InnerNoneGraded` | src/app/page.tsx:85-95 | an aspect nobody is graded for gets an empty inner object |
| `Exporter.InnerOneGraded` | src/app/page.tsx:87-94 | an aspect exactly one student is graded for gets exactly that student's slug and score |
| `Exporter.ExportKeys` | src/app/page.tsx:83-85 | the outer object's keys are exactly the aspect slugs, whether or not anyone is graded |
| `Exporter.ExportLastAspectWins` | src/app/page.tsx:85 | under an aspect's slug stands that aspect's whole inner object unless a later aspect has the same slug: later aspects replace earlier ones |
| `Exporter.ExportCell` | src/app/page.tsx:83-96 | without slug collisions, student j appears under aspect i exactly when their grade for it reads as set, and with that grade |
| `Exporter.ExportNothingGraded` | src/app/page.tsx:83-96 | when no cell reads as set, the export is one empty inner object per aspect slug |
| `Exporter.ExportOfEmptyStore` | src/app/page.tsx:81-85 | before any edit the export is one empty inner object per aspect slug |
| `Exporter.SavedCell` | src/app/page.tsx:88-93 | as written, without slug collisions, a student appears under an aspect exactly when the stored value is a nonzero number, and with that number: stored 0, `""` and `NaN` are left out |
| `Exporter.ExplicitSavedCell` | src/app/page.tsx:88-93 | with the intended reader, a student appears under an aspect exactly when a number is stored, 0 included |
| `FormScenarios.Students` | src/app/page.tsx:28-42 | the form's ten students, "Mahasiswa 1" to "Mahasiswa 10" with ids 1 to 10; stated by `StudentIds`, `StudentSlugsOfForm` and `StudentSlugsDistinct` |
| `FormScenarios.Aspects` | src/app/page.tsx:45-53 | the form's four aspects, "Aspek Penilaian 1" to "Aspek Penilaian 4" with ids 1 to 4; stated by `AspectIds`, `AspectSlugValues` and `AspectSlugsOfForm` |
| `FormScenarios.StudentIds` | src/app/page.tsx:28-42 | student k of the form's roster (from 0) has id k + 1 |
| `FormScenarios.AspectIds` | src/app/page.tsx:45-53 | aspect k of the form's roster (from 0) has id k + 1 |
| `FormScenarios.AspectSlugValues` | src/app/page.tsx:45-53 | the form's aspects slug to "aspek_penilaian_1" to "aspek_penilaian_4" |
| `FormScenarios.AspectSlugsOfForm` | src/app/page.tsx:45-53 | the form's aspect slugs are pairwise distinct and are the four keys of the empty export |
| `FormScenarios.StudentSlugsOfForm` | src/app/page.tsx:30-32 | students 1 and 3 slug to "mahasiswa_1" and "mahasiswa_3" |
| `FormScenarios.StudentSlugsDistinct` | src/app/page.tsx:28-42 | no two of the form's ten students share a slug, so no student's score overwrites another's |
| `FormScenarios.OneEditReader` | src/app/page.tsx:62-76 | after one edit of an untouched form, only the edited cell can read as set, and it reads as what was stored there |
| `FormScenarios.FormExportShape` | src/app/page.tsx:83-85 | the form exports exactly four keys, each holding the inner object of its aspect |
| `FormScenarios.ExportsEmpty` | src/app/page.tsx:83-96 | when nothing reads as set the form exports `{ aspek_penilaian_1: {}, ..., aspek_penilaian_4: {} }` |
| `FormScenarios.FormInnerOfOneCell` | src/app/page.tsx:87-94 | when only one cell reads as set, its aspect's inner object holds that student's score alone and every other aspect's is empty |
| `FormScenarios.FormExportOfOneCell` | src/app/page.tsx:83-96 | when only one cell reads as set, the export is the empty export with that one score under its aspect |
| `FormScenarios.SaveUntouchedForm` | src/app/page.tsx:79-99 | saving before any edit gives `{ aspek_penilaian_1: {}, ..., aspek_penilaian_4: {} }` |
| `FormScenarios.SaveAfterSevenForFirstCell` | src/app/page.tsx:79-99 | after selecting 7 for student 1 and aspect 1, the export is `{ aspek_penilaian_1: { mahasiswa_1: 7 } }` plus three empty aspects |
| `FormScenarios.SaveAfterZeroDropsIt` | src/app/page.tsx:73 | as written, after selecting 0 for student 3 and aspect 2, the export equals that of the untouched form |
| `FormScenarios.ExplicitSaveAfterZeroKeepsIt` | src/app/page.tsx:88-93 | with the intended reader the same edit exports `{ mahasiswa_3: 0 }` under `aspek_penilaian_2` |
| `FormScenarios.FormSavedCell` | src/app/page.tsx:83-96 | as written, for every store and every cell of the form: the student appears under the aspect exactly when the store holds a nonzero number for the cell, and with that number |
| `FormScenarios.FormExplicitSavedCell` | src/app/page.tsx:83-96 | with the intended reader, for every store and every cell of the form: the student appears under the aspect exactly when the store holds a number for the cell, 0 included |
| `FormScenarios.SaveAfterClearing` | src/app/page.tsx:64 | selecting 9 and then the empty value for student 5 and aspect 4 exports nothing for that cell: the export equals that of the untouched form |

## Findings

| source | as written | input that shows it | evidently intended | confidence | as-written member | corrected member |
|---|---|---|---|---|---|---|
| src/app/page.tsx:73 | `grades[key] \|\| ""` treats a stored 0 as falsy, so a cell set to 0 reads as unset and `handleSave` leaves it out | `updateGrade(3, 2, "0")`, then `handleSave`: the export has no `mahasiswa_3` under `aspek_penilaian_2` | 0 is one of the selector's choices (lines 132-137), so a cell set to 0 should export as `mahasiswa_3: 0`; only a missing cell, `""` or `NaN` should read as unset | medium, not executed | `FormScenarios.SaveAfterZeroDropsIt` | `FormScenarios.ExplicitSaveAfterZeroKeepsIt` |

`HandleSave` keeps the reader as written, as the page does. The intended
reader is `GradeStore.GetGradeExplicit`; the export lemmas of `Exporter` take
the reader as a parameter, so `Exporter.ExplicitSavedCell` and the scenario
above hold for it with the same proofs.

## Left out

- Rendering: the table, the selectors, their styling and the "Simpan" button wiring (lines 101-167) are markup; only the choices the selector offers are modelled.
- `HandleSave`: the page assigns into `formattedData` in place (lines 85 and 93); the model rebuilds an immutable map value instead. Nothing is lost to aliasing, because each inner object is reached only through its key and is not shared.
- React machinery: `useState`, `useMemo`, `useCallback` and the scheduling of the `setGrades` updater; the state is an explicit `map` passed in and returned, and `setJsonOutput` (line 98) is the return value of `HandleSave`.
- `JSON.stringify` (line 161): display only. The model's maps are unordered, so the order in which JavaScript lists an object's keys (integer-like keys first, then insertion order) is not modelled.
- A slug equal to `__proto__` would set the prototype of the JavaScript object instead of adding a key; the model treats every slug as an ordinary key.
- `parseInt`: only ASCII white space is skipped (JavaScript also skips other Unicode spaces), and numerals are read as exact integers, without the rounding of large values to double precision or the value `-0` (which is falsy like 0, as in the model).
- `${id}`: ids are non-negative integers; JavaScript's exponent form for numbers from 1e21 up, and fractional or negative ids, are not modelled.
- `toLowerCase`: ASCII letters only; other Unicode case mappings (some of which change the length of a string) are not modelled.
- The store accepts whatever integer `parseInt` returns, as the page does; the range 0 to 10 comes only from the selector.
