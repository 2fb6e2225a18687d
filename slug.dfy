/**
 The key a name gets in the exported snapshot: `name.toLowerCase()` followed
 by `.replace(/ /g, "_")`. Lower-casing is modelled on ASCII letters only.
 */
module Slugs {

  predicate IsUpperAscii(c: char) {
    'A' <= c <= 'Z'
  }

  /** `toLowerCase` on one character, ASCII letters only. */
  function ToLowerAscii(c: char): (l: char)
    ensures !IsUpperAscii(l)
    ensures IsUpperAscii(c) ==> l as int == c as int + 32
    ensures !IsUpperAscii(c) ==> l == c
  {
    if IsUpperAscii(c) then (c as int + 32) as char else c
  }

  /** What one character of the name becomes: lowered, and a space turned into `_`. */
  function SlugChar(c: char): char {
    var l := ToLowerAscii(c);
    if l == ' ' then '_' else l
  }

  /** The slug of a name: every character lowered, every space turned into `_`. */
  function Slug(name: string): string {
    seq(|name|, i requires 0 <= i < |name| => SlugChar(name[i]))
  }

  /**
   A slug is as long as the name, holds neither a space nor an upper-case
   ASCII letter, and keeps every character that is neither.
   */
  lemma SlugShape(name: string)
    ensures |Slug(name)| == |name|
    ensures ' ' !in Slug(name)
    ensures forall i :: 0 <= i < |name| ==> !IsUpperAscii(Slug(name)[i])
    ensures forall i :: 0 <= i < |name| && name[i] != ' ' && !IsUpperAscii(name[i]) ==> Slug(name)[i] == name[i]
  {
  }

  /** Slugging a slug changes nothing. */
  lemma SlugIdempotent(name: string)
    ensures Slug(Slug(name)) == Slug(name)
  {
  }

  /** Two names slug alike exactly when they agree character by character after slugging. */
  lemma SlugCollision(a: string, b: string)
    ensures Slug(a) == Slug(b) <==> |a| == |b| && forall i :: 0 <= i < |a| ==> SlugChar(a[i]) == SlugChar(b[i])
  {
    if Slug(a) == Slug(b) {
      assert |a| == |Slug(a)| == |Slug(b)| == |b|;
      forall i | 0 <= i < |a| ensures SlugChar(a[i]) == SlugChar(b[i]) {
        assert Slug(a)[i] == Slug(b)[i];
      }
    }
  }

  /** Names that differ only in case, or in a space versus an underscore, collide. */
  lemma SlugCollisionExample()
    ensures "Aspek Penilaian 1" != "aspek_penilaian_1"
    ensures Slug("Aspek Penilaian 1") == Slug("aspek_penilaian_1")
  {
    assert "Aspek Penilaian 1"[0] != "aspek_penilaian_1"[0];
    var r := Slug("Aspek Penilaian 1");
    assert forall i :: 0 <= i < |r| ==> r[i] == "aspek_penilaian_1"[i];
    var q := Slug("aspek_penilaian_1");
    assert forall i :: 0 <= i < |q| ==> q[i] == "aspek_penilaian_1"[i];
  }

  /** The names of the form become the keys the export uses for them. */
  lemma SlugExample()
    ensures Slug("Aspek Penilaian 1") == "aspek_penilaian_1"
    ensures Slug("Mahasiswa 10") == "mahasiswa_10"
  {
    var r := Slug("Aspek Penilaian 1");
    assert forall i :: 0 <= i < |r| ==> r[i] == "aspek_penilaian_1"[i];
    var q := Slug("Mahasiswa 10");
    assert forall i :: 0 <= i < |q| ==> q[i] == "mahasiswa_10"[i];
  }
}
