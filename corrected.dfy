/** The copy-name resolver with the defects of the original removed: the stem and the copy
    number are read by one rule that accepts numbers of any width, and the number chosen is
    the least free slot, which always exists. The as-written behaviour these replace is stated
    beside each correction. */
module Corrected {
  import opened Wrappers
  import opened Extname
  import opened Decimal
  import opened NextNumber
  import opened Copies
  import opened RubyRegex

  // ---------------------------------------------------------------- one rule for stem and number

  /** A name's base split into the stem and the copy number its ` copy` marker carries. */
  datatype Marker = Marker(start: nat, number: nat)

  /** ` copy` at the end numbers 1, ` copy N` (N any run of digits) numbers N, and a base with
      neither is the original, number 0, with no marker. */
  function ParseMarker(b: string): (m: Marker)
    ensures m.start <= |b|
    ensures m.start < |b| ==> m.start + 5 <= |b| && b[m.start..m.start + 5] == " copy"
    ensures m.start == |b| ==> m.number == 0
  {
    var j := TrailingDigitsStart(b);
    if j < |b| && j >= 6 && b[j - 6..j] == " copy " then
      MarkerBeforeDigits(b, j);
      Marker(j - 6, Value(b[j..]))
    else if |b| >= 5 && b[|b| - 5..] == " copy" then Marker(|b| - 5, 1)
    else Marker(|b|, 0)
  }

  lemma MarkerBeforeDigits(b: string, j: int)
    requires 6 <= j <= |b| && b[j - 6..j] == " copy "
    ensures b[j - 6..j - 1] == " copy"
  {
    assert b[j - 6..j - 1] == b[j - 6..j][..5];
  }

  /** What is before the copy marker, the extension excluded. */
  function FamilyStem(s: string): (stem: string)
    requires HasExt(s)
    ensures stem <= Base(s) && StemShape(stem)
  {
    Base(s)[..ParseMarker(Base(s)).start]
  }

  /** The copy number the marker carries; only a name with a ` copy` marker after its stem
      carries a number other than 0. */
  function FamilyNumber(s: string): (n: nat)
    requires HasExt(s)
    ensures n != 0 ==> |FamilyStem(s)| + 5 <= |Base(s)|
  {
    ParseMarker(Base(s)).number
  }

  lemma ParseBare(stem: string)
    ensures ParseMarker(stem + " copy") == Marker(|stem|, 1)
  {
    var b := stem + " copy";
    assert b[|b| - 1] == 'y';
    assert b[|b| - 5..] == " copy";
  }

  lemma ParseNumbered(stem: string, n: nat)
    ensures ParseMarker(stem + " copy " + Render(n)) == Marker(|stem|, n)
  {
    var digits := Render(n);
    var b := stem + " copy " + digits;
    var j := |stem| + 6;
    assert b[j..] == digits;
    assert b[j - 6..j] == " copy ";
    DigitsStartUnique(b, j);
    ValueOfRender(n);
  }

  /** The name made for a number of at least 1 reads back, under this rule, as that stem and
      that number, whatever the number's width. */
  lemma CopyNameReadsBackFixed(stem: string, n: nat, ext: string)
    requires StemShape(stem) && IsExt(ext) && n >= 1
    ensures var name := CopyName(stem, Some(n), ext);
      HasExt(name) && Ext(name) == ext && FamilyStem(name) == stem && FamilyNumber(name) == n
  {
    var name := CopyName(stem, Some(n), ext);
    if n == 1 {
      var b := stem + " copy";
      assert b[0] != '.' && '\n' !in b by {
        assert forall k :: 0 <= k < |stem| ==> b[k] == stem[k];
      }
      SplitName(b, ext);
      assert name == b + ext;
      ParseBare(stem);
    } else {
      assert name == stem + " copy " + Render(n) + ext;
      NumberedCopySplit(stem, n, ext);
      ParseNumbered(stem, n);
    }
  }

  // ---------------------------------------------------------------- the next free slot

  lemma RangeCovers(lo: int, hi: int, xs: seq<int>)
    requires forall x <- Range(lo, hi) :: x in xs
    ensures forall w :: lo <= w <= hi ==> w in xs
  {
    var r := Range(lo, hi);
    forall w | lo <= w <= hi ensures w in xs {
      assert r[w - lo] == w;
    }
  }

  /** "Find the missing integer in a series; if none is missing, take the max + 1", with
      repeated values allowed: the least value above the minimum that is not in the series. */
  function NextFreeSlot(xs: seq<int>): (r: int)
    requires |xs| > 0
    ensures r !in xs && Min(xs) < r <= Max(xs) + 1
    ensures forall w :: Min(xs) <= w < r ==> w in xs
  {
    var v := FirstAbsent(Range(Min(xs), Max(xs)), xs);
    FirstAbsentOfRange(Min(xs), Max(xs), xs);
    if v.Some? then v.value
    else
      RangeCovers(Min(xs), Max(xs), xs);
      Max(xs) + 1
  }

  /** Wherever next_integer gives a number it is this slot; where it gives nil (repeats and
      no gap) the slot is max + 1. */
  lemma NextFreeSlotExtends(xs: seq<int>)
    requires |xs| > 0
    ensures NextInteger(xs).Some? ==> NextInteger(xs).value == NextFreeSlot(xs)
    ensures NextInteger(xs).None? ==> NextFreeSlot(xs) == Max(xs) + 1
  {
    var range := Range(Min(xs), Max(xs));
    if multiset(range) == multiset(xs) {
      forall x | x in range ensures x in xs {
        assert x in multiset(range);
      }
      assert FirstAbsent(range, xs).None?;
    }
  }

  // ---------------------------------------------------------------- the corrected resolver

  function FixedFamily(files: seq<string>, stem: string): (fam: seq<string>)
    requires AllHaveExt(files)
    ensures forall f <- fam :: f in files && FamilyStem(f) == stem
    ensures forall f <- files :: FamilyStem(f) == stem ==> f in fam
  {
    if files == [] then []
    else (if FamilyStem(files[0]) == stem then [files[0]] else []) + FixedFamily(files[1..], stem)
  }

  function FixedNumbers(files: seq<string>): (ns: seq<int>)
    requires AllHaveExt(files)
    ensures |ns| == |files| && forall k :: 0 <= k < |files| ==> ns[k] == FamilyNumber(files[k])
  {
    if files == [] then [] else [FamilyNumber(files[0]) as int] + FixedNumbers(files[1..])
  }

  /** The number the corrected resolver gives the copy: at least 1. */
  function FixedNumber(files: seq<string>, source: string): (n: nat)
    requires HasExt(source) && AllHaveExt(files)
    requires FixedFamily(files, FamilyStem(source)) != []
    ensures n >= 1
  {
    var ns := FixedNumbers(FixedFamily(files, FamilyStem(source)));
    assert forall x <- ns :: x >= 0;
    NextFreeSlot(ns)
  }

  function NextCopyNameFixed(files: seq<string>, source: string): (name: string)
    requires HasExt(source) && AllHaveExt(files)
    requires FixedFamily(files, FamilyStem(source)) != []
    ensures FamilyStem(source) <= name
    ensures |Ext(source)| < |name| && name[|name| - |Ext(source)|..] == Ext(source)
  {
    CopyNameShape(FamilyStem(source), Some(FixedNumber(files, source)), Ext(source));
    CopyName(FamilyStem(source), Some(FixedNumber(files, source)), Ext(source))
  }

  /** The corrected name is a well-formed name of the source's family, with the source's
      extension, numbered with a number no member of the family has, so it is not among the
      existing files, whatever the numbers in use. */
  lemma NextCopyNameFixedIsFresh(files: seq<string>, source: string)
    requires HasExt(source) && AllHaveExt(files)
    requires FixedFamily(files, FamilyStem(source)) != []
    ensures var name := NextCopyNameFixed(files, source);
      HasExt(name) && Ext(name) == Ext(source) && FamilyStem(name) == FamilyStem(source) &&
      FamilyNumber(name) == FixedNumber(files, source) && name !in files
  {
    var stem := FamilyStem(source);
    var n := FixedNumber(files, source);
    var name := NextCopyNameFixed(files, source);
    assert name == CopyName(stem, Some(n), Ext(source));
    CopyNameReadsBackFixed(stem, n, Ext(source));
    assert n !in FixedNumbers(FixedFamily(files, stem));
    FreshByNumber(files, stem, name, n);
  }

  /** A name of the family whose number the family does not use is not among the files. */
  lemma FreshByNumber(files: seq<string>, stem: string, name: string, n: nat)
    requires AllHaveExt(files) && HasExt(name) && FamilyStem(name) == stem && FamilyNumber(name) == n
    requires n !in FixedNumbers(FixedFamily(files, stem))
    ensures name !in files
  {
    var fam := FixedFamily(files, stem);
    var ns := FixedNumbers(fam);
    forall f <- files | FamilyStem(f) == stem ensures FamilyNumber(f) in ns {
      var k :| 0 <= k < |fam| && fam[k] == f;
      assert ns[k] == FamilyNumber(f);
    }
  }

  // ---------------------------------------------------------------- the as-written defects

  /** As written, a family whose copy numbers repeat with no gap gets nil from next_integer,
      and the name interpolated from it is `stem copy .ext`. */
  lemma NextCopyNameOfRepeats(files: seq<string>, source: string)
    requires HasExt(source) && AllHaveExt(files)
    requires Family(files, Stem(source)) != []
    requires var ns := CopyNumbers(Family(files, Stem(source))); GapFree(ns) && !Distinct(ns)
    ensures NextCopyName(files, source) == Stem(source) + " copy " + Ext(source)
  {
    NextIntegerOfRepeats(CopyNumbers(Family(files, Stem(source))));
    assert ChosenNumber(files, source) == None;
    NameOfNil(files, source);
  }

  /** Two files of one family, `a copy 9.txt` and `a copy 10.txt`: the single-digit groups
      of filename_stem put the second in a family of its own (stem `a copy 10`). */
  predicate IsNineTen(files: seq<string>) {
    |files| == 2 && files[0] == "a copy 9.txt" && files[1] == "a copy 10.txt"
  }

  /** Both names are valid, so on them Copies.Stem is the source's own filename_stem. */
  lemma NineTenSourceStems(files: seq<string>)
    requires IsNineTen(files)
    ensures HasExt(files[0]) && RubyFilenameStem(files[0]) == Stem(files[0])
    ensures HasExt(files[1]) && RubyFilenameStem(files[1]) == Stem(files[1])
  {
    var b0, b1 := "a copy 9", "a copy 10";
    assert files[0] == b0 + ".txt";
    assert files[1] == b1 + ".txt";
    TxtSourceStem(files[0], b0);
    TxtSourceStem(files[1], b1);
  }

  lemma NineTenNames(files: seq<string>)
    requires IsNineTen(files)
    ensures files[0] == "a" + " copy " + Render(9) + ".txt"
    ensures files[1] == "a" + " copy " + Render(10) + ".txt"
  {
    assert Render(9) == "9";
    assert Render(1) == "1";
    assert Render(10) == Render(1) + [DigitChar(0)];
  }

  lemma NineTenShapes()
    ensures StemShape("a") && IsExt(".txt")
  {
  }

  /** As written: copying `a copy 9.txt` beside `a copy 10.txt` names the copy
      `a copy 10.txt`, which is already there. */
  lemma NextCopyNameAtTen(files: seq<string>)
    requires IsNineTen(files)
    ensures AllHaveExt(files) && HasExt(files[0]) && Family(files, Stem(files[0])) != []
    ensures NextCopyName(files, files[0]) == files[1]
  {
    NineTenNames(files);
    NineTenShapes();
    CollisionAtTen(files, "a", ".txt");
  }

  lemma CollisionAtTen(files: seq<string>, stem: string, ext: string)
    requires StemShape(stem) && IsExt(ext) && |files| == 2
    requires files[0] == stem + " copy " + Render(9) + ext
    requires files[1] == stem + " copy " + Render(10) + ext
    ensures AllHaveExt(files) && HasExt(files[0]) && Family(files, Stem(files[0])) != []
    ensures NextCopyName(files, files[0]) == files[1]
  {
    NineTenReadBack(files, stem, ext);
    FamilyOfFirst(files, stem);
    TenChosen(files, stem);
    NameOfTen(files, stem, ext);
  }

  lemma NameOfTen(files: seq<string>, stem: string, ext: string)
    requires |files| == 2 && AllHaveExt(files) && Ext(files[0]) == ext && Stem(files[0]) == stem
    requires Family(files, stem) != [] && ChosenNumber(files, files[0]) == Some(10)
    requires files[1] == stem + " copy " + Render(10) + ext
    ensures NextCopyName(files, files[0]) == files[1]
  {
    assert NextCopyName(files, files[0]) == CopyName(stem, Some(10), ext);
  }

  lemma NineTenReadBack(files: seq<string>, stem: string, ext: string)
    requires StemShape(stem) && IsExt(ext) && |files| == 2
    requires files[0] == stem + " copy " + Render(9) + ext
    requires files[1] == stem + " copy " + Render(10) + ext
    ensures AllHaveExt(files) && Ext(files[0]) == ext
    ensures Stem(files[0]) == stem && CopyNumber(files[0]) == 9 && Stem(files[1]) != stem
  {
    NumberedBelowTen(files[0], stem, 9, ext);
    NumberedFromTen(files[1], stem, 10, ext);
    AllHaveExtOfTwo(files);
  }

  lemma AllHaveExtOfTwo(files: seq<string>)
    requires |files| == 2 && HasExt(files[0]) && HasExt(files[1])
    ensures AllHaveExt(files)
  {
    forall f <- files ensures HasExt(f) {
      assert f == files[0] || f == files[1];
    }
  }

  lemma AllHaveExtOfThree(files: seq<string>)
    requires |files| == 3 && HasExt(files[0]) && HasExt(files[1]) && HasExt(files[2])
    ensures AllHaveExt(files)
  {
    forall f <- files ensures HasExt(f) {
      assert f == files[0] || f == files[1] || f == files[2];
    }
  }

  lemma NumberedBelowTen(name: string, stem: string, n: nat, ext: string)
    requires StemShape(stem) && IsExt(ext) && n < 10
    requires name == stem + " copy " + Render(n) + ext
    ensures HasExt(name) && Ext(name) == ext && Stem(name) == stem && CopyNumber(name) == n
  {
    NumberedCopyStem(stem, n, ext);
    NumberedCopyNumber(stem, n, ext);
    NumberedCopySplit(stem, n, ext);
  }

  lemma NumberedFromTen(name: string, stem: string, n: nat, ext: string)
    requires StemShape(stem) && IsExt(ext) && n >= 10
    requires name == stem + " copy " + Render(n) + ext
    ensures HasExt(name) && Stem(name) != stem
  {
    NumberedCopyStem(stem, n, ext);
    NumberedCopySplit(stem, n, ext);
    assert |Stem(name)| > |stem|;
  }

  lemma TenChosen(files: seq<string>, stem: string)
    requires |files| == 2 && AllHaveExt(files) && Family(files, stem) == [files[0]]
    requires Stem(files[0]) == stem && CopyNumber(files[0]) == 9
    ensures ChosenNumber(files, files[0]) == Some(10)
  {
    assert CopyNumbers([files[0]]) == [9];
    NextIntegerOfSingle(9);
  }

  lemma FamilyOfFirst(files: seq<string>, stem: string)
    requires |files| == 2 && AllHaveExt(files)
    requires Stem(files[0]) == stem && Stem(files[1]) != stem
    ensures Family(files, stem) == [files[0]]
  {
    var rest := files[1..];
    assert rest[0] == files[1] && rest[1..] == [];
    assert Family(rest, stem) == [] + Family(rest[1..], stem);
    assert Family(files, stem) == [files[0]] + Family(rest, stem);
  }

  lemma NextIntegerOfSingle(v: int)
    ensures NextInteger([v]) == Some(v + 1)
  {
    assert Range(v, v) == [v];
  }

  /** Corrected: the same two files make one family numbered 9 and 10, and the copy is
      numbered 11. */
  lemma NextCopyNameFixedAtTen(files: seq<string>)
    requires IsNineTen(files)
    ensures AllHaveExt(files) && HasExt(files[0]) && FixedFamily(files, FamilyStem(files[0])) != []
    ensures NextCopyNameFixed(files, files[0]) == "a copy 11.txt"
    ensures NextCopyNameFixed(files, files[0]) !in files
  {
    NineTenNames(files);
    NineTenShapes();
    FreshAtTen(files, "a", ".txt");
    ElevenName();
  }

  lemma ElevenName()
    ensures "a" + " copy " + Render(11) + ".txt" == "a copy 11.txt"
  {
    assert Render(1) == "1";
    assert Render(11) == Render(1) + [DigitChar(1)];
  }

  lemma FreshAtTen(files: seq<string>, stem: string, ext: string)
    requires StemShape(stem) && IsExt(ext) && |files| == 2
    requires files[0] == stem + " copy " + Render(9) + ext
    requires files[1] == stem + " copy " + Render(10) + ext
    ensures AllHaveExt(files) && HasExt(files[0]) && FixedFamily(files, FamilyStem(files[0])) != []
    ensures NextCopyNameFixed(files, files[0]) == stem + " copy " + Render(11) + ext
  {
    NineTenFixedReadBack(files, stem, ext);
    ElevenChosen(files);
  }

  lemma NineTenFixedReadBack(files: seq<string>, stem: string, ext: string)
    requires StemShape(stem) && IsExt(ext) && |files| == 2
    requires files[0] == stem + " copy " + Render(9) + ext
    requires files[1] == stem + " copy " + Render(10) + ext
    ensures AllHaveExt(files) && Ext(files[0]) == ext && FamilyStem(files[0]) == stem
    ensures FixedFamily(files, stem) == files
    ensures FamilyNumber(files[0]) == 9 && FamilyNumber(files[1]) == 10
  {
    assert HasExt(files[0]) && Ext(files[0]) == ext && FamilyStem(files[0]) == stem && FamilyNumber(files[0]) == 9 by {
      FixedReadBack(files[0], stem, 9, ext);
    }
    assert HasExt(files[1]) && FamilyStem(files[1]) == stem && FamilyNumber(files[1]) == 10 by {
      FixedReadBack(files[1], stem, 10, ext);
    }
    AllHaveExtOfTwo(files);
    FixedFamilyOfBoth(files, stem);
  }

  lemma FixedReadBack(name: string, stem: string, n: nat, ext: string)
    requires StemShape(stem) && IsExt(ext) && n >= 1
    requires name == stem + " copy " + Render(n) + ext
    ensures HasExt(name) && Ext(name) == ext && FamilyStem(name) == stem && FamilyNumber(name) == n
  {
    NumberedCopySplit(stem, n, ext);
    ParseNumbered(stem, n);
  }

  lemma ElevenChosen(files: seq<string>)
    requires |files| == 2 && AllHaveExt(files) && HasExt(files[0])
    requires FixedFamily(files, FamilyStem(files[0])) == files
    requires FamilyNumber(files[0]) == 9 && FamilyNumber(files[1]) == 10
    ensures FixedNumber(files, files[0]) == 11
  {
    var ns := FixedNumbers(files);
    assert ns[0] == 9 && ns[1] == 10;
    assert ns == [9, 10];
    assert FixedNumber(files, files[0]) == NextFreeSlot(ns);
    NextFreeSlotOfPair(9);
  }

  lemma FixedFamilyOfBoth(files: seq<string>, stem: string)
    requires |files| == 2 && AllHaveExt(files)
    requires FamilyStem(files[0]) == stem && FamilyStem(files[1]) == stem
    ensures FixedFamily(files, stem) == files
  {
    var rest := files[1..];
    assert rest[0] == files[1] && rest[1..] == [];
    assert FixedFamily(rest, stem) == [rest[0]] + FixedFamily(rest[1..], stem);
    assert FixedFamily(files, stem) == [files[0]] + FixedFamily(rest, stem);
    assert files == [files[0]] + rest;
  }

  lemma NextFreeSlotOfPair(v: int)
    ensures NextFreeSlot([v, v + 1]) == v + 2
  {
    var xs := [v, v + 1];
    assert Min(xs) == v && Max(xs) == v + 1;
  }

  // ---------------------------------------------------------------- repeated numbers

  /** A base the resolver leaves whole: no copy marker, and no digit at its end. */
  predicate PlainBase(b: string) {
    |b| > 0 && b[0] != '.' && '\n' !in b &&
    !EndsInBareCopy(b) && !(|b| >= 5 && b[|b| - 5..] == " copy") && !IsAsciiDigit(b[|b| - 1])
  }

  lemma ParsePlain(b: string)
    requires |b| > 0 && !IsAsciiDigit(b[|b| - 1]) && !(|b| >= 5 && b[|b| - 5..] == " copy")
    ensures ParseMarker(b) == Marker(|b|, 0)
  {
  }

  lemma PlainFixedReadBack(b: string, ext: string)
    requires PlainBase(b) && IsExt(ext)
    ensures HasExt(b + ext) && FamilyStem(b + ext) == b && FamilyNumber(b + ext) == 0
  {
    PlainNameReadsBack(b, ext);
    ParsePlain(b);
  }

  /** `stem copy .ext` is, under the corrected rule too, an original of another family. */
  lemma NilFixedReadBack(stem: string, ext: string)
    requires StemShape(stem) && IsExt(ext)
    ensures var name := stem + " copy " + ext;
      HasExt(name) && FamilyStem(name) == stem + " copy " && FamilyNumber(name) == 0
  {
    var b := stem + " copy ";
    assert b[0] != '.' && '\n' !in b by {
      assert forall k :: 0 <= k < |stem| ==> b[k] == stem[k];
    }
    SplitName(b, ext);
    assert b + ext == stem + " copy " + ext;
    assert b[|b| - 1] == ' ';
    ParsePlain(b);
  }

  /** An original under two extensions and the nil-numbered name `stem copy .e1`. */
  predicate IsDuplicateFamily(files: seq<string>, stem: string, e1: string, e2: string) {
    PlainBase(stem) && IsExt(e1) && IsExt(e2) && |files| == 3 &&
    files[0] == stem + e1 && files[1] == stem + e2 && files[2] == stem + " copy " + e1
  }

  lemma DuplicateReadBack(files: seq<string>, stem: string, e1: string, e2: string)
    requires IsDuplicateFamily(files, stem, e1, e2)
    ensures AllHaveExt(files) && Ext(files[0]) == e1
    ensures Stem(files[0]) == stem && Stem(files[1]) == stem && Stem(files[2]) != stem
    ensures CopyNumber(files[0]) == 0 && CopyNumber(files[1]) == 0
    ensures FamilyStem(files[0]) == stem && FamilyStem(files[1]) == stem && FamilyStem(files[2]) != stem
    ensures FamilyNumber(files[0]) == 0 && FamilyNumber(files[1]) == 0
  {
    assert HasExt(files[0]) && Ext(files[0]) == e1 && Stem(files[0]) == stem && CopyNumber(files[0]) == 0 by {
      PlainNameReadsBack(stem, e1);
    }
    assert HasExt(files[1]) && Stem(files[1]) == stem && CopyNumber(files[1]) == 0 by {
      PlainNameReadsBack(stem, e2);
    }
    assert FamilyStem(files[0]) == stem && FamilyNumber(files[0]) == 0 by { PlainFixedReadBack(stem, e1); }
    assert FamilyStem(files[1]) == stem && FamilyNumber(files[1]) == 0 by { PlainFixedReadBack(stem, e2); }
    assert HasExt(files[2]) && Stem(files[2]) != stem by {
      NilCopyName(stem, e1);
      assert |stem + " copy "| != |stem|;
    }
    assert FamilyStem(files[2]) != stem by {
      NilFixedReadBack(stem, e1);
      assert |stem + " copy "| != |stem|;
    }
    AllHaveExtOfThree(files);
  }

  lemma FamilyOfFirstTwo(files: seq<string>, stem: string)
    requires |files| == 3 && AllHaveExt(files)
    requires Stem(files[0]) == stem && Stem(files[1]) == stem && Stem(files[2]) != stem
    ensures Family(files, stem) == files[..2]
  {
    var rest := files[1..];
    assert rest[0] == files[1] && rest[1] == files[2];
    FamilyOfFirst(rest, stem);
    assert Family(files, stem) == [files[0]] + Family(rest, stem);
  }

  lemma FixedFamilyOfFirstTwo(files: seq<string>, stem: string)
    requires |files| == 3 && AllHaveExt(files)
    requires FamilyStem(files[0]) == stem && FamilyStem(files[1]) == stem && FamilyStem(files[2]) != stem
    ensures FixedFamily(files, stem) == files[..2]
  {
    var rest := files[1..];
    var last := rest[1..];
    assert rest[0] == files[1] && last[0] == files[2] && last[1..] == [];
    assert FixedFamily(last, stem) == [] by { FixedFamilyCons(last, stem); }
    assert FixedFamily(rest, stem) == [files[1]] by { FixedFamilyCons(rest, stem); }
    assert FixedFamily(files, stem) == [files[0]] + [files[1]] by { FixedFamilyCons(files, stem); }
    assert files[..2] == [files[0], files[1]];
  }

  /** One step of the corrected selection. */
  lemma FixedFamilyCons(files: seq<string>, stem: string)
    requires AllHaveExt(files) && files != []
    ensures AllHaveExt(files[1..])
    ensures FixedFamily(files, stem) ==
      (if FamilyStem(files[0]) == stem then [files[0]] else []) + FixedFamily(files[1..], stem)
  {
  }

  lemma NextIntegerOfPairRepeat(v: int)
    ensures NextInteger([v, v]) == None
  {
    var xs := [v, v];
    assert Min(xs) == v && Max(xs) == v;
    assert Range(v, v) == [v];
    assert multiset([v]) != multiset(xs);
  }

  lemma NextFreeSlotOfPairRepeat(v: int)
    ensures NextFreeSlot([v, v]) == v + 1
  {
    var xs := [v, v];
    assert Min(xs) == v && Max(xs) == v;
  }

  /** As written: the two originals number 0 and 0, next_integer gives nil, and the copy is
      named `stem copy .e1`, which is already there. */
  lemma DuplicatesCollide(files: seq<string>, stem: string, e1: string, e2: string)
    requires IsDuplicateFamily(files, stem, e1, e2)
    ensures AllHaveExt(files) && HasExt(files[0]) && Family(files, Stem(files[0])) != []
    ensures NextCopyName(files, files[0]) == files[2]
  {
    DuplicateReadBack(files, stem, e1, e2);
    FamilyOfFirstTwo(files, stem);
    NilChosen(files, stem);
    NameOfNil(files, files[0]);
  }

  lemma NameOfNil(files: seq<string>, source: string)
    requires HasExt(source) && AllHaveExt(files) && Family(files, Stem(source)) != []
    requires ChosenNumber(files, source) == None
    ensures NextCopyName(files, source) == Stem(source) + " copy " + Ext(source)
  {
    assert NextCopyName(files, source) == CopyName(Stem(source), None, Ext(source));
  }

  lemma NilChosen(files: seq<string>, stem: string)
    requires |files| == 3 && AllHaveExt(files) && Stem(files[0]) == stem
    requires Family(files, stem) == files[..2]
    requires CopyNumber(files[0]) == 0 && CopyNumber(files[1]) == 0
    ensures ChosenNumber(files, files[0]) == None
  {
    assert CopyNumbers(files[..2]) == [0, 0];
    NextIntegerOfPairRepeat(0);
  }

  /** Corrected: the same family takes the free slot 1, and the copy is `stem copy.e1`. */
  lemma DuplicatesFixed(files: seq<string>, stem: string, e1: string, e2: string)
    requires IsDuplicateFamily(files, stem, e1, e2)
    ensures AllHaveExt(files) && HasExt(files[0]) && FixedFamily(files, FamilyStem(files[0])) != []
    ensures NextCopyNameFixed(files, files[0]) == stem + " copy" + e1
    ensures NextCopyNameFixed(files, files[0]) !in files
  {
    DuplicateSlot(files, stem, e1, e2);
    FirstFreeSlotName(files, files[0], stem, e1);
  }

  /** With the fixed selection, the duplicates' family uses slot 0 only, so the first free slot is 1. */
  lemma DuplicateSlot(files: seq<string>, stem: string, e1: string, e2: string)
    requires IsDuplicateFamily(files, stem, e1, e2)
    ensures AllHaveExt(files) && HasExt(files[0]) && Ext(files[0]) == e1 && FamilyStem(files[0]) == stem
    ensures FixedFamily(files, stem) != [] && FixedNumber(files, files[0]) == 1
  {
    DuplicateReadBack(files, stem, e1, e2);
    FixedFamilyOfFirstTwo(files, stem);
    SlotAfterTwoZeros(files, files[0], stem);
  }

  /** A family of exactly two members that both use slot 0 takes slot 1 next. */
  lemma SlotAfterTwoZeros(files: seq<string>, source: string, stem: string)
    requires AllHaveExt(files) && HasExt(source) && FamilyStem(source) == stem && |files| >= 2
    requires FixedFamily(files, stem) == files[..2] && FamilyNumber(files[0]) == 0 && FamilyNumber(files[1]) == 0
    ensures FixedFamily(files, stem) != [] && FixedNumber(files, source) == 1
  {
    assert FixedNumbers(files[..2]) == [0, 0];
    NextFreeSlotOfPairRepeat(0);
  }

  /** A source whose family takes slot 1 gets `stem copy.ext`, which is not among the files. */
  lemma FirstFreeSlotName(files: seq<string>, source: string, stem: string, ext: string)
    requires AllHaveExt(files) && HasExt(source) && Ext(source) == ext && FamilyStem(source) == stem
    requires FixedFamily(files, stem) != [] && FixedNumber(files, source) == 1
    ensures NextCopyNameFixed(files, source) == stem + " copy" + ext
    ensures NextCopyNameFixed(files, source) !in files
  {
    assert NextCopyNameFixed(files, source) == CopyName(stem, Some(1), ext);
    NextCopyNameFixedIsFresh(files, source);
  }

  lemma DuplicateSample(files: seq<string>)
    requires IsDuplicateSample(files)
    ensures IsDuplicateFamily(files, "s", ".txt", ".md")
  {
    assert "s" + ".txt" == "s.txt" && "s" + ".md" == "s.md";
    assert "s" + " copy " + ".txt" == "s copy .txt";
  }

  // ---------------------------------------------------------------- `copy` glued to the stem

  /** A base ending in `copy` with no blank before it, such as `scopy`: filename_stem keeps
      it whole, but copy_number reads it as a bare copy. */
  predicate GluedBase(b: string) {
    |b| > 0 && b[0] != '.' && '\n' !in b && EndsInBareCopy(b) && !(|b| >= 5 && b[|b| - 5..] == " copy")
  }

  lemma GluedReadBack(b: string, ext: string)
    requires GluedBase(b) && IsExt(ext)
    ensures HasExt(b + ext) && Ext(b + ext) == ext && Stem(b + ext) == b && CopyNumber(b + ext) == 1
    ensures FamilyStem(b + ext) == b && FamilyNumber(b + ext) == 0
  {
    assert HasExt(b + ext) && Ext(b + ext) == ext && Base(b + ext) == b by { SplitName(b, ext); }
    assert b[|b| - 1] == 'y' by { assert b[|b| - 4..][3] == b[|b| - 1]; }
    assert Stem(b + ext) == b by { StemWithoutMarker(b + ext); }
    assert CopyNumber(b + ext) == 1 by { CopyNumberCases(b + ext); }
    ParsePlain(b);
  }

  lemma FamilyOfOnly(files: seq<string>, stem: string)
    requires |files| == 1 && AllHaveExt(files) && Stem(files[0]) == stem
    ensures Family(files, stem) == files
  {
    assert files[1..] == [];
  }

  lemma FixedFamilyOfOnly(files: seq<string>, stem: string)
    requires |files| == 1 && AllHaveExt(files) && FamilyStem(files[0]) == stem
    ensures FixedFamily(files, stem) == files
  {
    assert files[1..] == [];
  }

  lemma NextFreeSlotOfSingle(v: int)
    ensures NextFreeSlot([v]) == v + 1
  {
  }

  /** As written: the only file, `scopy.ext`, counts as copy 1 of itself, and its copy is
      numbered 2. */
  lemma GluedCopyNumbered(b: string, ext: string)
    requires GluedBase(b) && IsExt(ext)
    ensures AllHaveExt([b + ext]) && HasExt(b + ext) && Family([b + ext], Stem(b + ext)) != []
    ensures NextCopyName([b + ext], b + ext) == b + " copy " + Render(2) + ext
  {
    var files := [b + ext];
    var name := b + ext;
    assert HasExt(name) && Ext(name) == ext && Stem(name) == b && CopyNumber(name) == 1 by {
      GluedReadBack(b, ext);
    }
    assert AllHaveExt(files) && Family(files, b) == files by { FamilyOfOnly(files, b); }
    assert ChosenNumber(files, name) == Some(2) by {
      assert CopyNumbers(files) == [1];
      NextIntegerOfSingle(1);
    }
    assert NextCopyName(files, name) == CopyName(b, Some(2), ext);
  }

  /** Corrected: the original is number 0 and its first copy is `scopy copy.ext`. */
  lemma GluedCopyFixed(b: string, ext: string)
    requires GluedBase(b) && IsExt(ext)
    ensures AllHaveExt([b + ext]) && HasExt(b + ext) && FixedFamily([b + ext], FamilyStem(b + ext)) != []
    ensures NextCopyNameFixed([b + ext], b + ext) == b + " copy" + ext
  {
    var files, name := [b + ext], b + ext;
    assert HasExt(name) && Ext(name) == ext && FamilyStem(name) == b && FamilyNumber(name) == 0 by {
      GluedReadBack(b, ext);
    }
    assert AllHaveExt(files) && FixedFamily(files, b) == files by { FixedFamilyOfOnly(files, b); }
    assert FixedNumber(files, name) == 1 by {
      assert FixedNumbers(files) == [0];
      NextFreeSlotOfSingle(0);
    }
    assert NextCopyNameFixed(files, name) == CopyName(b, Some(1), ext);
  }

  lemma GluedSample()
    ensures GluedBase("scopy") && IsExt(".txt")
  {
  }

  /** `scopy.txt` is valid, so on it Copies.Stem is the source's own filename_stem. */
  lemma GluedSourceStem(s: string)
    requires s == "scopy.txt"
    ensures HasExt(s) && RubyFilenameStem(s) == Stem(s)
  {
    var b := "scopy";
    assert s == b + ".txt";
    TxtSourceStem(s, b);
  }

  /** `scopy.txt` alone is copied as `scopy copy 2.txt` as written. */
  lemma GluedSampleAsWritten(b: string, ext: string)
    requires b == "scopy" && ext == ".txt"
    ensures AllHaveExt([b + ext]) && HasExt(b + ext) && Family([b + ext], Stem(b + ext)) != []
    ensures NextCopyName([b + ext], b + ext) == "scopy copy 2.txt"
  {
    GluedSample();
    GluedCopyNumbered(b, ext);
    GluedSecondName();
  }

  /** Corrected, `scopy.txt` alone is copied as `scopy copy.txt`. */
  lemma GluedSampleFixed(b: string, ext: string)
    requires b == "scopy" && ext == ".txt"
    ensures AllHaveExt([b + ext]) && HasExt(b + ext) && FixedFamily([b + ext], FamilyStem(b + ext)) != []
    ensures NextCopyNameFixed([b + ext], b + ext) == "scopy copy.txt"
  {
    GluedSample();
    GluedCopyFixed(b, ext);
    GluedFirstName();
  }

  lemma GluedSecondName()
    ensures "scopy" + " copy " + Render(2) + ".txt" == "scopy copy 2.txt"
  {
    assert Render(2) == "2";
  }

  lemma GluedFirstName()
    ensures "scopy" + " copy" + ".txt" == "scopy copy.txt"
  {
  }

  /** `s.txt`, `s.md` and `s copy .txt`, one file per index. */
  predicate IsDuplicateSample(files: seq<string>) {
    |files| == 3 && files[0] == "s.txt" && files[1] == "s.md" && files[2] == "s copy .txt"
  }

  /** All three names are valid, so on them Copies.Stem is the source's own filename_stem. */
  lemma DuplicateSourceStems(files: seq<string>)
    requires IsDuplicateSample(files)
    ensures HasExt(files[0]) && RubyFilenameStem(files[0]) == Stem(files[0])
    ensures HasExt(files[1]) && RubyFilenameStem(files[1]) == Stem(files[1])
    ensures HasExt(files[2]) && RubyFilenameStem(files[2]) == Stem(files[2])
  {
    var b, b2 := "s", "s copy ";
    assert files[0] == b + ".txt";
    assert files[2] == b2 + ".txt";
    TxtSourceStem(files[0], b);
    MdSourceStem(files[1]);
    TxtSourceStem(files[2], b2);
  }

  /** `s.md` is valid: its `m` occurs nowhere before it. */
  lemma MdSourceStem(s: string)
    requires s == "s.md"
    ensures HasExt(s) && RubyFilenameStem(s) == Stem(s)
  {
    var b, md := "s", ".md";
    assert s == b + md;
    assert IsExt(md) && md[1] == 'm' && 'm' !in md[..1];
    SourceStemByLetter(s, b, md, 1);
  }

  /** As written, copying `s.txt` gives `s copy .txt`, which is already there. */
  lemma DuplicateSampleAsWritten(files: seq<string>)
    requires IsDuplicateSample(files)
    ensures AllHaveExt(files) && HasExt(files[0]) && Family(files, Stem(files[0])) != []
    ensures NextCopyName(files, files[0]) == "s copy .txt" && "s copy .txt" in files
  {
    DuplicateSample(files);
    DuplicatesCollide(files, "s", ".txt", ".md");
  }

  /** Corrected, copying `s.txt` gives `s copy.txt`, a new name. */
  lemma DuplicateSampleFixed(files: seq<string>)
    requires IsDuplicateSample(files)
    ensures AllHaveExt(files) && HasExt(files[0]) && FixedFamily(files, FamilyStem(files[0])) != []
    ensures NextCopyNameFixed(files, files[0]) == "s copy.txt" && "s copy.txt" !in files
  {
    DuplicateSample(files);
    DuplicatesFixed(files, "s", ".txt", ".md");
    DuplicateFirstName();
  }

  lemma DuplicateFirstName()
    ensures "s" + " copy" + ".txt" == "s copy.txt"
  {
  }
}
