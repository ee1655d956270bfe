/** The sample calls at the bottom of the three Ruby files, read through the model. */
module Samples {
  import opened Wrappers
  import opened Extname
  import opened Decimal
  import opened NextNumber
  import opened Copies
  import opened RubyRegex

  lemma RenderSmall()
    ensures Render(1) == "1" && Render(2) == "2" && Render(3) == "3"
  { }

  /** `copy_number("i will copy you on the email.txt")`: `copy` is not right before the
      extension, so 0. */
  lemma SampleCopyNumberNone()
    ensures HasExt("i will copy you on the email.txt") && CopyNumber("i will copy you on the email.txt") == 0
  {
    var b := "i will copy you on the email";
    SplitName(b, ".txt");
    assert b + ".txt" == "i will copy you on the email.txt";
  }

  /** `copy_number("ron copy 2.txt")` is 2. */
  lemma SampleCopyNumberTwo()
    ensures HasExt("ron copy 2.txt") && CopyNumber("ron copy 2.txt") == 2
  {
    RonTwo();
    NumberedCopyNumber("ron", 2, ".txt");
  }

  lemma RonTwo()
    ensures "ron" + " copy " + Render(2) + ".txt" == "ron copy 2.txt"
  {
    assert Render(2) == "2";
    RonTwoLiteral();
  }

  lemma RonTwoLiteral()
    ensures "ron" + " copy " + "2" + ".txt" == "ron copy 2.txt"
  { }

  /** `copy_number("sarah copy.txt")` is 1. */
  lemma SampleCopyNumberBare()
    ensures HasExt("sarah copy.txt") && CopyNumber("sarah copy.txt") == 1
  {
    BareCopyName("sarah", ".txt");
    assert "sarah" + " copy" + ".txt" == "sarah copy.txt";
  }

  /** `copy_number("scopy.txt")` is 1 too: the pattern does not ask for a blank before `copy`. */
  lemma SampleCopyNumberGlued()
    ensures HasExt("scopy.txt") && CopyNumber("scopy.txt") == 1
  {
    var b := "scopy";
    SplitName(b, ".txt");
    assert b + ".txt" == "scopy.txt";
    assert EndsInBareCopy(b);
    CopyNumberCases(b + ".txt");
  }

  /** `filename_stem("ron copy.txt")` is "ron". */
  lemma SampleStemBare()
    ensures HasExt("ron copy.txt") && Stem("ron copy.txt") == "ron"
  {
    BareCopyName("ron", ".txt");
    assert "ron" + " copy" + ".txt" == "ron copy.txt";
  }

  /** `filename_stem("ron copy 3.txt")` is "ron". */
  lemma SampleStemNumbered()
    ensures HasExt("ron copy 3.txt") && Stem("ron copy 3.txt") == "ron"
  {
    NumberedCopyStem("ron", 3, ".txt");
    RonThree();
  }

  lemma RonThree()
    ensures "ron" + " copy " + Render(3) + ".txt" == "ron copy 3.txt"
  {
    assert Render(3) == "3";
    RonThreeLiteral();
  }

  lemma RonThreeLiteral()
    ensures "ron" + " copy " + "3" + ".txt" == "ron copy 3.txt"
  { }

  /** `filename_stem("ron copy of toby.txt")` keeps everything but the extension. */
  lemma SampleStemUnmarked()
    ensures HasExt("ron copy of toby.txt") && Stem("ron copy of toby.txt") == "ron copy of toby"
  {
    var b := "ron copy of toby";
    SplitName(b, ".txt");
    assert b + ".txt" == "ron copy of toby.txt";
    StemWithoutMarker(b + ".txt");
  }

  /** The three names above are valid, so the `sub` as written gives the same stems. */
  lemma SampleStemBareAsWritten(s: string)
    requires s == "ron copy.txt"
    ensures HasExt(s) && RubyFilenameStem(s) == "ron"
  {
    SampleStemBare();
    var b := "ron copy";
    assert s == b + ".txt";
    TxtSourceStem(s, b);
  }

  lemma SampleStemNumberedAsWritten(s: string)
    requires s == "ron copy 3.txt"
    ensures HasExt(s) && RubyFilenameStem(s) == "ron"
  {
    SampleStemNumbered();
    var b := "ron copy 3";
    assert s == b + ".txt";
    TxtSourceStem(s, b);
  }

  lemma SampleStemUnmarkedAsWritten(s: string)
    requires s == "ron copy of toby.txt"
    ensures HasExt(s) && RubyFilenameStem(s) == "ron copy of toby"
  {
    SampleStemUnmarked();
    var b := "ron copy of toby";
    assert s == b + ".txt";
    TxtSourceStem(s, b);
  }

  /** `next_integer([0, 1])`: no gap, so one past the maximum. */
  lemma SampleRun()
    ensures NextInteger([0, 1]) == Some(2)
  {
    var a := [0, 1];
    assert Min(a) == 0 && Max(a) == 1;
    NextIntegerOfRun(a);
  }

  predicate IsGapSample(b: seq<int>) {
    |b| == 8 && b[0] == 0 && b[1] == 1 && b[2] == 2 && b[3] == 8 && b[4] == 3 && b[5] == 4 &&
    b[6] == 6 && b[7] == 7
  }

  lemma GapSampleBounds(b: seq<int>)
    requires IsGapSample(b)
    ensures Min(b) == 0 && Max(b) == 8 && 5 !in b
  {
    forall x <- b ensures 0 <= x <= 8 {
      var k :| 0 <= k < 8 && b[k] == x;
    }
    assert b[0] in b && b[3] in b;
    if 5 in b {
      var k :| 0 <= k < 8 && b[k] == 5;
    }
  }

  lemma GapSample(b: seq<int>)
    requires IsGapSample(b)
    ensures NextInteger(b) == Some(5)
  {
    GapSampleBounds(b);
    assert !GapFree(b);
    NextIntegerOfGap(b);
    var n := NextInteger(b).value;
    GapSampleMembers(b);
    OnlyFive(n, b);
  }

  lemma GapSampleMembers(b: seq<int>)
    requires IsGapSample(b)
    ensures 1 in b && 2 in b && 3 in b && 4 in b && 6 in b && 7 in b
  {
    assert b[1] == 1 && b[2] == 2 && b[4] == 3 && b[5] == 4 && b[6] == 6 && b[7] == 7;
  }

  lemma OnlyFive(n: int, b: seq<int>)
    requires 0 < n < 8 && n !in b
    requires 1 in b && 2 in b && 3 in b && 4 in b && 6 in b && 7 in b
    ensures n == 5
  {
  }

  /** `next_integer([0, 1, 2, 8, 3, 4, 6, 7])`: the missing 5. */
  lemma SampleGap()
    ensures NextInteger([0, 1, 2, 8, 3, 4, 6, 7]) == Some(5)
  {
    GapSample([0, 1, 2, 8, 3, 4, 6, 7]);
  }

  /** The same call on an array, as the source does it: the array ends up sorted, holding the
      same numbers, and the answer is 5. */
  method GapSampleInPlace() returns (a: array<int>, r: Option<int>)
    ensures a[..] == [0, 1, 2, 3, 4, 6, 7, 8] && r == Some(5)
  {
    a := new int[8];
    a[0], a[1], a[2], a[3], a[4], a[5], a[6], a[7] := 0, 1, 2, 8, 3, 4, 6, 7;
    assert IsGapSample(a[..]);
    ghost var before := a[..];
    r := NextIntegerInPlace(a);
    GapSample(before);
    SortedSample(a[..], before);
  }

  /** The sorted arrangement of the sample's numbers. */
  lemma SortedSample(s: seq<int>, b: seq<int>)
    requires IsGapSample(b) && Sorted(s) && multiset(s) == multiset(b)
    ensures s == [0, 1, 2, 3, 4, 6, 7, 8]
  {
    var t := [0, 1, 2, 3, 4, 6, 7, 8];
    SampleSortedAscending(t);
    SampleSameNumbers(b, t);
    SortedUnique(s, t);
  }

  lemma SampleSortedAscending(t: seq<int>)
    requires t == [0, 1, 2, 3, 4, 6, 7, 8]
    ensures Sorted(t)
  {
    forall p, q | 0 <= p < q < |t| ensures t[p] <= t[q] {
      assert t[p] <= p + 1 && q <= t[q];
    }
  }

  lemma SampleSameNumbers(b: seq<int>, t: seq<int>)
    requires IsGapSample(b) && t == [0, 1, 2, 3, 4, 6, 7, 8]
    ensures multiset(b) == multiset(t)
  {
    var x, y := [0, 1, 2], [3, 4, 6, 7];
    assert b == x + [8] + y;
    assert t == x + y + [8];
    MoveToEnd(x, 8, y);
  }

  lemma MoveToEnd(x: seq<int>, e: int, y: seq<int>)
    ensures multiset(x + [e] + y) == multiset(x + y + [e])
  {
    calc {
      multiset(x + [e] + y);
      multiset(x) + multiset([e]) + multiset(y);
      multiset(x + y + [e]);
    }
  }

  /** `next_integer([0, 2])`: the missing 1. */
  lemma SampleSmallGap()
    ensures NextInteger([0, 2]) == Some(1)
  {
    var c := [0, 2];
    assert Min(c) == 0 && Max(c) == 2;
    assert !GapFree(c) by { assert 1 !in c; }
    NextIntegerOfGap(c);
  }

  /** `next_integer([0])`: the first copy gets number 1. */
  lemma SampleSingle()
    ensures NextInteger([0]) == Some(1)
  {
    var a := [0];
    assert Min(a) == 0 && Max(a) == 0;
    NextIntegerOfRun(a);
  }

  /** A repeated number without a gap gives nil. */
  lemma SampleRepeat()
    ensures NextInteger([0, 0, 1]) == None
  {
    var d := [0, 0, 1];
    assert Min(d) == 0 && Max(d) == 1;
    assert d[0] == d[1];
    NextIntegerOfRepeats(d);
  }

  // ---------------------------------------------------------------- the listing of copies.rb

  /** The nine file names of the sample listing, in order. */
  predicate IsListing(files: seq<string>) {
    |files| == 9 && files[0] == "tom.txt" && files[1] == "ron.txt" && files[2] == "keith.txt" &&
    files[3] == "katy.txt" && files[4] == "sarah.txt" && files[5] == "sarah copy.txt" &&
    files[6] == "katy copy.txt" && files[7] == "ron copy 2.txt" &&
    files[8] == "i will copy you on the email.txt"
  }

  /** A base without a marker and ending in neither `copy` nor a digit: its `.txt` name has
      that base as stem and copy number 0. */
  lemma PlainTom()
    ensures HasExt("tom.txt") && Ext("tom.txt") == ".txt" && Stem("tom.txt") == "tom" && CopyNumber("tom.txt") == 0
  {
    PlainNameReadsBack("tom", ".txt");
    assert "tom" + ".txt" == "tom.txt";
  }

  lemma PlainRon()
    ensures HasExt("ron.txt") && Ext("ron.txt") == ".txt" && Stem("ron.txt") == "ron" && CopyNumber("ron.txt") == 0
  {
    PlainNameReadsBack("ron", ".txt");
    assert "ron" + ".txt" == "ron.txt";
  }

  lemma PlainKeith()
    ensures HasExt("keith.txt") && Ext("keith.txt") == ".txt" && Stem("keith.txt") == "keith" && CopyNumber("keith.txt") == 0
  {
    PlainNameReadsBack("keith", ".txt");
    assert "keith" + ".txt" == "keith.txt";
  }

  lemma PlainKaty()
    ensures HasExt("katy.txt") && Ext("katy.txt") == ".txt" && Stem("katy.txt") == "katy" && CopyNumber("katy.txt") == 0
  {
    PlainNameReadsBack("katy", ".txt");
    assert "katy" + ".txt" == "katy.txt";
  }

  lemma PlainSarah()
    ensures HasExt("sarah.txt") && Ext("sarah.txt") == ".txt" && Stem("sarah.txt") == "sarah" && CopyNumber("sarah.txt") == 0
  {
    PlainNameReadsBack("sarah", ".txt");
    assert "sarah" + ".txt" == "sarah.txt";
  }

  lemma PlainEmail()
    ensures HasExt("i will copy you on the email.txt") && Ext("i will copy you on the email.txt") == ".txt" && Stem("i will copy you on the email.txt") == "i will copy you on the email" && CopyNumber("i will copy you on the email.txt") == 0
  {
    PlainNameReadsBack("i will copy you on the email", ".txt");
    assert "i will copy you on the email" + ".txt" == "i will copy you on the email.txt";
  }

  lemma BareSarah()
    ensures HasExt("sarah copy.txt") && Ext("sarah copy.txt") == ".txt"
    ensures Stem("sarah copy.txt") == "sarah" && CopyNumber("sarah copy.txt") == 1
  {
    BareCopyName("sarah", ".txt");
    assert "sarah" + " copy" + ".txt" == "sarah copy.txt";
  }

  lemma BareKaty()
    ensures HasExt("katy copy.txt") && Ext("katy copy.txt") == ".txt"
    ensures Stem("katy copy.txt") == "katy" && CopyNumber("katy copy.txt") == 1
  {
    BareCopyName("katy", ".txt");
    assert "katy" + " copy" + ".txt" == "katy copy.txt";
  }

  lemma NumberedRon()
    ensures HasExt("ron copy 2.txt") && Ext("ron copy 2.txt") == ".txt"
    ensures Stem("ron copy 2.txt") == "ron" && CopyNumber("ron copy 2.txt") == 2
  {
    RonTwo();
    NumberedCopySplit("ron", 2, ".txt");
    NumberedCopyNumber("ron", 2, ".txt");
    NumberedCopyStem("ron", 2, ".txt");
  }

  lemma ListedTom(files: seq<string>)
    requires IsListing(files)
    ensures HasExt(files[0]) && Stem(files[0]) == "tom" && CopyNumber(files[0]) == 0
  {
    PlainTom();
  }

  lemma ListedRon(files: seq<string>)
    requires IsListing(files)
    ensures HasExt(files[1]) && Stem(files[1]) == "ron" && CopyNumber(files[1]) == 0
  {
    PlainRon();
  }

  lemma ListedKeith(files: seq<string>)
    requires IsListing(files)
    ensures HasExt(files[2]) && Stem(files[2]) == "keith"
  {
    PlainKeith();
  }

  lemma ListedKaty(files: seq<string>)
    requires IsListing(files)
    ensures HasExt(files[3]) && Stem(files[3]) == "katy"
  {
    PlainKaty();
  }

  lemma ListedSarah(files: seq<string>)
    requires IsListing(files)
    ensures HasExt(files[4]) && Stem(files[4]) == "sarah" && CopyNumber(files[4]) == 0
  {
    PlainSarah();
  }

  lemma ListedSarahCopy(files: seq<string>)
    requires IsListing(files)
    ensures HasExt(files[5]) && Stem(files[5]) == "sarah" && CopyNumber(files[5]) == 1
  {
    BareSarah();
  }

  lemma ListedKatyCopy(files: seq<string>)
    requires IsListing(files)
    ensures HasExt(files[6]) && Stem(files[6]) == "katy"
  {
    BareKaty();
  }

  lemma ListedRonCopy2(files: seq<string>)
    requires IsListing(files)
    ensures HasExt(files[7]) && Stem(files[7]) == "ron" && CopyNumber(files[7]) == 2
  {
    NumberedRon();
  }

  lemma ListedEmail(files: seq<string>)
    requires IsListing(files)
    ensures HasExt(files[8]) && Stem(files[8]) == "i will copy you on the email"
  {
    PlainEmail();
  }

  /** The stem of the j-th file of the listing. */
  function StemInListing(j: nat): string {
    if j == 0 then "tom" else if j == 1 then "ron" else if j == 2 then "keith"
    else if j == 3 || j == 6 then "katy" else if j == 4 || j == 5 then "sarah"
    else if j == 7 then "ron" else "i will copy you on the email"
  }

  /** The stem of each file of the listing. */
  lemma ListingStem(files: seq<string>, j: nat)
    requires IsListing(files) && j < 9
    ensures HasExt(files[j]) && Stem(files[j]) == StemInListing(j)
  {
    if j == 0 { ListedTom(files); }
    else if j == 1 { ListedRon(files); }
    else if j == 2 { ListedKeith(files); }
    else if j == 3 { ListedKaty(files); }
    else if j == 4 { ListedSarah(files); }
    else if j == 5 { ListedSarahCopy(files); }
    else if j == 6 { ListedKatyCopy(files); }
    else if j == 7 { ListedRonCopy2(files); }
    else { ListedEmail(files); }
  }

  /** Every file of the listing is well formed, with the stem StemInListing gives it. */
  lemma ListingStems9(files: seq<string>)
    requires IsListing(files)
    ensures forall j :: 0 <= j < 9 ==> HasExt(files[j]) && Stem(files[j]) == StemInListing(j)
  {
    forall j | 0 <= j < 9 ensures HasExt(files[j]) && Stem(files[j]) == StemInListing(j) {
      ListingStem(files, j);
    }
  }

  lemma ListingHasExt(files: seq<string>)
    requires IsListing(files)
    ensures AllHaveExt(files)
  {
    ListingStems9(files);
    StemsHaveExt(files);
  }

  lemma StemsHaveExt(files: seq<string>)
    requires |files| == 9 && forall j :: 0 <= j < 9 ==> HasExt(files[j]) && Stem(files[j]) == StemInListing(j)
    ensures AllHaveExt(files)
  {
    forall f <- files ensures HasExt(f) {
      var k :| 0 <= k < 9 && files[k] == f;
    }
  }

  /** Which files have the stem, one flag per file. */
  function Keeps(files: seq<string>, stem: string): (keep: seq<bool>)
    requires AllHaveExt(files)
    ensures |keep| == |files| && forall i :: 0 <= i < |files| ==> (keep[i] <==> Stem(files[i]) == stem)
  {
    if files == [] then [] else [Stem(files[0]) == stem] + Keeps(files[1..], stem)
  }

  /** The files whose flag is set, in order. */
  function Pick(files: seq<string>, keep: seq<bool>): seq<string>
    requires |keep| == |files|
  {
    if files == [] then [] else (if keep[0] then [files[0]] else []) + Pick(files[1..], keep[1..])
  }

  /** `select` is picking by the flags. */
  lemma {:induction false} FamilyIsPick(files: seq<string>, stem: string)
    requires AllHaveExt(files)
    ensures Family(files, stem) == Pick(files, Keeps(files, stem))
  {
    if files != [] {
      FamilyCons(files, stem);
      FamilyIsPick(files[1..], stem);
      assert Keeps(files, stem)[1..] == Keeps(files[1..], stem);
    }
  }

  lemma {:induction false} PickOne(files: seq<string>, keep: seq<bool>, k: nat)
    requires |keep| == |files| && k < |files|
    requires forall i :: 0 <= i < |files| ==> (keep[i] <==> i == k)
    ensures Pick(files, keep) == [files[k]]
  {
    if k == 0 {
      PickNone(files[1..], keep[1..]);
    } else {
      PickOne(files[1..], keep[1..], k - 1);
    }
  }

  lemma {:induction false} PickNone(files: seq<string>, keep: seq<bool>)
    requires |keep| == |files| && forall i :: 0 <= i < |files| ==> !keep[i]
    ensures Pick(files, keep) == []
  {
    if files != [] {
      PickNone(files[1..], keep[1..]);
    }
  }

  lemma {:induction false} PickTwo(files: seq<string>, keep: seq<bool>, k1: nat, k2: nat)
    requires |keep| == |files| && k1 < k2 < |files|
    requires forall i :: 0 <= i < |files| ==> (keep[i] <==> i == k1 || i == k2)
    ensures Pick(files, keep) == [files[k1], files[k2]]
  {
    if k1 == 0 {
      PickOne(files[1..], keep[1..], k2 - 1);
    } else {
      PickTwo(files[1..], keep[1..], k1 - 1, k2 - 1);
    }
  }

  /** A family of one member, at index k. */
  lemma FamilyOfOne(files: seq<string>, stem: string, k: nat)
    requires AllHaveExt(files) && k < |files| && Stem(files[k]) == stem
    requires forall j :: 0 <= j < |files| && j != k ==> Stem(files[j]) != stem
    ensures Family(files, stem) == [files[k]]
  {
    FamilyIsPick(files, stem);
    PickOne(files, Keeps(files, stem), k);
  }

  /** A family of two members, at indices k1 < k2. */
  lemma FamilyOfTwo(files: seq<string>, stem: string, k1: nat, k2: nat)
    requires AllHaveExt(files) && k1 < k2 < |files| && Stem(files[k1]) == stem && Stem(files[k2]) == stem
    requires forall j :: 0 <= j < |files| && j != k1 && j != k2 ==> Stem(files[j]) != stem
    ensures Family(files, stem) == [files[k1], files[k2]]
  {
    FamilyIsPick(files, stem);
    PickTwo(files, Keeps(files, stem), k1, k2);
  }

  lemma ListingFamilyTom(files: seq<string>)
    requires IsListing(files)
    ensures AllHaveExt(files) && Family(files, "tom") == [files[0]]
  {
    ListingStems9(files);
    StemsHaveExt(files);
    TomFamilyOfStems(files);
  }

  lemma StemInListingNotTom(j: nat)
    requires j < 9 && j != 0
    ensures StemInListing(j) != "tom"
  { }

  lemma TomFamilyOfStems(files: seq<string>)
    requires |files| == 9 && AllHaveExt(files)
    requires forall j :: 0 <= j < 9 ==> Stem(files[j]) == StemInListing(j)
    ensures Family(files, "tom") == [files[0]]
  {
    forall j | 0 <= j < 9 && j != 0 ensures Stem(files[j]) != "tom" {
      StemInListingNotTom(j);
    }
    FamilyOfOne(files, "tom", 0);
  }

  lemma ListingFamilyRon(files: seq<string>)
    requires IsListing(files)
    ensures AllHaveExt(files) && Family(files, "ron") == [files[1], files[7]]
  {
    ListingStems9(files);
    StemsHaveExt(files);
    RonFamilyOfStems(files);
  }

  lemma StemInListingNotRon(j: nat)
    requires j < 9 && j != 1 && j != 7
    ensures StemInListing(j) != "ron"
  { }

  lemma RonFamilyOfStems(files: seq<string>)
    requires |files| == 9 && AllHaveExt(files)
    requires forall j :: 0 <= j < 9 ==> Stem(files[j]) == StemInListing(j)
    ensures Family(files, "ron") == [files[1], files[7]]
  {
    forall j | 0 <= j < 9 && j != 1 && j != 7 ensures Stem(files[j]) != "ron" {
      StemInListingNotRon(j);
    }
    FamilyOfTwo(files, "ron", 1, 7);
  }

  lemma ListingFamilySarah(files: seq<string>)
    requires IsListing(files)
    ensures AllHaveExt(files) && Family(files, "sarah") == [files[4], files[5]]
  {
    ListingStems9(files);
    StemsHaveExt(files);
    SarahFamilyOfStems(files);
  }

  lemma StemInListingNotSarah(j: nat)
    requires j < 9 && j != 4 && j != 5
    ensures StemInListing(j) != "sarah"
  { }

  lemma SarahFamilyOfStems(files: seq<string>)
    requires |files| == 9 && AllHaveExt(files)
    requires forall j :: 0 <= j < 9 ==> Stem(files[j]) == StemInListing(j)
    ensures Family(files, "sarah") == [files[4], files[5]]
  {
    forall j | 0 <= j < 9 && j != 4 && j != 5 ensures Stem(files[j]) != "sarah" {
      StemInListingNotSarah(j);
    }
    FamilyOfTwo(files, "sarah", 4, 5);
  }

  /** A family holding only the source, with copy number 0, gets copy number 1. */
  lemma ChosenForSingle(files: seq<string>, source: string, stem: string)
    requires AllHaveExt(files) && HasExt(source) && Stem(source) == stem
    requires CopyNumber(source) == 0 && Family(files, stem) == [source]
    ensures Family(files, Stem(source)) != [] && ChosenNumber(files, source) == Some(1)
  {
    var ns := CopyNumbers(Family(files, stem));
    assert ns == [0];
    SampleSingle();
  }

  /** A family with copy numbers 0 and 2 gets the free copy number 1. */
  lemma ChosenForGappedPair(files: seq<string>, source: string, stem: string, f0: string, f1: string)
    requires AllHaveExt(files) && HasExt(source) && Stem(source) == stem
    requires HasExt(f0) && HasExt(f1) && Family(files, stem) == [f0, f1]
    requires CopyNumber(f0) == 0 && CopyNumber(f1) == 2
    ensures Family(files, Stem(source)) != [] && ChosenNumber(files, source) == Some(1)
  {
    var ns := CopyNumbers(Family(files, stem));
    assert ns == [0, 2];
    SampleSmallGap();
  }

  /** A family with copy numbers 0 and 1 gets copy number 2. */
  lemma ChosenForFullPair(files: seq<string>, source: string, stem: string, f0: string, f1: string)
    requires AllHaveExt(files) && HasExt(source) && Stem(source) == stem
    requires HasExt(f0) && HasExt(f1) && Family(files, stem) == [f0, f1]
    requires CopyNumber(f0) == 0 && CopyNumber(f1) == 1
    ensures Family(files, Stem(source)) != [] && ChosenNumber(files, source) == Some(2)
  {
    var ns := CopyNumbers(Family(files, stem));
    assert ns == [0, 1];
    SampleRun();
  }

  lemma TomCopyName()
    ensures CopyName("tom", Some(1), ".txt") == "tom copy.txt"
  {
    assert "tom" + " copy" + ".txt" == "tom copy.txt";
  }

  lemma RonCopyName()
    ensures CopyName("ron", Some(1), ".txt") == "ron copy.txt"
  {
    assert "ron" + " copy" + ".txt" == "ron copy.txt";
  }

  lemma SarahSecondCopyName()
    ensures CopyName("sarah", Some(2), ".txt") == "sarah copy 2.txt"
  {
    var two := Interpolate(2);
    assert two == "2";
    assert "sarah" + " copy " + two + ".txt" == "sarah copy 2.txt";
  }

  lemma ListingTomFacts(files: seq<string>)
    requires IsListing(files)
    ensures AllHaveExt(files) && Family(files, "tom") == [files[0]]
    ensures HasExt(files[0]) && Ext(files[0]) == ".txt" && Stem(files[0]) == "tom" && CopyNumber(files[0]) == 0
  {
    ListingFamilyTom(files);
    ListedTom(files);
    PlainTom();
  }

  lemma ListingRonFacts(files: seq<string>)
    requires IsListing(files)
    ensures AllHaveExt(files) && Family(files, "ron") == [files[1], files[7]]
    ensures HasExt(files[1]) && Stem(files[1]) == "ron" && CopyNumber(files[1]) == 0
    ensures HasExt(files[7]) && Ext(files[7]) == ".txt" && Stem(files[7]) == "ron" && CopyNumber(files[7]) == 2
  {
    ListingFamilyRon(files);
    ListedRon(files);
    ListedRonCopy2(files);
    NumberedRon();
  }

  lemma ListingSarahFacts(files: seq<string>)
    requires IsListing(files)
    ensures AllHaveExt(files) && Family(files, "sarah") == [files[4], files[5]]
    ensures HasExt(files[4]) && Ext(files[4]) == ".txt" && Stem(files[4]) == "sarah" && CopyNumber(files[4]) == 0
    ensures HasExt(files[5]) && Ext(files[5]) == ".txt" && Stem(files[5]) == "sarah" && CopyNumber(files[5]) == 1
  {
    ListingFamilySarah(files);
    ListedSarah(files);
    ListedSarahCopy(files);
    PlainSarah();
    BareSarah();
  }

  /** `next_copy_name(files, 'tom.txt') == 'tom copy.txt'`, given what the listing says about tom.txt. */
  lemma CopyOfTom(files: seq<string>)
    requires |files| == 9 && AllHaveExt(files) && Family(files, "tom") == [files[0]]
    requires HasExt(files[0]) && Ext(files[0]) == ".txt" && Stem(files[0]) == "tom" && CopyNumber(files[0]) == 0
    ensures Family(files, Stem(files[0])) != [] && NextCopyName(files, files[0]) == "tom copy.txt"
  {
    ChosenForSingle(files, files[0], "tom");
    TomCopyName();
  }

  /** `next_copy_name(files, 'ron copy 2.txt') == 'ron copy.txt'`: copy 1 is free. */
  lemma CopyOfRon(files: seq<string>)
    requires |files| == 9 && AllHaveExt(files) && Family(files, "ron") == [files[1], files[7]]
    requires HasExt(files[1]) && Stem(files[1]) == "ron" && CopyNumber(files[1]) == 0
    requires HasExt(files[7]) && Ext(files[7]) == ".txt" && Stem(files[7]) == "ron" && CopyNumber(files[7]) == 2
    ensures Family(files, Stem(files[7])) != [] && NextCopyName(files, files[7]) == "ron copy.txt"
  {
    ChosenForGappedPair(files, files[7], "ron", files[1], files[7]);
    RonCopyName();
  }

  /** `next_copy_name(files, 'sarah copy.txt')` and `next_copy_name(files, 'sarah.txt')` are
      both `'sarah copy 2.txt'`. */
  lemma CopyOfSarah(files: seq<string>, k: nat)
    requires |files| == 9 && AllHaveExt(files) && Family(files, "sarah") == [files[4], files[5]]
    requires HasExt(files[4]) && Ext(files[4]) == ".txt" && Stem(files[4]) == "sarah" && CopyNumber(files[4]) == 0
    requires HasExt(files[5]) && Ext(files[5]) == ".txt" && Stem(files[5]) == "sarah" && CopyNumber(files[5]) == 1
    requires k == 4 || k == 5
    ensures Family(files, Stem(files[k])) != [] && NextCopyName(files, files[k]) == "sarah copy 2.txt"
  {
    ChosenForFullPair(files, files[k], "sarah", files[4], files[5]);
    SarahSecondCopyName();
  }

  /** Every listed name is a `.txt` name whose base has no `x`, so it is valid and the `sub`
      as written gives Copies.Stem on it. */
  lemma ListingSourceStems(files: seq<string>, i: nat)
    requires IsListing(files) && i < |files|
    ensures HasExt(files[i]) && RubyFilenameStem(files[i]) == Stem(files[i])
  {
    if i < 5 { ListedOriginalSourceStem(files, i); } else { ListedCopySourceStem(files, i); }
  }

  lemma ListedOriginalSourceStem(files: seq<string>, i: nat)
    requires IsListing(files) && i < 5
    ensures HasExt(files[i]) && RubyFilenameStem(files[i]) == Stem(files[i])
  {
    var b :=
      if i == 0 then "tom" else if i == 1 then "ron" else if i == 2 then "keith"
      else if i == 3 then "katy" else "sarah";
    assert files[i] == b + ".txt";
    TxtSourceStem(files[i], b);
  }

  lemma ListedCopySourceStem(files: seq<string>, i: nat)
    requires IsListing(files) && 5 <= i < 9
    ensures HasExt(files[i]) && RubyFilenameStem(files[i]) == Stem(files[i])
  {
    var b :=
      if i == 5 then "sarah copy" else if i == 6 then "katy copy" else if i == 7 then "ron copy 2"
      else "i will copy you on the email";
    assert files[i] == b + ".txt";
    TxtSourceStem(files[i], b);
  }

  /** The four checks at the bottom of copies.rb hold on the sample listing. */
  lemma ListingNextCopyNames(files: seq<string>)
    requires IsListing(files)
    ensures AllHaveExt(files)
    ensures HasExt(files[0]) && Family(files, Stem(files[0])) != [] &&
      NextCopyName(files, files[0]) == "tom copy.txt"
    ensures HasExt(files[7]) && Family(files, Stem(files[7])) != [] &&
      NextCopyName(files, files[7]) == "ron copy.txt"
    ensures HasExt(files[5]) && Family(files, Stem(files[5])) != [] &&
      NextCopyName(files, files[5]) == "sarah copy 2.txt"
    ensures HasExt(files[4]) && Family(files, Stem(files[4])) != [] &&
      NextCopyName(files, files[4]) == "sarah copy 2.txt"
  {
    ListingTomFacts(files);
    CopyOfTom(files);
    ListingRonFacts(files);
    CopyOfRon(files);
    ListingSarahFacts(files);
    CopyOfSarah(files, 5);
    CopyOfSarah(files, 4);
  }

  const Listing: seq<string> := ["tom.txt", "ron.txt", "keith.txt", "katy.txt", "sarah.txt",
    "sarah copy.txt", "katy copy.txt", "ron copy 2.txt", "i will copy you on the email.txt"]

  lemma ListingIsListing()
    ensures IsListing(Listing)
  { }
}
