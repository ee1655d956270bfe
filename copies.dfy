/** The copy-name resolver: `copy_number`, `filename_stem` and `next_copy_name`. */
module Copies {
  import opened Wrappers
  import opened Extname
  import opened Decimal
  import opened NextNumber

  // ---------------------------------------------------------------- copy_number

  /** What `filename =~ /copy( \d+)?#{extname}$/` leaves behind, made explicit instead of
      living in `$1`: no match, or a match with the text of group 1 when that group took part. */
  datatype CopyMatch = NoMatch | Match(group1: Option<string>)

  /** The start of the longest run of digits at the end of b. */
  function TrailingDigitsStart(b: string): (j: nat)
    ensures j <= |b| && AllDigits(b[j..])
    ensures j > 0 ==> !IsAsciiDigit(b[j - 1])
  {
    if |b| > 0 && IsAsciiDigit(b[|b| - 1]) then
      var j := TrailingDigitsStart(b[..|b| - 1]);
      assert b[j..] == b[..|b| - 1][j..] + [b[|b| - 1]];
      j
    else |b|
  }

  /** A digit run to the end of b with a non-digit in front of it is the longest such run. */
  lemma {:induction false} DigitsStartUnique(b: string, j: nat)
    requires j <= |b| && AllDigits(b[j..]) && (j > 0 ==> !IsAsciiDigit(b[j - 1]))
    ensures TrailingDigitsStart(b) == j
  {
    if j < |b| {
      assert b[j..][|b| - 1 - j] == b[|b| - 1];
      assert b[..|b| - 1][j..] == b[j..|b| - 1];
      DigitsStartUnique(b[..|b| - 1], j);
    }
  }

  /** b ends in `copy` (no blank is needed in front of it). */
  predicate EndsInBareCopy(b: string) {
    |b| >= 4 && b[|b| - 4..] == "copy"
  }

  /** b ends in `copy ` followed by the digits from j on. */
  predicate NumberedAt(b: string, j: int) {
    5 <= j < |b| && b[j - 5..j] == "copy " && AllDigits(b[j..])
  }

  /** The match of `copy( \d+)?` anchored in front of the extension. The extension is a
      literal here: with no line break in the name, `#{extname}$` can only sit at the end. */
  function MatchCopyNumber(s: string): (m: CopyMatch)
    requires HasExt(s)
    ensures m.Match? && m.group1.Some? ==>
      var g := m.group1.value; |g| >= 2 && g[0] == ' ' && AllDigits(g[1..])
  {
    var b := Base(s);
    var j := TrailingDigitsStart(b);
    if NumberedAt(b, j) then Match(Some(b[j - 1..]))
    else if EndsInBareCopy(b) then Match(None)
    else NoMatch
  }

  /** `copy_number(filename)`: 0 without a marker, 1 for a bare `copy`, else the number. A base
      that ends neither in `copy` nor in a digit has copy number 0. */
  function CopyNumber(s: string): (n: nat)
    requires HasExt(s)
    ensures n != 0 ==> EndsInBareCopy(Base(s)) || IsAsciiDigit(Base(s)[|Base(s)| - 1])
  {
    match MatchCopyNumber(s)
    case NoMatch => 0
    case Match(None) => 1
    // `$1` keeps the blank in front of the digits, and `to_i` skips it
    case Match(Some(g)) => Value(g[1..])
  }

  /** A name ending in `copy ` and digits has those digits as its copy number. */
  lemma CopyNumberAt(s: string, j: int)
    requires HasExt(s) && NumberedAt(Base(s), j)
    ensures CopyNumber(s) == Value(Base(s)[j..])
  {
    var b := Base(s);
    assert b[j - 1] == b[j - 5..j][4];
    DigitsStartUnique(b, j);
  }

  /** The three outcomes of `copy_number`, each stated on the text before the extension. */
  lemma CopyNumberCases(s: string)
    requires HasExt(s)
    ensures EndsInBareCopy(Base(s)) ==> CopyNumber(s) == 1
    ensures forall j :: NumberedAt(Base(s), j) ==> CopyNumber(s) == Value(Base(s)[j..])
    ensures !EndsInBareCopy(Base(s)) && (forall j :: !NumberedAt(Base(s), j)) ==> CopyNumber(s) == 0
  {
    var b := Base(s);
    var t := TrailingDigitsStart(b);
    forall j | NumberedAt(b, j) ensures CopyNumber(s) == Value(b[j..]) {
      CopyNumberAt(s, j);
    }
    if EndsInBareCopy(b) {
      assert b[|b| - 1] == b[|b| - 4..][3];
      DigitsStartUnique(b, |b|);
    }
  }

  // ---------------------------------------------------------------- filename_stem

  /** A run of ` d` groups: a blank and one digit, repeated. */
  predicate IsGroups(t: string) {
    |t| % 2 == 0 && forall k :: 0 <= k < |t| ==> if k % 2 == 0 then t[k] == ' ' else IsAsciiDigit(t[k])
  }

  /** The start of the longest run of ` d` groups at the end of b. */
  function TrailingGroupsStart(b: string): (j: nat)
    ensures j <= |b| && IsGroups(b[j..])
    ensures !(j >= 2 && b[j - 2] == ' ' && IsAsciiDigit(b[j - 1]))
  {
    if |b| >= 2 && b[|b| - 2] == ' ' && IsAsciiDigit(b[|b| - 1]) then
      var j := TrailingGroupsStart(b[..|b| - 2]);
      assert b[j..] == b[..|b| - 2][j..] + [b[|b| - 2], b[|b| - 1]];
      GroupsAppend(b[..|b| - 2][j..], b[|b| - 1]);
      j
    else |b|
  }

  lemma GroupsAppend(t: string, d: char)
    requires IsGroups(t) && IsAsciiDigit(d)
    ensures IsGroups(t + [' ', d])
  {
    var u := t + [' ', d];
    forall k | 0 <= k < |u| ensures if k % 2 == 0 then u[k] == ' ' else IsAsciiDigit(u[k]) {
      if k == |t| {
        assert k % 2 == 0;
      } else if k == |t| + 1 {
        assert k % 2 == 1;
      } else {
        assert u[k] == t[k];
      }
    }
  }

  lemma GroupsTrim(t: string)
    requires IsGroups(t) && |t| > 0
    ensures |t| >= 2 && t[|t| - 2] == ' ' && IsAsciiDigit(t[|t| - 1]) && IsGroups(t[..|t| - 2])
  {
    assert (|t| - 2) % 2 == 0 && (|t| - 1) % 2 == 1;
    var u := t[..|t| - 2];
    forall k | 0 <= k < |u| ensures if k % 2 == 0 then u[k] == ' ' else IsAsciiDigit(u[k]) {
      assert u[k] == t[k];
    }
  }

  /** b has the marker ` copy( \d)*` starting at i and running to its end. */
  predicate MarkedAt(b: string, i: int) {
    0 <= i && i + 5 <= |b| && b[i..i + 5] == " copy" && IsGroups(b[i + 5..])
  }

  /** Where the stem ends: at the marker in front of the extension, or at the extension. */
  function MarkerStart(s: string): (i: nat)
    requires HasExt(s)
    ensures i <= |Base(s)|
  {
    var b := Base(s);
    var j := TrailingGroupsStart(b);
    if j >= 5 && b[j - 5..j] == " copy" then j - 5 else |b|
  }

  /** `filename_stem(filename)`, reading the extension literally and at the end of the name
      (the source's reading of it is RubyRegex.RubyFilenameStem, equal to this on ValidName). */
  function Stem(s: string): (stem: string)
    requires HasExt(s)
    ensures stem <= Base(s) && |stem| <= |s| - |Ext(s)|
  {
    s[..MarkerStart(s)]
  }

  /** A marker that runs to the end of b starts right before the longest run of groups. */
  lemma GroupsStartAtMarker(b: string, i: int)
    requires MarkedAt(b, i)
    ensures TrailingGroupsStart(b) == i + 5
  {
    assert b[i + 3] == b[i..i + 5][3];
    GroupsStartUnique(b, i + 5);
  }

  /** A run of groups to the end of b with no group right in front of it is the longest. */
  lemma {:induction false} GroupsStartUnique(b: string, j: nat)
    requires j <= |b| && IsGroups(b[j..]) && !(j >= 2 && b[j - 2] == ' ' && IsAsciiDigit(b[j - 1]))
    ensures TrailingGroupsStart(b) == j
  {
    if j < |b| {
      var g := b[j..];
      GroupsTrim(g);
      assert g[|g| - 2] == b[|b| - 2] && g[|g| - 1] == b[|b| - 1];
      var b' := b[..|b| - 2];
      assert b'[j..] == g[..|g| - 2];
      GroupsStartUnique(b', j);
    }
  }

  /** filename_stem removes the marker in front of the extension when there is one, and
      otherwise removes only the extension. */
  lemma StemCases(s: string)
    requires HasExt(s)
    ensures forall i :: MarkedAt(Base(s), i) ==> Stem(s) == Base(s)[..i]
    ensures (forall i :: !MarkedAt(Base(s), i)) ==> Stem(s) == Base(s)
  {
    var b := Base(s);
    var t := TrailingGroupsStart(b);
    forall i | MarkedAt(b, i) ensures MarkerStart(s) == i {
      GroupsStartAtMarker(b, i);
    }
    assert t >= 5 && b[t - 5..t] == " copy" ==> MarkedAt(b, t - 5);
  }

  // ---------------------------------------------------------------- next_copy_name

  predicate AllHaveExt(files: seq<string>) {
    forall f <- files :: HasExt(f)
  }

  /** `files.select { |file| filename_stem(file) == stem }`, in the order of files. */
  function Family(files: seq<string>, stem: string): (fam: seq<string>)
    requires AllHaveExt(files)
    ensures forall f <- fam :: f in files && Stem(f) == stem
    ensures forall f <- files :: Stem(f) == stem ==> f in fam
  {
    if files == [] then []
    else
      assert files == [files[0]] + files[1..];
      (if Stem(files[0]) == stem then [files[0]] else []) + Family(files[1..], stem)
  }

  /** `existing_copies.map { |filename| copy_number(filename) }`. */
  function CopyNumbers(files: seq<string>): (ns: seq<nat>)
    requires AllHaveExt(files)
    ensures |ns| == |files| && forall k :: 0 <= k < |files| ==> ns[k] == CopyNumber(files[k])
  {
    if files == [] then [] else [CopyNumber(files[0])] + CopyNumbers(files[1..])
  }

  /** The copy number `next_integer` picks for the source's family: at least 1, and carried
      by no member of the family. */
  /** A well-formed source that is in the listing is in its own family, so the family
      next_copy_name needs is never empty for it. */
  lemma SourceInOwnFamily(files: seq<string>, source: string)
    requires AllHaveExt(files) && source in files
    ensures HasExt(source) && source in Family(files, Stem(source)) && Family(files, Stem(source)) != []
  {
  }

  function ChosenNumber(files: seq<string>, source: string): (n: Option<int>)
    requires HasExt(source) && AllHaveExt(files)
    requires Family(files, Stem(source)) != []
    ensures n.Some? ==> 1 <= n.value && forall f <- Family(files, Stem(source)) :: CopyNumber(f) != n.value
  {
    var fam := Family(files, Stem(source));
    var ns := CopyNumbers(fam);
    assert forall x <- ns :: x >= 0;
    assert forall f <- fam :: CopyNumber(f) in ns by {
      forall f <- fam ensures CopyNumber(f) in ns {
        var k :| 0 <= k < |fam| && fam[k] == f;
        assert ns[k] == CopyNumber(f);
      }
    }
    NextInteger(ns)
  }

  /** The interpolated name: `"#{stem} copy#{ext}"` for 1, else `"#{stem} copy #{n}#{ext}"`,
      where nil interpolates as the empty string. */
  function CopyName(stem: string, n: Option<int>, ext: string): (r: string)
    ensures n == Some(1) ==> r == stem + " copy" + ext
    ensures n.Some? && n.value >= 2 ==> r == stem + " copy " + Render(n.value) + ext
    ensures n.None? ==> r == stem + " copy " + ext
  {
    assert stem + " copy " + "" == stem + " copy ";
    if n == Some(1) then stem + " copy" + ext
    else stem + " copy " + (if n.Some? then Interpolate(n.value) else "") + ext
  }

  /** The interpolated name begins with the stem and ends with the extension. */
  lemma CopyNameShape(stem: string, n: Option<int>, ext: string)
    requires |ext| >= 1
    ensures var r := CopyName(stem, n, ext); stem <= r && |ext| < |r| && r[|r| - |ext|..] == ext
  {
    var mid := if n == Some(1) then " copy" else " copy " + (if n.Some? then Interpolate(n.value) else "");
    var r := stem + mid + ext;
    assert CopyName(stem, n, ext) == r;
    assert r[..|stem|] == stem;
    assert r[|r| - |ext|..] == ext;
  }

  /** `next_copy_name(files, filename_being_copied)`. */
  function NextCopyName(files: seq<string>, source: string): (name: string)
    requires HasExt(source) && AllHaveExt(files)
    requires Family(files, Stem(source)) != []
    ensures Stem(source) <= name
    ensures |Ext(source)| < |name| && name[|name| - |Ext(source)|..] == Ext(source)
  {
    CopyNameShape(Stem(source), ChosenNumber(files, source), Ext(source));
    CopyName(Stem(source), ChosenNumber(files, source), Ext(source))
  }

  // ---------------------------------------------------------------- properties of the names it makes

  /** A stem the resolver can prefix to a marker and an extension. */
  predicate StemShape(stem: string) {
    '\n' !in stem && (stem == [] || stem[0] != '.')
  }

  lemma StemHasShape(s: string)
    requires HasExt(s)
    ensures StemShape(Stem(s))
  {
    var stem := Stem(s);
    assert forall k :: 0 <= k < |stem| ==> stem[k] == s[k];
  }

  /** A marker of groups that runs to the end of b leaves `y` or a blank before the last character. */
  lemma MarkedEnd(b: string, i: int)
    requires MarkedAt(b, i)
    ensures b[|b| - 1] == 'y' || (|b| >= 2 && b[|b| - 2] == ' ')
    ensures (|b| >= 5 && b[|b| - 5..] == " copy") || (|b| >= 2 && b[|b| - 2] == ' ' && IsAsciiDigit(b[|b| - 1]))
  {
    var g := b[i + 5..];
    if |g| == 0 {
      assert b[|b| - 1] == b[i..i + 5][4];
      assert b[|b| - 5..] == b[i..i + 5];
    } else {
      assert g[|g| - 2] == b[|b| - 2] && g[|g| - 1] == b[|b| - 1];
      assert (|g| - 1) % 2 == 1;
    }
  }

  /** A base that ends neither in ` copy` nor in a blank and a digit has no marker, so
      filename_stem drops only the extension. */
  lemma StemWithoutMarker(s: string)
    requires HasExt(s)
    requires var b := Base(s);
      !(|b| >= 5 && b[|b| - 5..] == " copy") && !(|b| >= 2 && b[|b| - 2] == ' ' && IsAsciiDigit(b[|b| - 1]))
    ensures Stem(s) == Base(s)
  {
    var b := Base(s);
    assert b[|b|..] == [];
    GroupsStartUnique(b, |b|);
    assert MarkerStart(s) == |b|;
  }

  /** `stem copy.ext` round-trips: its stem is stem and its copy number is 1. */
  lemma BareCopyName(stem: string, ext: string)
    requires StemShape(stem) && IsExt(ext)
    ensures var name := stem + " copy" + ext;
      HasExt(name) && Ext(name) == ext && Stem(name) == stem && CopyNumber(name) == 1
  {
    var b := stem + " copy";
    var name := stem + " copy" + ext;
    assert b + ext == name;
    assert b[0] != '.' && '\n' !in b by {
      assert forall k :: 0 <= k < |stem| ==> b[k] == stem[k];
    }
    assert HasExt(name) && Ext(name) == ext && Base(name) == b by { SplitName(b, ext); }
    assert EndsInBareCopy(b);
    assert CopyNumber(name) == 1 by { CopyNumberCases(name); }
    assert MarkedAt(b, |stem|) by {
      assert b[|stem|..|stem| + 5] == " copy";
      assert b[|stem| + 5..] == "";
    }
    assert Stem(name) == b[..|stem|] by { StemCases(name); }
    assert b[..|stem|] == stem;
  }

  /** `stem copy N.ext` splits into the base `stem copy N` and the extension. */
  lemma NumberedCopySplit(stem: string, n: nat, ext: string)
    requires StemShape(stem) && IsExt(ext)
    ensures var name := stem + " copy " + Render(n) + ext;
      HasExt(name) && Ext(name) == ext && Base(name) == stem + " copy " + Render(n)
  {
    var digits := Render(n);
    var b := stem + " copy " + digits;
    assert b + ext == stem + " copy " + digits + ext;
    assert b[0] != '.' && '\n' !in b by {
      assert forall k :: 0 <= k < |stem| ==> b[k] == stem[k];
      assert forall k :: 0 <= k < |digits| ==> b[|stem| + 6 + k] == digits[k];
    }
    SplitName(b, ext);
  }

  /** The copy number of `stem copy N.ext` is the value of the digits of N. */
  lemma NumberedCopyDigits(stem: string, n: nat, ext: string)
    requires StemShape(stem) && IsExt(ext)
    ensures var name := stem + " copy " + Render(n) + ext;
      HasExt(name) && CopyNumber(name) == Value(Render(n))
  {
    NumberedCopySplit(stem, n, ext);
    DigitsAfterCopy(stem, Render(n), ext);
  }

  lemma DigitsAfterCopy(stem: string, digits: string, ext: string)
    requires AllDigits(digits) && |digits| >= 1
    requires HasExt(stem + " copy " + digits + ext) && Base(stem + " copy " + digits + ext) == stem + " copy " + digits
    ensures CopyNumber(stem + " copy " + digits + ext) == Value(digits)
  {
    var name := stem + " copy " + digits + ext;
    var b := stem + " copy " + digits;
    var p := stem + " copy ";
    var j := |p|;
    assert b == p + digits;
    assert b[j - 5..j] == p[j - 5..] == "copy ";
    assert b[j..] == digits;
    CopyNumberAt(name, j);
  }

  /** `stem copy N.ext` reads back as copy number N. */
  lemma NumberedCopyNumber(stem: string, n: nat, ext: string)
    requires StemShape(stem) && IsExt(ext)
    ensures var name := stem + " copy " + Render(n) + ext;
      HasExt(name) && CopyNumber(name) == n
  {
    NumberedCopyDigits(stem, n, ext);
    ValueOfRender(n);
  }

  /** The stem of `stem copy N.ext` is stem only when N has one digit: `( \d)*` takes one
      digit per group, so a longer number stays in the stem. */
  lemma NumberedCopyStem(stem: string, n: nat, ext: string)
    requires StemShape(stem) && IsExt(ext)
    ensures var name := stem + " copy " + Render(n) + ext;
      HasExt(name) && Stem(name) == if n < 10 then stem else stem + " copy " + Render(n)
  {
    NumberedCopySplit(stem, n, ext);
    if n < 10 {
      SingleDigitStem(stem, Render(n), ext);
    } else {
      ManyDigitsStem(stem, Render(n), ext);
    }
  }

  lemma SingleDigitStem(stem: string, digits: string, ext: string)
    requires |digits| == 1 && IsAsciiDigit(digits[0])
    requires HasExt(stem + " copy " + digits + ext) && Base(stem + " copy " + digits + ext) == stem + " copy " + digits
    ensures Stem(stem + " copy " + digits + ext) == stem
  {
    var name := stem + " copy " + digits + ext;
    var b := stem + " copy " + digits;
    assert digits == [digits[0]];
    SingleDigitMarked(stem, digits[0]);
    assert Stem(name) == b[..|stem|] by { StemCases(name); }
    assert b[..|stem|] == stem;
  }

  lemma ManyDigitsStem(stem: string, digits: string, ext: string)
    requires |digits| >= 2 && IsAsciiDigit(digits[|digits| - 1]) && IsAsciiDigit(digits[|digits| - 2])
    requires HasExt(stem + " copy " + digits + ext) && Base(stem + " copy " + digits + ext) == stem + " copy " + digits
    ensures Stem(stem + " copy " + digits + ext) == stem + " copy " + digits
  {
    var name := stem + " copy " + digits + ext;
    var b := stem + " copy " + digits;
    assert IsAsciiDigit(b[|b| - 1]) && IsAsciiDigit(b[|b| - 2]) by {
      assert b[|b| - 1] == digits[|digits| - 1] && b[|b| - 2] == digits[|digits| - 2];
    }
    TwoDigitsUnmarked(b);
    StemCases(name);
  }

  /** A single digit after ` copy ` is a marker. */
  lemma SingleDigitMarked(stem: string, d: char)
    requires IsAsciiDigit(d)
    ensures MarkedAt(stem + " copy " + [d], |stem|)
  {
    var b := stem + " copy " + [d];
    assert b[|stem|..|stem| + 5] == " copy";
    assert b[|stem| + 5..] == [' ', d];
  }

  /** A base ending in two digits carries no marker. */
  lemma TwoDigitsUnmarked(b: string)
    requires |b| >= 2 && IsAsciiDigit(b[|b| - 1]) && IsAsciiDigit(b[|b| - 2])
    ensures forall i :: !MarkedAt(b, i)
  {
    forall i | MarkedAt(b, i) ensures false {
      MarkedEnd(b, i);
    }
  }

  /** A base with no copy marker and no trailing digit is its own stem, numbered 0. */
  lemma PlainNameReadsBack(b: string, ext: string)
    requires |b| > 0 && b[0] != '.' && '\n' !in b && IsExt(ext)
    requires !EndsInBareCopy(b) && !(|b| >= 5 && b[|b| - 5..] == " copy") && !IsAsciiDigit(b[|b| - 1])
    ensures HasExt(b + ext) && Ext(b + ext) == ext && Base(b + ext) == b
    ensures Stem(b + ext) == b && CopyNumber(b + ext) == 0
  {
    SplitName(b, ext);
    StemWithoutMarker(b + ext);
  }

  /** `stem copy .ext`, the name made from a nil number, has stem `stem copy ` and copy
      number 0: it belongs to no family of the source. */
  lemma NilCopyName(stem: string, ext: string)
    requires StemShape(stem) && IsExt(ext)
    ensures var name := stem + " copy " + ext;
      HasExt(name) && Ext(name) == ext && Stem(name) == stem + " copy " && CopyNumber(name) == 0
  {
    var b := stem + " copy ";
    assert b[0] != '.' && '\n' !in b by {
      assert forall k :: 0 <= k < |stem| ==> b[k] == stem[k];
    }
    SplitName(b, ext);
    assert b + ext == stem + " copy " + ext;
    assert b[|b| - 1] == ' ' && b[|b| - 2] == 'y';
    forall i | MarkedAt(b, i) ensures b[|b| - 1] == 'y' || (|b| >= 2 && b[|b| - 2] == ' ') {
      MarkedEnd(b, i);
    }
    StemCases(b + ext);
    CopyNumberCases(b + ext);
  }

  /** The interpolated name for a number of at least 1, or for nil, is a well-formed name with
      the given extension that reads back as that number (nil reads back as 0, under the
      stem `stem copy `); for a number below 10 it keeps the given stem. */
  lemma CopyNameReadsBack(stem: string, n: Option<int>, ext: string)
    requires StemShape(stem) && IsExt(ext) && (n.Some? ==> n.value >= 1)
    ensures var name := CopyName(stem, n, ext);
      HasExt(name) && Ext(name) == ext &&
      (n.Some? ==> CopyNumber(name) == n.value) &&
      (n.Some? && n.value < 10 ==> Stem(name) == stem) &&
      (n.None? ==> Stem(name) == stem + " copy " && CopyNumber(name) == 0)
  {
    if n == Some(1) {
      assert CopyName(stem, n, ext) == stem + " copy" + ext;
      BareCopyName(stem, ext);
    } else if n.Some? {
      assert CopyName(stem, n, ext) == stem + " copy " + Render(n.value) + ext;
      NumberedCopySplit(stem, n.value, ext);
      NumberedCopyNumber(stem, n.value, ext);
      NumberedCopyStem(stem, n.value, ext);
    } else {
      assert CopyName(stem, n, ext) == stem + " copy " + ext;
      NilCopyName(stem, ext);
    }
  }

  /** What next_copy_name returns is a well-formed name with the source's extension that
      reads back as the number next_integer chose. */
  lemma NextCopyNameNumber(files: seq<string>, source: string)
    requires HasExt(source) && AllHaveExt(files)
    requires Family(files, Stem(source)) != []
    ensures var name := NextCopyName(files, source);
      var n := ChosenNumber(files, source);
      HasExt(name) && Ext(name) == Ext(source) &&
      (n.Some? ==> 1 <= n.value && CopyNumber(name) == n.value) &&
      (n.None? ==> Stem(name) == Stem(source) + " copy " && CopyNumber(name) == 0)
  {
    StemHasShape(source);
    CopyNameReadsBack(Stem(source), ChosenNumber(files, source), Ext(source));
  }

  /** While the chosen number is below 10 the name keeps the source's stem, so it belongs to
      the family it was numbered in and collides with no existing file. */
  lemma NextCopyNameFresh(files: seq<string>, source: string)
    requires HasExt(source) && AllHaveExt(files)
    requires Family(files, Stem(source)) != []
    requires var n := ChosenNumber(files, source); n.Some? && n.value < 10
    ensures var name := NextCopyName(files, source);
      HasExt(name) && Stem(name) == Stem(source) && name !in files
  {
    StemHasShape(source);
    CopyNameReadsBack(Stem(source), ChosenNumber(files, source), Ext(source));
  }

  // ---------------------------------------------------------------- only the family matters

  /** One step of the selection: the first file, when it has the stem, then the rest. */
  lemma FamilyCons(files: seq<string>, stem: string)
    requires AllHaveExt(files) && files != []
    ensures AllHaveExt(files[1..])
    ensures Family(files, stem) == (if Stem(files[0]) == stem then [files[0]] else []) + Family(files[1..], stem)
  {
  }

  lemma {:induction false} FamilyConcat(a: seq<string>, b: seq<string>, stem: string)
    requires AllHaveExt(a) && AllHaveExt(b)
    ensures AllHaveExt(a + b) && Family(a + b, stem) == Family(a, stem) + Family(b, stem)
  {
    AllHaveExtConcat(a, b);
    if a == [] {
      assert a + b == b;
    } else {
      var ab := a + b;
      assert ab[0] == a[0] && ab[1..] == a[1..] + b;
      FamilyCons(ab, stem);
      FamilyCons(a, stem);
      FamilyConcat(a[1..], b, stem);
      var head := if Stem(a[0]) == stem then [a[0]] else [];
      ConcatAssoc(head, Family(a[1..], stem), Family(b, stem));
    }
  }

  lemma ConcatAssoc(x: seq<string>, y: seq<string>, z: seq<string>)
    ensures x + (y + z) == (x + y) + z
  {
  }

  lemma AllHaveExtConcat(a: seq<string>, b: seq<string>)
    requires AllHaveExt(a) && AllHaveExt(b)
    ensures AllHaveExt(a + b)
  {
    forall f | f in a + b ensures HasExt(f) {
      assert f in a || f in b;
    }
  }

  lemma {:induction false} FamilyOfOthers(files: seq<string>, stem: string)
    requires AllHaveExt(files) && forall f <- files :: Stem(f) != stem
    ensures Family(files, stem) == []
  {
    if files != [] {
      FamilyOfOthers(files[1..], stem);
    }
  }

  lemma {:induction false} FamilyOfFamily(files: seq<string>, stem: string)
    requires AllHaveExt(files)
    ensures Family(Family(files, stem), stem) == Family(files, stem)
  {
    if files != [] {
      var head := if Stem(files[0]) == stem then [files[0]] else [];
      FamilyOfFamily(files[1..], stem);
      FamilyConcat(head, Family(files[1..], stem), stem);
    }
  }

  lemma FamilyInsertOthers(files: seq<string>, others: seq<string>, i: nat, stem: string)
    requires AllHaveExt(files) && AllHaveExt(others) && i <= |files|
    requires forall f <- others :: Stem(f) != stem
    ensures var more := files[..i] + others + files[i..];
      AllHaveExt(more) && Family(more, stem) == Family(files, stem)
  {
    var a, c := files[..i], files[i..];
    assert files == a + c;
    assert AllHaveExt(a) && AllHaveExt(c);
    FamilyConcat(a, others, stem);
    FamilyConcat(a + others, c, stem);
    FamilyConcat(a, c, stem);
    FamilyOfOthers(others, stem);
    assert Family(a + others, stem) == Family(a, stem);
  }

  /** Files with another stem are not consulted: inserting them anywhere in the listing
      leaves the family, and so the name, unchanged. */
  lemma NextCopyNameIgnoresOtherStems(files: seq<string>, others: seq<string>, i: nat, source: string)
    requires HasExt(source) && AllHaveExt(files) && AllHaveExt(others) && i <= |files|
    requires forall f <- others :: Stem(f) != Stem(source)
    requires Family(files, Stem(source)) != []
    ensures var more := files[..i] + others + files[i..];
      AllHaveExt(more) && Family(more, Stem(source)) == Family(files, Stem(source))
    ensures NextCopyName(files[..i] + others + files[i..], source) == NextCopyName(files, source)
  {
    FamilyInsertOthers(files, others, i, Stem(source));
    var more := files[..i] + others + files[i..];
    assert ChosenNumber(more, source) == ChosenNumber(files, source);
  }

  /** The name depends only on the source's family: the family alone gives the same name. */
  lemma NextCopyNameOfFamily(files: seq<string>, source: string)
    requires HasExt(source) && AllHaveExt(files)
    requires Family(files, Stem(source)) != []
    ensures var fam := Family(files, Stem(source));
      AllHaveExt(fam) && Family(fam, Stem(source)) == fam && NextCopyName(fam, source) == NextCopyName(files, source)
  {
    FamilyOfFamily(files, Stem(source));
  }
}
