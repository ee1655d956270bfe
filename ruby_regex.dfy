/** `filename_stem` as the Ruby source writes it: `filename.sub(/( copy( \d)*)?#{extname}/, '')`.
    The extension is spliced into the pattern unescaped, so its leading '.' matches any
    character but a line break, and nothing anchors the match at the end of the name:
    `sub` removes the leftmost match, wherever it is. */
module RubyRegex {
  import opened Wrappers
  import opened Extname
  import opened Copies

  /** The extension, read as a pattern, matches s at p: any character but a line break, then
      the extension's letters literally. */
  predicate DotExtAt(s: string, ext: string, p: nat)
    requires |ext| >= 1
  {
    p + |ext| <= |s| && s[p] != '\n' && s[p + 1..p + |ext|] == ext[1..]
  }

  /** How many ` d` groups (a blank, then one digit) follow one another in s from i on. */
  function GroupsAt(s: string, i: nat): (m: nat)
    ensures m > 0 ==> i + 2 * m <= |s|
    ensures !(i + 2 * m + 2 <= |s| && s[i + 2 * m] == ' ' && IsAsciiDigit(s[i + 2 * m + 1]))
    decreases |s| - i
  {
    if i + 2 <= |s| && s[i] == ' ' && IsAsciiDigit(s[i + 1]) then
      1 + GroupsAt(s, i + 2)
    else 0
  }

  /** Each of the groups GroupsAt counts is a blank and a digit. */
  lemma {:induction false} GroupsAtAre(s: string, i: nat)
    ensures forall k :: 0 <= k < GroupsAt(s, i) ==> s[i + 2 * k] == ' ' && IsAsciiDigit(s[i + 2 * k + 1])
    decreases |s| - i
  {
    var m := GroupsAt(s, i);
    if m > 0 {
      GroupsAtAre(s, i + 2);
      forall k | 0 <= k < m ensures s[i + 2 * k] == ' ' && IsAsciiDigit(s[i + 2 * k + 1]) {
        if k > 0 {
          var k' := k - 1;
          assert i + 2 * k == (i + 2) + 2 * k';
          assert s[(i + 2) + 2 * k'] == ' ' && IsAsciiDigit(s[(i + 2) + 2 * k' + 1]);
        }
      }
    }
  }

  /** `( \d)*` followed by the extension, from i on: the greedy star tries k groups first and
      gives one back at a time; the result is where the successful match ends. */
  function TryGroups(s: string, ext: string, i: nat, k: nat): (q: Option<nat>)
    requires |ext| >= 1
    ensures q.Some? ==> i + |ext| <= q.value <= |s|
  {
    if DotExtAt(s, ext, i + 2 * k) then Some(i + 2 * k + |ext|)
    else if k == 0 then None
    else TryGroups(s, ext, i, k - 1)
  }

  /** The whole pattern tried at p: first with the optional ` copy( \d)*` group, then without. */
  function MatchAt(s: string, ext: string, p: nat): (q: Option<nat>)
    requires |ext| >= 1
    ensures q.Some? ==> p < q.value <= |s|
  {
    var withGroup :=
      if p + 5 <= |s| && s[p..p + 5] == " copy" then TryGroups(s, ext, p + 5, GroupsAt(s, p + 5))
      else None;
    if withGroup.Some? then withGroup
    else if DotExtAt(s, ext, p) then Some(p + |ext|)
    else None
  }

  /** The leftmost match at or after `from`, as its start and end. */
  function FirstMatch(s: string, ext: string, from: nat): (r: Option<(nat, nat)>)
    requires |ext| >= 1
    ensures r.Some? ==> from <= r.value.0 < r.value.1 <= |s| && MatchAt(s, ext, r.value.0) == Some(r.value.1)
    ensures r.Some? ==> forall p :: from <= p < r.value.0 ==> MatchAt(s, ext, p).None?
    ensures r.None? ==> forall p :: from <= p < |s| ==> MatchAt(s, ext, p).None?
    decreases |s| - from
  {
    if from >= |s| then None
    else
      var q := MatchAt(s, ext, from);
      if q.Some? then Some((from, q.value)) else FirstMatch(s, ext, from + 1)
  }

  /** `s.sub(pattern, '')`: the leftmost match removed, or s itself when nothing matches. Every
      match is non-empty, so the string changes exactly when the pattern matches somewhere. */
  function Sub(s: string, ext: string): (r: string)
    requires |ext| >= 1
    ensures |r| <= |s|
    ensures r == s <==> forall p :: 0 <= p < |s| ==> MatchAt(s, ext, p).None?
  {
    var m := FirstMatch(s, ext, 0);
    if m.None? then s
    else
      var r := s[..m.value.0] + s[m.value.1..];
      assert |r| < |s|;
      r
  }

  /** The extension, read as a pattern, always matches where the extension itself starts. */
  lemma ExtMatchesAtItself(s: string)
    requires HasExt(s)
    ensures MatchAt(s, Ext(s), |Base(s)|).Some?
  {
    var b, e := Base(s), Ext(s);
    assert s[|b|..] == e;
    assert s[|b|] == e[0] == '.';
    assert s[|b| + 1..|b| + |e|] == e[1..];
    assert DotExtAt(s, e, |b|);
  }

  /** `filename_stem(filename)` as written: the extension pattern matches at the latest where
      the extension starts, so something is always removed. */
  function RubyFilenameStem(s: string): (r: string)
    requires HasExt(s)
    ensures |r| < |s|
  {
    ExtMatchesAtItself(s);
    Sub(s, Ext(s))
  }

  /** A name whose extension, read as a pattern, matches nowhere before the extension itself. */
  predicate ValidName(s: string) {
    HasExt(s) && forall p :: 0 <= p < |Base(s)| ==> !DotExtAt(s, Ext(s), p)
  }

  // ---------------------------------------------------------------- agreement on valid names

  /** On a valid name the extension pattern matches exactly at the extension. */
  lemma ExtOnlyAtEnd(s: string, x: nat)
    requires ValidName(s)
    ensures DotExtAt(s, Ext(s), x) <==> x == |Base(s)|
  {
    var b, e := Base(s), Ext(s);
    assert s[|b|..] == e;
    assert s[|b|] == '.';
    assert s[|b| + 1..|b| + |e|] == e[1..];
  }

  lemma {:induction false} TryGroupsNone(s: string, ext: string, i: nat, k: nat)
    requires |ext| >= 1 && forall j :: 0 <= j <= k ==> !DotExtAt(s, ext, i + 2 * j)
    ensures TryGroups(s, ext, i, k) == None
  {
    if k > 0 {
      TryGroupsNone(s, ext, i, k - 1);
    }
  }

  /** j groups from i on that end exactly where the extension starts make a marker. */
  lemma GroupsReachEnd(s: string, p: nat)
    requires HasExt(s) && p + 5 <= |s| && s[p..p + 5] == " copy"
    ensures forall j :: 0 <= j <= GroupsAt(s, p + 5) && p + 5 + 2 * j == |Base(s)| ==> MarkedAt(Base(s), p)
  {
    var b, m := Base(s), GroupsAt(s, p + 5);
    GroupsAtAre(s, p + 5);
    forall j | 0 <= j <= m && p + 5 + 2 * j == |b| ensures MarkedAt(b, p) {
      assert b[p..p + 5] == s[p..p + 5];
      var g := b[p + 5..];
      forall k | 0 <= k < |g| ensures if k % 2 == 0 then g[k] == ' ' else IsAsciiDigit(g[k]) {
        var h := k / 2;
        assert k == 2 * h + k % 2;
        assert s[p + 5 + 2 * h] == ' ' && IsAsciiDigit(s[p + 5 + 2 * h + 1]);
      }
    }
  }

  /** Before the marker, nothing matches. */
  lemma NoMatchBefore(s: string, p: nat)
    requires ValidName(s) && p < |Base(s)| && !MarkedAt(Base(s), p)
    ensures MatchAt(s, Ext(s), p) == None
  {
    var b, e := Base(s), Ext(s);
    ExtOnlyAtEnd(s, p);
    if p + 5 <= |s| && s[p..p + 5] == " copy" {
      var m := GroupsAt(s, p + 5);
      GroupsReachEnd(s, p);
      forall j | 0 <= j <= m ensures !DotExtAt(s, e, p + 5 + 2 * j) {
        ExtOnlyAtEnd(s, p + 5 + 2 * j);
      }
      TryGroupsNone(s, e, p + 5, m);
    }
  }

  /** A run of exactly j groups, stopped by something other than a group. */
  lemma {:induction false} GroupsAtExact(s: string, i: nat, j: nat)
    requires i + 2 * j <= |s| && IsGroups(s[i..i + 2 * j])
    requires !(i + 2 * j + 2 <= |s| && s[i + 2 * j] == ' ' && IsAsciiDigit(s[i + 2 * j + 1]))
    ensures GroupsAt(s, i) == j
    decreases j
  {
    var g := s[i..i + 2 * j];
    if j > 0 {
      assert g[0] == s[i] && g[1] == s[i + 1];
      var g' := s[i + 2..i + 2 * j];
      assert i + 2 + 2 * (j - 1) == i + 2 * j;
      forall k | 0 <= k < |g'| ensures if k % 2 == 0 then g'[k] == ' ' else IsAsciiDigit(g'[k]) {
        assert g'[k] == g[k + 2];
      }
      GroupsAtExact(s, i + 2, j - 1);
    }
  }

  /** At the marker, or at the extension when there is none, the match runs to the end. */
  lemma MatchAtMarker(s: string)
    requires ValidName(s)
    ensures MatchAt(s, Ext(s), MarkerStart(s)) == Some(|s|)
  {
    if MarkerStart(s) < |Base(s)| {
      MatchAtCopy(s);
    } else {
      MatchAtExt(s);
    }
  }

  lemma MatchAtExt(s: string)
    requires ValidName(s)
    ensures MatchAt(s, Ext(s), |Base(s)|) == Some(|s|)
  {
    var b, e := Base(s), Ext(s);
    ExtOnlyAtEnd(s, |b|);
    assert s[|b|..] == e;
    assert s[|b|] == '.';
    if |b| + 5 <= |s| {
      assert s[|b|..|b| + 5][0] == '.';
    }
  }

  lemma MatchAtCopy(s: string)
    requires ValidName(s) && MarkerStart(s) < |Base(s)|
    ensures MatchAt(s, Ext(s), MarkerStart(s)) == Some(|s|)
  {
    var b, e, mk := Base(s), Ext(s), MarkerStart(s);
    var t := TrailingGroupsStart(b);
    assert mk == t - 5 && b[t - 5..t] == " copy";
    var j := (|b| - t) / 2;
    assert t + 2 * j == |b|;
    assert s[..|b|] == b && s[|b|..] == e;
    assert s[mk..mk + 5] == " copy" by { assert s[mk..mk + 5] == b[mk..mk + 5]; }
    assert GroupsAt(s, t) == j by {
      assert s[t..t + 2 * j] == b[t..];
      assert s[|b|] == '.' by { assert s[|b|] == e[0]; }
      GroupsAtExact(s, t, j);
    }
    assert DotExtAt(s, e, t + 2 * j) by { ExtOnlyAtEnd(s, t + 2 * j); }
    MatchThroughGroups(s, e, mk, j);
  }

  /** ` copy`, then exactly m groups, then the extension running to the end: a match to
      the end. */
  lemma MatchThroughGroups(s: string, e: string, mk: nat, m: nat)
    requires |e| >= 1 && mk + 5 <= |s| && s[mk..mk + 5] == " copy"
    requires GroupsAt(s, mk + 5) == m && DotExtAt(s, e, mk + 5 + 2 * m)
    requires mk + 5 + 2 * m + |e| == |s|
    ensures MatchAt(s, e, mk) == Some(|s|)
  {
    assert TryGroups(s, e, mk + 5, m) == Some(|s|);
  }

  lemma {:induction false} FirstMatchFrom(s: string, p: nat)
    requires ValidName(s) && p <= MarkerStart(s)
    ensures FirstMatch(s, Ext(s), p) == Some((MarkerStart(s), |s|))
    decreases MarkerStart(s) - p
  {
    if p == MarkerStart(s) {
      FirstMatchAtMarker(s);
    } else {
      FirstMatchSkips(s, p);
      FirstMatchFrom(s, p + 1);
    }
  }

  /** Searching from the marker finds the match that runs from it to the end. */
  lemma FirstMatchAtMarker(s: string)
    requires ValidName(s)
    ensures FirstMatch(s, Ext(s), MarkerStart(s)) == Some((MarkerStart(s), |s|))
  {
    MatchAtMarker(s);
    assert MarkerStart(s) < |s|;
  }

  /** Before the marker the search moves on, as nothing matches there. */
  lemma FirstMatchSkips(s: string, p: nat)
    requires ValidName(s) && p < MarkerStart(s)
    ensures FirstMatch(s, Ext(s), p) == FirstMatch(s, Ext(s), p + 1)
  {
    var b := Base(s);
    forall i | MarkedAt(b, i) ensures MarkerStart(s) == i {
      GroupsStartAtMarker(b, i);
    }
    NoMatchBefore(s, p);
    assert p < |s|;
  }

  /** A name is valid when some letter of its extension, other than the dot, occurs neither
      in the base nor earlier in the extension: the pattern cannot match before the end. */
  lemma ValidByLetter(b: string, ext: string, k: nat)
    requires |b| > 0 && b[0] != '.' && '\n' !in b && IsExt(ext)
    requires 1 <= k < |ext| && ext[k] !in b && ext[k] !in ext[..k]
    ensures HasExt(b + ext) && Base(b + ext) == b && Ext(b + ext) == ext
    ensures ValidName(b + ext)
  {
    SplitName(b, ext);
    var s := b + ext;
    forall p | 0 <= p < |b| ensures !DotExtAt(s, ext, p) {
      assert s[p + k] != ext[k] by {
        if p + k < |b| {
          assert s[p + k] == b[p + k];
        } else {
          assert s[p + k] == ext[..k][p + k - |b|];
        }
      }
      if p + |ext| <= |s| {
        assert s[p + 1..p + |ext|][k - 1] == s[p + k];
        assert ext[1..][k - 1] == ext[k];
      }
    }
  }

  /** On a name valid by one of its extension's letters, Stem is the source's filename_stem. */
  lemma SourceStemByLetter(s: string, b: string, ext: string, k: nat)
    requires s == b + ext && |b| > 0 && b[0] != '.' && '\n' !in b && IsExt(ext)
    requires 1 <= k < |ext| && ext[k] !in b && ext[k] !in ext[..k]
    ensures HasExt(s) && ValidName(s) && RubyFilenameStem(s) == Stem(s)
  {
    ValidByLetter(b, ext, k);
    RubyStemAgrees(s);
  }

  /** A `.txt` name whose base has no `x` is valid, so its Stem is the source's filename_stem. */
  lemma TxtSourceStem(s: string, b: string)
    requires s == b + ".txt" && |b| > 0 && b[0] != '.' && '\n' !in b && 'x' !in b
    ensures HasExt(s) && ValidName(s) && RubyFilenameStem(s) == Stem(s)
  {
    assert IsExt(".txt") && ".txt"[2] == 'x' && 'x' !in ".txt"[..2];
    SourceStemByLetter(s, b, ".txt", 2);
  }

  /** On a valid name the source's `sub` removes exactly what Stem removes: the marker in
      front of the extension, if any, and the extension. */
  lemma RubyStemAgrees(s: string)
    requires ValidName(s)
    ensures RubyFilenameStem(s) == Stem(s)
  {
    FirstMatchFrom(s, 0);
    assert s[|s|..] == [];
  }

  // ---------------------------------------------------------------- where the source goes wrong

  /** The unescaped '.' lets `.c` match `bc`, two characters before the real extension. */
  lemma RubyStemUnescapedDot()
    ensures HasExt("abc.c") && Stem("abc.c") == "abc" && RubyFilenameStem("abc.c") == "a.c"
  {
    var s := "abc.c";
    assert "abc" + ".c" == s;
    SplitName("abc", ".c");
    StemWithoutMarker(s);
    assert Sub(s, ".c") == "a.c" by { SubUnescapedDot(); }
  }

  lemma SubUnescapedDot()
    ensures Sub("abc.c", ".c") == "a.c"
  {
    var s := "abc.c";
    assert FirstMatch(s, ".c", 0) == Some((1, 3)) by {
      assert MatchAt(s, ".c", 0) == None by { NoMatchAtA(); }
      assert FirstMatch(s, ".c", 1) == Some((1, 3)) by { MatchAtB(); }
    }
    assert s[..1] + s[3..] == "a.c";
  }

  lemma NoMatchAtA()
    ensures MatchAt("abc.c", ".c", 0) == None
  {
    var s := "abc.c";
    assert s[0..5][0] == 'a';
    assert s[1..2][0] == 'b';
  }

  lemma MatchAtB()
    ensures MatchAt("abc.c", ".c", 1) == Some(3)
  {
    var s := "abc.c";
    assert s[2..3] == "c";
    assert DotExtAt(s, ".c", 1);
  }

  /** ValidName is sufficient, not necessary: in `x.a.a` the pattern `.a` also matches at the
      first dot, yet removing that earlier match leaves the same stem. */
  lemma RubyStemRepeatedExt()
    ensures HasExt("x.a.a") && !ValidName("x.a.a")
    ensures Stem("x.a.a") == "x.a" && RubyFilenameStem("x.a.a") == "x.a"
  {
    var s := "x.a.a";
    assert "x.a" + ".a" == s;
    SplitName("x.a", ".a");
    StemWithoutMarker(s);
    assert DotExtAt(s, ".a", 1) by { assert s[2..3] == "a"; }
    assert Sub(s, ".a") == "x.a" by { SubRepeatedExt(); }
  }

  lemma SubRepeatedExt()
    ensures Sub("x.a.a", ".a") == "x.a"
  {
    var s := "x.a.a";
    assert FirstMatch(s, ".a", 0) == Some((1, 3)) by {
      assert MatchAt(s, ".a", 0) == None by {
        assert s[0..5][0] == 'x';
        assert s[1..2][0] == '.';
      }
      assert FirstMatch(s, ".a", 1) == Some((1, 3)) by {
        assert s[2..3] == "a";
        assert DotExtAt(s, ".a", 1);
      }
    }
    assert s[..1] + s[3..] == "x.a";
  }

  /** Nothing anchors the pattern at the end: an earlier `.txt` is removed instead of the
      marker and the extension. */
  lemma RubyStemUnanchored()
    ensures HasExt("a.txt copy.txt") && Stem("a.txt copy.txt") == "a.txt"
    ensures RubyFilenameStem("a.txt copy.txt") == "a copy.txt"
  {
    BareCopyName("a.txt", ".txt");
    assert "a.txt" + " copy" + ".txt" == "a.txt copy.txt";
    SubUnanchored();
  }

  lemma SubUnanchored()
    ensures Sub("a.txt copy.txt", ".txt") == "a copy.txt"
  {
    var s := "a.txt copy.txt";
    assert FirstMatch(s, ".txt", 0) == Some((1, 5)) by {
      assert MatchAt(s, ".txt", 0) == None by { NoMatchAtLetter(); }
      assert FirstMatch(s, ".txt", 1) == Some((1, 5)) by { MatchAtEarlierDot(); }
    }
    assert s[..1] + s[5..] == "a copy.txt";
  }

  lemma NoMatchAtLetter()
    ensures MatchAt("a.txt copy.txt", ".txt", 0) == None
  {
    var s := "a.txt copy.txt";
    assert s[0..5][0] == 'a';
    assert s[1..4][0] == '.';
  }

  lemma MatchAtEarlierDot()
    ensures MatchAt("a.txt copy.txt", ".txt", 1) == Some(5)
  {
    var s := "a.txt copy.txt";
    assert s[1..6][0] == '.';
    assert s[2..5] == "txt";
    assert DotExtAt(s, ".txt", 1);
  }
}
