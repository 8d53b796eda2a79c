/** The two string helpers of the canonical linter: deriving a component name
    from a file name, and counting the BEM element separator `__`. */
module ComponentName {
  import opened Ascii

  /** Concatenation of a list of string pieces. */
  function Concat(pieces: seq<string>): (s: string) {
    if |pieces| == 0 then [] else pieces[0] + Concat(pieces[1..])
  }

  /** `s.split(/(?=[A-Z])/)`: cut the string right before every upper-case
      letter that is not at index 0. A JavaScript split never cuts at an empty
      match at the start of the remaining input, and `"".split(…)` is `[""]`. */
  function SplitBeforeUpper(s: string): (pieces: seq<string>)
    ensures |pieces| >= 1
    decreases |s|
  {
    if |s| <= 1 then [s]
    else
      var rest := SplitBeforeUpper(s[1..]);
      if IsUpper(s[1]) then [s[..1]] + rest
      else [[s[0]] + rest[0]] + rest[1..]
  }

  /** The first piece starts with the first character of the input. */
  lemma SplitBeforeUpperHead(s: string)
    requires |s| > 0
    ensures var pieces := SplitBeforeUpper(s);
            |pieces[0]| > 0 && pieces[0][0] == s[0]
  {
  }

  /** The pieces put back together give the input. */
  lemma {:induction false} SplitBeforeUpperConcat(s: string)
    ensures Concat(SplitBeforeUpper(s)) == s
    decreases |s|
  {
    if |s| <= 1 {
      assert Concat([s]) == s + Concat([]);
    } else {
      var rest := SplitBeforeUpper(s[1..]);
      SplitBeforeUpperConcat(s[1..]);
      assert Concat(rest) == rest[0] + Concat(rest[1..]);
      if IsUpper(s[1]) {
        assert ([s[..1]] + rest)[1..] == rest;
        assert s == s[..1] + s[1..];
      } else {
        var pieces := [[s[0]] + rest[0]] + rest[1..];
        assert pieces[1..] == rest[1..];
        assert s == [s[0]] + s[1..];
      }
    }
  }

  /** Every piece but the first is non-empty and starts with a capital. */
  lemma {:induction false} SplitBeforeUpperCuts(s: string)
    ensures forall i :: 1 <= i < |SplitBeforeUpper(s)| ==>
              |SplitBeforeUpper(s)[i]| > 0 && IsUpper(SplitBeforeUpper(s)[i][0])
    decreases |s|
  {
    if |s| > 1 {
      var rest := SplitBeforeUpper(s[1..]);
      SplitBeforeUpperCuts(s[1..]);
      if IsUpper(s[1]) {
        SplitBeforeUpperHead(s[1..]);
        var pieces := [s[..1]] + rest;
        assert forall i :: 1 <= i < |pieces| ==> pieces[i] == rest[i - 1];
      } else {
        var pieces := [[s[0]] + rest[0]] + rest[1..];
        assert forall i :: 1 <= i < |pieces| ==> pieces[i] == rest[i];
      }
    }
  }

  /** No piece holds a capital after its first character. */
  lemma {:induction false} SplitBeforeUpperWords(s: string)
    ensures forall i :: 0 <= i < |SplitBeforeUpper(s)| ==> NoUpperAfterFirst(SplitBeforeUpper(s)[i])
    decreases |s|
  {
    if |s| > 1 {
      var rest := SplitBeforeUpper(s[1..]);
      SplitBeforeUpperWords(s[1..]);
      if IsUpper(s[1]) {
        var pieces := [s[..1]] + rest;
        assert NoUpperAfterFirst(s[..1]);
        forall i | 1 <= i < |pieces| ensures NoUpperAfterFirst(pieces[i]) {
          assert pieces[i] == rest[i - 1] && NoUpperAfterFirst(rest[i - 1]);
        }
      } else {
        SplitBeforeUpperHead(s[1..]);
        var head := [s[0]] + rest[0];
        assert NoUpperAfterFirst(head) by {
          forall j | 1 <= j < |head| ensures !IsUpper(head[j]) {
            assert head[j] == rest[0][j - 1];
          }
        }
        var pieces := [head] + rest[1..];
        forall i | 1 <= i < |pieces| ensures NoUpperAfterFirst(pieces[i]) {
          assert pieces[i] == rest[i] && NoUpperAfterFirst(rest[i]);
        }
      }
    }
  }

  /** `pieces` cut `s` into words: they give back `s`, every piece after the
      first starts with a capital, no piece has a capital after its first
      character, and no piece is empty unless `s` is. */
  predicate IsWordSplit(s: string, pieces: seq<string>) {
    && |pieces| >= 1
    && Concat(pieces) == s
    && (|s| > 0 ==> |pieces[0]| > 0)
    && (forall i :: 1 <= i < |pieces| ==> |pieces[i]| > 0 && IsUpper(pieces[i][0]))
    && (forall i :: 0 <= i < |pieces| ==> NoUpperAfterFirst(pieces[i]))
  }

  /** The split cuts `s` into words. */
  lemma SplitBeforeUpperPieces(s: string)
    ensures IsWordSplit(s, SplitBeforeUpper(s))
  {
    SplitBeforeUpperConcat(s);
    if |s| > 0 {
      SplitBeforeUpperHead(s);
    }
    SplitBeforeUpperCuts(s);
    SplitBeforeUpperWords(s);
  }

  /** A non-empty first piece followed by more pieces concatenates to it
      followed by a non-empty rest. */
  lemma ConcatCons(pieces: seq<string>)
    requires |pieces| >= 2 && |pieces[1]| > 0
    ensures Concat(pieces) == pieces[0] + Concat(pieces[1..])
    ensures |Concat(pieces[1..])| > 0
  {
    assert Concat(pieces[1..]) == pieces[1] + Concat(pieces[2..]) by {
      assert pieces[1..][1..] == pieces[2..];
    }
  }

  /** The pieces concatenate to the first piece followed by the others. */
  lemma WordSplitHead(s: string, pieces: seq<string>)
    requires IsWordSplit(s, pieces)
    ensures s == pieces[0] + Concat(pieces[1..])
    ensures |pieces| >= 2 ==> |Concat(pieces[1..])| > 0
    ensures |pieces| == 1 ==> s == pieces[0]
  {
    if |pieces| >= 2 {
      ConcatCons(pieces);
    } else {
      assert pieces[1..] == [];
    }
  }

  /** A one-character first piece is followed by pieces that cut the rest
      of the input into words, and the next character is a capital. */
  lemma WordSplitDropFirst(s: string, pieces: seq<string>)
    requires |s| >= 2 && IsWordSplit(s, pieces) && |pieces[0]| == 1
    ensures IsWordSplit(s[1..], pieces[1..])
    ensures IsUpper(s[1]) && pieces[0] == s[..1]
  {
    var rest := pieces[1..];
    WordSplitHead(s, pieces);
    assert Concat(rest) == s[1..];
    assert Concat(rest) == rest[0] + Concat(rest[1..]);
    assert forall i :: 1 <= i < |rest| ==> rest[i] == pieces[i + 1];
  }

  /** A longer first piece, without its first character, and the other
      pieces cut the rest of the input into words, and the next character is
      no capital. */
  lemma WordSplitShift(s: string, pieces: seq<string>)
    requires |s| >= 2 && IsWordSplit(s, pieces) && |pieces[0]| >= 2
    ensures IsWordSplit(s[1..], [pieces[0][1..]] + pieces[1..])
    ensures !IsUpper(s[1]) && pieces[0] == [s[0]] + pieces[0][1..]
  {
    var p := pieces[0];
    var shifted := [p[1..]] + pieces[1..];
    WordSplitHead(s, pieces);
    assert shifted[1..] == pieces[1..];
    assert Concat(shifted) == p[1..] + Concat(pieces[1..]);
    assert forall i :: 1 <= i < |shifted| ==> shifted[i] == pieces[i];
    forall j | 1 <= j < |p[1..]| ensures !IsUpper(p[1..][j]) {
      assert p[1..][j] == p[j + 1];
    }
  }

  /** Only one list of pieces cuts `s` into words. */
  lemma {:induction false} WordSplitIsUnique(s: string, pieces: seq<string>)
    requires IsWordSplit(s, pieces)
    ensures pieces == SplitBeforeUpper(s)
    decreases |s|
  {
    WordSplitHead(s, pieces);
    if |s| >= 2 {
      var t := s[1..];
      var rest := pieces[1..];
      if |pieces[0]| == 1 {
        WordSplitDropFirst(s, pieces);
        WordSplitIsUnique(t, rest);
        assert pieces == [s[..1]] + rest;
      } else {
        var shifted := [pieces[0][1..]] + rest;
        WordSplitShift(s, pieces);
        WordSplitIsUnique(t, shifted);
        assert shifted[1..] == rest;
        assert pieces == [[s[0]] + shifted[0]] + shifted[1..];
      }
    }
  }

  /** The split is characterised by its pieces cutting the input into
      words: a list of pieces is the split exactly when it does. */
  lemma SplitBeforeUpperCharacterised(s: string, pieces: seq<string>)
    ensures pieces == SplitBeforeUpper(s) <==> IsWordSplit(s, pieces)
  {
    SplitBeforeUpperPieces(s);
    if IsWordSplit(s, pieces) {
      WordSplitIsUnique(s, pieces);
    }
  }


  /** `pieces.join(sep)`. */
  function Join(pieces: seq<string>, sep: char): (r: string)
    requires |pieces| >= 1
    decreases |pieces|
  {
    if |pieces| == 1 then pieces[0] else pieces[0] + [sep] + Join(pieces[1..], sep)
  }

  /** Character-level reading of split-then-join: an underscore is inserted
      before every upper-case letter after the first character. */
  function SeparateWords(s: string): (r: string) {
    if |s| == 0 then [] else [s[0]] + MarkUpper(s[1..])
  }

  /** Inserts `_` before every upper-case letter of `t`. */
  function MarkUpper(t: string): (r: string) {
    if |t| == 0 then []
    else (if IsUpper(t[0]) then ['_', t[0]] else [t[0]]) + MarkUpper(t[1..])
  }

  /** Number of upper-case letters after index 0, i.e. the number of cuts. */
  function UppersAfterFirst(s: string): (n: nat) {
    if |s| == 0 then 0 else CountUpper(s[1..])
  }

  /** `toComponentName(fileName)`: split before capitals, join with `_`,
      lower-case. */
  function ToComponentName(fileName: string): (componentName: string) {
    LowerCase(Join(SplitBeforeUpper(fileName), '_'))
  }

  /** The component name is lower-case, is the lower-casing of the file name
      with `_` inserted before every capital after index 0, and so is one
      character longer than the file name per such capital. */
  lemma ComponentNameShape(fileName: string)
    ensures var r := ToComponentName(fileName);
            && NoUpper(r)
            && r == LowerCase(SeparateWords(fileName))
            && |r| == |fileName| + UppersAfterFirst(fileName)
  {
    SplitJoinIsSeparateWords(fileName);
    SeparateWordsLength(fileName);
  }

  lemma JoinConsHead(c: char, p: string, ps: seq<string>, sep: char)
    ensures Join([[c] + p] + ps, sep) == [c] + Join([p] + ps, sep)
  {
    if |ps| > 0 {
      assert ([[c] + p] + ps)[1..] == ps;
      assert ([p] + ps)[1..] == ps;
    }
  }

  /** Splitting before capitals and joining with `_` is the same as inserting
      `_` before every capital after index 0. */
  lemma {:induction false} SplitJoinIsSeparateWords(s: string)
    ensures Join(SplitBeforeUpper(s), '_') == SeparateWords(s)
    decreases |s|
  {
    if |s| <= 1 {
      if |s| == 1 {
        assert SeparateWords(s) == [s[0]] + MarkUpper([]);
      }
    } else {
      var t := s[1..];
      var rest := SplitBeforeUpper(t);
      SplitBeforeUpperHead(t);
      SplitJoinIsSeparateWords(t);
      assert SeparateWords(s) == [s[0]] + MarkUpper(t);
      assert SeparateWords(t) == [t[0]] + MarkUpper(t[1..]);
      if IsUpper(s[1]) {
        var pieces := [s[..1]] + rest;
        assert pieces[1..] == rest;
        assert MarkUpper(t) == ['_', t[0]] + MarkUpper(t[1..]);
        assert Join(pieces, '_') == s[..1] + ['_'] + Join(rest, '_');
      } else {
        assert MarkUpper(t) == [t[0]] + MarkUpper(t[1..]);
        assert rest == [rest[0]] + rest[1..];
        JoinConsHead(s[0], rest[0], rest[1..], '_');
      }
    }
  }


  lemma {:induction false} MarkUpperLength(t: string)
    ensures |MarkUpper(t)| == |t| + CountUpper(t)
  {
    if |t| > 0 {
      MarkUpperLength(t[1..]);
    }
  }

  lemma SeparateWordsLength(s: string)
    ensures |SeparateWords(s)| == |s| + UppersAfterFirst(s)
  {
    if |s| > 0 {
      MarkUpperLength(s[1..]);
    }
  }

  lemma {:induction false} MarkUpperWithoutCapitals(t: string)
    requires NoUpper(t)
    ensures MarkUpper(t) == t
  {
    if |t| > 0 {
      assert NoUpper(t[1..]) by {
        forall i | 0 <= i < |t[1..]| ensures !IsUpper(t[1..][i]) {
          assert t[1..][i] == t[i + 1];
        }
      }
      MarkUpperWithoutCapitals(t[1..]);
    }
  }

  /** A file name with no capital after index 0 maps to its plain
      lower-casing, and only such a name does. */
  lemma {:induction false} ComponentNameIsLowerCaseIff(s: string)
    ensures ToComponentName(s) == LowerCase(s) <==> NoUpperAfterFirst(s)
  {
    ComponentNameShape(s);
    if NoUpperAfterFirst(s) {
      if |s| > 0 {
        assert NoUpper(s[1..]) by {
          forall i | 0 <= i < |s[1..]| ensures !IsUpper(s[1..][i]) {
            assert s[1..][i] == s[i + 1];
          }
        }
        MarkUpperWithoutCapitals(s[1..]);
        assert SeparateWords(s) == s;
      }
    } else {
      var i :| 1 <= i < |s| && IsUpper(s[i]);
      assert s[1..][i - 1] == s[i];
      assert !NoUpper(s[1..]);
      assert |ToComponentName(s)| > |LowerCase(s)|;
    }
  }

  /** Deriving the component name twice gives the same string. */
  lemma ComponentNameIdempotent(s: string)
    ensures ToComponentName(ToComponentName(s)) == ToComponentName(s)
  {
    var r := ToComponentName(s);
    ComponentNameShape(s);
    ComponentNameIsLowerCaseIff(r);
    LowerCaseOfLowerIsIdentity(r);
  }

  lemma {:induction false} MarkUpperAppend(x: string, y: string)
    ensures MarkUpper(x + y) == MarkUpper(x) + MarkUpper(y)
    decreases |x|
  {
    if |x| == 0 {
      assert x + y == y;
    } else {
      assert (x + y)[1..] == x[1..] + y;
      MarkUpperAppend(x[1..], y);
    }
  }

  /** Two capitalised words: `FooBar` becomes `foo_bar`. */
  lemma TwoWordComponentName(first: string, second: string)
    requires |first| > 0 && NoUpperAfterFirst(first)
    requires |second| > 0 && IsUpper(second[0]) && NoUpperAfterFirst(second)
    ensures ToComponentName(first + second) == LowerCase(first) + "_" + LowerCase(second)
  {
    var s := first + second;
    assert s[1..] == first[1..] + second;
    MarkUpperAppend(first[1..], second);
    assert NoUpper(first[1..]) by {
      forall i | 0 <= i < |first[1..]| ensures !IsUpper(first[1..][i]) {
        assert first[1..][i] == first[i + 1];
      }
    }
    MarkUpperWithoutCapitals(first[1..]);
    assert NoUpper(second[1..]) by {
      forall i | 0 <= i < |second[1..]| ensures !IsUpper(second[1..][i]) {
        assert second[1..][i] == second[i + 1];
      }
    }
    MarkUpperWithoutCapitals(second[1..]);
    assert MarkUpper(second) == ['_', second[0]] + MarkUpper(second[1..]);
    assert SeparateWords(s) == first + "_" + second;
    ComponentNameShape(s);
    var r := ToComponentName(s);
    assert r == LowerCase(first) + "_" + LowerCase(second) by {
      var l := LowerCase(first) + "_" + LowerCase(second);
      assert |r| == |l|;
      forall i | 0 <= i < |r| ensures r[i] == l[i] {
        if i < |first| {
          assert SeparateWords(s)[i] == first[i];
        } else if i > |first| {
          assert SeparateWords(s)[i] == second[i - |first| - 1];
        }
      }
    }
  }

  /** The example of the source's own documentation, as the code computes it:
      the separator is an underscore. */
  lemma SearchFieldExample(fileName: string)
    requires fileName == "SearchField"
    ensures ToComponentName(fileName) == "search_field"
  {
    assert fileName == "Search" + "Field";
    TwoWordComponentName("Search", "Field");
    assert LowerCase("Search") == "search";
    assert LowerCase("Field") == "field";
  }

  // ---------------------------------------------------------------------
  // The element separator `__`

  /** `s` holds `__` at index `i`. */
  predicate DoubleLowDashAt(s: string, i: int) {
    0 <= i && i + 2 <= |s| && s[i] == '_' && s[i + 1] == '_'
  }

  /** Matches of the global expression `/__/g` from `lastIndex` on: the
      leftmost match is taken and the search resumes right after it, so
      matches never overlap. */
  function CountMatchesFrom(s: string, lastIndex: nat): (n: nat)
    decreases |s| - lastIndex
  {
    if lastIndex + 2 > |s| then 0
    else if DoubleLowDashAt(s, lastIndex) then 1 + CountMatchesFrom(s, lastIndex + 2)
    else CountMatchesFrom(s, lastIndex + 1)
  }

  /** Length of `name.match(/__/g)`, with no match (`null`) counted as 0. */
  function CountDoubleLowDash(s: string): (n: nat) {
    CountMatchesFrom(s, 0)
  }

  /** Two non-overlapping occurrences of `__`. */
  ghost predicate HasTwoDoubleLowDashes(s: string) {
    exists i, j :: i + 2 <= j && DoubleLowDashAt(s, i) && DoubleLowDashAt(s, j)
  }

  /** `containsDoubleLowDashMoreThanOnce(name)`. */
  function ContainsDoubleLowDashMoreThanOnce(name: string): (b: bool)
    ensures b <==> HasTwoDoubleLowDashes(name)
  {
    CountFromAtLeastTwo(name, 0);
    CountDoubleLowDash(name) > 1
  }

  /** Each match consumes two characters. */
  lemma {:induction false} CountMatchesFromBound(s: string, lastIndex: nat)
    requires lastIndex <= |s|
    ensures 2 * CountMatchesFrom(s, lastIndex) <= |s| - lastIndex
    decreases |s| - lastIndex
  {
    if lastIndex + 2 <= |s| {
      if DoubleLowDashAt(s, lastIndex) {
        CountMatchesFromBound(s, lastIndex + 2);
      } else {
        CountMatchesFromBound(s, lastIndex + 1);
      }
    }
  }

  /** The search from `lastIndex` finds a match exactly when `__` occurs at
      or after `lastIndex`. */
  lemma {:induction false} CountFromPositive(s: string, lastIndex: nat)
    ensures CountMatchesFrom(s, lastIndex) >= 1 <==> exists k :: lastIndex <= k && DoubleLowDashAt(s, k)
    decreases |s| - lastIndex
  {
    if lastIndex + 2 <= |s| && !DoubleLowDashAt(s, lastIndex) {
      CountFromPositive(s, lastIndex + 1);
      if exists k :: lastIndex <= k && DoubleLowDashAt(s, k) {
        var k :| lastIndex <= k && DoubleLowDashAt(s, k);
        assert lastIndex + 1 <= k;
      }
    }
  }

  /** The search from `lastIndex` finds two matches exactly when two disjoint
      `__` occur at or after `lastIndex`. */
  lemma {:induction false} CountFromAtLeastTwo(s: string, lastIndex: nat)
    ensures (CountMatchesFrom(s, lastIndex) >= 2)
              <==> exists k, l :: lastIndex <= k && k + 2 <= l && DoubleLowDashAt(s, k) && DoubleLowDashAt(s, l)
    decreases |s| - lastIndex
  {
    if lastIndex + 2 <= |s| {
      if DoubleLowDashAt(s, lastIndex) {
        CountFromPositive(s, lastIndex + 2);
        if CountMatchesFrom(s, lastIndex + 2) >= 1 {
          var l :| lastIndex + 2 <= l && DoubleLowDashAt(s, l);
          assert DoubleLowDashAt(s, lastIndex);
        }
        if exists k, l :: lastIndex <= k && k + 2 <= l && DoubleLowDashAt(s, k) && DoubleLowDashAt(s, l) {
          var k, l :| lastIndex <= k && k + 2 <= l && DoubleLowDashAt(s, k) && DoubleLowDashAt(s, l);
          assert lastIndex + 2 <= l;
        }
      } else {
        CountFromAtLeastTwo(s, lastIndex + 1);
        if exists k, l :: lastIndex <= k && k + 2 <= l && DoubleLowDashAt(s, k) && DoubleLowDashAt(s, l) {
          var k, l :| lastIndex <= k && k + 2 <= l && DoubleLowDashAt(s, k) && DoubleLowDashAt(s, l);
          assert lastIndex + 1 <= k;
        }
      }
    }
  }

  /** Matches do not overlap: three underscores hold one match. */
  lemma ThreeLowDashesCountOnce()
    ensures CountDoubleLowDash("___") == 1
    ensures !ContainsDoubleLowDashMoreThanOnce("___")
  {
  }

  /** Four underscores hold two matches. */
  lemma FourLowDashesCountTwice()
    ensures CountDoubleLowDash("____") == 2
  {
  }

  /** The source's example of an ill-formed name, and a well-formed one. */
  lemma DoubleNestingExamples()
    ensures ContainsDoubleLowDashMoreThanOnce("block__one__two")
    ensures !ContainsDoubleLowDashMoreThanOnce("a__b")
  {
  }

  /** Block names of the `SearchField` examples hold no `__`. */
  lemma SingleWordNamesNotNested()
    ensures !ContainsDoubleLowDashMoreThanOnce("search_field")
    ensures !ContainsDoubleLowDashMoreThanOnce("search-field")
  {
  }

  /** Elements of elements of the `SearchField` examples are nested twice. */
  lemma DoublyNestedNames()
    ensures ContainsDoubleLowDashMoreThanOnce("search_field__a__b")
    ensures ContainsDoubleLowDashMoreThanOnce("search-field__a__b")
  {
    assert DoubleLowDashAt("search_field__a__b", 12) && DoubleLowDashAt("search_field__a__b", 15);
    assert DoubleLowDashAt("search-field__a__b", 12) && DoubleLowDashAt("search-field__a__b", 15);
  }
}
