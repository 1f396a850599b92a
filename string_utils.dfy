/**
 * The string helpers of java.lang.String and of Apache commons-lang3 StringUtils that the
 * forwarder relies on, with the exact null, empty and separator behaviour of those libraries.
 * Case-insensitive comparison folds ASCII letters only.
 */
module StringUtils {
  import opened Nullable

  const CR: char := '\r'
  const LF: char := '\n'
  /** EmailUtils.LINE_FEED */
  const LINE_FEED: string := "\r\n"
  /** SNSHandler.SEPARATOR */
  const SEPARATOR: char := ';'

  /** StringUtils.isNotEmpty: not null and at least one character long. */
  predicate IsNotEmpty(s: Option<string>)
  {
    s.Some? && s.value != []
  }

  /** String.endsWith. */
  predicate EndsWith(s: string, suffix: string)
  {
    |suffix| <= |s| && s[|s| - |suffix|..] == suffix
  }

  /** StringUtils.containsNone(cs, searchChars) for non-null arguments. */
  predicate ContainsNone(s: string, chars: string)
  {
    forall i :: 0 <= i < |s| ==> s[i] !in chars
  }

  // ---------------------------------------------------------------------------
  // Case folding

  /** The one case fold of the model: ASCII upper-case letters map to lower case. */
  function FoldChar(c: char): char
  {
    if 'A' <= c <= 'Z' then (c as int + 32) as char else c
  }

  function Lower(s: string): (r: string)
    ensures |r| == |s|
    ensures forall i :: 0 <= i < |s| ==> r[i] == FoldChar(s[i])
  {
    seq(|s|, i requires 0 <= i < |s| => FoldChar(s[i]))
  }

  /** String.equalsIgnoreCase with a non-null argument: same length, equal characters up to folding. */
  predicate EqualsIgnoreCase(a: string, b: string)
  {
    |a| == |b| && forall i :: 0 <= i < |a| ==> FoldChar(a[i]) == FoldChar(b[i])
  }

  /** Comparing ignoring case is comparing the folded strings. */
  lemma EqualsIgnoreCaseIsFoldedEquality(a: string, b: string)
    ensures EqualsIgnoreCase(a, b) <==> Lower(a) == Lower(b)
  {
    if Lower(a) == Lower(b) {
      assert forall i :: 0 <= i < |a| ==> Lower(a)[i] == Lower(b)[i];
    }
  }

  /** `t` occurs in `s` starting at index `i`. */
  predicate OccursAt(t: string, s: string, i: int)
  {
    0 <= i && i + |t| <= |s| && s[i..i + |t|] == t
  }

  /**
   * StringUtils.containsIgnoreCase(str, searchStr) for non-null arguments: a region match
   * ignoring case is tried at every start index from 0 to |str| - |searchStr|.
   */
  predicate ContainsIgnoreCase(str: string, search: string)
  {
    RegionMatchesFrom(str, search, 0)
  }

  predicate RegionMatchesFrom(str: string, search: string, start: nat)
    decreases |str| - start
  {
    start + |search| <= |str| &&
    (EqualsIgnoreCase(str[start..start + |search|], search) || RegionMatchesFrom(str, search, start + 1))
  }

  /** One region compared ignoring case is one occurrence in the folded strings. */
  lemma RegionMatchesAt(str: string, search: string, start: nat)
    requires start + |search| <= |str|
    ensures EqualsIgnoreCase(str[start..start + |search|], search) <==>
            OccursAt(Lower(search), Lower(str), start)
  {
    var region := str[start..start + |search|];
    EqualsIgnoreCaseIsFoldedEquality(region, search);
    assert Lower(str)[start..start + |search|] == Lower(region);
  }

  /** An occurrence at or after `start` is one at `start` or one after it. */
  lemma OccursFromSplit(t: string, s: string, start: nat)
    ensures (exists i :: start <= i && OccursAt(t, s, i)) <==>
            OccursAt(t, s, start) || exists i :: start + 1 <= i && OccursAt(t, s, i)
  {
    if exists i :: start <= i && OccursAt(t, s, i) {
      var i :| start <= i && OccursAt(t, s, i);
      assert i == start || start + 1 <= i;
    }
  }

  lemma {:induction false} RegionMatchesFromIff(str: string, search: string, start: nat)
    ensures RegionMatchesFrom(str, search, start) <==>
            exists i :: start <= i && OccursAt(Lower(search), Lower(str), i)
    decreases |str| - start
  {
    var t, s := Lower(search), Lower(str);
    if start + |search| <= |str| {
      RegionMatchesAt(str, search, start);
      RegionMatchesFromIff(str, search, start + 1);
      OccursFromSplit(t, s, start);
    } else {
      forall i | start <= i
        ensures !OccursAt(t, s, i)
      {
        assert |t| == |search| && |s| == |str|;
      }
    }
  }

  /** Containment ignoring case is substring containment of the folded strings. */
  lemma ContainsIgnoreCaseIsFoldedContainment(str: string, search: string)
    ensures ContainsIgnoreCase(str, search) <==> exists i :: OccursAt(Lower(search), Lower(str), i)
  {
    RegionMatchesFromIff(str, search, 0);
  }

  /** The empty search string is contained in every string. */
  lemma EmptySearchAlwaysContained(str: string)
    ensures ContainsIgnoreCase(str, "")
  {
    assert str[0..0] == "";
  }

  // ---------------------------------------------------------------------------
  // Trimming

  /** Characters String.trim removes: every code point at or below U+0020. */
  predicate IsTrimmable(c: char)
  {
    c <= ' '
  }

  predicate AllTrimmable(s: string)
  {
    forall i :: 0 <= i < |s| ==> IsTrimmable(s[i])
  }

  function DropLeading(s: string): (r: string)
    ensures |r| <= |s| && r == s[|s| - |r|..]
    ensures AllTrimmable(s[..|s| - |r|])
    ensures r == [] || !IsTrimmable(r[0])
  {
    if s != [] && IsTrimmable(s[0]) then DropLeading(s[1..]) else s
  }

  function DropTrailing(s: string): (r: string)
    ensures |r| <= |s| && r == s[..|r|]
    ensures AllTrimmable(s[|r|..])
    ensures r == [] || !IsTrimmable(r[|r| - 1])
  {
    if s != [] && IsTrimmable(s[|s| - 1]) then DropTrailing(s[..|s| - 1]) else s
  }

  /** `r` sits in `s` at offset `a` with nothing but trimmable characters around it. */
  predicate TrimmedAt(s: string, r: string, a: int)
  {
    0 <= a && a + |r| <= |s| && s[a..a + |r|] == r &&
    AllTrimmable(s[..a]) && AllTrimmable(s[a + |r|..])
  }

  /** String.trim. */
  function Trim(s: string): (r: string)
    ensures exists a :: TrimmedAt(s, r, a)
    ensures r == [] || (!IsTrimmable(r[0]) && !IsTrimmable(r[|r| - 1]))
  {
    var t := DropTrailing(s);
    var r := DropLeading(t);
    assert TrimmedAt(s, r, |t| - |r|) by {
      assert s[|t| - |r|..|t|] == t[|t| - |r|..];
      assert s[..|t| - |r|] == t[..|t| - |r|];
    }
    r
  }

  /** StringUtils.trimToEmpty: null becomes "", anything else is trimmed. */
  function TrimToEmpty(s: Option<string>): string
  {
    match s
    case None => ""
    case Some(x) => Trim(x)
  }

  /** A string of blanks only trims to "". */
  lemma TrimBlank(s: string)
    requires AllTrimmable(s)
    ensures Trim(s) == ""
  {
    DropTrailingBlank(s);
  }

  lemma {:induction false} DropTrailingBlank(s: string)
    requires AllTrimmable(s)
    ensures DropTrailing(s) == ""
  {
    if s != [] {
      assert forall i :: 0 <= i < |s| - 1 ==> s[..|s| - 1][i] == s[i];
      DropTrailingBlank(s[..|s| - 1]);
    }
  }

  // ---------------------------------------------------------------------------
  // Splitting on ";"

  /** Every `;`-separated field of `s`, empty fields included: one field more than separators. */
  function Fields(s: string): (fs: seq<string>)
    ensures |fs| >= 1
    ensures forall k :: 0 <= k < |fs| ==> SEPARATOR !in fs[k]
    decreases |s|
  {
    if s == [] then [""]
    else
      var init := Fields(s[..|s| - 1]);
      if s[|s| - 1] == SEPARATOR then init + [""]
      else init[..|init| - 1] + [init[|init| - 1] + [s[|s| - 1]]]
  }

  function DropTrailingEmpty(fs: seq<string>): (r: seq<string>)
    ensures |r| <= |fs| && r == fs[..|r|]
    ensures r == [] || r[|r| - 1] != ""
    ensures forall k :: |r| <= k < |fs| ==> fs[k] == ""
  {
    if fs != [] && fs[|fs| - 1] == "" then DropTrailingEmpty(fs[..|fs| - 1]) else fs
  }

  /**
   * String.split(";") with limit 0: when `;` does not occur the string itself is the only
   * element ("" splits to [""]); otherwise the fields are kept in order and trailing empty
   * fields are removed (";" splits to []).
   */
  function Split(s: string): seq<string>
  {
    if SEPARATOR !in s then [s] else DropTrailingEmpty(Fields(s))
  }

  /** The fields joined back with `;` between them. */
  function Join(fs: seq<string>): string
  {
    if fs == [] then ""
    else if |fs| == 1 then fs[0]
    else Join(fs[..|fs| - 1]) + [SEPARATOR] + fs[|fs| - 1]
  }

  function DropTrailingSeparators(s: string): string
  {
    if s != [] && s[|s| - 1] == SEPARATOR then DropTrailingSeparators(s[..|s| - 1]) else s
  }

  lemma JoinSnoc(fs: seq<string>, f: string)
    requires fs != []
    ensures Join(fs + [f]) == Join(fs) + [SEPARATOR] + f
  {
    assert (fs + [f])[..|fs|] == fs;
  }

  /** Appending a character to the last field appends it to the joined string. */
  lemma JoinExtendLast(front: seq<string>, last: string, c: char)
    ensures Join(front + [last + [c]]) == Join(front + [last]) + [c]
  {
    if front == [] {
      assert front + [last + [c]] == [last + [c]];
      assert front + [last] == [last];
    } else {
      JoinSnoc(front, last + [c]);
      JoinSnoc(front, last);
    }
  }

  lemma {:induction false} JoinFields(s: string)
    ensures Join(Fields(s)) == s
    decreases |s|
  {
    if s != [] {
      var init := Fields(s[..|s| - 1]);
      var c := s[|s| - 1];
      JoinFields(s[..|s| - 1]);
      assert s == s[..|s| - 1] + [c];
      if c == SEPARATOR {
        JoinSnoc(init, "");
      } else {
        var k := |init| - 1;
        assert init == init[..k] + [init[k]];
        JoinExtendLast(init[..k], init[k], c);
      }
    }
  }

  lemma {:induction false} JoinDropTrailingEmpty(fs: seq<string>)
    requires forall k :: 0 <= k < |fs| ==> SEPARATOR !in fs[k]
    ensures Join(DropTrailingEmpty(fs)) == DropTrailingSeparators(Join(fs))
  {
    if fs != [] {
      var init := fs[..|fs| - 1];
      var last := fs[|fs| - 1];
      JoinDropTrailingEmpty(init);
      if |fs| == 1 {
        if last != "" {
          assert last[|last| - 1] in last;
        }
      } else if last == "" {
        calc {
          DropTrailingSeparators(Join(fs));
          { assert Join(fs) == Join(init) + [SEPARATOR]; }
          DropTrailingSeparators(Join(init) + [SEPARATOR]);
          { assert (Join(init) + [SEPARATOR])[..|Join(init)|] == Join(init); }
          DropTrailingSeparators(Join(init));
        }
      } else {
        assert last[|last| - 1] in last;
      }
    }
  }

  /** Splitting loses only the trailing separators: joining the elements back gives `s` without them. */
  lemma SplitJoin(s: string)
    ensures forall k :: 0 <= k < |Split(s)| ==> SEPARATOR !in Split(s)[k]
    ensures Join(Split(s)) == DropTrailingSeparators(s)
  {
    if SEPARATOR in s {
      JoinFields(s);
      JoinDropTrailingEmpty(Fields(s));
    } else if s != [] {
      assert s[|s| - 1] in s;
    }
  }

  /** Only a string made of separators alone (and at least one) splits to no element at all. */
  lemma {:induction false} SplitEmptyIff(s: string)
    ensures Split(s) == [] <==> s != [] && forall i :: 0 <= i < |s| ==> s[i] == SEPARATOR
  {
    SplitJoin(s);
    DropTrailingSeparatorsAllGone(s);
    if Split(s) == [] {
      assert SEPARATOR in s;
    }
  }

  lemma {:induction false} DropTrailingSeparatorsAllGone(s: string)
    ensures DropTrailingSeparators(s) == [] <==> forall i :: 0 <= i < |s| ==> s[i] == SEPARATOR
  {
    if s != [] && s[|s| - 1] == SEPARATOR {
      DropTrailingSeparatorsAllGone(s[..|s| - 1]);
      assert forall i :: 0 <= i < |s| - 1 ==> s[..|s| - 1][i] == s[i];
    }
  }

  // ---------------------------------------------------------------------------
  // Chomp

  /** StringUtils.chomp: removes one trailing "\r\n", "\n" or "\r". */
  function Chomp(s: string): (r: string)
    ensures EndsWith(s, LINE_FEED) ==> r == s[..|s| - 2]
    ensures !EndsWith(s, LINE_FEED) && s != [] && (s[|s| - 1] == CR || s[|s| - 1] == LF) ==> r == s[..|s| - 1]
    ensures s == [] || (s[|s| - 1] != CR && s[|s| - 1] != LF) ==> r == s
  {
    if s == [] then s
    else if |s| == 1 then (if s[0] == CR || s[0] == LF then "" else s)
    else
      var lastIdx := |s| - 1;
      if s[lastIdx] == LF then (if s[lastIdx - 1] == CR then s[..lastIdx - 1] else s[..lastIdx])
      else if s[lastIdx] != CR then s
      else s[..lastIdx]
  }
}
