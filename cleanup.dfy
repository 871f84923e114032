/** The clean-up of the model's reply before it is split into bunches: every
    asterisk is dropped (markdown emphasis), then every run of whitespace other
    than the newline becomes one space. */
module Cleanup {
  import opened StrOps

  /** `re.sub(r"\*\*|\*", "", text)`: the alternation removes `**` pairs and
      lone `*` alike, so every asterisk goes and nothing else does. */
  function StripAsterisks(s: string): (r: string)
    ensures |r| <= |s|
    decreases |s|
  {
    if s == [] then []
    else (if s[0] == '*' then [] else [s[0]]) + StripAsterisks(s[1..])
  }

  /** A character of the class `[^\S\n]`: whitespace other than the newline. */
  predicate IsBlank(c: char) {
    IsSpace(c) && c != '\n'
  }

  /** The blanks at the front of `s` removed. */
  function DropBlanks(s: string): (r: string)
    ensures |r| <= |s|
    ensures r == [] || !IsBlank(r[0])
  {
    if s != [] && IsBlank(s[0]) then DropBlanks(s[1..]) else s
  }

  /** `re.sub(r"[^\S\n]+", " ", text)`: each maximal run of blanks, scanning
      from the left, becomes a single space. */
  function CollapseBlanks(s: string): (r: string)
    ensures s != [] ==> r != [] && r[0] == (if IsBlank(s[0]) then ' ' else s[0])
    decreases |s|
  {
    if s == [] then []
    else if IsBlank(s[0]) then [' '] + CollapseBlanks(DropBlanks(s[1..]))
    else [s[0]] + CollapseBlanks(s[1..])
  }

  /** Every blank of `s` is a plain space and no two blanks are adjacent. */
  ghost predicate Collapsed(s: string) {
    && (forall i :: 0 <= i < |s| && IsBlank(s[i]) ==> s[i] == ' ')
    && (forall i, j :: 0 <= i < j < |s| && j == i + 1 ==> !(IsBlank(s[i]) && IsBlank(s[j])))
  }

  /** The whole clean-up: every asterisk removed, then each run of blanks
      collapsed to one space. */
  function Clean(s: string): string {
    CollapseBlanks(StripAsterisks(s))
  }

  /** The characters of `s` that are not blanks, in order. */
  function NonBlanks(s: string): string
    decreases |s|
  {
    if s == [] then [] else (if IsBlank(s[0]) then [] else [s[0]]) + NonBlanks(s[1..])
  }

  // ---------------------------------------------------------------------------
  // Asterisk stripping

  /** Stripping distributes over concatenation: every character is judged on
      its own and the kept ones stay in their order. */
  lemma {:induction false} StripAsterisksAppend(a: string, b: string)
    ensures StripAsterisks(a + b) == StripAsterisks(a) + StripAsterisks(b)
    decreases |a|
  {
    if a == [] {
      assert a + b == b;
    } else {
      StripAsterisksAppend(a[1..], b);
      var head := if a[0] == '*' then [] else [a[0]];
      assert (a + b)[0] == a[0] && (a + b)[1..] == a[1..] + b;
      assert StripAsterisks(a + b) == head + StripAsterisks(a[1..] + b);
      assert StripAsterisks(a) == head + StripAsterisks(a[1..]);
    }
  }

  /** No asterisk survives. */
  lemma {:induction false} StripAsterisksNoStar(s: string)
    ensures '*' !in StripAsterisks(s)
    decreases |s|
  {
    if s != [] {
      StripAsterisksNoStar(s[1..]);
    }
  }

  /** Text without asterisks is left as it is, and only such text is. */
  lemma {:induction false} StripAsterisksFixed(s: string)
    ensures StripAsterisks(s) == s <==> '*' !in s
    decreases |s|
  {
    if s != [] {
      StripAsterisksFixed(s[1..]);
      assert s == [s[0]] + s[1..];
    }
  }

  /** Every character other than `*` occurs as often after stripping as
      before. */
  lemma {:induction false} StripAsterisksCounts(s: string, c: char)
    requires c != '*'
    ensures multiset(StripAsterisks(s))[c] == multiset(s)[c]
    decreases |s|
  {
    if s != [] {
      StripAsterisksCounts(s[1..], c);
      assert s == [s[0]] + s[1..];
    }
  }

  // ---------------------------------------------------------------------------
  // Whitespace collapse

  lemma {:induction false} DropBlanksAppend(x: string, y: string)
    ensures DropBlanks(x + y) == if DropBlanks(x) == [] then DropBlanks(y) else DropBlanks(x) + y
    decreases |x|
  {
    if x == [] {
      assert x + y == y;
    } else if IsBlank(x[0]) {
      DropBlanksAppend(x[1..], y);
      assert (x + y)[0] == x[0];
      assert (x + y)[1..] == x[1..] + y;
      assert DropBlanks(x + y) == DropBlanks(x[1..] + y);
      assert DropBlanks(x) == DropBlanks(x[1..]);
    } else {
      assert (x + y)[0] == x[0];
      assert DropBlanks(x) == x;
      assert DropBlanks(x + y) == x + y;
    }
  }

  lemma {:induction false} NonBlanksAppend(a: string, b: string)
    ensures NonBlanks(a + b) == NonBlanks(a) + NonBlanks(b)
    decreases |a|
  {
    if a == [] {
      assert a + b == b;
    } else {
      NonBlanksAppend(a[1..], b);
      assert (a + b)[0] == a[0];
      assert (a + b)[1..] == a[1..] + b;
      if IsBlank(a[0]) {
        assert NonBlanks(a + b) == NonBlanks(a[1..] + b);
      } else {
        assert NonBlanks(a + b) == [a[0]] + NonBlanks(a[1..] + b);
      }
    }
  }

  lemma NonBlanksDropBlanks(s: string)
    ensures NonBlanks(DropBlanks(s)) == NonBlanks(s)
    decreases |s|
  {
    if s != [] && IsBlank(s[0]) {
      NonBlanksDropBlanks(s[1..]);
    }
  }

  /** The collapse keeps every character that is not a blank, in its order;
      it only rewrites blanks. */
  lemma {:induction false} CollapseKeepsNonBlanks(s: string)
    ensures NonBlanks(CollapseBlanks(s)) == NonBlanks(s)
    decreases |s|
  {
    if s == [] {
    } else if IsBlank(s[0]) {
      var d := DropBlanks(s[1..]);
      CollapseKeepsNonBlanks(d);
      NonBlanksDropBlanks(s[1..]);
      NonBlanksAppend([' '], CollapseBlanks(d));
    } else {
      CollapseKeepsNonBlanks(s[1..]);
      NonBlanksAppend([s[0]], CollapseBlanks(s[1..]));
    }
  }

  /** A character that is not a blank splits the collapse in two: runs never
      reach across it. */
  lemma {:induction false} CollapseSplitsAt(a: string, c: char, b: string)
    requires !IsBlank(c)
    ensures CollapseBlanks(a + [c] + b) == CollapseBlanks(a) + [c] + CollapseBlanks(b)
    decreases |a|, 1
  {
    var s := a + [c] + b;
    if a == [] {
      assert s == [c] + b;
      assert s[0] == c && s[1..] == b;
    } else if !IsBlank(a[0]) {
      CollapseSplitsAt(a[1..], c, b);
      assert s[0] == a[0];
      assert s[1..] == a[1..] + [c] + b;
    } else {
      CollapseSplitsAfterBlank(a, c, b);
    }
  }

  /** The case of `CollapseSplitsAt` where `a` starts with a blank. */
  lemma {:induction false} CollapseSplitsAfterBlank(a: string, c: char, b: string)
    requires !IsBlank(c) && a != [] && IsBlank(a[0])
    ensures CollapseBlanks(a + [c] + b) == CollapseBlanks(a) + [c] + CollapseBlanks(b)
    decreases |a|, 0
  {
    var s := a + [c] + b;
    var cb := [c] + b;
    var d := DropBlanks(a[1..]);
    assert s[0] == a[0];
    assert CollapseBlanks(a) == [' '] + CollapseBlanks(d);
    assert CollapseBlanks(DropBlanks(s[1..])) == CollapseBlanks(d) + [c] + CollapseBlanks(b) by {
      assert s[1..] == a[1..] + cb;
      DropBlanksAppend(a[1..], cb);
      if d == [] {
        assert cb[0] == c && cb[1..] == b;
        assert DropBlanks(cb) == cb;
      } else {
        CollapseSplitsAt(d, c, b);
        assert d + cb == d + [c] + b;
      }
    }
  }

  /** A non-empty run made only of blanks collapses to one space. */
  lemma {:induction false} CollapseRun(s: string)
    requires s != [] && forall i :: 0 <= i < |s| ==> IsBlank(s[i])
    ensures CollapseBlanks(s) == " "
  {
    DropBlanksOfRun(s[1..]);
  }

  lemma {:induction false} DropBlanksOfRun(s: string)
    requires forall i :: 0 <= i < |s| ==> IsBlank(s[i])
    ensures DropBlanks(s) == []
    decreases |s|
  {
    if s != [] {
      assert forall i :: 0 <= i < |s[1..]| ==> s[1..][i] == s[i + 1];
      DropBlanksOfRun(s[1..]);
    }
  }

  /** The collapse leaves no blank other than a lone space. */
  lemma {:induction false} CollapseIsCollapsed(s: string)
    ensures Collapsed(CollapseBlanks(s))
    decreases |s|
  {
    if s == [] {
    } else if IsBlank(s[0]) {
      var d := DropBlanks(s[1..]);
      CollapseIsCollapsed(d);
      var t := CollapseBlanks(d);
      var r := [' '] + t;
      assert t == [] || !IsBlank(t[0]);
      forall i, j | 0 <= i < j < |r| && j == i + 1
        ensures !(IsBlank(r[i]) && IsBlank(r[j]))
      {
        if i > 0 {
          assert r[i] == t[i - 1] && r[j] == t[j - 1];
        }
      }
      forall i | 0 <= i < |r| && IsBlank(r[i])
        ensures r[i] == ' '
      {
        if i > 0 {
          assert r[i] == t[i - 1];
        }
      }
    } else {
      CollapseIsCollapsed(s[1..]);
      var t := CollapseBlanks(s[1..]);
      var r := [s[0]] + t;
      forall i, j | 0 <= i < j < |r| && j == i + 1
        ensures !(IsBlank(r[i]) && IsBlank(r[j]))
      {
        if i > 0 {
          assert r[i] == t[i - 1] && r[j] == t[j - 1];
        }
      }
      forall i | 0 <= i < |r| && IsBlank(r[i])
        ensures r[i] == ' '
      {
        if i > 0 {
          assert r[i] == t[i - 1];
        }
      }
    }
  }

  /** What `DropBlanks` removes is a run of blanks at the front. */
  lemma {:induction false} DropBlanksSuffix(s: string)
    ensures var r := DropBlanks(s);
            r == s[|s| - |r|..] && forall i :: 0 <= i < |s| - |r| ==> IsBlank(s[i])
    decreases |s|
  {
    if s != [] && IsBlank(s[0]) {
      DropBlanksSuffix(s[1..]);
    }
  }

  /** The collapse brings in no character but the space. */
  lemma {:induction false} CollapseChars(s: string)
    ensures forall c :: c in CollapseBlanks(s) ==> c == ' ' || c in s
    decreases |s|
  {
    if s == [] {
    } else if IsBlank(s[0]) {
      var d := DropBlanks(s[1..]);
      CollapseChars(d);
      DropBlanksSuffix(s[1..]);
      forall c | c in d ensures c in s {
        var k :| 0 <= k < |d| && d[k] == c;
        assert s[|s| - |d| + k] == c;
      }
    } else {
      CollapseChars(s[1..]);
    }
  }

  /** Text that is already collapsed is left as it is. */
  lemma {:induction false} CollapseFixed(s: string)
    requires Collapsed(s)
    ensures CollapseBlanks(s) == s
    decreases |s|
  {
    if s != [] {
      assert Collapsed(s[1..]) by {
        forall i, j | 0 <= i < j < |s[1..]| && j == i + 1
          ensures !(IsBlank(s[1..][i]) && IsBlank(s[1..][j]))
        {
          assert s[1..][i] == s[i + 1] && s[1..][j] == s[j + 1];
        }
      }
      CollapseFixed(s[1..]);
      if IsBlank(s[0]) {
        assert s[1..] == [] || !IsBlank(s[1]);
        assert DropBlanks(s[1..]) == s[1..];
        assert s == [' '] + s[1..];
      } else {
        assert s == [s[0]] + s[1..];
      }
    }
  }

  /** Cleaning twice is cleaning once. */
  lemma CleanIdempotent(s: string)
    ensures Clean(Clean(s)) == Clean(s)
  {
    var t := Clean(s);
    StripAsterisksNoStar(s);
    CollapseChars(StripAsterisks(s));
    CollapseIsCollapsed(StripAsterisks(s));
    assert '*' !in t;
    StripAsterisksFixed(t);
    CollapseFixed(t);
  }

  lemma NonBlanksNewlines(s: string)
    ensures multiset(NonBlanks(s))['\n'] == multiset(s)['\n']
    decreases |s|
  {
    if s != [] {
      NonBlanksNewlines(s[1..]);
      assert s == [s[0]] + s[1..];
    }
  }

  /** The clean-up keeps every newline, so the reply has as many lines after
      it as before (lines split by `str.split('\n')`). */
  lemma CleanKeepsLines(s: string)
    ensures multiset(Clean(s))['\n'] == multiset(s)['\n']
    ensures |SplitOn(Clean(s), "\n")| == |SplitOn(s, "\n")|
  {
    var t := StripAsterisks(s);
    StripAsterisksCounts(s, '\n');
    CollapseKeepsNonBlanks(t);
    NonBlanksNewlines(t);
    NonBlanksNewlines(CollapseBlanks(t));
    LinesCount(s);
    LinesCount(Clean(s));
  }
}
