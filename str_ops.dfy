/** The Python `str` operations the response parser relies on, on `seq<char>`:
    `str.isspace`, `str.strip()`, `str.split(sep)`, `str.startswith` and
    `str.replace(pat, "")`. */
module StrOps {

  /** Python's `str.isspace`, which is also the `\s` class of `re` on `str`
      patterns: the code points CPython's whitespace table lists. */
  predicate IsSpace(c: char) {
    var n := c as int;
    (9 <= n <= 13) || (28 <= n <= 32) || n == 0x85 || n == 0xA0 || n == 0x1680
    || (0x2000 <= n <= 0x200A) || n == 0x2028 || n == 0x2029 || n == 0x202F
    || n == 0x205F || n == 0x3000
  }

  /** An ASCII decimal digit. */
  predicate IsDigit(c: char) {
    '0' <= c <= '9'
  }

  /** `str.startswith(p)`. */
  predicate StartsWith(s: string, p: string) {
    |p| <= |s| && s[..|p|] == p
  }

  /** `s` begins and ends with a non-whitespace character (or is empty). */
  predicate IsStripped(s: string) {
    s == [] || (!IsSpace(s[0]) && !IsSpace(s[|s| - 1]))
  }

  /** `str.lstrip()`: drops the leading whitespace and nothing else. */
  function TrimStart(s: string): (r: string)
    ensures |r| <= |s|
    ensures r == [] || !IsSpace(r[0])
  {
    if s != [] && IsSpace(s[0]) then TrimStart(s[1..]) else s
  }

  /** `str.rstrip()`: drops the trailing whitespace and nothing else. */
  function TrimEnd(s: string): (r: string)
    ensures |r| <= |s|
    ensures r == [] || (r[0] == s[0] && !IsSpace(r[|r| - 1]))
  {
    if s != [] && IsSpace(s[|s| - 1]) then TrimEnd(s[..|s| - 1]) else s
  }

  /** `lstrip()` keeps a suffix and drops only whitespace. */
  lemma {:induction false} TrimStartSuffix(s: string)
    ensures var r := TrimStart(s);
            r == s[|s| - |r|..] && forall i :: 0 <= i < |s| - |r| ==> IsSpace(s[i])
    decreases |s|
  {
    if s != [] && IsSpace(s[0]) {
      TrimStartSuffix(s[1..]);
    }
  }

  /** `rstrip()` keeps a prefix and drops only whitespace. */
  lemma {:induction false} TrimEndPrefix(s: string)
    ensures var r := TrimEnd(s);
            r == s[..|r|] && forall i :: |r| <= i < |s| ==> IsSpace(s[i])
    decreases |s|
  {
    if s != [] && IsSpace(s[|s| - 1]) {
      TrimEndPrefix(s[..|s| - 1]);
    }
  }

  /** `str.strip()`: whitespace removed from both ends. */
  function Strip(s: string): (r: string)
    ensures IsStripped(r)
    ensures |r| <= |s|
  {
    TrimEnd(TrimStart(s))
  }

  /** What `strip()` keeps is the infix of `s` between a whitespace prefix and a
      whitespace suffix. */
  lemma StripInfix(s: string)
    ensures var r, k := Strip(s), |s| - |TrimStart(s)|;
            k + |r| <= |s| && r == s[k..k + |r|]
            && (forall i :: 0 <= i < k ==> IsSpace(s[i]))
            && (forall i :: k + |r| <= i < |s| ==> IsSpace(s[i]))
  {
    var t := TrimStart(s);
    var r := TrimEnd(t);
    var k := |s| - |t|;
    TrimStartSuffix(s);
    TrimEndPrefix(t);
    assert r == s[k..k + |r|];
    forall i | k + |r| <= i < |s|
      ensures IsSpace(s[i])
    {
      assert s[i] == t[i - k];
    }
  }

  /** Stripping text that is already stripped changes nothing, so `strip()`
      is idempotent. */
  lemma StripStripped(s: string)
    requires IsStripped(s)
    ensures Strip(s) == s
  {
  }

  lemma StripIdempotent(s: string)
    ensures Strip(Strip(s)) == Strip(s)
  {
    StripStripped(Strip(s));
  }

  /** `str.split(sep)` for a non-empty separator: the pieces between the
      occurrences of `sep` found scanning left to right without overlap. */
  function SplitOn(s: string, sep: string): (r: seq<string>)
    requires sep != []
    ensures |r| >= 1
    decreases |s|
  {
    if s == [] then [[]]
    else if StartsWith(s, sep) then [[]] + SplitOn(s[|sep|..], sep)
    else
      var rest := SplitOn(s[1..], sep);
      [[s[0]] + rest[0]] + rest[1..]
  }

  /** `sep.join(parts)`. */
  function Join(parts: seq<string>, sep: string): string
    requires |parts| >= 1
    decreases |parts|
  {
    if |parts| == 1 then parts[0] else parts[0] + sep + Join(parts[1..], sep)
  }

  /** `str.replace(pat, "")`: every occurrence of `pat` found scanning left to
      right without overlap is removed. */
  function RemoveAll(s: string, pat: string): (r: string)
    requires pat != []
    ensures |r| <= |s|
    decreases |s|
  {
    if s == [] then []
    else if StartsWith(s, pat) then RemoveAll(s[|pat|..], pat)
    else [s[0]] + RemoveAll(s[1..], pat)
  }

  /** `s` contains no occurrence of `sep`. */
  predicate Free(s: string, sep: string) {
    forall i :: 0 <= i <= |s| ==> !StartsWith(s[i..], sep)
  }

  lemma JoinConsHead(c: char, parts: seq<string>, sep: string)
    requires |parts| >= 1
    ensures Join([[c] + parts[0]] + parts[1..], sep) == [c] + Join(parts, sep)
  {
    var ps := [[c] + parts[0]] + parts[1..];
    if |parts| > 1 {
      assert ps[1..] == parts[1..];
    }
  }

  /** Joining the pieces of `str.split(sep)` with `sep` gives the text back. */
  lemma {:induction false} JoinSplitOn(s: string, sep: string)
    requires sep != []
    ensures Join(SplitOn(s, sep), sep) == s
    decreases |s|
  {
    if s == [] {
    } else if StartsWith(s, sep) {
      var rest := SplitOn(s[|sep|..], sep);
      var parts := [[]] + rest;
      assert SplitOn(s, sep) == parts;
      JoinSplitOn(s[|sep|..], sep);
      assert |parts| > 1 && parts[0] == [] && parts[1..] == rest;
      assert Join(parts, sep) == [] + sep + s[|sep|..];
      assert s == s[..|sep|] + s[|sep|..];
    } else {
      var rest := SplitOn(s[1..], sep);
      assert SplitOn(s, sep) == [[s[0]] + rest[0]] + rest[1..];
      JoinSplitOn(s[1..], sep);
      JoinConsHead(s[0], rest, sep);
      assert s == [s[0]] + s[1..];
    }
  }

  /** The first piece of `str.split(sep)` is a prefix of the text. */
  lemma {:induction false} SplitOnHead(s: string, sep: string)
    requires sep != []
    ensures StartsWith(s, SplitOn(s, sep)[0])
    decreases |s|
  {
    if s != [] && !StartsWith(s, sep) {
      SplitOnHead(s[1..], sep);
    }
  }

  /** No piece of `str.split(sep)` contains `sep`. */
  lemma {:induction false} SplitOnPiecesFree(s: string, sep: string)
    requires sep != []
    ensures forall p :: p in SplitOn(s, sep) ==> Free(p, sep)
    decreases |s|
  {
    if s == [] {
    } else if StartsWith(s, sep) {
      SplitOnPiecesFree(s[|sep|..], sep);
    } else {
      var rest := SplitOn(s[1..], sep);
      SplitOnPiecesFree(s[1..], sep);
      var head := [s[0]] + rest[0];
      assert Free(rest[0], sep);
      forall i | 0 <= i <= |head|
        ensures !StartsWith(head[i..], sep)
      {
        if i == 0 {
          SplitOnHead(s, sep);
          assert StartsWith(s, head);
          if |sep| <= |head| {
            assert head[..|sep|] == s[..|sep|];
          }
        } else {
          assert head[i..] == rest[0][i - 1..];
        }
      }
    }
  }

  /** `str.split(sep)` cuts at the leftmost occurrence of `sep` and goes on
      after it: no occurrence starts inside the first piece; if there is a
      second piece, the first is followed by `sep` and the remaining pieces
      are the split of what follows; otherwise the first piece is the text. */
  lemma {:induction false} SplitOnLeftmost(s: string, sep: string)
    requires sep != []
    ensures var r := SplitOn(s, sep);
            |r[0]| <= |s| && forall i :: 0 <= i < |r[0]| ==> !StartsWith(s[i..], sep)
    ensures var r := SplitOn(s, sep);
            if |r| == 1 then r[0] == s
            else |r[0]| + |sep| <= |s| && StartsWith(s[|r[0]|..], sep)
                 && r[1..] == SplitOn(s[|r[0]| + |sep|..], sep)
    decreases |s|
  {
    if s != [] && !StartsWith(s, sep) {
      var rest := SplitOn(s[1..], sep);
      SplitOnLeftmost(s[1..], sep);
      var r := SplitOn(s, sep);
      assert r[0] == [s[0]] + rest[0] && r[1..] == rest[1..];
      forall i | 0 <= i < |r[0]|
        ensures !StartsWith(s[i..], sep)
      {
        if i > 0 {
          assert s[i..] == s[1..][i - 1..];
        }
      }
      if |r| > 1 {
        assert s[|r[0]|..] == s[1..][|rest[0]|..];
        assert s[|r[0]| + |sep|..] == s[1..][|rest[0]| + |sep|..];
      } else {
        assert s == [s[0]] + s[1..];
      }
    }
  }

  /** `s.replace(pat, "")` is `"".join(s.split(pat))`: exactly the occurrences
      the split finds, scanning left to right without overlap, are removed.
      A label that overlaps itself can therefore leave an occurrence behind. */
  lemma {:induction false} RemoveAllJoinsPieces(s: string, pat: string)
    requires pat != []
    ensures RemoveAll(s, pat) == Join(SplitOn(s, pat), [])
    decreases |s|
  {
    if s == [] {
    } else if StartsWith(s, pat) {
      RemoveAllJoinsPieces(s[|pat|..], pat);
      var rest := SplitOn(s[|pat|..], pat);
      assert ([[]] + rest)[1..] == rest;
    } else {
      RemoveAllJoinsPieces(s[1..], pat);
      JoinConsHead(s[0], SplitOn(s[1..], pat), []);
    }
  }

  /** `str.split('\n')` gives one more piece than there are newlines. */
  lemma {:induction false} LinesCount(s: string)
    ensures |SplitOn(s, "\n")| == multiset(s)['\n'] + 1
    decreases |s|
  {
    if s != [] {
      LinesCount(s[1..]);
      assert s == [s[0]] + s[1..];
      assert StartsWith(s, "\n") <==> s[0] == '\n';
      if s[0] == '\n' {
        assert s[1..] == s[|"\n"|..];
      }
    }
  }
}
