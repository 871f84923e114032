/** `re.split(r"Bunch \d+", text)`: the cleaned reply cut into one segment per
    bunch. The delimiter is the word `Bunch`, one space and a greedy run of
    digits; matches are taken leftmost first and never overlap, the matched
    text is dropped and the segments around it are kept, empty ones
    included. */
module BunchSplit {
  import opened StrOps

  const Marker: string := "Bunch "

  /** The length of the run of digits at the front of `s`. */
  function DigitRun(s: string): (n: nat)
    ensures n <= |s|
    ensures n == |s| || !IsDigit(s[n])
    ensures forall i :: 0 <= i < n ==> IsDigit(s[i])
    decreases |s|
  {
    if s != [] && IsDigit(s[0]) then 1 + DigitRun(s[1..]) else 0
  }

  /** Text the pattern `Bunch \d+` matches in full. */
  predicate IsDelimiter(d: string) {
    |d| > |Marker| && StartsWith(d, Marker) && forall i :: |Marker| <= i < |d| ==> IsDigit(d[i])
  }

  /** The length of the match of `Bunch \d+` at the front of `s`, taking every
      digit that follows (the `+` is greedy), or 0 when the pattern does not
      match there. */
  function DelimiterAt(s: string): (n: nat)
    ensures n <= |s|
    ensures n > 0 ==> IsDelimiter(s[..n]) && (n == |s| || !IsDigit(s[n]))
  {
    if |s| > |Marker| && StartsWith(s, Marker) && IsDigit(s[|Marker|]) then
      var k := DigitRun(s[|Marker|..]);
      assert s[..|Marker| + k][..|Marker|] == Marker;
      |Marker| + k
    else 0
  }

  /** The segments `re.split` returns, in text order. */
  function SplitBunches(s: string): (r: seq<string>)
    ensures |r| >= 1
    decreases |s|
  {
    if s == [] then [[]]
    else
      var n := DelimiterAt(s);
      if n > 0 then [[]] + SplitBunches(s[n..])
      else
        var rest := SplitBunches(s[1..]);
        [[s[0]] + rest[0]] + rest[1..]
  }

  /** The delimiters the split removes, in text order. */
  function Delimiters(s: string): seq<string>
    decreases |s|
  {
    if s == [] then []
    else
      var n := DelimiterAt(s);
      if n > 0 then [s[..n]] + Delimiters(s[n..]) else Delimiters(s[1..])
  }

  /** `segs[0] + delims[0] + segs[1] + ... + segs[k]`. */
  function Interleave(segs: seq<string>, delims: seq<string>): string
    requires |segs| == |delims| + 1
    decreases |delims|
  {
    if delims == [] then segs[0] else segs[0] + delims[0] + Interleave(segs[1..], delims[1..])
  }

  /** No suffix of `seg` starts with a match of the pattern. */
  predicate NoDelimiter(seg: string) {
    forall i :: 0 <= i <= |seg| ==> DelimiterAt(seg[i..]) == 0
  }

  /** A segment other than the first follows a delimiter, which took every
      digit there was: it does not start with a digit. */
  predicate AfterGreedyMatch(seg: string) {
    seg == [] || !IsDigit(seg[0])
  }

  // ---------------------------------------------------------------------------
  // The match at one position

  lemma {:induction false} DigitRunAtLeast(t: string, j: nat)
    requires j <= |t| && forall i :: 0 <= i < j ==> IsDigit(t[i])
    ensures j <= DigitRun(t)
    decreases j
  {
    if j > 0 {
      assert forall i :: 0 <= i < j - 1 ==> t[1..][i] == t[i + 1];
      DigitRunAtLeast(t[1..], j - 1);
    }
  }

  /** The match found at a position is the longest delimiter starting there;
      in particular the pattern matches wherever some delimiter starts. */
  lemma DelimiterAtLongest(s: string, m: nat)
    requires 0 < m <= |s| && IsDelimiter(s[..m])
    ensures m <= DelimiterAt(s)
  {
    assert s[..m][..|Marker|] == s[..|Marker|];
    assert s[..m][|Marker|] == s[|Marker|];
    forall i | 0 <= i < m - |Marker|
      ensures IsDigit(s[|Marker|..][i])
    {
      assert s[|Marker|..][i] == s[..m][i + |Marker|];
    }
    DigitRunAtLeast(s[|Marker|..], m - |Marker|);
  }

  /** Where the pattern does not match at the front of `s`, it does not match
      at the front of any prefix of `s` either. */
  lemma DelimiterAtPrefix(p: string, s: string)
    requires StartsWith(s, p) && DelimiterAt(s) == 0
    ensures DelimiterAt(p) == 0
  {
    assert |p| > |Marker| ==> p[..|Marker|] == s[..|Marker|] && p[|Marker|] == s[|Marker|];
  }

  lemma {:induction false} DigitRunAtMost(t: string, j: nat)
    requires j <= |t| && (j == |t| || !IsDigit(t[j]))
    ensures DigitRun(t) <= j
    decreases j
  {
    if j > 0 && IsDigit(t[0]) {
      DigitRunAtMost(t[1..], j - 1);
    }
  }

  /** A delimiter followed by a non-digit is matched exactly. */
  lemma DelimiterAtExact(d: string, t: string)
    requires IsDelimiter(d) && (t == [] || !IsDigit(t[0]))
    ensures DelimiterAt(d + t) == |d|
  {
    var s := d + t;
    assert s[..|d|] == d;
    DelimiterAtLongest(s, |d|);
    assert s[..|Marker|] == d[..|Marker|];
    var u := s[|Marker|..];
    assert u[|d| - |Marker|..] == t;
    DigitRunAtMost(u, |d| - |Marker|);
  }

  /** No match can start inside a delimiter-free segment and run into the
      delimiter after it: `Bunch ` never overlaps itself and is not followed by
      a digit when a delimiter comes next. */
  lemma NoStraddle(q: string, t: string)
    requires q != [] && NoDelimiter(q) && StartsWith(t, Marker)
    ensures DelimiterAt(q + t) == 0
  {
    var s := q + t;
    assert q[0..] == q;
    assert DelimiterAt(q) == 0;
    assert t[0] == 'B';
    if |q| > |Marker| {
      assert s[..|Marker|] == q[..|Marker|] && s[|Marker|] == q[|Marker|];
    } else if |q| == |Marker| {
      assert s[|Marker|] == t[0];
    } else {
      assert s[|q|] == t[0];
      assert Marker[|q|] != 'B';
      assert |s| >= |Marker| ==> s[..|Marker|][|q|] == s[|q|];
    }
  }

  // ---------------------------------------------------------------------------
  // What the split returns

  /** One more segment than there are delimiters. */
  lemma {:induction false} SplitCount(s: string)
    ensures |SplitBunches(s)| == |Delimiters(s)| + 1
    decreases |s|
  {
    if s != [] {
      var n := DelimiterAt(s);
      if n > 0 {
        SplitCount(s[n..]);
      } else {
        SplitCount(s[1..]);
      }
    }
  }

  lemma InterleaveUnfold(segs: seq<string>, delims: seq<string>)
    requires |segs| == |delims| + 1 && delims != []
    ensures Interleave(segs, delims) == segs[0] + delims[0] + Interleave(segs[1..], delims[1..])
  {
  }

  lemma ConsAssoc(c: char, h: string, d: string, r: string)
    ensures ([c] + h) + d + r == [c] + (h + d + r)
  {
  }

  lemma ConsTail(p: string, x: string)
    requires p != []
    ensures [p[0]] + (p[1..] + x) == p + x
  {
    assert [p[0]] + p[1..] == p;
  }

  lemma InterleaveConsHead(c: char, h: string, tail: seq<string>, delims: seq<string>)
    requires |tail| == |delims|
    ensures Interleave([[c] + h] + tail, delims) == [c] + Interleave([h] + tail, delims)
  {
    var a, b := [[c] + h] + tail, [h] + tail;
    assert a[0] == [c] + h && b[0] == h;
    if delims != [] {
      assert a[1..] == tail && b[1..] == tail;
      InterleaveUnfold(a, delims);
      InterleaveUnfold(b, delims);
      ConsAssoc(c, h, delims[0], Interleave(tail, delims[1..]));
    }
  }

  /** One step of the split where a match starts. */
  lemma SplitMatchStep(s: string)
    requires DelimiterAt(s) > 0
    ensures SplitBunches(s) == [[]] + SplitBunches(s[DelimiterAt(s)..])
    ensures Delimiters(s) == [s[..DelimiterAt(s)]] + Delimiters(s[DelimiterAt(s)..])
  {
  }

  /** One step of the split where no match starts. */
  lemma SplitNoMatchStep(s: string)
    requires s != [] && DelimiterAt(s) == 0
    ensures SplitBunches(s) == [[s[0]] + SplitBunches(s[1..])[0]] + SplitBunches(s[1..])[1..]
    ensures Delimiters(s) == Delimiters(s[1..])
  {
  }

  /** Putting the removed delimiters back between the segments gives the text
      back. */
  lemma {:induction false} SplitRoundTrip(s: string)
    ensures |SplitBunches(s)| == |Delimiters(s)| + 1
    ensures Interleave(SplitBunches(s), Delimiters(s)) == s
    decreases |s|
  {
    SplitCount(s);
    if s != [] {
      var n := DelimiterAt(s);
      if n > 0 {
        var segs, delims := SplitBunches(s[n..]), Delimiters(s[n..]);
        assert Interleave(segs, delims) == s[n..] by {
          SplitRoundTrip(s[n..]);
        }
        SplitMatchStep(s);
        var a, b := [[]] + segs, [s[..n]] + delims;
        assert Interleave(a, b) == [] + s[..n] + s[n..] by {
          assert a[0] == [] && a[1..] == segs && b[0] == s[..n] && b[1..] == delims;
          InterleaveUnfold(a, b);
        }
        assert s == [] + s[..n] + s[n..];
      } else {
        var rest := SplitBunches(s[1..]);
        assert Interleave(rest, Delimiters(s[1..])) == s[1..] by {
          SplitRoundTrip(s[1..]);
        }
        SplitNoMatchStep(s);
        assert Interleave(SplitBunches(s), Delimiters(s)) == [s[0]] + s[1..] by {
          InterleaveConsHead(s[0], rest[0], rest[1..], Delimiters(s[1..]));
          assert [rest[0]] + rest[1..] == rest;
        }
        assert s == [s[0]] + s[1..];
      }
    }
  }

  /** Every removed piece is a full match of `Bunch \d+`. */
  lemma {:induction false} DelimitersMatch(s: string)
    ensures forall d :: d in Delimiters(s) ==> IsDelimiter(d)
    decreases |s|
  {
    if s != [] {
      var n := DelimiterAt(s);
      if n > 0 {
        DelimitersMatch(s[n..]);
      } else {
        DelimitersMatch(s[1..]);
      }
    }
  }

  /** The first segment is a prefix of the text. */
  lemma {:induction false} SplitHead(s: string)
    ensures StartsWith(s, SplitBunches(s)[0])
    decreases |s|
  {
    if s != [] && DelimiterAt(s) == 0 {
      SplitHead(s[1..]);
    }
  }

  /** Matches are taken leftmost first: no segment contains a match. */
  lemma {:induction false} SegmentsHoldNoDelimiter(s: string)
    ensures forall seg :: seg in SplitBunches(s) ==> NoDelimiter(seg)
    decreases |s|
  {
    if s != [] {
      var n := DelimiterAt(s);
      if n > 0 {
        SegmentsHoldNoDelimiter(s[n..]);
      } else {
        var rest := SplitBunches(s[1..]);
        SegmentsHoldNoDelimiter(s[1..]);
        SplitHead(s);
        var head := [s[0]] + rest[0];
        assert NoDelimiter(rest[0]);
        assert SplitBunches(s)[0] == head;
        forall i | 0 <= i <= |head|
          ensures DelimiterAt(head[i..]) == 0
        {
          if i == 0 {
            DelimiterAtPrefix(head, s);
          } else {
            assert head[i..] == rest[0][i - 1..];
          }
        }
      }
    }
  }

  /** Matches are greedy: a segment after a delimiter does not start with a
      digit. */
  lemma {:induction false} SegmentsAfterGreedyMatch(s: string)
    ensures forall k :: 1 <= k < |SplitBunches(s)| ==> AfterGreedyMatch(SplitBunches(s)[k])
    decreases |s|
  {
    if s != [] {
      var n := DelimiterAt(s);
      if n > 0 {
        var segs := SplitBunches(s[n..]);
        SegmentsAfterGreedyMatch(s[n..]);
        SplitHead(s[n..]);
        assert segs[0] != [] ==> segs[0][0] == s[n..][0];
        assert SplitBunches(s) == [[]] + segs;
      } else {
        var rest := SplitBunches(s[1..]);
        SegmentsAfterGreedyMatch(s[1..]);
        assert forall k :: 1 <= k < |rest| ==> SplitBunches(s)[k] == rest[k];
      }
    }
  }

  // ---------------------------------------------------------------------------
  // The split is the only decomposition with these properties

  /** The delimiter-free property passes to the rest of a segment. */
  lemma NoDelimiterTail(p: string)
    requires p != [] && NoDelimiter(p)
    ensures DelimiterAt(p) == 0 && NoDelimiter(p[1..])
  {
    assert p[0..] == p;
    forall i | 0 <= i <= |p[1..]|
      ensures DelimiterAt(p[1..][i..]) == 0
    {
      assert p[1..][i..] == p[i + 1..];
    }
  }

  /** A text without any match is one segment. */
  lemma {:induction false} SplitWithoutDelimiter(s: string)
    requires NoDelimiter(s)
    ensures SplitBunches(s) == [s] && Delimiters(s) == []
    decreases |s|
  {
    if s != [] {
      NoDelimiterTail(s);
      SplitWithoutDelimiter(s[1..]);
      SplitNoMatchStep(s);
      assert s == [s[0]] + s[1..];
    }
  }

  /** A delimiter-free segment followed by a delimiter is split off whole. */
  lemma {:induction false} SplitAfterSegment(p: string, t: string)
    requires NoDelimiter(p) && StartsWith(t, Marker)
    ensures SplitBunches(p + t) == [p + SplitBunches(t)[0]] + SplitBunches(t)[1..]
    ensures Delimiters(p + t) == Delimiters(t)
    decreases |p|
  {
    var r := SplitBunches(t);
    if p == [] {
      assert p + t == t;
      assert [] + r[0] == r[0];
      assert [r[0]] + r[1..] == r;
    } else {
      var s := p + t;
      assert s[0] == p[0] && s[1..] == p[1..] + t by {
        assert s[1..] == p[1..] + t;
      }
      var q := SplitBunches(s[1..]);
      assert q[0] == p[1..] + r[0] && q[1..] == r[1..] && Delimiters(s[1..]) == Delimiters(t) by {
        NoDelimiterTail(p);
        SplitAfterSegment(p[1..], t);
      }
      assert SplitBunches(s) == [[s[0]] + q[0]] + q[1..] && Delimiters(s) == Delimiters(s[1..]) by {
        NoStraddle(p, t);
        SplitNoMatchStep(s);
      }
      ConsTail(p, r[0]);
    }
  }

  /** What follows the first delimiter of an interleaving does not start with a
      digit, when no segment after a delimiter does. */
  lemma RestAfterDelimiter(segs: seq<string>, delims: seq<string>)
    requires |segs| == |delims| + 1 && |delims| >= 1
    requires forall d :: d in delims ==> IsDelimiter(d)
    requires forall k :: 1 <= k < |segs| ==> AfterGreedyMatch(segs[k])
    ensures AfterGreedyMatch(Interleave(segs[1..], delims[1..]))
  {
    var tail := segs[1..];
    assert AfterGreedyMatch(tail[0]);
    if |delims| > 1 {
      var d := delims[1];
      assert d in delims;
      assert d[0] == d[..|Marker|][0];
      InterleaveUnfold(tail, delims[1..]);
      var rest := Interleave(tail[1..], delims[2..]);
      if tail[0] == [] {
        assert (tail[0] + d + rest)[0] == d[0];
      } else {
        assert (tail[0] + d + rest)[0] == tail[0][0];
      }
    }
  }

  /** Splitting a delimiter followed by text that does not start with a digit
      removes exactly that delimiter. */
  lemma SplitAtDelimiter(d: string, rest: string)
    requires IsDelimiter(d) && AfterGreedyMatch(rest)
    ensures SplitBunches(d + rest) == [[]] + SplitBunches(rest)
    ensures Delimiters(d + rest) == [d] + Delimiters(rest)
  {
    var t := d + rest;
    DelimiterAtExact(d, rest);
    assert t[..|d|] == d && t[|d|..] == rest;
    SplitMatchStep(t);
  }

  /** A delimiter-free segment, a delimiter, and text that does not start
      with a digit split into that segment followed by the split of the text. */
  lemma SplitCons(p: string, d: string, rest: string)
    requires NoDelimiter(p) && IsDelimiter(d) && AfterGreedyMatch(rest)
    ensures SplitBunches(p + (d + rest)) == [p] + SplitBunches(rest)
    ensures Delimiters(p + (d + rest)) == [d] + Delimiters(rest)
  {
    SplitAtDelimiter(d, rest);
    var r := SplitBunches(d + rest);
    assert (d + rest)[..|Marker|] == d[..|Marker|];
    SplitAfterSegment(p, d + rest);
    assert r[0] == [] && r[1..] == SplitBunches(rest);
    assert p + [] == p;
  }

  /** The split is determined by its properties: any way of writing `s` as
      segments interleaved with delimiters, where no segment contains a match
      and no segment after a delimiter starts with a digit, is the one
      `re.split` returns. */
  lemma {:induction false} SplitUnique(s: string, segs: seq<string>, delims: seq<string>)
    requires |segs| == |delims| + 1 && Interleave(segs, delims) == s
    requires forall d :: d in delims ==> IsDelimiter(d)
    requires forall seg :: seg in segs ==> NoDelimiter(seg)
    requires forall k :: 1 <= k < |segs| ==> AfterGreedyMatch(segs[k])
    ensures SplitBunches(s) == segs && Delimiters(s) == delims
    decreases |delims|
  {
    if delims == [] {
      assert segs[0] in segs;
      SplitWithoutDelimiter(s);
    } else {
      var p, d := segs[0], delims[0];
      var tail := segs[1..];
      var rest := Interleave(tail, delims[1..]);
      assert s == p + (d + rest) by {
        InterleaveUnfold(segs, delims);
      }
      assert SplitBunches(rest) == tail && Delimiters(rest) == delims[1..] by {
        assert forall k :: 1 <= k < |tail| ==> tail[k] == segs[k + 1];
        SplitUnique(rest, tail, delims[1..]);
      }
      assert NoDelimiter(p) && IsDelimiter(d) && AfterGreedyMatch(rest) by {
        assert p in segs && d in delims;
        RestAfterDelimiter(segs, delims);
      }
      SplitCons(p, d, rest);
      assert [p] + tail == segs;
    }
  }
}
