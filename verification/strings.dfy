/**
  String primitives with the semantics of the JavaScript built-ins the page
  relies on: `String.prototype.trim`, the regular-expression class `\s`,
  and `String.prototype.split` with a one-character separator.
  Characters are Unicode scalar values.
 */
module Strings {

  /** The characters JavaScript treats as white space in both `trim()` and
      the regular-expression class `\s`: the WhiteSpace and LineTerminator
      productions of ECMAScript (TAB, LF, VT, FF, CR, SPACE, NBSP, the
      Unicode space separators, LS, PS and the byte-order mark). */
  predicate IsSpace(c: char) {
    var k := c as int;
    || k == 0x09 || k == 0x0A || k == 0x0B || k == 0x0C || k == 0x0D
    || k == 0x20 || k == 0xA0 || k == 0x1680
    || (0x2000 <= k <= 0x200A)
    || k == 0x2028 || k == 0x2029 || k == 0x202F || k == 0x205F
    || k == 0x3000 || k == 0xFEFF
  }

  /** Among ASCII characters exactly TAB, LF, VT, FF, CR and SPACE are white
      space; the no-break space, the ideographic space, the line separator
      and the byte-order mark are too, while the zero-width space, NEL and
      the Mongolian vowel separator are not. */
  lemma SpaceCharacters()
    ensures forall c: char :: c as int < 0x80 ==> (IsSpace(c) <==> (c == ' ' || '\t' <= c <= '\r'))
    ensures IsSpace('\U{00A0}') && IsSpace('\U{3000}') && IsSpace('\U{2028}') && IsSpace('\U{FEFF}')
    ensures !IsSpace('\U{200B}') && !IsSpace('\U{0085}') && !IsSpace('\U{180E}')
  {
  }

  predicate AllSpace(s: string) {
    forall k :: 0 <= k < |s| ==> IsSpace(s[k])
  }

  /** Neither end of `s` is white space: what `trim()` leaves behind. */
  predicate IsTrimmed(s: string) {
    |s| == 0 || (!IsSpace(s[0]) && !IsSpace(s[|s| - 1]))
  }

  /** The first position at or after `i` that does not hold white space,
      or `|s|`: how far `\s*` reaches from `i`. */
  function SpacesFrom(s: string, i: nat): (j: nat)
    requires i <= |s|
    ensures i <= j <= |s|
    ensures forall k :: i <= k < j ==> IsSpace(s[k])
    ensures j < |s| ==> !IsSpace(s[j])
    decreases |s| - i
  {
    if i < |s| && IsSpace(s[i]) then SpacesFrom(s, i + 1) else i
  }

  /** The contract of `SpacesFrom` determines its value. */
  lemma {:induction false} SpacesFromUnique(s: string, i: nat, j: nat)
    requires i <= j <= |s|
    requires forall k :: i <= k < j ==> IsSpace(s[k])
    requires j < |s| ==> !IsSpace(s[j])
    ensures SpacesFrom(s, i) == j
    decreases j - i
  {
    if i < j {
      SpacesFromUnique(s, i + 1, j);
    }
  }

  /** Length of the longest all-white-space suffix of `s`. */
  function TrailingSpaces(s: string): (n: nat)
    ensures n <= |s|
    ensures AllSpace(s[|s| - n..])
    ensures n < |s| ==> !IsSpace(s[|s| - n - 1])
    decreases |s|
  {
    if |s| > 0 && IsSpace(s[|s| - 1]) then
      var t := s[..|s| - 1];
      var m := TrailingSpaces(t);
      var suffix := s[|s| - (1 + m)..];
      assert AllSpace(suffix) by {
        forall k | 0 <= k < |suffix|
          ensures IsSpace(suffix[k])
        {
          if k < m {
            assert suffix[k] == t[|t| - m..][k];
          }
        }
      }
      assert 1 + m < |s| ==> s[|s| - (1 + m) - 1] == t[|t| - m - 1];
      1 + m
    else 0
  }

  /** `r` is `s` with the all-white-space pieces `s[..a]` and `s[b..]` cut off. */
  ghost predicate TrimmedSlice(r: string, s: string, a: int, b: int) {
    && 0 <= a <= b <= |s|
    && r == s[a..b]
    && AllSpace(s[..a])
    && AllSpace(s[b..])
  }

  /** JavaScript `s.trim()`. */
  function Trim(s: string): (r: string)
    ensures IsTrimmed(r)
    ensures exists a, b :: TrimmedSlice(r, s, a, b)
  {
    var a := SpacesFrom(s, 0);
    LeadingRun(s);
    var n := TrailingSpaces(s[a..]);
    var b := |s| - n;
    assert s[a..][|s| - a - n..] == s[b..];
    assert a < b ==> s[a..b][b - a - 1] == s[a..][|s| - a - n - 1];
    assert TrimmedSlice(s[a..b], s, a, b);
    s[a..b]
  }

  /** The white space `SpacesFrom` skips at the start is a prefix of the
      text made only of white space. */
  lemma LeadingRun(s: string)
    ensures AllSpace(s[..SpacesFrom(s, 0)])
  {
    var a := SpacesFrom(s, 0);
    assert forall k :: 0 <= k < a ==> s[..a][k] == s[k];
  }

  /** Trimming keeps a contiguous run of the text, so every character of
      the result occurs in the input. */
  lemma TrimKeepsChars(s: string)
    ensures forall k :: 0 <= k < |Trim(s)| ==> Trim(s)[k] in s
  {
    var a, b :| TrimmedSlice(Trim(s), s, a, b);
    assert forall k :: 0 <= k < |Trim(s)| ==> Trim(s)[k] == s[a + k];
  }

  /** Trimming is the identity on already-trimmed text, hence idempotent. */
  lemma TrimOfTrimmed(s: string)
    requires IsTrimmed(s)
    ensures Trim(s) == s
  {
  }

  /** A text made only of white space trims to the empty string. */
  lemma TrimAllSpace(s: string)
    requires AllSpace(s)
    ensures Trim(s) == []
  {
  }

  /** Number of occurrences of `d` in `s`. */
  function Count(s: string, d: char): (n: nat)
    ensures n <= |s|
    ensures n == 0 <==> d !in s
    decreases |s|
  {
    if |s| == 0 then 0
    else (if s[0] == d then 1 else 0) + Count(s[1..], d)
  }

  /** Offset of the first `d` in `s`, or `|s|` when there is none. */
  function IndexOf(s: string, d: char): (i: nat)
    ensures i <= |s|
    ensures d !in s[..i]
    ensures i < |s| ==> s[i] == d
    decreases |s|
  {
    if |s| == 0 then 0
    else if s[0] == d then 0
    else
      var i := IndexOf(s[1..], d);
      assert s[..i + 1] == [s[0]] + s[1..][..i];
      1 + i
  }

  lemma IndexOfOtherFirst(s: string, d: char)
    requires |s| > 0 && s[0] != d
    ensures IndexOf(s, d) == 1 + IndexOf(s[1..], d)
  {
  }

  /** Glues `parts` back together with `d` between neighbours
      (JavaScript `parts.join(d)`). */
  function Join(parts: seq<string>, d: char): string
    decreases |parts|
  {
    if |parts| == 0 then []
    else if |parts| == 1 then parts[0]
    else parts[0] + [d] + Join(parts[1..], d)
  }

  /** JavaScript `s.split(d)` for a one-character separator `d`: always at
      least one piece, one more piece than there are separators, no piece
      contains the separator, and joining the pieces gives `s` back. */
  function Split(s: string, d: char): (parts: seq<string>)
    ensures |parts| == Count(s, d) + 1
    ensures forall i :: 0 <= i < |parts| ==> d !in parts[i]
    ensures Join(parts, d) == s
    decreases |s|
  {
    if |s| == 0 then [[]]
    else if s[0] == d then
      var t := Split(s[1..], d);
      JoinEmptyFirst(t, d);
      assert s == [d] + s[1..];
      [[]] + t
    else
      var t := Split(s[1..], d);
      var r := [[s[0]] + t[0]] + t[1..];
      JoinExtendFirst(t, s[0], d);
      assert forall i :: 1 <= i < |r| ==> r[i] == t[i];
      assert s == [s[0]] + s[1..];
      r
  }

  /** An empty first piece contributes just its separator. */
  lemma JoinEmptyFirst(t: seq<string>, d: char)
    requires |t| >= 1
    ensures Join([[]] + t, d) == [d] + Join(t, d)
  {
    assert ([[]] + t)[1..] == t;
  }

  /** A character put in front of the first piece is put in front of the
      joined text. */
  lemma JoinExtendFirst(t: seq<string>, c: char, d: char)
    requires |t| >= 1
    ensures Join([[c] + t[0]] + t[1..], d) == [c] + Join(t, d)
  {
    var r := [[c] + t[0]] + t[1..];
    assert r[1..] == t[1..];
    if |t| > 1 {
      var later := Join(t[1..], d);
      AppendAssoc([c], t[0], [d]);
      AppendAssoc([c], t[0] + [d], later);
    }
  }

  /** A leading separator closes an empty first piece. */
  lemma SplitSeparatorFirst(s: string, d: char)
    requires |s| > 0 && s[0] == d
    ensures Split(s, d) == [[]] + Split(s[1..], d)
  {
  }

  /** Any other first character joins the first piece of the rest. */
  lemma SplitOtherFirst(s: string, d: char)
    requires |s| > 0 && s[0] != d
    ensures Split(s, d) == [[s[0]] + Split(s[1..], d)[0]] + Split(s[1..], d)[1..]
  {
  }

  /** The first piece of a split is the text before the first separator. */
  lemma {:induction false} SplitFirstPiece(s: string, d: char)
    ensures Split(s, d)[0] == s[..IndexOf(s, d)]
    decreases |s|
  {
    if |s| > 0 && s[0] != d {
      var rest := s[1..];
      SplitOtherFirst(s, d);
      SplitFirstPiece(rest, d);
      var i := IndexOf(rest, d);
      IndexOfOtherFirst(s, d);
      assert s[..i + 1] == [s[0]] + rest[..i];
    } else if |s| > 0 {
      SplitSeparatorFirst(s, d);
    }
  }

  /** Splitting text that has no separator gives that text as the only piece. */
  lemma {:induction false} SplitNoSeparator(x: string, d: char)
    requires d !in x
    ensures Split(x, d) == [x]
    decreases |x|
  {
    if |x| > 0 {
      var rest := x[1..];
      assert d !in rest;
      SplitOtherFirst(x, d);
      SplitNoSeparator(rest, d);
      assert [x[0]] + rest == x;
    }
  }

  /** The first separator ends the first piece. */
  lemma {:induction false} SplitAtSeparator(x: string, d: char, y: string)
    requires d !in x
    ensures Split(x + [d] + y, d) == [x] + Split(y, d)
    decreases |x|
  {
    var s := x + [d] + y;
    if |x| == 0 {
      assert s[1..] == y;
      SplitSeparatorFirst(s, d);
    } else {
      var rest := x[1..];
      assert d !in rest;
      assert s[1..] == rest + [d] + y;
      SplitOtherFirst(s, d);
      SplitAtSeparator(rest, d, y);
      assert [x[0]] + rest == x;
    }
  }

  /** Split undoes Join, provided no piece contains the separator and there
      is at least one piece. */
  lemma {:induction false} SplitJoin(parts: seq<string>, d: char)
    requires |parts| >= 1
    requires forall i :: 0 <= i < |parts| ==> d !in parts[i]
    ensures Split(Join(parts, d), d) == parts
    decreases |parts|
  {
    if |parts| == 1 {
      SplitNoSeparator(parts[0], d);
    } else {
      SplitJoin(parts[1..], d);
      SplitAtSeparator(parts[0], d, Join(parts[1..], d));
      assert [parts[0]] + parts[1..] == parts;
    }
  }

  lemma AppendAssoc<T>(a: seq<T>, b: seq<T>, c: seq<T>)
    ensures a + (b + c) == (a + b) + c
  {
  }

  /** Appending the head of `r` and then its tail appends all of `r`. */
  lemma AppendHead<T>(a: seq<T>, r: seq<T>)
    requires |r| > 0
    ensures (a + [r[0]]) + r[1..] == a + r
  {
    assert r == [r[0]] + r[1..];
    AppendAssoc(a, [r[0]], r[1..]);
  }

  /** A suffix is its first element followed by the rest of it. */
  lemma SuffixCons<T>(s: seq<T>, i: nat)
    requires i < |s|
    ensures s[i..] == [s[i]] + s[i + 1..]
  {
  }

  /** A slice is its first element followed by the rest of it; so a piece
      kept in front of the remainder of a slice extends the slice. */
  lemma SliceCons<T>(s: seq<T>, i: nat, q: nat, r: seq<T>)
    requires i < q <= |s|
    ensures [s[i]] + (s[i + 1..q] + r) == s[i..q] + r
  {
    assert s[i..q] == [s[i]] + s[i + 1..q];
    AppendAssoc([s[i]], s[i + 1..q], r);
  }

  /** `a` is obtained from `b` by deleting characters. */
  ghost predicate IsSubsequence(a: string, b: string)
    decreases |b|
  {
    || |a| == 0
    || (|b| > 0 && ((a[0] == b[0] && IsSubsequence(a[1..], b[1..])) || IsSubsequence(a, b[1..])))
  }

  lemma {:induction false} SubsequenceRefl(a: string)
    ensures IsSubsequence(a, a)
    decreases |a|
  {
    if |a| > 0 {
      SubsequenceRefl(a[1..]);
    }
  }

  lemma {:induction false} SubsequenceTrans(a: string, b: string, c: string)
    requires IsSubsequence(a, b) && IsSubsequence(b, c)
    ensures IsSubsequence(a, c)
    decreases |c|
  {
    if |a| > 0 {
      if IsSubsequence(b, c[1..]) {
        SubsequenceTrans(a, b, c[1..]);
      } else {
        assert b[0] == c[0] && IsSubsequence(b[1..], c[1..]);
        if a[0] == b[0] && IsSubsequence(a[1..], b[1..]) {
          SubsequenceTrans(a[1..], b[1..], c[1..]);
        } else {
          SubsequenceTrans(a, b[1..], c[1..]);
        }
      }
    }
  }

  /** A subsequence of a suffix of `b` is a subsequence of `b`. */
  lemma {:induction false} SubsequenceOfSuffix(a: string, b: string, k: nat)
    requires k <= |b|
    requires IsSubsequence(a, b[k..])
    ensures IsSubsequence(a, b)
    decreases k
  {
    if k > 0 {
      assert b[k - 1..][1..] == b[k..];
      SubsequenceOfSuffix(a, b, k - 1);
    }
  }

  /** Every prefix is a subsequence. */
  lemma {:induction false} PrefixIsSubsequence(b: string, j: nat)
    requires j <= |b|
    ensures IsSubsequence(b[..j], b)
    decreases |b|
  {
    if j > 0 {
      var rest := b[1..];
      PrefixIsSubsequence(rest, j - 1);
      assert b[..j][1..] == rest[..j - 1];
    }
  }

  /** Every contiguous slice is a subsequence. */
  lemma SliceIsSubsequence(b: string, i: nat, j: nat)
    requires i <= j <= |b|
    ensures IsSubsequence(b[i..j], b)
  {
    var tail := b[i..];
    PrefixIsSubsequence(tail, j - i);
    assert tail[..j - i] == b[i..j];
    SubsequenceOfSuffix(b[i..j], b, i);
  }

  /** Trimming only deletes characters. */
  lemma TrimSubsequence(s: string)
    ensures IsSubsequence(Trim(s), s)
  {
    var a, b :| TrimmedSlice(Trim(s), s, a, b);
    SliceIsSubsequence(s, a, b);
  }

  /** Deleting characters never introduces a character. */
  lemma {:induction false} SubsequenceChars(a: string, b: string)
    requires IsSubsequence(a, b)
    ensures forall k :: 0 <= k < |a| ==> a[k] in b
    decreases |b|
  {
    if |a| > 0 {
      if IsSubsequence(a, b[1..]) {
        SubsequenceChars(a, b[1..]);
      } else {
        SubsequenceChars(a[1..], b[1..]);
        assert forall k :: 1 <= k < |a| ==> a[k] == a[1..][k - 1];
      }
    }
  }
}
