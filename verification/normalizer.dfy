/**
  The text normaliser applied to a vocabulary word before it is spoken:
  keep what precedes the first comma, trim it, delete every
  `\s*\([^)]*\)\s*` group in one global left-to-right regular-expression
  replacement, and trim again.

  The replacement is modelled the way a regular-expression engine runs it:
  a scan over positions of the text, trying a match at each position, and
  moving past a match or past one kept character.
 */
module Normalizer {
  import opened Wrappers
  import opened Strings

  /** JavaScript `s.split(',')[0]`: the text before the first comma. */
  function BeforeComma(s: string): (r: string)
    ensures ',' !in r
    ensures r <= s
    ensures |r| < |s| ==> s[|r|] == ','
  {
    s[..IndexOf(s, ',')]
  }

  /** The contract of `BeforeComma` pins its result down: the only prefix
      without a comma that stops at a comma or at the end. */
  lemma BeforeCommaUnique(s: string, n: nat)
    requires n <= |s|
    requires ',' !in s[..n]
    requires n < |s| ==> s[n] == ','
    ensures BeforeComma(s) == s[..n]
  {
    var i := IndexOf(s, ',');
    assert forall k :: 0 <= k < n ==> s[..n][k] == s[k];
    assert forall k :: 0 <= k < i ==> s[..i][k] == s[k];
  }

  /** `BeforeComma` is the first piece `split(',')` produces. */
  lemma BeforeCommaIsFirstPiece(s: string)
    ensures BeforeComma(s) == Split(s, ',')[0]
  {
    SplitFirstPiece(s, ',');
  }

  /** The first position at or after `i` that holds `)`, or `|s|`: how far
      `[^)]*` reaches from `i`. */
  function CloseFrom(s: string, i: nat): (j: nat)
    requires i <= |s|
    ensures i <= j <= |s|
    ensures forall k :: i <= k < j ==> s[k] != ')'
    ensures j < |s| ==> s[j] == ')'
  {
    var n := IndexOf(s[i..], ')');
    assert forall k :: i <= k < i + n ==> s[k] == s[i..][..n][k - i];
    i + n
  }

  /** The contract of `CloseFrom` determines its value. */
  lemma CloseFromUnique(s: string, i: nat, j: nat)
    requires i <= j <= |s|
    requires forall k :: i <= k < j ==> s[k] != ')'
    requires j < |s| ==> s[j] == ')'
    ensures CloseFrom(s, i) == j
  {
  }

  /** `s[i..n]` is one match of `\s*\([^)]*\)\s*`: white space up to the
      `(` at `w`, no `)` before the `)` at `c`, and white space after it.
      This is the language of the regular expression, stated independently
      of how it is scanned. */
  ghost predicate GroupMatch(s: string, i: int, w: int, c: int, n: int) {
    && 0 <= i <= w < c < n <= |s|
    && (forall k :: i <= k < w ==> IsSpace(s[k]))
    && s[w] == '('
    && (forall k :: w < k < c ==> s[k] != ')')
    && s[c] == ')'
    && (forall k :: c < k < n ==> IsSpace(s[k]))
  }

  /** The end of the match of `\s*\([^)]*\)\s*` that starts at `i`, as a
      backtracking engine finds it: the leading `\s*` and `[^)]*` take as
      much as they can and still let the rest match, and the trailing `\s*`
      takes all the white space there is. */
  function MatchAt(s: string, i: nat): (m: Option<nat>)
    requires i <= |s|
    ensures m.Some? ==> i + 2 <= m.value <= |s|
    ensures m.Some? && m.value < |s| ==> !IsSpace(s[m.value])
  {
    var w := SpacesFrom(s, i);
    if w < |s| && s[w] == '(' then
      var c := CloseFrom(s, w + 1);
      if c < |s| then Some(SpacesFrom(s, c + 1)) else None
    else None
  }

  /** What `MatchAt` reports is a match of the regular expression. */
  lemma MatchAtIsMatch(s: string, i: nat)
    requires i <= |s|
    ensures MatchAt(s, i).Some? ==> exists w, c :: GroupMatch(s, i, w, c, MatchAt(s, i).value)
  {
    var w := SpacesFrom(s, i);
    if w < |s| && s[w] == '(' && CloseFrom(s, w + 1) < |s| {
      assert GroupMatch(s, i, w, CloseFrom(s, w + 1), MatchAt(s, i).value);
    }
  }

  /** Conversely, a match at `i` that uses up the white space after it is
      the one `MatchAt` reports. */
  lemma MatchAtFindsMatch(s: string, i: nat, w: nat, c: nat, n: nat)
    requires GroupMatch(s, i, w, c, n)
    requires n < |s| ==> !IsSpace(s[n])
    ensures MatchAt(s, i) == Some(n)
  {
    SpacesFromUnique(s, i, w);
    CloseFromUnique(s, w + 1, c);
    SpacesFromUnique(s, c + 1, n);
  }

  /** No `(` is followed, anywhere later, by a `)`: nothing the
      replacement could match. */
  predicate NoClosedGroup(s: string) {
    forall i, j :: 0 <= i < j < |s| && s[i] == '(' ==> s[j] != ')'
  }

  /** In text without a complete group no match starts anywhere. */
  lemma NoMatchAt(s: string, i: nat)
    requires i <= |s| && NoClosedGroup(s)
    ensures MatchAt(s, i).None?
  {
    var w := SpacesFrom(s, i);
    if w < |s| && s[w] == '(' {
      assert forall k :: w < k < |s| ==> s[k] != ')';
    }
  }

  /** A `(` at which no match starts has no `)` anywhere after it. */
  lemma OpenWithoutClose(s: string, i: nat)
    requires i < |s| && s[i] == '(' && MatchAt(s, i).None?
    ensures forall k :: i < k < |s| ==> s[k] != ')'
  {
    SpacesFromUnique(s, i, i);
  }

  /** Putting a character in front keeps text free of complete groups,
      provided an opening `(` is not followed by a `)`. */
  lemma PrependNoClosedGroup(c: char, t: string)
    requires NoClosedGroup(t)
    requires c == '(' ==> ')' !in t
    ensures NoClosedGroup([c] + t)
  {
    var r := [c] + t;
    assert forall k :: 1 <= k < |r| ==> r[k] == t[k - 1];
  }

  /** Trimming cannot create a complete group. */
  lemma TrimKeepsNoClosedGroup(s: string)
    requires NoClosedGroup(s)
    ensures NoClosedGroup(Trim(s))
  {
    var a, b :| TrimmedSlice(Trim(s), s, a, b);
    assert forall k :: 0 <= k < |Trim(s)| ==> Trim(s)[k] == s[a + k];
  }

  /** The global replacement of every match of `\s*\([^)]*\)\s*` by the
      empty string, from position `i` on: drop the match that starts at `i`
      and resume after it, or keep the character at `i` and move on by one. */
  function StripFrom(s: string, i: nat): (r: string)
    requires i <= |s|
    ensures |r| <= |s| - i
    decreases |s| - i
  {
    if i == |s| then []
    else match MatchAt(s, i)
      case Some(n) => StripFrom(s, n)
      case None => [s[i]] + StripFrom(s, i + 1)
  }

  /** No complete group survives the scan from `i`, and it brings in no
      `)` that the scanned text lacks. */
  lemma {:induction false} StripFromClean(s: string, i: nat)
    requires i <= |s|
    ensures NoClosedGroup(StripFrom(s, i))
    ensures (forall k :: i <= k < |s| ==> s[k] != ')') ==> ')' !in StripFrom(s, i)
    decreases |s| - i
  {
    if i < |s| {
      if MatchAt(s, i).Some? {
        StripFromDrops(s, i, MatchAt(s, i).value);
        StripFromClean(s, MatchAt(s, i).value);
      } else {
        StripFromKeeps(s, i);
        StripFromClean(s, i + 1);
        if s[i] == '(' {
          OpenWithoutClose(s, i);
        }
        PrependNoClosedGroup(s[i], StripFrom(s, i + 1));
      }
    }
  }

  /** Where no match starts, the character is kept and the scan moves on. */
  lemma StripFromKeeps(s: string, i: nat)
    requires i < |s| && MatchAt(s, i).None?
    ensures StripFrom(s, i) == [s[i]] + StripFrom(s, i + 1)
  {
  }

  /** Where a match starts, it is dropped and the scan resumes after it. */
  lemma StripFromDrops(s: string, i: nat, n: nat)
    requires i < |s| && MatchAt(s, i) == Some(n)
    ensures StripFrom(s, i) == StripFrom(s, n)
  {
  }

  /** JavaScript `s.replace(re, '')` where `re` is `\s*\([^)]*\)\s*` with
      the global flag; no complete group survives it. */
  function StripGroups(s: string): (r: string)
    ensures NoClosedGroup(r)
  {
    StripFromClean(s, 0);
    StripFrom(s, 0)
  }

  /** The scan from `i` only deletes characters of `s[i..]`. */
  lemma {:induction false} StripFromSubsequence(s: string, i: nat)
    requires i <= |s|
    ensures IsSubsequence(StripFrom(s, i), s[i..])
    decreases |s| - i
  {
    if i < |s| {
      match MatchAt(s, i)
      case Some(n) =>
        StripFromDrops(s, i, n);
        StripFromSubsequence(s, n);
        assert s[i..][n - i..] == s[n..];
        SubsequenceOfSuffix(StripFrom(s, n), s[i..], n - i);
      case None =>
        StripFromKeeps(s, i);
        StripFromSubsequence(s, i + 1);
        var r := StripFrom(s, i);
        assert r[1..] == StripFrom(s, i + 1);
        assert s[i..][1..] == s[i + 1..];
    }
  }

  /** The replacement only deletes characters. */
  lemma StripGroupsSubsequence(s: string)
    ensures IsSubsequence(StripGroups(s), s)
  {
    StripFromSubsequence(s, 0);
    assert s[0..] == s;
  }

  /** The scan from `i` over text without a complete group keeps it all. */
  lemma {:induction false} StripFromNoGroup(s: string, i: nat)
    requires i <= |s| && NoClosedGroup(s)
    ensures StripFrom(s, i) == s[i..]
    decreases |s| - i
  {
    if i < |s| {
      NoMatchAt(s, i);
      StripFromKeeps(s, i);
      StripFromNoGroup(s, i + 1);
      SuffixCons(s, i);
    }
  }

  /** Text without a complete group comes out of the replacement unchanged. */
  lemma StripGroupsNoGroup(s: string)
    requires NoClosedGroup(s)
    ensures StripGroups(s) == s
  {
    StripFromNoGroup(s, 0);
    assert s[0..] == s;
  }

  /** `cleanTextForSpeech`: the form of a vocabulary word that is handed to
      the speech engine. */
  function CleanText(text: string): (r: string)
    ensures |text| == 0 ==> r == []
    ensures ',' !in r
    ensures IsTrimmed(r)
    ensures NoClosedGroup(r)
  {
    if |text| == 0 then []
    else
      var head := BeforeComma(text);
      var cut := Trim(head);
      var stripped := StripGroups(cut);
      TrimKeepsChars(head);
      StripGroupsSubsequence(cut);
      SubsequenceChars(stripped, cut);
      TrimKeepsChars(stripped);
      TrimKeepsNoClosedGroup(stripped);
      Trim(stripped)
  }

  /** The normaliser only deletes characters from its input. */
  lemma CleanTextSubsequence(text: string)
    ensures IsSubsequence(CleanText(text), text)
  {
    if |text| > 0 {
      var head := BeforeComma(text);
      var cut := Trim(head);
      var stripped := StripGroups(cut);
      PrefixIsSubsequence(text, |head|);
      assert text[..|head|] == head;
      TrimSubsequence(head);
      StripGroupsSubsequence(cut);
      TrimSubsequence(stripped);
      SubsequenceTrans(cut, head, text);
      SubsequenceTrans(stripped, cut, text);
      SubsequenceTrans(Trim(stripped), stripped, text);
    } else {
      SubsequenceRefl(text);
    }
  }

  /** Normalising twice gives the same result as normalising once. */
  lemma CleanTextIdempotent(text: string)
    ensures CleanText(CleanText(text)) == CleanText(text)
  {
    var y := CleanText(text);
    if |y| > 0 {
      assert BeforeComma(y) == y;
      TrimOfTrimmed(y);
      StripGroupsNoGroup(y);
    }
  }

  /** No match starts inside a run without `(` that ends in a character
      other than white space or at the end of the text. */
  lemma NoMatchInPlainRun(s: string, i: nat, q: nat)
    requires i < q <= |s|
    requires forall k :: i <= k < q ==> s[k] != '('
    requires q == |s| || !IsSpace(s[q - 1])
    ensures MatchAt(s, i).None?
  {
    var w := SpacesFrom(s, i);
    assert w < |s| ==> w < q;
  }

  /** Such a run passes through the replacement untouched, whatever
      follows it. */
  lemma {:induction false} StripFromPlainRun(s: string, i: nat, q: nat)
    requires i <= q <= |s|
    requires forall k :: i <= k < q ==> s[k] != '('
    requires i < q < |s| ==> !IsSpace(s[q - 1])
    ensures StripFrom(s, i) == s[i..q] + StripFrom(s, q)
    decreases q - i
  {
    if i < q {
      NoMatchInPlainRun(s, i, q);
      StripFromKeeps(s, i);
      StripFromPlainRun(s, i + 1, q);
      SliceCons(s, i, q, StripFrom(s, q));
    }
  }

  /** White space, a parenthesised text without `)`, and white space make
      up one match. */
  lemma GroupMatchOf(ws1: string, inner: string, ws2: string)
    requires AllSpace(ws1) && AllSpace(ws2)
    requires ')' !in inner
    ensures var g := ws1 + "(" + inner + ")" + ws2;
      GroupMatch(g, 0, |ws1|, |ws1| + 1 + |inner|, |g|)
  {
    var g := ws1 + "(" + inner + ")" + ws2;
    var c := |ws1| + 1 + |inner|;
    assert forall k :: 0 <= k < |ws1| ==> g[k] == ws1[k];
    assert forall k :: |ws1| < k < c ==> g[k] == inner[k - |ws1| - 1];
    assert forall k :: c < k < |g| ==> g[k] == ws2[k - c - 1];
  }

  /** A match keeps its shape wherever it is placed, and the scan finds
      it whole when what follows does not begin with white space. */
  lemma MatchInContext(x: string, g: string, y: string, w: nat, c: nat)
    requires GroupMatch(g, 0, w, c, |g|)
    requires |y| == 0 || !IsSpace(y[0])
    ensures MatchAt(x + g + y, |x|) == Some(|x| + |g|)
  {
    var s := x + g + y;
    assert forall k :: |x| <= k < |x| + |g| ==> s[k] == g[k - |x|];
    assert GroupMatch(s, |x|, |x| + w, |x| + c, |x| + |g|);
    assert |x| + |g| < |s| ==> s[|x| + |g|] == y[0];
    MatchAtFindsMatch(s, |x|, |x| + w, |x| + c, |x| + |g|);
  }

  /** A run without `(`, not ending in white space, in front of the rest
      of the text is kept whole. */
  lemma PlainHeadKept(x: string, g: string, y: string)
    requires '(' !in x && (|x| == 0 || !IsSpace(x[|x| - 1]))
    ensures StripGroups(x + g + y) == x + StripFrom(x + g + y, |x|)
  {
    var s := x + g + y;
    assert forall k :: 0 <= k < |x| ==> s[k] == x[k];
    StripFromPlainRun(s, 0, |x|);
    assert s[0..|x|] == x;
  }

  /** From a position with no `(` anywhere after it, the text is kept to
      its end. */
  lemma {:induction false} StripFromNoOpen(s: string, i: nat)
    requires i <= |s|
    requires forall k :: i <= k < |s| ==> s[k] != '('
    ensures StripFrom(s, i) == s[i..]
    decreases |s| - i
  {
    if i < |s| {
      assert SpacesFrom(s, i) < |s| ==> s[SpacesFrom(s, i)] != '(';
      StripFromKeeps(s, i);
      StripFromNoOpen(s, i + 1);
      SuffixCons(s, i);
    }
  }

  /** A run without `(` at the end of the text is kept whole. */
  lemma PlainTailKept(x: string, g: string, y: string)
    requires '(' !in y
    ensures StripFrom(x + g + y, |x| + |g|) == y
  {
    var s := x + g + y;
    var q := |x| + |g|;
    forall k | q <= k < |s|
      ensures s[k] != '('
    {
      assert s[k] == y[k - q];
    }
    StripFromNoOpen(s, q);
    assert s[q..] == y;
  }

  /** A match between two runs without `(` vanishes and the runs meet; the
      run in front must not end in white space, which the match would
      otherwise take with it. */
  lemma StripGroupsBetweenWords(x: string, g: string, w: nat, c: nat, y: string)
    requires '(' !in x && (|x| == 0 || !IsSpace(x[|x| - 1]))
    requires GroupMatch(g, 0, w, c, |g|)
    requires '(' !in y && (|y| == 0 || !IsSpace(y[0]))
    ensures StripGroups(x + g + y) == x + y
  {
    var s := x + g + y;
    assert StripFrom(s, |x|) == y by {
      MatchInContext(x, g, y, w, c);
      StripFromDrops(s, |x|, |x| + |g|);
      PlainTailKept(x, g, y);
    }
    PlainHeadKept(x, g, y);
  }

  /** The three stages of `CleanText`, each established on its own. */
  lemma CleanTextStages(text: string, cut: string, out: string)
    requires |text| > 0
    requires BeforeComma(text) == cut && IsTrimmed(cut)
    requires StripGroups(cut) == out && IsTrimmed(out)
    ensures CleanText(text) == out
  {
    TrimOfTrimmed(cut);
    TrimOfTrimmed(out);
  }

  /** A word followed by a parenthesised gloss and, optionally, by
      comma-separated alternatives is read as the bare word: for instance
      "Hund (dog), canine" becomes "Hund". */
  lemma CleanTextDropsAnnotation(word: string, ws: string, gloss: string, rest: string)
    requires |word| > 0 && IsTrimmed(word) && '(' !in word && ',' !in word
    requires AllSpace(ws)
    requires ')' !in gloss && ',' !in gloss
    requires |rest| == 0 || rest[0] == ','
    ensures CleanText(word + ws + "(" + gloss + ")" + rest) == word
  {
    var g := ws + "(" + gloss + ")";
    var cut := word + g;
    var text := cut + rest;
    assert word + ws + "(" + gloss + ")" + rest == text;
    assert BeforeComma(text) == cut by {
      assert text[..|cut|] == cut;
      assert forall k :: 0 <= k < |ws| ==> ws[k] != ',';
      BeforeCommaUnique(text, |cut|);
    }
    assert IsTrimmed(cut) by {
      assert cut[|cut| - 1] == ')';
    }
    assert StripGroups(cut) == word by {
      GroupMatchOf(ws, gloss, []);
      assert g + [] == g;
      assert cut + [] == cut;
      StripGroupsBetweenWords(word, g, |ws|, |ws| + 1 + |gloss|, []);
      assert word + [] == word;
    }
    CleanTextStages(text, cut, word);
  }

  /** A gloss that a comma interrupts is cut before its `)`, so the
      replacement finds no complete group and the `(` is spoken: for
      instance "Hund (dog, canine)" becomes "Hund (dog". */
  lemma CleanTextKeepsUnclosedGroup(word: string, ws: string, gloss: string, rest: string)
    requires |word| > 0 && IsTrimmed(word) && ',' !in word && ')' !in word
    requires AllSpace(ws)
    requires ')' !in gloss && ',' !in gloss
    requires |gloss| == 0 || !IsSpace(gloss[|gloss| - 1])
    ensures CleanText(word + ws + "(" + gloss + "," + rest) == word + ws + "(" + gloss
  {
    var cut := word + ws + "(" + gloss;
    var text := cut + "," + rest;
    assert word + ws + "(" + gloss + "," + rest == text;
    assert BeforeComma(text) == cut by {
      assert text[..|cut|] == cut;
      assert forall k :: 0 <= k < |ws| ==> ws[k] != ',';
      BeforeCommaUnique(text, |cut|);
    }
    assert StripGroups(cut) == cut by {
      assert forall k :: 0 <= k < |ws| ==> ws[k] != ')';
      assert ')' !in cut;
      StripGroupsNoGroup(cut);
    }
    assert IsTrimmed(cut) by {
      assert cut[0] == word[0];
      assert cut[|cut| - 1] == if |gloss| == 0 then '(' else gloss[|gloss| - 1];
    }
    CleanTextStages(text, cut, cut);
  }

  /** A group between two words takes the white space on both of its sides
      with it, so the words are joined: for instance
      "Guten Tag (formal) Herr" becomes "Guten TagHerr". */
  lemma CleanTextJoinsWords(x: string, ws1: string, gloss: string, ws2: string, y: string)
    requires |x| > 0 && IsTrimmed(x) && '(' !in x && ',' !in x
    requires |y| > 0 && IsTrimmed(y) && '(' !in y && ',' !in y
    requires AllSpace(ws1) && AllSpace(ws2)
    requires ')' !in gloss && ',' !in gloss
    ensures CleanText(x + ws1 + "(" + gloss + ")" + ws2 + y) == x + y
  {
    var g := ws1 + "(" + gloss + ")" + ws2;
    var text := x + g + y;
    assert x + ws1 + "(" + gloss + ")" + ws2 + y == text;
    assert BeforeComma(text) == text by {
      assert ',' !in g by {
        assert forall k :: 0 <= k < |ws1| ==> ws1[k] != ',';
        assert forall k :: 0 <= k < |ws2| ==> ws2[k] != ',';
      }
      assert ',' !in text;
      assert text[..|text|] == text;
    }
    GroupMatchOf(ws1, gloss, ws2);
    StripGroupsBetweenWords(x, g, |ws1|, |ws1| + 1 + |gloss|, y);
    CleanTextStages(text, text, x + y);
  }
}
