/** `clean_text`: whitespace normalisation of the extracted résumé text
    (backend/parser.py, lines 35-36).  The text is rewritten with every run
    of whitespace replaced by one space, and the result is stripped. */
module Clean {
  import opened Text

  /** No whitespace character is followed by another. */
  predicate NoDoubleSpace(r: string) {
    forall i :: 0 <= i < |r| - 1 && IsSpace(r[i]) ==> !IsSpace(r[i + 1])
  }

  /** Every whitespace character is the plain space `' '`. */
  predicate OnlyPlainSpaces(r: string) {
    forall i :: 0 <= i < |r| && IsSpace(r[i]) ==> r[i] == ' '
  }

  predicate NoEdgeSpace(r: string) {
    r == [] || (!IsSpace(r[0]) && !IsSpace(r[|r| - 1]))
  }

  /** The shape `clean_text` promises: words separated by single spaces. */
  predicate IsNormalized(r: string) {
    NoEdgeSpace(r) && NoDoubleSpace(r) && OnlyPlainSpaces(r)
  }

  /** `re.sub(r'\s+', ' ', s)`: each maximal whitespace run becomes one
      space; everything else is copied. */
  function CollapseSpaces(s: string): (r: string)
    ensures r == [] <==> s == []
    ensures s != [] ==> (IsSpace(r[0]) <==> IsSpace(s[0]))
    ensures NoDoubleSpace(r) && OnlyPlainSpaces(r)
    decreases |s|
  {
    if s == [] then []
    else if IsSpace(s[0]) then
      var rest := CollapseSpaces(LStrip(s));
      assert rest == [] || !IsSpace(rest[0]);
      [' '] + rest
    else
      [s[0]] + CollapseSpaces(s[1..])
  }

  /** A slice of a string keeps both spacing properties. */
  lemma SliceKeepsSpacing(s: string, lo: nat, hi: nat)
    requires lo <= hi <= |s|
    requires NoDoubleSpace(s) && OnlyPlainSpaces(s)
    ensures NoDoubleSpace(s[lo..hi]) && OnlyPlainSpaces(s[lo..hi])
  {
    var t := s[lo..hi];
    forall i | 0 <= i < |t| - 1 && IsSpace(t[i])
      ensures !IsSpace(t[i + 1])
    {
      assert t[i] == s[lo + i] && t[i + 1] == s[lo + i + 1];
    }
    forall i | 0 <= i < |t| && IsSpace(t[i])
      ensures t[i] == ' '
    {
      assert t[i] == s[lo + i];
    }
  }

  /** `clean_text(text)`: a normalised string, no whitespace at either end
      and none doubled, with every whitespace character a plain space. */
  function CleanText(s: string): (r: string)
    ensures IsNormalized(r)
  {
    var c := CollapseSpaces(s);
    StripKeepsSpacing(c);
    Strip(c)
  }

  lemma StripKeepsSpacing(c: string)
    requires NoDoubleSpace(c) && OnlyPlainSpaces(c)
    ensures IsNormalized(Strip(c))
  {
    StripIsSlice(c);
    SliceKeepsSpacing(c, StripStart(c), StripStart(c) + |Strip(c)|);
  }

  /** Collapsing whitespace runs keeps the sequence of words. */
  lemma {:induction false} CollapseKeepsWords(s: string)
    ensures Words(CollapseSpaces(s)) == Words(s)
    decreases |s|
  {
    if s == [] {
    } else if IsSpace(s[0]) {
      CollapseKeepsWords(LStrip(s));
      CollapseSpaceStep(s);
    } else {
      CollapseKeepsWords(s[1..]);
      CollapseCharStep(s);
    }
  }

  lemma CollapseSpaceStep(s: string)
    requires s != [] && IsSpace(s[0])
    requires Words(CollapseSpaces(LStrip(s))) == Words(LStrip(s))
    ensures Words(CollapseSpaces(s)) == Words(s)
  {
    WordsSkipSpace(' ', CollapseSpaces(LStrip(s)));
    WordsLStrip(s);
  }

  lemma CollapseCharStep(s: string)
    requires s != [] && !IsSpace(s[0])
    requires Words(CollapseSpaces(s[1..])) == Words(s[1..])
    ensures Words(CollapseSpaces(s)) == Words(s)
  {
    var t := s[1..];
    var c := CollapseSpaces(t);
    HeadTail(s);
    assert CollapseSpaces(s) == [s[0]] + c;
    if t == [] || IsSpace(t[0]) {
      WordsConsBreak(s[0], t);
      WordsConsBreak(s[0], c);
    } else {
      WordsConsExtend(s[0], t);
      WordsConsExtend(s[0], c);
    }
  }

  /** `clean_text` keeps the words: `clean_text(s).split() == s.split()`. */
  lemma CleanTextKeepsWords(s: string)
    ensures Words(CleanText(s)) == Words(s)
  {
    var c := CollapseSpaces(s);
    WordsStrip(c);
    CollapseKeepsWords(s);
  }

  lemma SuffixIsNormalized(r: string, k: nat)
    requires IsNormalized(r)
    requires k < |r| && !IsSpace(r[k])
    ensures IsNormalized(r[k..])
  {
    SliceKeepsSpacing(r, k, |r|);
  }

  lemma Reassemble(a: string, n: nat)
    requires n < |a| && a[n] == ' '
    ensures a == a[..n] + " " + a[n + 1..]
  {
  }

  /** In a normalised string the first word, when more follow, is ended by
      one plain space followed by a non-whitespace character. */
  lemma NormalizedBreak(r: string)
    requires IsNormalized(r) && WordLen(r) < |r|
    ensures WordLen(r) + 1 < |r| && r[WordLen(r)] == ' ' && !IsSpace(r[WordLen(r) + 1])
  {
  }

  /** Words of a string that starts with a word ended by one plain space. */
  lemma WordsAfterBreak(r: string, n: nat)
    requires r != [] && !IsSpace(r[0])
    requires n == WordLen(r) && n < |r| && r[n] == ' '
    ensures Words(r) == [r[..n]] + Words(r[n + 1..])
  {
    assert Words(r) == [r[..n]] + Words(r[n..]) by {
      assert LStrip(r) == r;
    }
    assert Words(r[n..]) == Words(r[n + 1..]) by {
      DropFirst(r, n);
      WordsSkipSpace(' ', r[n + 1..]);
    }
  }

  lemma DropFirst<T>(a: seq<T>, n: nat)
    requires n < |a|
    ensures a[n..] == [a[n]] + a[n + 1..]
  {
  }

  lemma WordsOfLoneWord(r: string)
    requires r != [] && !IsSpace(r[0]) && WordLen(r) == |r|
    ensures Words(r) == [r]
  {
    assert LStrip(r) == r;
    assert r[|r|..] == [];
    assert r[..|r|] == r;
  }

  lemma WordsNonEmpty(r: string)
    requires r != [] && !IsSpace(r[0])
    ensures |Words(r)| > 0
  {
    assert LStrip(r) == r;
  }

  lemma JoinCons(w: string, ws: seq<string>)
    requires |ws| > 0
    ensures JoinSpaced([w] + ws) == w + " " + JoinSpaced(ws)
  {
    assert ([w] + ws)[1..] == ws;
  }

  /** A normalised string is the space-join of its own words. */
  lemma {:induction false} NormalizedIsJoin(r: string)
    requires IsNormalized(r)
    ensures JoinSpaced(Words(r)) == r
    decreases |r|
  {
    if r != [] {
      var n := WordLen(r);
      if n == |r| {
        WordsOfLoneWord(r);
      } else {
        NormalizedBreak(r);
        SuffixIsNormalized(r, n + 1);
        NormalizedIsJoin(r[n + 1..]);
        JoinAfterBreak(r, n);
        Reassemble(r, n);
      }
    }
  }

  /** Joining the words of a string whose first word ends in one plain
      space: that word, the space, and the join of the rest. */
  lemma JoinAfterBreak(r: string, n: nat)
    requires r != [] && !IsSpace(r[0])
    requires n == WordLen(r) && n + 1 < |r| && r[n] == ' ' && !IsSpace(r[n + 1])
    ensures JoinSpaced(Words(r)) == r[..n] + " " + JoinSpaced(Words(r[n + 1..]))
  {
    var tail := r[n + 1..];
    WordsAfterBreak(r, n);
    WordsNonEmpty(tail);
    JoinCons(r[..n], Words(tail));
  }

  /** The reference reading of `clean_text`: `" ".join(s.split())`. */
  lemma CleanTextIsJoinOfWords(s: string)
    ensures CleanText(s) == JoinSpaced(Words(s))
  {
    NormalizedIsJoin(CleanText(s));
    CleanTextKeepsWords(s);
  }

  /** Cleaning twice is cleaning once. */
  lemma CleanTextIdempotent(s: string)
    ensures CleanText(CleanText(s)) == CleanText(s)
  {
    CleanTextIsJoinOfWords(CleanText(s));
    CleanTextKeepsWords(s);
    CleanTextIsJoinOfWords(s);
  }
}
