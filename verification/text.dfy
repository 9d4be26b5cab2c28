/** The pieces of Python's `str` that the résumé parser leans on, over
    `string` (= `seq<char>`): the whitespace class shared by `\s`, `strip()`
    and `split()`, substring search, `lower()`, `split(sep)`, `split()`,
    `" ".join` and `istitle()`.

    Whitespace is CPython's `str.isspace` set.  Case mapping, the cased
    letters and the digit and word-character classes are the ASCII ones. */
module Text {

  /** CPython's whitespace set: what `\s`, `strip()` and `split()` skip. */
  predicate IsSpace(c: char) {
    || ('\t' <= c <= '\r')
    || ('\U{1C}' <= c <= '\U{1F}')
    || c == ' '
    || c == '\U{85}'
    || c == '\U{A0}'
    || c == '\U{1680}'
    || ('\U{2000}' <= c <= '\U{200A}')
    || c == '\U{2028}'
    || c == '\U{2029}'
    || c == '\U{202F}'
    || c == '\U{205F}'
    || c == '\U{3000}'
  }

  predicate IsDigit(c: char) { '0' <= c <= '9' }
  predicate IsUpper(c: char) { 'A' <= c <= 'Z' }
  predicate IsLower(c: char) { 'a' <= c <= 'z' }
  predicate IsCased(c: char) { IsUpper(c) || IsLower(c) }

  /** The regex class `\w`. */
  predicate IsWordChar(c: char) { IsCased(c) || IsDigit(c) || c == '_' }

  function DigitValue(c: char): nat
    requires IsDigit(c)
  {
    c as int - '0' as int
  }

  function LowerChar(c: char): (d: char)
    ensures IsSpace(d) == IsSpace(c)
  {
    if IsUpper(c) then (c as int + 32) as char else c
  }

  /** `s.lower()` */
  function Lower(s: string): (r: string)
    ensures |r| == |s|
  {
    seq(|s|, i requires 0 <= i < |s| => LowerChar(s[i]))
  }

  lemma LowerCharKeepsWordChar(c: char)
    ensures IsWordChar(LowerChar(c)) == IsWordChar(c)
  {
  }

  /** `lower()` works character by character. */
  lemma LowerAppend(a: string, b: string)
    ensures Lower(a + b) == Lower(a) + Lower(b)
  {
  }

  /** Lower-casing twice is lower-casing once. */
  lemma LowerIdempotent(s: string)
    ensures Lower(Lower(s)) == Lower(s)
  {
  }

  /** The regex assertion `\b` at position `p` of `t`: a word character on
      exactly one side. */
  predicate WordBoundary(t: string, p: int)
    requires 0 <= p <= |t|
  {
    (p > 0 && IsWordChar(t[p - 1])) != (p < |t| && IsWordChar(t[p]))
  }

  predicate HasDigit(s: string) {
    exists i :: 0 <= i < |s| && IsDigit(s[i])
  }

  // ---------------------------------------------------------------------
  // Substring search: Python's `sub in s`

  predicate OccursAt(sub: string, s: string, i: int) {
    0 <= i && i + |sub| <= |s| && s[i..i + |sub|] == sub
  }

  predicate Contains(s: string, sub: string) {
    exists i :: 0 <= i <= |s| && OccursAt(sub, s, i)
  }

  /** A non-empty run of non-whitespace characters. */
  predicate IsWord(w: string) {
    w != [] && forall i :: 0 <= i < |w| ==> !IsSpace(w[i])
  }

  // ---------------------------------------------------------------------
  // strip()

  /** `s.lstrip()` */
  function LStrip(s: string): (r: string)
    ensures |r| <= |s| && r == s[|s| - |r|..]
    ensures forall i :: 0 <= i < |s| - |r| ==> IsSpace(s[i])
    ensures r == [] || !IsSpace(r[0])
    decreases |s|
  {
    if |s| > 0 && IsSpace(s[0]) then LStrip(s[1..]) else s
  }

  /** `s.rstrip()` */
  function RStrip(s: string): (r: string)
    ensures |r| <= |s| && r == s[..|r|]
    ensures forall i :: |r| <= i < |s| ==> IsSpace(s[i])
    ensures r == [] || !IsSpace(r[|r| - 1])
    decreases |s|
  {
    if |s| > 0 && IsSpace(s[|s| - 1]) then RStrip(s[..|s| - 1]) else s
  }

  /** `s.strip()` */
  function Strip(s: string): (r: string)
    ensures r == [] || (!IsSpace(r[0]) && !IsSpace(r[|r| - 1]))
  {
    RStrip(LStrip(s))
  }

  /** Where `Strip(s)` starts inside `s`. */
  function StripStart(s: string): nat {
    |s| - |LStrip(s)|
  }

  /** `Strip(s)` is the slice of `s` obtained by dropping whitespace on both
      sides, and only whitespace. */
  lemma StripIsSlice(s: string)
    ensures StripStart(s) + |Strip(s)| <= |s|
    ensures Strip(s) == s[StripStart(s)..StripStart(s) + |Strip(s)|]
    ensures forall i :: 0 <= i < StripStart(s) ==> IsSpace(s[i])
    ensures forall i :: StripStart(s) + |Strip(s)| <= i < |s| ==> IsSpace(s[i])
  {
    StripSlice(s);
    StripTailSpaces(s);
  }

  lemma StripSlice(s: string)
    ensures StripStart(s) + |Strip(s)| <= |s|
    ensures Strip(s) == s[StripStart(s)..StripStart(s) + |Strip(s)|]
  {
    var l := LStrip(s);
    assert l == s[StripStart(s)..];
    TakeOfDrop(s, StripStart(s), |RStrip(l)|);
  }

  lemma StripTailSpaces(s: string)
    ensures forall i :: StripStart(s) + |Strip(s)| <= i < |s| ==> IsSpace(s[i])
  {
    var l := LStrip(s);
    var a := StripStart(s);
    var n := |RStrip(l)|;
    forall i | a + n <= i < |s|
      ensures IsSpace(s[i])
    {
      assert l == s[a..];
      assert IsSpace(l[i - a]);
    }
  }

  lemma TakeOfDrop<T>(s: seq<T>, a: nat, n: nat)
    requires a + n <= |s|
    ensures s[a..][..n] == s[a..a + n]
  {
  }

  /** A string with no whitespace at either end is its own strip. */
  lemma StripOfStripped(s: string)
    requires s == [] || (!IsSpace(s[0]) && !IsSpace(s[|s| - 1]))
    ensures Strip(s) == s
  {
  }

  // ---------------------------------------------------------------------
  // split() and " ".join

  /** Length of the run of non-whitespace characters that starts `s`. */
  function WordLen(s: string): (n: nat)
    ensures n <= |s|
    ensures forall i :: 0 <= i < n ==> !IsSpace(s[i])
    ensures n < |s| ==> IsSpace(s[n])
    decreases |s|
  {
    if |s| == 0 || IsSpace(s[0]) then 0 else 1 + WordLen(s[1..])
  }

  /** `s.split()`: the maximal runs of non-whitespace, left to right. */
  function Words(s: string): (ws: seq<string>)
    ensures forall w :: w in ws ==> IsWord(w)
    decreases |s|
  {
    var t := LStrip(s);
    if t == [] then []
    else
      var n := WordLen(t);
      LeadingWordIsWord(t);
      [t[..n]] + Words(t[n..])
  }

  lemma LeadingWordIsWord(t: string)
    requires t != [] && !IsSpace(t[0])
    ensures WordLen(t) > 0 && IsWord(t[..WordLen(t)])
  {
  }

  /** `" ".join(ws)` */
  function JoinSpaced(ws: seq<string>): string
    decreases |ws|
  {
    if |ws| == 0 then ""
    else if |ws| == 1 then ws[0]
    else ws[0] + " " + JoinSpaced(ws[1..])
  }

  /** Leading whitespace never changes the words. */
  lemma WordsSkipSpace(c: char, s: string)
    requires IsSpace(c)
    ensures Words([c] + s) == Words(s)
  {
    assert ([c] + s)[1..] == s;
  }

  lemma WordsLStrip(s: string)
    ensures Words(LStrip(s)) == Words(s)
  {
    assert LStrip(LStrip(s)) == LStrip(s);
  }

  /** How prepending one non-whitespace character changes the words: it
      either starts a new word or extends the first one. */
  lemma WordsCons(c: char, s: string)
    requires !IsSpace(c)
    ensures s == [] || IsSpace(s[0]) ==> Words([c] + s) == [[c]] + Words(s)
    ensures s != [] && !IsSpace(s[0]) ==>
              |Words(s)| > 0 && Words([c] + s) == [[c] + Words(s)[0]] + Words(s)[1..]
  {
    if s == [] || IsSpace(s[0]) {
      WordsConsBreak(c, s);
    } else {
      WordsConsExtend(c, s);
    }
  }

  /** Before a break, the character is a word of its own. */
  lemma WordsConsBreak(c: char, s: string)
    requires !IsSpace(c) && (s == [] || IsSpace(s[0]))
    ensures Words([c] + s) == [[c]] + Words(s)
  {
    var cs := [c] + s;
    assert LStrip(cs) == cs;
    assert WordLen(cs) == 1 by {
      assert cs[1..] == s;
    }
    assert cs[..1] == [c] && cs[1..] == s;
  }

  /** Before a word, the character joins that word. */
  lemma WordsConsExtend(c: char, s: string)
    requires !IsSpace(c) && s != [] && !IsSpace(s[0])
    ensures |Words(s)| > 0 && Words([c] + s) == [[c] + Words(s)[0]] + Words(s)[1..]
  {
    var cs := [c] + s;
    var n := WordLen(s);
    WordsAtWordStart(s);
    WordsAtWordStart(cs);
    WordLenCons(c, s);
    ConsSlices(c, s, n);
  }

  /** A string that starts with a word: that word, then the words after it. */
  lemma WordsAtWordStart(s: string)
    requires s != [] && !IsSpace(s[0])
    ensures Words(s) == [s[..WordLen(s)]] + Words(s[WordLen(s)..])
  {
    assert LStrip(s) == s;
  }

  lemma WordLenCons(c: char, s: string)
    requires !IsSpace(c)
    ensures WordLen([c] + s) == WordLen(s) + 1
  {
    assert ([c] + s)[1..] == s;
  }

  lemma ConsSlices<T>(c: T, s: seq<T>, n: nat)
    requires n <= |s|
    ensures ([c] + s)[..n + 1] == [c] + s[..n]
    ensures ([c] + s)[n + 1..] == s[n..]
  {
  }

  /** Trailing whitespace never changes the words. */
  lemma {:induction false} WordsAppendSpaces(s: string, tail: string)
    requires forall i :: 0 <= i < |tail| ==> IsSpace(tail[i])
    ensures Words(s + tail) == Words(s)
    decreases |s|
  {
    var l := LStrip(s);
    LStripAppendSpaces(s, tail);
    if l == [] {
      assert LStrip(s + tail) == [];
    } else {
      var n := WordLen(l);
      WordLenAppendSpaces(l, tail);
      assert LStrip(s + tail) == l + tail;
      SliceOfAppend(l, tail, n);
      WordsAppendSpaces(l[n..], tail);
    }
  }

  lemma SliceOfAppend<T>(a: seq<T>, b: seq<T>, n: nat)
    requires n <= |a|
    ensures (a + b)[..n] == a[..n]
    ensures (a + b)[n..] == a[n..] + b
  {
  }

  lemma {:induction false} LStripAppendSpaces(s: string, tail: string)
    requires forall i :: 0 <= i < |tail| ==> IsSpace(tail[i])
    ensures LStrip(s + tail) == if LStrip(s) == [] then [] else LStrip(s) + tail
    decreases |s|
  {
    if s == [] {
      assert s + tail == tail;
      LStripAllSpaces(tail);
    } else if IsSpace(s[0]) {
      assert (s + tail)[1..] == s[1..] + tail;
      LStripAppendSpaces(s[1..], tail);
    }
  }

  lemma {:induction false} LStripAllSpaces(s: string)
    requires forall i :: 0 <= i < |s| ==> IsSpace(s[i])
    ensures LStrip(s) == []
    decreases |s|
  {
    if s != [] {
      LStripAllSpaces(s[1..]);
    }
  }

  lemma {:induction false} WordLenAppendSpaces(s: string, tail: string)
    requires forall i :: 0 <= i < |tail| ==> IsSpace(tail[i])
    ensures WordLen(s + tail) == WordLen(s)
    decreases |s|
  {
    if s == [] {
      assert s + tail == tail;
    } else if !IsSpace(s[0]) {
      assert (s + tail)[1..] == s[1..] + tail;
      WordLenAppendSpaces(s[1..], tail);
    }
  }

  lemma SplitAt<T>(a: seq<T>, n: nat)
    requires n <= |a|
    ensures a == a[..n] + a[n..]
  {
  }

  lemma HeadTail<T>(a: seq<T>)
    requires a != []
    ensures a == [a[0]] + a[1..]
  {
  }

  /** `s.strip().split() == s.split()` */
  lemma WordsStrip(s: string)
    ensures Words(Strip(s)) == Words(s)
  {
    var l := LStrip(s);
    var r := RStrip(l);
    SplitAt(l, |r|);
    WordsAppendSpaces(r, l[|r|..]);
    WordsLStrip(s);
  }

  // ---------------------------------------------------------------------
  // split(sep)

  /** Index of the first `c` in `s`, or `|s|` when there is none. */
  function IndexOf(s: string, c: char): (k: nat)
    ensures k <= |s|
    ensures forall i :: 0 <= i < k ==> s[i] != c
    ensures k < |s| ==> s[k] == c
    decreases |s|
  {
    if |s| == 0 || s[0] == c then 0 else 1 + IndexOf(s[1..], c)
  }

  /** `s.split(sep)` for a one-character separator: always at least one
      piece, and no piece contains the separator. */
  function SplitOn(s: string, sep: char): (parts: seq<string>)
    ensures |parts| >= 1
    ensures forall k :: 0 <= k < |parts| ==> sep !in parts[k]
    decreases |s|
  {
    var k := IndexOf(s, sep);
    if k == |s| then [s] else [s[..k]] + SplitOn(s[k + 1..], sep)
  }

  /** `sep.join(parts)` */
  function JoinOn(parts: seq<string>, sep: char): string
    requires |parts| >= 1
    decreases |parts|
  {
    if |parts| == 1 then parts[0] else parts[0] + [sep] + JoinOn(parts[1..], sep)
  }

  /** Joining the pieces back with the separator gives the original text. */
  lemma {:induction false} JoinSplit(s: string, sep: char)
    ensures JoinOn(SplitOn(s, sep), sep) == s
    decreases |s|
  {
    var k := IndexOf(s, sep);
    if k < |s| {
      var rest := SplitOn(s[k + 1..], sep);
      JoinSplit(s[k + 1..], sep);
      assert SplitOn(s, sep) == [s[..k]] + rest;
      assert (([s[..k]] + rest)[1..]) == rest;
      assert s == s[..k] + [sep] + s[k + 1..];
    }
  }

  /** Splitting a join of separator-free pieces gives the pieces back. */
  lemma {:induction false} SplitJoin(parts: seq<string>, sep: char)
    requires |parts| >= 1
    requires forall k :: 0 <= k < |parts| ==> sep !in parts[k]
    ensures SplitOn(JoinOn(parts, sep), sep) == parts
    decreases |parts|
  {
    var p := parts[0];
    if |parts| == 1 {
      assert IndexOf(p, sep) == |p|;
    } else {
      SplitJoin(parts[1..], sep);
      SplitAfterPiece(p, JoinOn(parts[1..], sep), sep);
      HeadTail(parts);
    }
  }

  /** A separator-free piece followed by the separator splits off first. */
  lemma SplitAfterPiece(p: string, rest: string, sep: char)
    requires sep !in p
    ensures SplitOn(p + [sep] + rest, sep) == [p] + SplitOn(rest, sep)
  {
    var s := p + [sep] + rest;
    assert s == p + ([sep] + rest);
    IndexOfAfterFree(p, [sep] + rest, sep);
    assert s[..|p|] == p && s[|p| + 1..] == rest;
  }

  /** The first `c` of `p + t` is the head of `t` when `p` has none. */
  lemma {:induction false} IndexOfAfterFree(p: string, t: string, c: char)
    requires c !in p && t != [] && t[0] == c
    ensures IndexOf(p + t, c) == |p|
    decreases |p|
  {
    if p != [] {
      assert (p + t)[1..] == p[1..] + t;
      IndexOfAfterFree(p[1..], t, c);
    }
  }

  // ---------------------------------------------------------------------
  // istitle()

  /** CPython's `istitle` loop: an upper-case letter may only follow an
      uncased character, a lower-case letter only a cased one, and at least
      one cased character must occur. */
  function TitleScan(s: string, prevCased: bool, sawCased: bool): bool
    decreases |s|
  {
    if s == [] then sawCased
    else if IsUpper(s[0]) then !prevCased && TitleScan(s[1..], true, true)
    else if IsLower(s[0]) then prevCased && TitleScan(s[1..], true, true)
    else TitleScan(s[1..], false, sawCased)
  }

  /** `s.istitle()` */
  predicate IsTitle(s: string) {
    TitleScan(s, false, false)
  }

  /** Whether the character before position `i` is cased; `prev` stands for
      the character before the start. */
  predicate CasedBefore(s: string, i: nat, prev: bool)
    requires i < |s|
  {
    if i == 0 then prev else IsCased(s[i - 1])
  }

  predicate HasCased(s: string) {
    exists i :: 0 <= i < |s| && IsCased(s[i])
  }

  /** The declarative reading of title case, position by position. */
  predicate TitleRule(s: string, prev: bool, saw: bool) {
    && (saw || HasCased(s))
    && (forall i :: 0 <= i < |s| && IsUpper(s[i]) ==> !CasedBefore(s, i, prev))
    && (forall i :: 0 <= i < |s| && IsLower(s[i]) ==> CasedBefore(s, i, prev))
  }

  lemma {:induction false} TitleScanRule(s: string, prev: bool, saw: bool)
    ensures TitleScan(s, prev, saw) <==> TitleRule(s, prev, saw)
    decreases |s|
  {
    if s != [] {
      var t := s[1..];
      var c := s[0];
      var prev' := IsCased(c);
      var saw' := saw || IsCased(c);
      TitleScanRule(t, prev', saw');
      assert forall i :: 0 < i < |s| ==> s[i] == t[i - 1];
      assert forall i :: 1 < i < |s| ==> CasedBefore(s, i, prev) == CasedBefore(t, i - 1, prev');
      assert 1 < |s| ==> CasedBefore(s, 1, prev) == CasedBefore(t, 0, prev');
      assert HasCased(s) <==> IsCased(c) || HasCased(t) by {
        if HasCased(t) {
          var j :| 0 <= j < |t| && IsCased(t[j]);
          assert IsCased(s[j + 1]);
        }
        if HasCased(s) && !IsCased(c) {
          var j :| 0 <= j < |s| && IsCased(s[j]);
          assert j > 0 && IsCased(t[j - 1]);
        }
      }
      if TitleRule(t, prev', saw') && (IsUpper(c) ==> !prev) && (IsLower(c) ==> prev) {
        forall i | 0 <= i < |s| && IsUpper(s[i])
          ensures !CasedBefore(s, i, prev)
        {
          if i > 0 {
            assert IsUpper(t[i - 1]);
          }
        }
        forall i | 0 <= i < |s| && IsLower(s[i])
          ensures CasedBefore(s, i, prev)
        {
          if i > 0 {
            assert IsLower(t[i - 1]);
          }
        }
      }
      if TitleRule(s, prev, saw) {
        forall i | 0 <= i < |t| && IsUpper(t[i])
          ensures !CasedBefore(t, i, prev')
        {
          assert IsUpper(s[i + 1]);
        }
        forall i | 0 <= i < |t| && IsLower(t[i])
          ensures CasedBefore(t, i, prev')
        {
          assert IsLower(s[i + 1]);
        }
      }
    }
  }

  /** `istitle()` agrees with its declarative reading: some cased letter,
      every upper-case letter at a word start, every lower-case letter
      after a cased one. */
  lemma IsTitleMeans(s: string)
    ensures IsTitle(s) <==> TitleRule(s, false, false)
  {
    TitleScanRule(s, false, false);
  }
}
