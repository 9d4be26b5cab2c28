/** `extract_education` (backend/parser.py, lines 67-83): the lines that
    mention a degree or an institution, de-duplicated through a set and cut
    to three. */
module Education {
  import opened Text
  import opened Lists

  const DegreeKeywords: seq<string> :=
    ["B.Sc", "M.Sc", "Bachelor", "Master", "PhD", "Diploma", "Degree",
     "University", "Institute", "College"]

  const MaxEntries: nat := 3

  /** `any(kw.lower() in line.lower() for kw in education_keywords)` */
  predicate MentionsDegree(line: string) {
    exists k :: 0 <= k < |DegreeKeywords| && Contains(Lower(line), Lower(DegreeKeywords[k]))
  }

  /** A line kept as an education entry: it mentions a degree keyword and
      has more than two words. */
  predicate IsEducationLine(line: string) {
    MentionsDegree(line) && |Words(line)| > 2
  }

  /** `edu_lines`: the stripped education lines, in input order. */
  function EducationLines(lines: seq<string>): (r: seq<string>)
    ensures forall x :: x in r <==> exists l :: l in lines && IsEducationLine(l) && Strip(l) == x
    decreases |lines|
  {
    if lines == [] then []
    else
      var rest := EducationLines(lines[1..]);
      assert forall m :: m in lines <==> m == lines[0] || m in lines[1..];
      if IsEducationLine(lines[0]) then [Strip(lines[0])] + rest else rest
  }

  /** `extract_education(text)`: at most three distinct entries, each the
      stripped form of an input line that mentions a degree keyword and has
      more than two words; all of them when there are at most three. */
  method ExtractEducation(text: string) returns (r: seq<string>)
    ensures |r| <= MaxEntries
    ensures Distinct(r)
    ensures forall x :: x in r ==>
              exists l :: l in SplitOn(text, '\n') && IsEducationLine(l) && Strip(l) == x
    ensures forall x :: x in r ==> IsEducationLine(x) && Strip(x) == x
    ensures |r| == |set x | x in EducationLines(SplitOn(text, '\n'))| || |r| == MaxEntries
    ensures |set x | x in EducationLines(SplitOn(text, '\n'))| <= MaxEntries ==>
              forall x :: x in EducationLines(SplitOn(text, '\n')) ==> x in r
  {
    r := EducationOf(SplitOn(text, '\n'));
  }

  /** The education entries drawn from `lines`. */
  method EducationOf(lines: seq<string>) returns (r: seq<string>)
    ensures |r| <= MaxEntries
    ensures Distinct(r)
    ensures forall x :: x in r ==> exists l :: l in lines && IsEducationLine(l) && Strip(l) == x
    ensures forall x :: x in r ==> IsEducationLine(x) && Strip(x) == x
    ensures |r| == |set x | x in EducationLines(lines)| || |r| == MaxEntries
    ensures |set x | x in EducationLines(lines)| <= MaxEntries ==>
              forall x :: x in EducationLines(lines) ==> x in r
  {
    var all := ListOfSet(set x | x in EducationLines(lines));
    if |all| <= MaxEntries {
      r := all;
    } else {
      PrefixDistinct(all, MaxEntries);
      r := all[..MaxEntries];
    }
    forall x | x in r
      ensures x in EducationLines(lines)
    {
      assert x in all;
      assert x in set y | y in EducationLines(lines);
    }
    EducationLinesAreStripped(lines);
  }

  lemma EducationLinesAreStripped(lines: seq<string>)
    ensures forall x :: x in EducationLines(lines) ==> IsEducationLine(x) && Strip(x) == x
  {
    forall x | x in EducationLines(lines)
      ensures IsEducationLine(x) && Strip(x) == x
    {
      var l :| l in lines && IsEducationLine(l) && Strip(l) == x;
      StrippedEducationLine(l);
    }
  }

  /** Stripping an education line leaves an education line. */
  lemma StrippedEducationLine(l: string)
    requires IsEducationLine(l)
    ensures IsEducationLine(Strip(l)) && Strip(Strip(l)) == Strip(l)
    ensures Words(Strip(l)) == Words(l)
  {
    WordsStrip(l);
    var k :| 0 <= k < |DegreeKeywords| && Contains(Lower(l), Lower(DegreeKeywords[k]));
    KeywordIsWord(k);
    ContainsSurvivesStrip(l, Lower(DegreeKeywords[k]));
    StripOfStripped(Strip(l));
  }

  lemma KeywordIsWord(k: nat)
    requires k < |DegreeKeywords|
    ensures IsWord(Lower(DegreeKeywords[k]))
  {
    var kw := DegreeKeywords[k];
    assert IsWord(kw);
    LowerKeepsWord(kw);
  }

  lemma LowerKeepsWord(w: string)
    requires IsWord(w)
    ensures IsWord(Lower(w))
  {
    var lw := Lower(w);
    forall i | 0 <= i < |lw|
      ensures !IsSpace(lw[i])
    {
      assert lw[i] == LowerChar(w[i]);
    }
  }

  /** `Lower` commutes with slicing. */
  lemma LowerSlice(s: string, lo: nat, hi: nat)
    requires lo <= hi <= |s|
    ensures Lower(s[lo..hi]) == Lower(s)[lo..hi]
  {
  }

  lemma OccurrenceEndsAreWordChars(s: string, sub: string, i: nat)
    requires IsWord(sub) && OccursAt(sub, Lower(s), i)
    ensures !IsSpace(s[i]) && !IsSpace(s[i + |sub| - 1])
  {
    var low := Lower(s);
    var j := i + |sub| - 1;
    assert low[i] == sub[0] && low[j] == sub[|sub| - 1];
    assert low[i] == LowerChar(s[i]) && low[j] == LowerChar(s[j]);
  }

  lemma SliceOfSlice(s: string, a: nat, b: nat, c: nat, d: nat)
    requires a <= b <= |s| && c <= d <= b - a
    ensures s[a..b][c..d] == s[a + c..a + d]
  {
    forall k | 0 <= k < d - c
      ensures s[a..b][c..d][k] == s[a + c..a + d][k]
    {
      assert s[a..b][c..d][k] == s[a..b][c + k] == s[a + c + k];
    }
  }

  /** A whitespace-free piece of the lowered text survives stripping. */
  lemma ContainsSurvivesStrip(s: string, sub: string)
    requires IsWord(sub)
    requires Contains(Lower(s), sub)
    ensures Contains(Lower(Strip(s)), sub)
  {
    var i :| 0 <= i <= |Lower(s)| && OccursAt(sub, Lower(s), i);
    OccurrenceInsideStrip(s, sub, i);
    LowerStrip(s);
    ContainedInSlice(sub, Lower(s), Lower(Strip(s)), StripStart(s), StripStart(s) + |Strip(s)|, i);
  }

  lemma ContainedInSlice(sub: string, t: string, u: string, a: nat, b: nat, i: nat)
    requires OccursAt(sub, t, i) && a <= i && i + |sub| <= b <= |t| && u == t[a..b]
    ensures Contains(u, sub)
  {
    OccursInSlice(sub, t, a, b, i);
  }

  lemma LowerStrip(s: string)
    ensures StripStart(s) + |Strip(s)| <= |s|
    ensures Lower(Strip(s)) == Lower(s)[StripStart(s)..StripStart(s) + |Strip(s)|]
  {
    StripSlice(s);
    LowerSlice(s, StripStart(s), StripStart(s) + |Strip(s)|);
  }

  lemma OccursInSlice(sub: string, t: string, a: nat, b: nat, i: nat)
    requires OccursAt(sub, t, i) && a <= i && i + |sub| <= b <= |t|
    ensures OccursAt(sub, t[a..b], i - a)
  {
    SliceOfSlice(t, a, b, i - a, i - a + |sub|);
  }

  /** An occurrence of a whitespace-free piece lies inside the stripped part. */
  lemma OccurrenceInsideStrip(s: string, sub: string, i: nat)
    requires IsWord(sub) && OccursAt(sub, Lower(s), i)
    ensures StripStart(s) <= i && i + |sub| <= StripStart(s) + |Strip(s)|
  {
    OccurrenceEndsAreWordChars(s, sub, i);
    StripIsSlice(s);
  }
}
