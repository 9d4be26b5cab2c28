/** Candidate-name selection in `extract_details` (backend/parser.py,
    lines 46-65): the first of the top fifteen non-blank lines that looks
    like a name wins.

    The NLP entity tagger is the parameter `isPerson`: `isPerson(line)`
    stands for "the tagger's first entity of `line` is labelled PERSON". */
module Names {
  import opened Text
  import opened Lists

  const UnknownCandidate: string := "Unknown Candidate"

  /** Only this many non-blank lines from the top are considered. */
  const HeaderLines: nat := 15

  /** Words whose appearance anywhere in a line (as a substring, ignoring
      case) rules the line out as a name. */
  const Blocklist: seq<string> :=
    ["resume", "curriculum", "vitae", "cv", "bio", "data", "road", "house",
     "bazar", "dhaka", "street", "lane", "objective", "summary"]

  /** `[line.strip() for line in lines if line.strip()]` */
  function NonBlankLines(lines: seq<string>): (r: seq<string>)
    ensures |r| <= |lines|
    ensures forall x :: x in r ==> x != [] && !IsSpace(x[0]) && !IsSpace(x[|x| - 1])
    ensures forall x :: x in r <==> x != [] && StrippedFrom(x, lines)
    decreases |lines|
  {
    if lines == [] then []
    else
      var rest := NonBlankLines(lines[1..]);
      NonBlankStep(lines, rest);
      StrippedHaveNoEdgeSpace(lines);
      if Strip(lines[0]) != [] then [Strip(lines[0])] + rest else rest
  }

  /** One line contributes its stripped form, unless that is empty. */
  lemma NonBlankLinesOne(l: string)
    ensures NonBlankLines([l]) == if Strip(l) == [] then [] else [Strip(l)]
  {
    assert [l][1..] == [];
  }

  /** The lines are kept in order, one entry per non-blank line, so
      duplicates survive. */
  lemma {:induction false} NonBlankLinesAppend(a: seq<string>, b: seq<string>)
    ensures NonBlankLines(a + b) == NonBlankLines(a) + NonBlankLines(b)
    decreases |a|
  {
    if a == [] {
      assert a + b == b;
    } else {
      assert (a + b)[0] == a[0];
      assert (a + b)[1..] == a[1..] + b;
      NonBlankLinesAppend(a[1..], b);
    }
  }

  /** Stripped forms of the lines of `lines`. */
  predicate StrippedFrom(x: string, lines: seq<string>) {
    exists l :: l in lines && Strip(l) == x
  }

  lemma StrippedHaveNoEdgeSpace(lines: seq<string>)
    ensures forall x :: x != [] && StrippedFrom(x, lines) ==> !IsSpace(x[0]) && !IsSpace(x[|x| - 1])
  {
    forall x | x != [] && StrippedFrom(x, lines)
      ensures !IsSpace(x[0]) && !IsSpace(x[|x| - 1])
    {
      var l :| l in lines && Strip(l) == x;
    }
  }

  lemma NonBlankStep(lines: seq<string>, rest: seq<string>)
    requires lines != []
    requires forall x :: x in rest <==> x != [] && StrippedFrom(x, lines[1..])
    ensures forall x :: x in (if Strip(lines[0]) != [] then [Strip(lines[0])] + rest else rest)
                        <==> x != [] && StrippedFrom(x, lines)
  {
    assert lines == [lines[0]] + lines[1..];
    forall x | x != [] && StrippedFrom(x, lines)
      ensures x == Strip(lines[0]) || StrippedFrom(x, lines[1..])
    {
      var l :| l in lines && Strip(l) == x;
      if l != lines[0] {
        assert l in lines[1..];
      }
    }
  }

  /** `lines[:15]` of the non-blank stripped lines of `text.split('\n')`. */
  function TopLines(text: string): (r: seq<string>)
    ensures |r| <= HeaderLines
    ensures r <= NonBlankLines(SplitOn(text, '\n'))
    ensures |r| < HeaderLines ==> r == NonBlankLines(SplitOn(text, '\n'))
  {
    var lines := NonBlankLines(SplitOn(text, '\n'));
    if |lines| <= HeaderLines then lines else lines[..HeaderLines]
  }

  /** `any(bad_word in line.lower() for bad_word in BLOCKLIST)` */
  predicate Blocked(line: string) {
    exists k :: 0 <= k < |Blocklist| && Contains(Lower(line), Blocklist[k])
  }

  /** Two to four words, and title case. */
  predicate HasNameShape(line: string) {
    1 < |Words(line)| <= 4 && IsTitle(line)
  }

  /** How a header line fares: accepted because the tagger calls it a
      person, accepted on its shape alone, or rejected. */
  datatype Verdict = PersonEntity | PlainName | Rejected

  function Classify(line: string, isPerson: string -> bool): Verdict {
    if !HasNameShape(line) || Blocked(line) then Rejected
    else if isPerson(line) then PersonEntity
    else if !HasDigit(line) && '@' !in line then PlainName
    else Rejected
  }

  predicate Accepted(line: string, isPerson: string -> bool) {
    Classify(line, isPerson) != Rejected
  }

  /** Position of the first accepted line, `|lines|` when there is none. */
  function FirstAccepted(lines: seq<string>, isPerson: string -> bool): (k: nat)
    ensures k <= |lines|
    ensures forall j :: 0 <= j < k ==> !Accepted(lines[j], isPerson)
    ensures k < |lines| ==> Accepted(lines[k], isPerson)
  {
    FirstWhere(lines, line => Accepted(line, isPerson), 0)
  }

  /** Line `i` is accepted and no line before it is. */
  predicate FirstToPass(lines: seq<string>, i: int, isPerson: string -> bool) {
    0 <= i < |lines| && Accepted(lines[i], isPerson)
    && forall j :: 0 <= j < i ==> !Accepted(lines[j], isPerson)
  }

  /** The name chosen among the header lines `top`. */
  function NameFrom(top: seq<string>, isPerson: string -> bool): (name: string)
    ensures name == UnknownCandidate || name in top
    ensures name != UnknownCandidate ==>
              2 <= |Words(name)| <= 4 && IsTitle(name) && !Blocked(name)
    ensures forall i :: FirstToPass(top, i, isPerson) ==> name == top[i]
    ensures (forall i :: 0 <= i < |top| ==> !Accepted(top[i], isPerson)) ==> name == UnknownCandidate
  {
    var k := FirstAccepted(top, isPerson);
    FirstAcceptedIsUnique(top, isPerson);
    if k < |top| then
      AcceptedHasNameShape(top[k], isPerson);
      top[k]
    else UnknownCandidate
  }

  /** The name returned by `extract_details`. */
  function ExtractName(text: string, isPerson: string -> bool): (name: string)
    ensures name == UnknownCandidate || name in TopLines(text)
    ensures name != UnknownCandidate ==>
              2 <= |Words(name)| <= 4 && IsTitle(name) && !Blocked(name)
    ensures forall i :: FirstToPass(TopLines(text), i, isPerson) ==> name == TopLines(text)[i]
    ensures (forall i :: 0 <= i < |TopLines(text)| ==> !Accepted(TopLines(text)[i], isPerson))
            ==> name == UnknownCandidate
  {
    NameFrom(TopLines(text), isPerson)
  }

  lemma FirstAcceptedIsUnique(lines: seq<string>, isPerson: string -> bool)
    ensures forall i :: FirstToPass(lines, i, isPerson) ==> i == FirstAccepted(lines, isPerson)
  {
    var k := FirstAccepted(lines, isPerson);
    forall i | FirstToPass(lines, i, isPerson)
      ensures i == k
    {
      if i < k {
        assert false;
      } else if k < i {
        assert false;
      }
    }
  }

  lemma AcceptedHasNameShape(line: string, isPerson: string -> bool)
    requires Accepted(line, isPerson)
    ensures 2 <= |Words(line)| <= 4 && IsTitle(line) && !Blocked(line)
  {
  }

  /** A line of the right shape with no digit and no `@` is taken whatever
      the tagger says, provided no earlier header line was taken. */
  lemma PlainLineWins(top: seq<string>, isPerson: string -> bool, i: nat)
    requires i < |top|
    requires HasNameShape(top[i]) && !Blocked(top[i]) && !HasDigit(top[i]) && '@' !in top[i]
    requires forall j :: 0 <= j < i ==> !Accepted(top[j], isPerson)
    ensures NameFrom(top, isPerson) == top[i]
  {
    PlainAccepted(top[i], isPerson);
  }

  lemma PlainAccepted(line: string, isPerson: string -> bool)
    requires HasNameShape(line) && !Blocked(line) && !HasDigit(line) && '@' !in line
    ensures Accepted(line, isPerson)
  {
  }

  /** Without digits or `@`, acceptance does not depend on the tagger. */
  lemma AcceptedOracleFree(line: string, p: string -> bool, q: string -> bool)
    requires !HasDigit(line) && '@' !in line
    ensures Accepted(line, p) == Accepted(line, q)
  {
  }

  /** A line with a digit or an `@` is taken only on the tagger's word:
      it passes exactly when it has the shape, is not blocked, and the
      tagger calls it a person. */
  lemma MarkedLineNeedsTagger(line: string, isPerson: string -> bool)
    requires HasDigit(line) || '@' in line
    ensures Accepted(line, isPerson) <==> HasNameShape(line) && !Blocked(line) && isPerson(line)
    ensures Accepted(line, isPerson) ==> Classify(line, isPerson) == PersonEntity
  {
  }

  lemma FirstAcceptedOracleFree(lines: seq<string>, p: string -> bool, q: string -> bool)
    requires forall j :: 0 <= j < |lines| ==> !HasDigit(lines[j]) && '@' !in lines[j]
    ensures FirstAccepted(lines, p) == FirstAccepted(lines, q)
  {
    forall j | 0 <= j < |lines|
      ensures Accepted(lines[j], p) == Accepted(lines[j], q)
    {
      AcceptedOracleFree(lines[j], p, q);
    }
    FirstWhereAgree(lines, line => Accepted(line, p), line => Accepted(line, q), 0);
  }

  /** When no header line holds a digit or an `@`, the tagger cannot change
      the result: shape and blocklist alone decide. */
  lemma TaggerIrrelevantForPlainHeaders(text: string, p: string -> bool, q: string -> bool)
    requires forall i :: 0 <= i < |TopLines(text)| ==>
               !HasDigit(TopLines(text)[i]) && '@' !in TopLines(text)[i]
    ensures ExtractName(text, p) == ExtractName(text, q)
  {
    NameFromOracleFree(TopLines(text), p, q);
  }

  lemma NameFromOracleFree(top: seq<string>, p: string -> bool, q: string -> bool)
    requires forall i :: 0 <= i < |top| ==> !HasDigit(top[i]) && '@' !in top[i]
    ensures NameFrom(top, p) == NameFrom(top, q)
  {
    FirstAcceptedOracleFree(top, p, q);
  }

  /** The blocklist matches substrings: "Fabio Rossi" is never a name,
      because "fabio" contains "bio". */
  lemma BlocklistMatchesInsideWords()
    ensures Blocked("Fabio Rossi")
  {
    var low := Lower("Fabio Rossi");
    assert low[2] == 'b' && low[3] == 'i' && low[4] == 'o';
    assert OccursAt(Blocklist[4], low, 2);
  }
}
