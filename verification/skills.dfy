/** `extract_skills_ai` (backend/parser.py, lines 85-106): a direct
    whole-word pass over the skill catalog, then a semantic pass that may
    add catalog skills for short noun phrases that embed close to them.

    The NLP noun-chunker is the parameter `phrases` (the chunk texts, in any
    order), and the embedding comparison is the parameter `similar`:
    `similar(p, j)` stands for "the cosine similarity of phrase `p` and
    catalog entry `j` exceeds 0.85". */
module Skills {
  import opened Text
  import opened Lists

  const SkillsDb: seq<string> :=
    ["Python", "Java", "C++", "JavaScript", "TypeScript", "React", "Next.js", "Node.js",
     "SQL", "NoSQL", "MongoDB", "PostgreSQL", "AWS", "Azure", "Docker", "Kubernetes",
     "TensorFlow", "PyTorch", "Scikit-learn", "Pandas", "NumPy", "Flask", "Django", "FastAPI",
     "HTML", "CSS", "Tailwind", "Git", "Linux", "CI/CD", "Machine Learning", "Deep Learning",
     "NLP", "Data Analysis", "Communication", "Problem Solving"]

  /** `\b` + `re.escape(pat)` + `\b` matches at position `p` of `t`. */
  predicate WholeWordAt(pat: string, t: string, p: int) {
    OccursAt(pat, t, p) && WordBoundary(t, p) && WordBoundary(t, p + |pat|)
  }

  predicate WholeWordIn(pat: string, t: string) {
    exists p :: 0 <= p <= |t| && WholeWordAt(pat, t, p)
  }

  /** The direct pass finds `skill`: a case-insensitive whole-word match. */
  predicate DirectMatch(skill: string, text: string) {
    WholeWordIn(Lower(skill), Lower(text))
  }

  /** The catalog skills the direct pass finds in `text`. */
  function DirectSkills(text: string): set<string> {
    set s | s in SkillsDb && DirectMatch(s, text)
  }

  /** The direct pass ignores case: lower-casing the text first changes
      nothing. */
  lemma DirectSkillsIgnoreCase(text: string)
    ensures DirectSkills(Lower(text)) == DirectSkills(text)
  {
    LowerIdempotent(text);
  }

  /** A catalog entry that starts and ends with a word character is found
      when it stands, in any case, between two non-word characters. */
  lemma DelimitedSkillIsFound(k: nat, a: string, x: char, w: string, y: char, b: string)
    requires k < |SkillsDb| && SkillsDb[k] != []
    requires IsWordChar(SkillsDb[k][0]) && IsWordChar(SkillsDb[k][|SkillsDb[k]| - 1])
    requires !IsWordChar(x) && !IsWordChar(y)
    requires Lower(w) == Lower(SkillsDb[k])
    ensures SkillsDb[k] in DirectSkills(a + [x] + w + [y] + b)
  {
    DelimitedMatch(SkillsDb[k], a, x, w, y, b);
  }

  lemma DelimitedMatch(s: string, a: string, x: char, w: string, y: char, b: string)
    requires s != [] && IsWordChar(s[0]) && IsWordChar(s[|s| - 1])
    requires !IsWordChar(x) && !IsWordChar(y)
    requires Lower(w) == Lower(s)
    ensures DirectMatch(s, a + [x] + w + [y] + b)
  {
    var pat := Lower(s);
    var la, lx, ly, lb := Lower(a), LowerChar(x), LowerChar(y), Lower(b);
    var lt := Lower(a + [x] + w + [y] + b);
    LowerFive(a, x, w, y, b);
    var p := |a| + 1;
    LowerCharKeepsWordChar(x);
    LowerCharKeepsWordChar(y);
    LowerCharKeepsWordChar(s[0]);
    LowerCharKeepsWordChar(s[|s| - 1]);
    SlicesOfFive(la, lx, pat, ly, lb);
    WholeWordBetween(pat, lt, p);
  }

  /** A word-character-bounded pattern flanked by non-word characters is a
      whole-word match. */
  lemma WholeWordBetween(m: string, t: string, p: nat)
    requires m != [] && IsWordChar(m[0]) && IsWordChar(m[|m| - 1])
    requires 0 < p && p + |m| < |t| && t[p..p + |m|] == m
    requires !IsWordChar(t[p - 1]) && t[p] == m[0]
    requires t[p + |m| - 1] == m[|m| - 1] && !IsWordChar(t[p + |m|])
    ensures WholeWordIn(m, t)
  {
    assert WholeWordAt(m, t, p);
  }

  lemma LowerFive(a: string, x: char, w: string, y: char, b: string)
    ensures Lower(a + [x] + w + [y] + b) == Lower(a) + [LowerChar(x)] + Lower(w) + [LowerChar(y)] + Lower(b)
  {
    LowerAppend(a + [x] + w + [y], b);
    LowerAppend(a + [x] + w, [y]);
    LowerAppend(a + [x], w);
    LowerAppend(a, [x]);
  }

  lemma SlicesOfFive<T>(a: seq<T>, x: T, m: seq<T>, y: T, b: seq<T>)
    requires m != []
    ensures var t := a + [x] + m + [y] + b;
      var p := |a| + 1;
      p + |m| < |t| && t[p..p + |m|] == m && t[p - 1] == x && t[p] == m[0]
      && t[p + |m| - 1] == m[|m| - 1] && t[p + |m|] == y
  {
  }

  /** A phrase the semantic pass compares: fewer than three words, and not
      equal, ignoring case, to a skill the direct pass found. */
  predicate Eligible(phrase: string, found: set<string>) {
    |Words(phrase)| < 3 && forall s :: s in found ==> Lower(s) != Lower(phrase)
  }

  function SemanticSkills(phrases: seq<string>, similar: (string, nat) -> bool,
                          found: set<string>): (r: set<string>)
    ensures forall s :: s in r ==> s in SkillsDb
  {
    set j, p | 0 <= j < |SkillsDb| && p in phrases && Eligible(p, found) && similar(p, j)
             :: SkillsDb[j]
  }

  /** `found_skills` at the end of `extract_skills_ai`: only catalog
      skills, and every catalog skill with a whole-word occurrence. */
  function FoundSkills(text: string, phrases: seq<string>,
                       similar: (string, nat) -> bool): (r: set<string>)
    ensures forall s :: s in r ==> s in SkillsDb
    ensures forall s :: s in SkillsDb && DirectMatch(s, text) ==> s in r
  {
    var direct := DirectSkills(text);
    direct + SemanticSkills(phrases, similar, direct)
  }

  /** `extract_skills_ai(text)`: catalog skills, none repeated, including
      every one the direct pass finds. */
  method ExtractSkills(text: string, phrases: seq<string>,
                       similar: (string, nat) -> bool) returns (r: seq<string>)
    ensures Distinct(r)
    ensures forall s :: s in r ==> s in SkillsDb
    ensures forall s :: s in SkillsDb && DirectMatch(s, text) ==> s in r
  {
    r := ListOfSet(FoundSkills(text, phrases, similar));
  }

  /** The semantic pass only adds: when no phrase is similar to anything,
      the result is exactly the direct matches. */
  lemma SemanticPassOnlyAdds(text: string, phrases: seq<string>, similar: (string, nat) -> bool)
    requires forall p, j :: p in phrases ==> !similar(p, j)
    ensures FoundSkills(text, phrases, similar) == DirectSkills(text)
  {
    assert SemanticSkills(phrases, similar, DirectSkills(text)) == {};
  }

  /** A catalog entry ending in a non-word character, such as "C++", is
      only matched when a word character follows it, since `\b` after `+`
      needs one. */
  lemma TrailingSymbolNeedsWordCharAfter(pat: string, t: string, p: int)
    requires pat != [] && !IsWordChar(pat[|pat| - 1])
    requires WholeWordAt(pat, t, p)
    ensures p + |pat| < |t| && IsWordChar(t[p + |pat|])
  {
    assert t[p + |pat| - 1] == pat[|pat| - 1];
  }
}
