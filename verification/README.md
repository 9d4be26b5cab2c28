# Résumé field extraction, modelled in Dafny

This project models the rule-based part of the résumé parser in
`backend/parser.py`. These are the heuristics that turn the raw text of an
uploaded résumé into candidate fields:

- `clean_text` normalises whitespace.
- The name heuristic in `extract_details` picks a candidate name from the
  first fifteen non-blank lines.
- `extract_education` keeps up to three distinct lines that mention a degree
  or an institution.
- `extract_skills_ai` reports skills from a fixed catalog.
- `calculate_experience_smart`, `parse_date` and
  `calculate_fallback_experience` estimate years of experience and a
  Junior / Mid / Senior level.

Everything is pure functions over `string` (`seq<char>`) and integers. The
exceptions are `Lists.ListOfSet` and the three methods built on it
(`Education.EducationOf`, `Education.ExtractEducation`,
`Skills.ExtractSkills`). They let the order be any, because Python does not
fix the iteration order of a `set`.

Modules, one per concern:

| file | module | what it holds |
|---|---|---|
| text.dfy | `Text` | the Python `str` operations the parser uses: the whitespace class shared by `\s`, `strip()` and `split()`; `lower()`; `in`; `split('\n')` and its inverse; `split()` and `" ".join`; `istitle()`; the regex `\b` |
| lists.dfy | `Lists` | `list(some_set)`, in an arbitrary order |
| clean.dfy | `Clean` | `clean_text` |
| names.dfy | `Names` | name selection |
| education.dfy | `Education` | `extract_education` |
| skills.dfy | `Skills` | `extract_skills_ai` |
| experience.dfy | `Experience` | `parse_date`, the range method, the fallback method, the cap and the level |

The external parts of the system are parameters:

- The NLP person tagger is `isPerson: string -> bool`.
- The noun-phrase chunker is `phrases: seq<string>`.
- The embedding similarity test (cosine similarity above 0.85) is
  `similar: (string, nat) -> bool`.
- The matches of the date-range regular expression are
  `ranges: seq<RangeMatch>`.
- The clock is `now: Date`.

Years of experience are a whole number of tenths of a year (`Estimate.tenths`):

- On the range path the source computes `round(total_months / 12, 1)`. This
  is the integer nearest to `5 * months / 6`, with ties to even. Ties occur
  only at exact quarters of a year, so binary floating point has no effect.
- On the fallback path the source computes `float(whole_years)`, which is
  `10 * years` tenths.

Two behaviours of the code are worth knowing, and the model follows the
code in both:

- The comments at backend/parser.py:144 and :168 describe the fallback as
  "max year - min year". The code returns `current_year - min(valid_years)`.
  So a text whose only year is 2015 gives nine years in 2024, not zero
  (`Experience.OnlyYearGivesYearsSince`, `Experience.SingleYearFallbackExample`).
- The name blocklist is matched as a substring, not as whole words. So
  "Fabio Rossi" is rejected because it contains "bio"
  (`Names.BlocklistMatchesInsideWords`).

## Model

| member | source | states |
|---|---|---|
| `Text.JoinSplit` | backend/parser.py:74 | for every string, joining the pieces of its `split('\n')` with `'\n'` gives that string back |
| `Text.SplitJoin` | backend/parser.py:169 | splitting a `'\n'`-join of newline-free lines gives back exactly those lines |
| `Text.WordsStrip` | backend/parser.py:79-80 | `line.strip().split() == line.split()`, so the word count checked on the raw line holds for the stripped line that is stored |
| `Text.IsTitleMeans` | backend/parser.py:56 | `istitle()` holds iff there is a cased letter, every upper-case letter follows an uncased character (or starts the string) and every lower-case letter follows a cased one |
| `Clean.CollapseSpaces` | backend/parser.py:36 | `re.sub(r'\s+', ' ', …)` leaves no two adjacent whitespace characters, leaves only plain spaces, and keeps emptiness and the whitespace-ness of the first character |
| `Clean.CleanText` | backend/parser.py:35-36 | the result has no whitespace at either end, no two consecutive whitespace characters, and only `' '` as whitespace |
| `Clean.CollapseKeepsWords` | backend/parser.py:36 | collapsing whitespace runs keeps the word sequence |
| `Clean.CleanTextKeepsWords` | backend/parser.py:35-36 | `clean_text(s).split() == s.split()` |
| `Clean.NormalizedIsJoin` | backend/parser.py:35-36 | a string of that shape is the space-join of its words |
| `Clean.CleanTextIsJoinOfWords` | backend/parser.py:35-36 | `clean_text(s) == " ".join(s.split())` for every `s` |
| `Clean.CleanTextIdempotent` | backend/parser.py:35-36 | cleaning twice gives the same result as cleaning once |
| `Names.NonBlankLines` | backend/parser.py:49 | a string is kept iff it is the non-empty stripped form of some input line; no kept line has whitespace at either end |
| `Names.NonBlankLinesOne` | backend/parser.py:49 | a single line contributes its stripped form, or nothing when that is empty |
| `Names.NonBlankLinesAppend` | backend/parser.py:49 | the result for `a + b` is the result for `a` followed by the result for `b`, so input order and repeated lines are kept |
| `Names.TopLines` | backend/parser.py:49-50 | at most 15 lines, a prefix of the non-blank stripped lines, and all of them when there are fewer than 15 |
| `Names.FirstAccepted` | backend/parser.py:54-64 | the position found is the first line that passes shape, blocklist and (person tag, or no digit and no `@`); no earlier line passes |
| `Names.NameFrom` | backend/parser.py:54-65 | among given header lines: the first accepted line is returned, it has 2–4 words, is title-cased and unblocked; with no accepted line the result is "Unknown Candidate" |
| `Names.ExtractName` | backend/parser.py:46-65 | the name is "Unknown Candidate" or a top line; a returned top line has 2–4 words, is title-cased and holds no blocklisted substring; the first accepted top line is returned; with no accepted line the result is "Unknown Candidate" |
| `Names.PlainLineWins` | backend/parser.py:54-64 | among header lines, a well-shaped, unblocked line with no digit and no `@` is returned whatever the tagger says, once no earlier line was accepted |
| `Names.MarkedLineNeedsTagger` | backend/parser.py:56-64 | a line holding a digit or `@` is accepted iff it has the name shape, is unblocked and the tagger calls it a person, and it is then accepted as a person entity |
| `Names.TaggerIrrelevantForPlainHeaders` | backend/parser.py:58-64 | when no top line holds a digit or `@`, any two taggers give the same name |
| `Names.BlocklistMatchesInsideWords` | backend/parser.py:57 | the blocklist test is a case-insensitive substring test: "Fabio Rossi" is blocked by "bio" |
| `Lists.ListOfSet` | backend/parser.py:83 | `list(set(…))` lists every element of the set exactly once, in some order |
| `Education.EducationLines` | backend/parser.py:74-80 | an entry is collected iff it is the stripped form of a line that mentions a degree keyword (ignoring case) and has more than two words |
| `Education.StrippedEducationLine` | backend/parser.py:77-80 | the stripped form of such a line still mentions a keyword and has more than two words, has the same words as the raw line, and is its own strip |
| `Education.EducationOf` | backend/parser.py:74-83 | for given lines: at most 3 pairwise distinct entries, each a stripped line with a keyword and more than two words; exactly 3 or all distinct entries, and all of them when there are at most 3 |
| `Education.ExtractEducation` | backend/parser.py:67-83 | at most 3 pairwise distinct entries, each a stripped input line with a keyword and more than two words; exactly 3 or all distinct entries, and all of them when there are at most 3 |
| `Skills.DirectSkillsIgnoreCase` | backend/parser.py:87-92 | the direct pass ignores case: lower-casing the text first finds the same skills |
| `Skills.DelimitedSkillIsFound` | backend/parser.py:89-92 | a catalog entry that starts and ends with a word character is found when it appears, in any case, between two non-word characters (spaces, punctuation) |
| `Skills.FoundSkills` | backend/parser.py:85-106 | every skill is a catalog entry, and every catalog skill with a whole-word occurrence is included |
| `Skills.ExtractSkills` | backend/parser.py:85-106 | the returned list repeats nothing, holds only catalog entries, and holds every direct match |
| `Skills.SemanticPassOnlyAdds` | backend/parser.py:94-105 | when the embedding oracle matches nothing, the result is exactly the direct matches |
| `Skills.TrailingSymbolNeedsWordCharAfter` | backend/parser.py:91 | an entry ending in a non-word character such as "C++" matches only when a word character follows it |
| `Experience.FirstYearFrom` | backend/parser.py:160 | the position found is the first where `(20\d{2}\|19\d{2})` matches |
| `Experience.ParseDate` | backend/parser.py:156-165 | a parsed date is January 1 of a year in [1900, 2099]; there is none iff no year occurs; otherwise it is the first year occurring |
| `Experience.BackwardRangeAddsNothing` | backend/parser.py:125-138 | a range contributes 0 months when a bound does not parse or its end is not after its start |
| `Experience.ExplicitYearsCountWholeYears` | backend/parser.py:127-138 | a range whose end is not "present", "current" or "now" contributes a multiple of 12 months: `12 * (end year - start year)` when positive, 0 otherwise |
| `Experience.JanuaryBoundsCountWholeYears` | backend/parser.py:134-138 | two January 1 bounds give a multiple of 12 months, the year difference times 12 when positive |
| `Experience.TotalMonthsAppend` | backend/parser.py:121-140 | the total is additive over any split of the ranges |
| `Experience.RangeWithinTotal` | backend/parser.py:124-140 | no single range contributes more than the total |
| `Experience.RoundTenths` | backend/parser.py:142 | the tenths are within half a tenth of `months / 12`, ties to even |
| `Experience.RoundingKeepsThresholds` | backend/parser.py:142-152 | after rounding: at least 5 years iff at least 60 months; at least 2 years iff at least 24; above 30 iff above 360; zero iff zero months |
| `Experience.TokensDoNotOverlap` | backend/parser.py:177 | two `\b(20\d{2})\b` matches never overlap |
| `Experience.YearTokens` | backend/parser.py:177 | `findall` yields exactly the values of the `\b20dd\b` tokens |
| `Experience.LineYears` | backend/parser.py:174-181 | a line yields exactly its tokens in [2010, current_year], and nothing when it mentions a schooling keyword |
| `Experience.ValidYears` | backend/parser.py:169-181 | `valid_years` holds exactly the believable years of all lines |
| `Experience.SeqMin` | backend/parser.py:184 | `min` is an element no greater than any other |
| `Experience.FallbackYears` | backend/parser.py:167-184 | the result is 0 when no believable year exists; otherwise it is `current_year - y` for a believable year `y` that no believable year precedes, so it lies in [0, current_year - 2010] |
| `Experience.OnlyYearGivesYearsSince` | backend/parser.py:181-184 | when all believable years are one year `y`, the fallback is `current_year - y`, not 0 |
| `Experience.SchoolingLinesIgnored` | backend/parser.py:172-176 | removing every line that mentions a schooling keyword does not change the fallback |
| `Experience.CalculateExperience` | backend/parser.py:108-154 | the years are never above 30; Senior iff at least 5 years, Mid iff at least 2 and below 5, Junior iff below 2 |
| `Experience.CapResetsToZero` | backend/parser.py:147-148 | a raw value above 30 years becomes 0 years and Junior, not 30; one at or below 30 is kept |
| `Experience.RangesOverrideFallback` | backend/parser.py:123-145 | once any range was found, the rest of the text does not affect the estimate |
| `Experience.LevelByMonths` | backend/parser.py:142-152 | with ranges: Senior iff 60 to 360 months, Mid iff 24 to 59, and 0 years iff no months or more than 360 |
| `Experience.TwoRangesExample` | backend/parser.py:121-154 | "2018 - 2020" and "2021 - present" in June 2024 give 65 months, 5.4 years, Senior |
| `Experience.SingleYearFallbackExample` | backend/parser.py:143-145 | a text whose only year is 2015 gives 9 years in 2024 by the fallback |

## Left out

- PDF text extraction (`extract_text_from_pdf`, backend/parser.py:27-33): file I/O through a foreign library.
- Loading and downloading the NLP model (backend/parser.py:7-15): process start-up. The tagger's entity and noun-chunk output are parameters.
- The sentence-embedding model and the 0.85 cosine threshold (backend/parser.py:15, 25, 99-105): foreign numerics. The `similar` oracle decides which catalog entries a phrase matches.
- The e-mail and phone regular expressions (backend/parser.py:40-44): regex-engine semantics. `Names.ExtractName` returns only the name.
- The date-range regular expression (backend/parser.py:117-119): its matches are the `ranges` parameter, so the lowering of the text before matching is also outside the model.
- `datetime.now()`: the current date is the `now` parameter. The model does not require its month to lie in 1..12.
- The `try`/`except` around each range (backend/parser.py:125-140): with a year in 1900..2099, `parse_date` and `datetime` cannot raise, so the model has no error path there.
- Unicode beyond ASCII: `lower()`, `istitle()`, `\d` and `\w` are modelled for ASCII letters and digits only. Whitespace is CPython's full `str.isspace` set.
- `Education.ExtractEducation`, `Skills.ExtractSkills`: the order of the result is left open, as Python's `set` iteration order is. Only the membership, size and distinctness are stated.
- `Skills.FoundSkills`: the semantic pass is given by an oracle, so the contract states only that it adds catalog entries and drops no direct match.
- backend/classifier.py (TF-IDF and logistic-regression classifier), main.py (HTTP routing, temp files, static files) and the frontend: foreign numerics and I/O plumbing.
