# Resume & Job Description Analyzer — skill comparison model

The analyzer is a one-page app. It takes a résumé (PDF) and a pasted job
description. It recognises named entities in both texts and keeps the ones
whose label suggests a skill. It then reports which share of the job's skills
the résumé covers, and which job skills are missing. The only self-contained
logic in it is this skill comparison, and that is what this Dafny project
models:

- `Seqs` (`seqs.dfy`): lists viewed through Python's `set(...)`. It holds the
  fact that a list has at most as many distinct elements as entries, with
  equality exactly when nothing repeats.
- `Extraction` (`extraction.dfy`): the post-processing in `extract_skills`.
  Entities are `(text, kind)` pairs standing for the recogniser's output, and
  lower-casing is a function parameter about which nothing is assumed. The
  module keeps entities labelled SKILL, ORG, WORK_OF_ART, PRODUCT or LANGUAGE,
  lower-cases their text and removes repeats.
- `Matching` (`matching.dfy`): `get_skill_match_percentage` as an exact
  `real`, and the missing-skills set difference. Both take the skill lists as
  lists, so the denominator is visibly the list length `len(job_skills)`.
- `Analysis` (`analysis.dfy`): the "Analyze" flow, which extracts both skill
  lists, scores them and computes the missing skills.

Read as sets, the score would divide by the number of distinct job skills;
the code divides by the length of the job-skill list. The model follows the
code. `Matching.FullMatchIff` and
`Matching.RepeatedJobSkillCapsBelowHundred` show that a list with repeats can
never reach 100. `Analysis.Analyze` shows the two readings agree in the app's
own flow, because `extract_skills` always returns a list without repeats.

## Model

| member | source | states |
|---|---|---|
| Seqs.Elems | app.py:53 | Python's `set(xs)`: its members are exactly the entries of the list (used again at lines 47 and 116) |
| Extraction.IsSkillEntity | app.py:45 | an entity is kept exactly when its label is one of SKILL, ORG, WORK_OF_ART, PRODUCT, LANGUAGE |
| Extraction.SkillSet | app.py:42-46 | the reference set of skills: it holds the lower-cased text of every skill-labelled entity, and only such texts |
| Matching.CommonSkills | app.py:53 | `set(resume_skills).intersection(set(job_skills))`: a skill is common exactly when it occurs in both lists; the common skills are job skills |
| Seqs.ElemsCardinality | app.py:53-54 | `set(xs)` never has more elements than `len(xs)`, and has exactly as many iff the list has no repeated entry |
| Extraction.SkillTexts | app.py:42-46 | the comprehension yields at most one text per entity; its elements are exactly the lower-cased texts of the entities labelled with one of the five skill labels; it is empty iff no entity carries a skill label |
| Extraction.ExtractSkills | app.py:40-47 | the returned list has no repeats, holds exactly the lower-cased texts of the skill-labelled entities, and its length is the number of distinct such texts |
| Matching.MatchPercentage | app.py:50-54 | empty job list gives 0 with no division; otherwise the score times the job-list length is 100 times the number of distinct common skills; always within [0, 100], even with repeated job entries |
| Matching.Share | app.py:54 | `part / whole * 100` lies in [0, 100], is 100 iff part equals whole, 0 iff part is 0, and multiplied by whole gives 100 times part |
| Matching.MissingSkills | app.py:116 | the missing skills are disjoint from the résumé skills, contained in the job skills, and include every job skill absent from the résumé |
| Matching.FullMatchIff | app.py:51-54 | the score is exactly 100 iff the job list is non-empty, has no repeats, and every job skill is a résumé skill |
| Matching.FullCoverageScoresHundred | app.py:53-54 | full coverage of a non-empty job list without repeats scores exactly 100 |
| Matching.RepeatedJobSkillCapsBelowHundred | app.py:54 | a job list with a repeated entry scores below 100 for every résumé, and at most 100 times distinct job skills over list length |
| Matching.ZeroMatchIff | app.py:51-54 | the score is 0 iff the job list is empty or no job skill is a résumé skill |
| Matching.ResumeOrderAndRepeatsIrrelevant | app.py:53 | two résumé lists with the same elements, in any order and with any repeats, give the same score and the same missing skills |
| Matching.CommonAndMissingPartitionJob | app.py:116 | common and missing skills are disjoint, their union is the set of job skills, and their counts add up to the number of distinct job skills |
| Matching.PercentageFromMissing | app.py:111-116 | for a non-empty job list without repeats, the score is the share of job skills that are not missing, and it is 100 iff nothing is missing |
| Matching.PartialMatchExample | app.py:50-54 | {python, sql} against [python, sql, java] scores 200/3 (66.67 when shown to two decimals) with java missing |
| Matching.EmptyResumeExample | app.py:51-54 | an empty résumé against [python] scores 0 with python missing |
| Analysis.Analyze | app.py:99-116 | in the app's flow the reported skills are the extracted skill sets; the missing skills are job skills minus résumé skills; the score is 0 for no job skills and otherwise the covered share of the distinct job skills; it is 100 iff there are job skills and none is missing |

## Left out

- PDF text extraction (`extract_text_from_pdf`, app.py:30-37) relies on a third-party PDF library whose page-text internals are not visible. The résumé's entities are taken as given.
- The named-entity recogniser and its model loading, including the download fallback (app.py:22-27, 41), are a foreign model and process I/O. Its output is the `seq<Entity>` parameter.
- Lower-casing (`str.lower`) is the parameter `lower`. Unicode case mapping is not modelled, and nothing is assumed about it, so every property holds for any lower-casing function.
- NLTK downloads, environment loading and API-key configuration (app.py:1-4, 18-19) are environment and network setup.
- The language-model prompt and `generate_content` call (app.py:126-138) go to a remote service whose output is free-form text.
- `suggest_youtube_videos` (app.py:57-65) is dead code, because its search client's import is commented out (app.py:15) and its only call is commented out too.
- The Streamlit layout and rendering (app.py:68-140) is UI only.
- Matching.MatchPercentage: the score is an exact real. IEEE floating-point rounding and the two-decimal `:.2f` display (app.py:54, 113) are not modelled.
- Extraction.ExtractSkills: the order of `list(set(...))` is unspecified in Python, so the contract says nothing about order. The body happens to keep first occurrences.
- Matching.MissingSkills: the missing skills are modelled as a set, not as the `list(set(...))` built at app.py:116, because Python gives that list no defined order.
- The Python `0` returned for an empty job list is an int, not a float. The model returns `0.0`; the two agree numerically.
