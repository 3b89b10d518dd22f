/** Comparison of resume skills with job skills: the match percentage
    (`get_skill_match_percentage`) and the missing skills. Both take the
    skill lists as lists, so that the list length used as the denominator
    stays visible; the percentage is an exact real. */
module Matching {
  import opened Seqs

  /** `set(resume_skills).intersection(set(job_skills))` */
  function CommonSkills(resume: seq<string>, job: seq<string>): (common: set<string>)
    ensures forall s :: s in common <==> s in resume && s in job
    ensures common <= Elems(job)
  {
    Elems(resume) * Elems(job)
  }

  /** Share of job-skill list entries matched, out of 100: the number of
      distinct common skills over the LENGTH of the job list, and 0 when the
      job list is empty. */
  function MatchPercentage(resume: seq<string>, job: seq<string>): (pct: real)
    ensures |job| == 0 ==> pct == 0.0
    ensures 0.0 <= pct <= 100.0
    ensures |job| > 0 ==> pct * (|job| as real) == 100.0 * (|CommonSkills(resume, job)| as real)
  {
    if |job| == 0 then 0.0
    else
      ElemsCardinality(job);
      SubsetCardinality(CommonSkills(resume, job), Elems(job));
      Share(|CommonSkills(resume, job)|, |job|)
  }

  /** `part / whole * 100` for a part no larger than a non-empty whole. */
  function Share(part: nat, whole: nat): (pct: real)
    requires 0 < whole
    requires part <= whole
    ensures 0.0 <= pct <= 100.0
    ensures pct * (whole as real) == 100.0 * (part as real)
    ensures pct == 100.0 <==> part == whole
    ensures pct == 0.0 <==> part == 0
  {
    var p, w := part as real, whole as real;
    assert p / w <= 1.0 by {
      assert p <= w;
    }
    assert (p / w * 100.0) * w == 100.0 * p;
    p / w * 100.0
  }

  /** `set(job_skills) - set(resume_skills)`, as a set: the order of the
      list Python builds from it is unspecified. */
  function MissingSkills(resume: seq<string>, job: seq<string>): (missing: set<string>)
    ensures missing !! Elems(resume)
    ensures missing <= Elems(job)
    ensures forall s :: s in job && s !in resume ==> s in missing
  {
    Elems(job) - Elems(resume)
  }

  /** The percentage is exactly 100 precisely when the job list is non-empty,
      has no repeated entry, and every job skill is a resume skill. */
  lemma FullMatchIff(resume: seq<string>, job: seq<string>)
    ensures MatchPercentage(resume, job) == 100.0
        <==> |job| > 0 && Distinct(job) && Elems(job) <= Elems(resume)
  {
    ElemsCardinality(job);
    var common := CommonSkills(resume, job);
    SubsetCardinality(common, Elems(job));
    if |job| > 0 {
      if Distinct(job) && Elems(job) <= Elems(resume) {
        assert common == Elems(job);
      }
    }
  }

  /** Full coverage of a job list without repeats scores exactly 100. */
  lemma FullCoverageScoresHundred(resume: seq<string>, job: seq<string>)
    requires |job| > 0
    requires Distinct(job)
    requires forall s :: s in job ==> s in resume
    ensures MatchPercentage(resume, job) == 100.0
  {
    FullMatchIff(resume, job);
  }

  /** A repeated job-list entry keeps the percentage below 100 whatever the
      resume holds: the denominator counts the repeat, the numerator cannot. */
  lemma RepeatedJobSkillCapsBelowHundred(resume: seq<string>, job: seq<string>)
    requires !Distinct(job)
    ensures MatchPercentage(resume, job) < 100.0
    ensures MatchPercentage(resume, job) * (|job| as real) <= 100.0 * (|Elems(job)| as real)
  {
    FullMatchIff(resume, job);
    SubsetCardinality(CommonSkills(resume, job), Elems(job));
    if |job| > 0 {
      assert (|CommonSkills(resume, job)| as real) <= (|Elems(job)| as real);
    }
  }

  /** The percentage is 0 precisely when the job list is empty or no job
      skill is a resume skill. */
  lemma ZeroMatchIff(resume: seq<string>, job: seq<string>)
    ensures MatchPercentage(resume, job) == 0.0
        <==> |job| == 0 || Elems(job) !! Elems(resume)
  {
  }

  /** Only the set of resume skills matters: reordering the resume list or
      repeating entries in it leaves the percentage and the missing skills
      unchanged. */
  lemma ResumeOrderAndRepeatsIrrelevant(resume1: seq<string>, resume2: seq<string>, job: seq<string>)
    requires forall s :: s in resume1 <==> s in resume2
    ensures MatchPercentage(resume1, job) == MatchPercentage(resume2, job)
    ensures MissingSkills(resume1, job) == MissingSkills(resume2, job)
  {
    assert Elems(resume1) == Elems(resume2);
  }

  /** Every distinct job skill is either common or missing, never both. */
  lemma CommonAndMissingPartitionJob(resume: seq<string>, job: seq<string>)
    ensures CommonSkills(resume, job) !! MissingSkills(resume, job)
    ensures CommonSkills(resume, job) + MissingSkills(resume, job) == Elems(job)
    ensures |CommonSkills(resume, job)| + |MissingSkills(resume, job)| == |Elems(job)|
  {
  }

  /** For a job list without repeats, the percentage is determined by the
      missing skills: the share of job skills that are not missing. */
  lemma PercentageFromMissing(resume: seq<string>, job: seq<string>)
    requires |job| > 0
    requires Distinct(job)
    ensures MatchPercentage(resume, job)
         == ((|job| - |MissingSkills(resume, job)|) as real) / (|job| as real) * 100.0
    ensures MatchPercentage(resume, job) == 100.0 <==> MissingSkills(resume, job) == {}
  {
    ElemsCardinality(job);
    CommonAndMissingPartitionJob(resume, job);
    FullMatchIff(resume, job);
    assert MissingSkills(resume, job) == {} <==> Elems(job) <= Elems(resume);
  }

  /** Worked example: {python, sql} against
      [python, sql, java] scores 200/3 (66.67 once rounded), java missing. */
  lemma PartialMatchExample()
    ensures MatchPercentage(["python", "sql"], ["python", "sql", "java"]) == 200.0 / 3.0
    ensures MissingSkills(["python", "sql"], ["python", "sql", "java"]) == {"java"}
  {
    var resume: seq<string>, job: seq<string> := ["python", "sql"], ["python", "sql", "java"];
    assert "python" != "sql" by { assert "python"[0] != "sql"[0]; }
    assert "java" != "python" by { assert "java"[0] != "python"[0]; }
    assert "java" != "sql" by { assert "java"[0] != "sql"[0]; }
    assert Elems(resume) == {"python", "sql"};
    assert Elems(job) == {"python", "sql", "java"};
    assert CommonSkills(resume, job) == {"python", "sql"};
    assert |CommonSkills(resume, job)| == 2;
  }

  /** Worked example: an empty resume against [python] scores 0,
      python missing. */
  lemma EmptyResumeExample()
    ensures MatchPercentage([], ["python"]) == 0.0
    ensures MissingSkills([], ["python"]) == {"python"}
  {
  }
}
