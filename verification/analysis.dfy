/** The analysis step of the page once "Analyze" is pressed: extract skills
    from both texts, score the match and list the missing skills. Text
    extraction from the PDF, rendering and the language-model call are not
    modelled; the entities recognised in each text are given directly. */
module Analysis {
  import opened Seqs
  import opened Extraction
  import opened Matching

  /** What the page shows for one analysis. */
  datatype Report = Report(
    resumeSkills: seq<string>,
    jobSkills: seq<string>,
    matchPercentage: real,
    missingSkills: set<string>)

  /** Because both skill lists come out of skill extraction without repeats,
      the list-length denominator equals the number of distinct job skills:
      in the page's own flow the score is the share of the job's skill SET
      that the resume covers. */
  method Analyze(resumeEnts: seq<Entity>, jobEnts: seq<Entity>, lower: string -> string)
    returns (report: Report)
    ensures Elems(report.resumeSkills) == SkillSet(resumeEnts, lower)
    ensures Elems(report.jobSkills) == SkillSet(jobEnts, lower)
    ensures report.missingSkills == SkillSet(jobEnts, lower) - SkillSet(resumeEnts, lower)
    ensures SkillSet(jobEnts, lower) == {} ==> report.matchPercentage == 0.0
    ensures SkillSet(jobEnts, lower) != {} ==>
              report.matchPercentage * (|SkillSet(jobEnts, lower)| as real)
              == 100.0 * (|SkillSet(resumeEnts, lower) * SkillSet(jobEnts, lower)| as real)
    ensures report.matchPercentage == 100.0
        <==> SkillSet(jobEnts, lower) != {} && SkillSet(jobEnts, lower) <= SkillSet(resumeEnts, lower)
    ensures report.matchPercentage == 100.0 <==> SkillSet(jobEnts, lower) != {} && report.missingSkills == {}
  {
    var resumeSkills := ExtractSkills(resumeEnts, lower);
    var jobSkills := ExtractSkills(jobEnts, lower);
    var pct := MatchPercentage(resumeSkills, jobSkills);
    var missing := MissingSkills(resumeSkills, jobSkills);
    FullMatchIff(resumeSkills, jobSkills);
    assert |jobSkills| == 0 <==> SkillSet(jobEnts, lower) == {};
    report := Report(resumeSkills, jobSkills, pct, missing);
  }
}
