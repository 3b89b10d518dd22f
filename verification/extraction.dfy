/** Post-processing of named entities into skills (`extract_skills`).
    The entity recogniser itself is not modelled: its output is given as a
    list of (text, label) pairs, and lower-casing is a function parameter
    about which nothing is assumed. */
module Extraction {
  import opened Seqs

  /** One recognised entity: its surface text and its label (`kind`). */
  datatype Entity = Entity(text: string, kind: string)

  /** The entity labels the analyzer treats as skills. */
  const SkillLabels: seq<string> := ["SKILL", "ORG", "WORK_OF_ART", "PRODUCT", "LANGUAGE"]

  /** An entity is kept exactly when it carries one of the five skill labels. */
  predicate IsSkillEntity(e: Entity): (keep: bool)
    ensures keep <==> e.kind == "SKILL" || e.kind == "ORG" || e.kind == "WORK_OF_ART"
                      || e.kind == "PRODUCT" || e.kind == "LANGUAGE"
  {
    e.kind in SkillLabels
  }

  /** The skills a list of entities denotes: the lower-cased text of every
      entity whose label is a skill label. */
  function SkillSet(ents: seq<Entity>, lower: string -> string): (skills: set<string>)
    ensures forall e :: e in ents && IsSkillEntity(e) ==> lower(e.text) in skills
    ensures forall s :: s in skills ==> exists e :: e in ents && IsSkillEntity(e) && lower(e.text) == s
  {
    set e | e in ents && IsSkillEntity(e) :: lower(e.text)
  }

  /** The list comprehension: keeps the skill-labelled entities in order,
      maps each to its lower-cased text, and keeps repeats. */
  function SkillTexts(ents: seq<Entity>, lower: string -> string): (texts: seq<string>)
    ensures |texts| <= |ents|
    ensures Elems(texts) == SkillSet(ents, lower)
    ensures forall e :: e in ents && IsSkillEntity(e) ==> lower(e.text) in texts
    ensures (forall e :: e in ents ==> !IsSkillEntity(e)) <==> texts == []
  {
    if ents == [] then
      []
    else
      var rest := SkillTexts(ents[1..], lower);
      var head := if IsSkillEntity(ents[0]) then [lower(ents[0].text)] else [];
      assert ents == [ents[0]] + ents[1..];
      assert Elems(head + rest) == Elems(head) + Elems(rest);
      head + rest
  }

  /** `list(set(skills))`: the distinct skills, each once. The order Python
      produces is unspecified, so the contract says nothing about it. */
  method ExtractSkills(ents: seq<Entity>, lower: string -> string) returns (skills: seq<string>)
    ensures Distinct(skills)
    ensures Elems(skills) == SkillSet(ents, lower)
    ensures |skills| == |SkillSet(ents, lower)|
  {
    var texts := SkillTexts(ents, lower);
    skills := [];
    var i := 0;
    while i < |texts|
      invariant 0 <= i <= |texts|
      invariant Distinct(skills)
      invariant Elems(skills) == Elems(texts[..i])
    {
      assert texts[..i + 1] == texts[..i] + [texts[i]];
      assert Elems(texts[..i + 1]) == Elems(texts[..i]) + {texts[i]};
      if texts[i] !in skills {
        assert Elems(skills + [texts[i]]) == Elems(skills) + {texts[i]};
        skills := skills + [texts[i]];
      }
      i := i + 1;
    }
    assert texts[..i] == texts;
    ElemsCardinality(skills);
  }
}
