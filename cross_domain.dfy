/**
 * The cross-domain technique check (cross_domain_technique_check.py): every
 * technique the prompt specification requires must be defined in the
 * techniques source and, when the compiled SRS exists, be mentioned in it.
 *
 * The three files are inputs: a file that does not exist is None. The prompt
 * specification is the parsed YAML document reduced to what the check reads,
 * `meta.required_techniques`; a null or absent `meta`, and a null or absent
 * list, are None. The techniques file is its list of `items`.
 */
module CrossDomain {
  import opened Wrappers
  import opened Text
  import opened Checklist

  datatype Meta = Meta(requiredTechniques: Option<seq<string>>)

  datatype PromptSpec = PromptSpec(meta: Option<Meta>)

  /** How a run of the check ends; each outcome prints its own line. */
  datatype Outcome =
    | SkippedNoSpec
    | NoTechniquesFile
    | NothingRequired
    | MissingTechniques(missing: seq<string>)
    | AbsentFromSrs(absent: seq<string>)
    | Documented
    | SrsNotFound

  /** `(ps.get("meta", {}) or {}).get("required_techniques", [])`, a null list read as empty. */
  function Required(ps: PromptSpec): seq<string> {
    ps.meta.GetOr(Meta(None)).requiredTechniques.GetOr([])
  }

  /** `{t.get("id") for t in tec_items if t.get("id")}`. */
  function TechniqueIds(items: seq<Item>): set<string> {
    set x | x in CategoryIds(items)
  }

  lemma TechniqueIdsMembers(items: seq<Item>, x: string)
    ensures x in TechniqueIds(items) <==> exists k :: 0 <= k < |items| && items[k].id == Some(x) && x != ""
  {
    CategoryIdsMembers(items, x);
  }

  /** `[t for t in req_tecs if t not in tec_ids]`: the required ids not defined, in order. */
  function Undefined(req: seq<string>, ids: set<string>): (r: seq<string>)
    ensures |r| <= |req|
  {
    if req == [] then []
    else
      var last := req[|req| - 1];
      Undefined(req[..|req| - 1], ids) + (if last !in ids then [last] else [])
  }

  lemma {:induction false} UndefinedMembers(req: seq<string>, ids: set<string>, t: string)
    ensures t in Undefined(req, ids) <==> t in req && t !in ids
  {
    if req != [] {
      var init := req[..|req| - 1];
      UndefinedMembers(init, ids, t);
      assert req == init + [req[|req| - 1]];
    }
  }

  /** Nothing is undefined exactly when every required id is defined. */
  lemma UndefinedEmptyIff(req: seq<string>, ids: set<string>)
    ensures Undefined(req, ids) == [] <==> forall t :: t in req ==> t in ids
  {
    forall t ensures t in Undefined(req, ids) <==> t in req && t !in ids {
      UndefinedMembers(req, ids, t);
    }
    if Undefined(req, ids) != [] {
      assert Undefined(req, ids)[0] in Undefined(req, ids);
    }
  }

  /** `[t for t in req_tecs if t not in srs_txt]`: the required ids the SRS does not mention. */
  function AbsentIds(srs: string, req: seq<string>): (r: seq<string>)
    ensures forall t :: t in r <==> t in req && !Contains(srs, t)
    ensures r == [] <==> forall t :: t in req ==> Contains(srs, t)
  {
    forall t ensures t in MissingRefs(srs, req) <==> t in req && !Contains(srs, t) {
      SplitMembers(srs, req, false, false, t);
    }
    PassedIffAllFound(srs, req);
    MissingRefs(srs, req)
  }

  /**
   * `main`. An absent specification skips the check; an absent techniques file
   * fails it; an empty requirement passes; an undefined technique fails; and
   * when the SRS exists every required id must occur in it.
   */
  function Check(spec: Option<PromptSpec>, techniques: Option<seq<Item>>, srs: Option<string>): (r: Outcome)
    ensures spec.None? <==> r == SkippedNoSpec
    ensures r == NoTechniquesFile <==> spec.Some? && techniques.None?
    ensures r == NothingRequired <==> spec.Some? && techniques.Some? && Required(spec.value) == []
    ensures r.MissingTechniques? ==>
      && spec.Some? && techniques.Some? && r.missing != []
      && forall t :: t in r.missing <==> t in Required(spec.value) && t !in TechniqueIds(techniques.value)
    ensures r.AbsentFromSrs? ==>
      && spec.Some? && srs.Some? && r.absent != []
      && forall t :: t in r.absent <==> t in Required(spec.value) && !Contains(srs.value, t)
    ensures r == SrsNotFound ==> srs.None?
  {
    if spec.None? then SkippedNoSpec
    else if techniques.None? then NoTechniquesFile
    else
      var req := Required(spec.value);
      if req == [] then NothingRequired
      else
        var missing := Undefined(req, TechniqueIds(techniques.value));
        forall t ensures t in missing <==> t in req && t !in TechniqueIds(techniques.value) {
          UndefinedMembers(req, TechniqueIds(techniques.value), t);
        }
        if missing != [] then MissingTechniques(missing)
        else if srs.None? then SrsNotFound
        else
          var absent := AbsentIds(srs.value, req);
          if absent != [] then AbsentFromSrs(absent) else Documented
  }

  /** The process exit status: 1 for the failures, 0 otherwise (the missing SRS only warns). */
  function ExitCode(r: Outcome): int {
    match r
    case NoTechniquesFile | MissingTechniques(_) | AbsentFromSrs(_) => 1
    case _ => 0
  }

  /** Every required technique is defined and, when the SRS exists, mentioned in it. */
  predicate Satisfied(req: seq<string>, techniques: seq<Item>, srs: Option<string>) {
    && (forall t :: t in req ==> t in TechniqueIds(techniques))
    && (srs.Some? ==> forall t :: t in req ==> Contains(srs.value, t))
  }

  /**
   * The check passes exactly when there is no specification, or the techniques
   * file exists and the requirement is satisfied (an empty one always is).
   */
  lemma PassesIff(spec: Option<PromptSpec>, techniques: Option<seq<Item>>, srs: Option<string>)
    ensures ExitCode(Check(spec, techniques, srs)) == 0 <==>
      spec.None? || (techniques.Some? && Satisfied(Required(spec.value), techniques.value, srs))
  {
    if spec.Some? && techniques.Some? {
      var req := Required(spec.value);
      UndefinedEmptyIff(req, TechniqueIds(techniques.value));
    }
  }

  /** Defining more techniques never turns a passing check into a failing one. */
  lemma MoreTechniquesKeepPassing(spec: Option<PromptSpec>, a: seq<Item>, b: seq<Item>, srs: Option<string>)
    requires ExitCode(Check(spec, Some(a), srs)) == 0
    ensures ExitCode(Check(spec, Some(a + b), srs)) == 0
  {
    PassesIff(spec, Some(a), srs);
    PassesIff(spec, Some(a + b), srs);
    CategoryIdsAppend(a, b);
    if spec.Some? {
      forall t | t in Required(spec.value) ensures t in TechniqueIds(a + b) {
        assert t in TechniqueIds(a);
      }
    }
  }

  /** A compiled SRS that is missing only warns; one that exists can only add failures. */
  lemma MissingSrsIsLenient(spec: Option<PromptSpec>, techniques: Option<seq<Item>>, srs: string)
    requires ExitCode(Check(spec, techniques, Some(srs))) == 0
    ensures ExitCode(Check(spec, techniques, None)) == 0
  {
    PassesIff(spec, techniques, Some(srs));
    PassesIff(spec, techniques, None);
  }
}
