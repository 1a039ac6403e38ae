/**
 The two public pipelines of `FossLicenses`: `expression_license`, which
 normalises an expression by three rewrite passes (aliases, scancode keys,
 operators) and the external SPDX parser, and `expression_compatibility_as`,
 which adds a pass over the `compats` table and an optional validation.
 The external parser and the SPDX validator are parameters.
 */
module Pipeline {
  import opened Common
  import opened Text
  import opened Rewriter
  import opened LicenseDb
  import opened Validation

  /** The result of `expression_license`. */
  datatype ExpressionInfo = ExpressionInfo(
    queriedLicense: string,
    identifiedLicense: string,
    identifications: seq<Identification>)

  /** The three rewrite passes, their identifications concatenated in pass order. */
  function RewritePasses(db: Db, expr: string): Rewritten {
    var aliased := Rewrite(db.aliases, "alias", expr, false);
    var keyed := Rewrite(db.scancodeKeys, "scancode", aliased.licenseExpression, false);
    var operated := Rewrite(db.operators, "operator", keyed.licenseExpression, true);
    Rewritten(operated.licenseExpression, aliased.identifications + keyed.identifications + operated.identifications)
  }

  /** The last step of `expression_license`: `str(parse(...))` of the external parser, whose failure is raised. */
  function ParseStep(parse: string -> Result<string, string>, expr: string, passes: Rewritten): Result<ExpressionInfo, FlameError> {
    match parse(passes.licenseExpression)
    case Failure(message) => Failure(ParseFailed(message))
    case Success(parsed) => Success(ExpressionInfo(expr, parsed, passes.identifications))
  }

  /** `expression_license`: the rewrite passes, then the parser. */
  function ExpressionLicenseSpec(db: Db, parse: string -> Result<string, string>, expr: string): Result<ExpressionInfo, FlameError> {
    ParseStep(parse, expr, RewritePasses(db, expr))
  }

  lemma ExpressionLicenseSpecOf(db: Db, parse: string -> Result<string, string>, expr: string, passes: Rewritten)
    requires passes == RewritePasses(db, expr)
    ensures ExpressionLicenseSpec(db, parse, expr) == ParseStep(parse, expr, passes)
  {
  }

  /** `expression_license` as the source writes it: three helper calls accumulating the identifications. */
  method ExpressionLicense(db: Db, parse: string -> Result<string, string>, licenseExpression: string)
    returns (r: Result<ExpressionInfo, FlameError>)
    ensures r == ExpressionLicenseSpec(db, parse, licenseExpression)
  {
    var ret := UpdateLicenseExpression(db.aliases, "alias", licenseExpression, false);
    var replacements := ret.identifications;
    ret := UpdateLicenseExpression(db.scancodeKeys, "scancode", ret.licenseExpression, false);
    replacements := replacements + ret.identifications;
    ret := UpdateLicenseExpression(db.operators, "operator", ret.licenseExpression, true);
    replacements := replacements + ret.identifications;
    assert Rewritten(ret.licenseExpression, replacements) == RewritePasses(db, licenseExpression);
    ExpressionLicenseSpecOf(db, parse, licenseExpression, Rewritten(ret.licenseExpression, replacements));
    var parsed := parse(ret.licenseExpression);
    match parsed {
      case Failure(message) => r := Failure(ParseFailed(message));
      case Success(licenseParsed) => r := Success(ExpressionInfo(licenseExpression, licenseParsed, replacements));
    }
  }

  /** The position of a rewrite pass in `expression_license`. */
  function PassRank(tag: string): nat {
    if tag == "alias" then 0 else if tag == "scancode" then 1 else 2
  }

  /** All alias events come first, then all scancode events, then all operator events. */
  predicate InPassOrder(ids: seq<Identification>) {
    forall i, j :: 0 <= i < j < |ids| ==> PassRank(ids[i].identifiedVia) <= PassRank(ids[j].identifiedVia)
  }

  lemma PassBlocksInOrder(a: seq<Identification>, b: seq<Identification>, c: seq<Identification>,
                          db: Db)
    requires FromTable(a, db.aliases, "alias")
    requires FromTable(b, db.scancodeKeys, "scancode")
    requires FromTable(c, db.operators, "operator")
    ensures InPassOrder(a + b + c)
  {
    var ids := a + b + c;
    forall i | 0 <= i < |ids|
      ensures PassRank(ids[i].identifiedVia) == if i < |a| then 0 else if i < |a| + |b| then 1 else 2
    {
      if i < |a| { assert ids[i] == a[i]; }
      else if i < |a| + |b| { assert ids[i] == b[i - |a|]; }
      else { assert ids[i] == c[i - |a| - |b|]; }
    }
  }

  lemma ParseStepResult(parse: string -> Result<string, string>, expr: string, passes: Rewritten)
    ensures ParseStep(parse, expr, passes).Failure? <==> parse(passes.licenseExpression).Failure?
    ensures ParseStep(parse, expr, passes).Success? ==>
      ParseStep(parse, expr, passes).value
        == ExpressionInfo(expr, parse(passes.licenseExpression).value, passes.identifications)
  {
  }

  /** The identifications of the three passes come block by block, each event from its own table. */
  lemma PassesInOrder(db: Db, expr: string)
    ensures InPassOrder(RewritePasses(db, expr).identifications)
  {
    var aliased := Rewrite(db.aliases, "alias", expr, false);
    var keyed := Rewrite(db.scancodeKeys, "scancode", aliased.licenseExpression, false);
    var operated := Rewrite(db.operators, "operator", keyed.licenseExpression, true);
    RewriteIdentifications(db.aliases, "alias", expr, false);
    RewriteIdentifications(db.scancodeKeys, "scancode", aliased.licenseExpression, false);
    RewriteIdentifications(db.operators, "operator", keyed.licenseExpression, true);
    PassBlocksInOrder(aliased.identifications, keyed.identifications, operated.identifications, db);
  }

  /**
   A successful `expression_license` reports the input as `queried_license`,
   the parser's rendering of the rewritten text, and the events of the alias,
   scancode and operator passes in that order, each from its own table.
   */
  lemma ExpressionLicenseResult(db: Db, parse: string -> Result<string, string>, expr: string)
    ensures ExpressionLicenseSpec(db, parse, expr).Failure? <==> parse(RewritePasses(db, expr).licenseExpression).Failure?
    ensures ExpressionLicenseSpec(db, parse, expr).Success? ==>
      var info := ExpressionLicenseSpec(db, parse, expr).value;
      info.queriedLicense == expr
      && info.identifiedLicense == parse(RewritePasses(db, expr).licenseExpression).value
      && info.identifications == RewritePasses(db, expr).identifications
      && InPassOrder(info.identifications)
  {
    PassesInOrder(db, expr);
    ParseStepResult(parse, expr, RewritePasses(db, expr));
  }

  /** Without any matching alias, scancode key or operator, the parser sees the input with its whitespace collapsed. */
  lemma ExpressionLicenseUntouched(db: Db, expr: string)
    requires Normal(expr)
    requires forall n :: n in db.aliases ==> !Pattern.Occurs(expr, n, false)
    requires forall n :: n in db.scancodeKeys ==> !Pattern.Occurs(expr, n, false)
    requires forall n :: n in db.operators ==> !Pattern.Occurs(expr, n, true)
    ensures RewritePasses(db, expr) == Rewritten(expr, [])
  {
    CollapseFixpoint(expr);
    RewriteWithoutOccurrence(db.aliases, "alias", expr, false);
    RewriteWithoutOccurrence(db.scancodeKeys, "scancode", expr, false);
    RewriteWithoutOccurrence(db.operators, "operator", expr, true);
  }

  /** The result of `expression_compatibility_as`. */
  datatype CompatibilityResult = CompatibilityResult(
    compatibilities: seq<Identification>,
    queriedLicense: string,
    identifications: ExpressionInfo,
    identifiedLicense: string,
    compatLicense: string)

  /** `__validate_license_spdx`: the external validator's errors, if any, are raised together. */
  function SpdxCheck(spdxErrors: string -> seq<string>, expr: string): Outcome<FlameError> {
    if spdxErrors(expr) != [] then Fail(SpdxValidationFailed(spdxErrors(expr))) else Pass
  }

  /** The validation step: SPDX validation if asked for, else relaxed validation if asked for, else none. */
  function ValidationOf(spdxErrors: string -> seq<string>, expr: string, validateSpdx: bool, validateRelaxed: bool): Outcome<FlameError> {
    if validateSpdx then SpdxCheck(spdxErrors, expr)
    else if validateRelaxed then RelaxedCheck(expr)
    else Pass
  }

  /** What `expression_compatibility_as` does once `expression_license` has returned `full`. */
  function CompatStage(db: Db, spdxErrors: string -> seq<string>, expr: string, full: ExpressionInfo,
                       validateSpdx: bool, validateRelaxed: bool): Result<CompatibilityResult, FlameError>
  {
    var ret := Rewrite(db.compats, "compat", full.identifiedLicense, false);
    var compat := Collapse(ret.licenseExpression);
    Validated(spdxErrors, compat, validateSpdx, validateRelaxed,
              CompatibilityResult(ret.identifications, expr, full, full.identifiedLicense, compat))
  }

  /** The result `res` once the validation step has passed on `compat`, else the validator's error. */
  function Validated(spdxErrors: string -> seq<string>, compat: string, validateSpdx: bool, validateRelaxed: bool,
                     res: CompatibilityResult): Result<CompatibilityResult, FlameError>
  {
    match ValidationOf(spdxErrors, compat, validateSpdx, validateRelaxed)
    case Fail(e) => Failure(e)
    case Pass => Success(res)
  }

  /** What the validators can raise: nothing unless asked, the SPDX errors when SPDX validation is asked for, else a multi-word piece. */
  lemma ValidatedFailures(spdxErrors: string -> seq<string>, compat: string, validateSpdx: bool, validateRelaxed: bool,
                          res: CompatibilityResult)
    ensures var r := Validated(spdxErrors, compat, validateSpdx, validateRelaxed, res);
            (r.Success? ==> r.value == res)
            && (!validateSpdx && !validateRelaxed ==> r.Success?)
            && (r.Failure? && validateSpdx ==> r.error == SpdxValidationFailed(spdxErrors(compat)) && spdxErrors(compat) != [])
            && (r.Failure? && !validateSpdx ==> validateRelaxed && r.error.MultipleWords?)
  {
    if !validateSpdx && validateRelaxed {
      CheckPiecesFirst(Split(compat));
    }
  }

  /** `expression_compatibility_as` after `expression_license` returned `el`: its failure is raised. */
  function AfterLicense(db: Db, spdxErrors: string -> seq<string>, expr: string, el: Result<ExpressionInfo, FlameError>,
                        validateSpdx: bool, validateRelaxed: bool): Result<CompatibilityResult, FlameError>
  {
    match el
    case Failure(e) => Failure(e)
    case Success(full) => CompatStage(db, spdxErrors, expr, full, validateSpdx, validateRelaxed)
  }

  /** `expression_compatibility_as`. */
  function ExpressionCompatibilityAsSpec(db: Db, parse: string -> Result<string, string>, spdxErrors: string -> seq<string>,
                                        expr: string, validateSpdx: bool, validateRelaxed: bool): Result<CompatibilityResult, FlameError>
  {
    AfterLicense(db, spdxErrors, expr, ExpressionLicenseSpec(db, parse, expr), validateSpdx, validateRelaxed)
  }

  lemma ExpressionCompatibilityAsSpecOf(db: Db, parse: string -> Result<string, string>, spdxErrors: string -> seq<string>,
                                        expr: string, validateSpdx: bool, validateRelaxed: bool, el: Result<ExpressionInfo, FlameError>)
    requires el == ExpressionLicenseSpec(db, parse, expr)
    ensures ExpressionCompatibilityAsSpec(db, parse, spdxErrors, expr, validateSpdx, validateRelaxed)
         == AfterLicense(db, spdxErrors, expr, el, validateSpdx, validateRelaxed)
  {
  }

  /** `expression_compatibility_as` as the source writes it. */
  method ExpressionCompatibilityAs(db: Db, parse: string -> Result<string, string>, spdxErrors: string -> seq<string>,
                                   licenseExpression: string, validateSpdx: bool, validateRelaxed: bool)
    returns (r: Result<CompatibilityResult, FlameError>)
    ensures r == ExpressionCompatibilityAsSpec(db, parse, spdxErrors, licenseExpression, validateSpdx, validateRelaxed)
  {
    var expressionFull := ExpressionLicense(db, parse, licenseExpression);
    ExpressionCompatibilityAsSpecOf(db, parse, spdxErrors, licenseExpression, validateSpdx, validateRelaxed, expressionFull);
    if expressionFull.Failure? {
      return Failure(expressionFull.error);
    }
    var full := expressionFull.value;
    var ret := UpdateLicenseExpression(db.compats, "compat", full.identifiedLicense, false);
    var compatLicenseExpression := Collapse(ret.licenseExpression);
    if validateSpdx {
      var check := SpdxCheck(spdxErrors, compatLicenseExpression);
      if check.Fail? {
        return Failure(check.error);
      }
    } else if validateRelaxed {
      var check := ValidateLicenseRelaxed(compatLicenseExpression);
      if check.Fail? {
        return Failure(check.error);
      }
    }
    r := Success(CompatibilityResult(ret.identifications, licenseExpression, full, full.identifiedLicense, compatLicenseExpression));
  }

  /** The second clean-up of the compats pass changes nothing: the helper already returned a normal text. */
  lemma SecondCollapseIsNoOp(db: Db, identified: string)
    ensures Collapse(Rewrite(db.compats, "compat", identified, false).licenseExpression)
         == Rewrite(db.compats, "compat", identified, false).licenseExpression
  {
    CollapseFixpoint(Rewrite(db.compats, "compat", identified, false).licenseExpression);
  }

  lemma CompatStageResult(db: Db, spdxErrors: string -> seq<string>, expr: string, full: ExpressionInfo,
                          validateSpdx: bool, validateRelaxed: bool)
    requires CompatStage(db, spdxErrors, expr, full, validateSpdx, validateRelaxed).Success?
    ensures var res := CompatStage(db, spdxErrors, expr, full, validateSpdx, validateRelaxed).value;
            res.identifications == full
            && res.queriedLicense == expr
            && res.identifiedLicense == full.identifiedLicense
            && res.compatLicense == Rewrite(db.compats, "compat", full.identifiedLicense, false).licenseExpression
            && FromTable(res.compatibilities, db.compats, "compat")
            && Normal(res.compatLicense)
  {
    SecondCollapseIsNoOp(db, full.identifiedLicense);
    RewriteIdentifications(db.compats, "compat", full.identifiedLicense, false);
  }

  /**
   A successful `expression_compatibility_as` reports the input, the result of
   `expression_license` and its identified license, the compats pass's events
   (each from the `compats` table) and a normal compat expression, which is the
   compats pass's own result.
   */
  lemma ExpressionCompatibilityAsResult(db: Db, parse: string -> Result<string, string>, spdxErrors: string -> seq<string>,
                                        expr: string, validateSpdx: bool, validateRelaxed: bool)
    requires ExpressionCompatibilityAsSpec(db, parse, spdxErrors, expr, validateSpdx, validateRelaxed).Success?
    ensures var res := ExpressionCompatibilityAsSpec(db, parse, spdxErrors, expr, validateSpdx, validateRelaxed).value;
            ExpressionLicenseSpec(db, parse, expr) == Success(res.identifications)
            && res.queriedLicense == expr
            && res.identifiedLicense == res.identifications.identifiedLicense
            && res.compatLicense == Rewrite(db.compats, "compat", res.identifiedLicense, false).licenseExpression
            && FromTable(res.compatibilities, db.compats, "compat")
            && Normal(res.compatLicense)
  {
    var el := ExpressionLicenseSpec(db, parse, expr);
    ExpressionCompatibilityAsSpecOf(db, parse, spdxErrors, expr, validateSpdx, validateRelaxed, el);
    CompatStageResult(db, spdxErrors, expr, el.value, validateSpdx, validateRelaxed);
  }

  /** SPDX validation takes precedence: with it requested, the relaxed flag makes no difference. */
  lemma SpdxValidationTakesPrecedence(db: Db, parse: string -> Result<string, string>, spdxErrors: string -> seq<string>,
                                      expr: string, validateRelaxed: bool)
    ensures ExpressionCompatibilityAsSpec(db, parse, spdxErrors, expr, true, validateRelaxed)
         == ExpressionCompatibilityAsSpec(db, parse, spdxErrors, expr, true, !validateRelaxed)
  {
    var el := ExpressionLicenseSpec(db, parse, expr);
    ExpressionCompatibilityAsSpecOf(db, parse, spdxErrors, expr, true, validateRelaxed, el);
    ExpressionCompatibilityAsSpecOf(db, parse, spdxErrors, expr, true, !validateRelaxed, el);
    if el.Success? {
      CompatStagePrecedence(db, spdxErrors, expr, el.value, validateRelaxed);
    }
  }

  lemma CompatStagePrecedence(db: Db, spdxErrors: string -> seq<string>, expr: string, full: ExpressionInfo, validateRelaxed: bool)
    ensures CompatStage(db, spdxErrors, expr, full, true, validateRelaxed)
         == CompatStage(db, spdxErrors, expr, full, true, !validateRelaxed)
  {
    var ret := Rewrite(db.compats, "compat", full.identifiedLicense, false);
    var compat := Collapse(ret.licenseExpression);
    var res := CompatibilityResult(ret.identifications, expr, full, full.identifiedLicense, compat);
    assert Validated(spdxErrors, compat, true, validateRelaxed, res) == Validated(spdxErrors, compat, true, !validateRelaxed, res);
  }

  lemma CompatStageFailures(db: Db, spdxErrors: string -> seq<string>, expr: string, full: ExpressionInfo,
                            validateSpdx: bool, validateRelaxed: bool)
    ensures var r := CompatStage(db, spdxErrors, expr, full, validateSpdx, validateRelaxed);
            (!validateSpdx && !validateRelaxed ==> r.Success?)
            && (r.Failure? && validateSpdx ==> r.error.SpdxValidationFailed? && r.error.errors != [])
            && (r.Failure? && !validateSpdx ==> validateRelaxed && r.error.MultipleWords?)
  {
    var ret := Rewrite(db.compats, "compat", full.identifiedLicense, false);
    var compat := Collapse(ret.licenseExpression);
    ValidatedFailures(spdxErrors, compat, validateSpdx, validateRelaxed,
                      CompatibilityResult(ret.identifications, expr, full, full.identifiedLicense, compat));
  }

  /**
   At most one validator decides: without validation only `expression_license`
   can fail; otherwise a further failure is the requested validator's error.
   */
  lemma ValidationFailures(db: Db, parse: string -> Result<string, string>, spdxErrors: string -> seq<string>,
                           expr: string, validateSpdx: bool, validateRelaxed: bool)
    requires ExpressionLicenseSpec(db, parse, expr).Success?
    ensures var r := ExpressionCompatibilityAsSpec(db, parse, spdxErrors, expr, validateSpdx, validateRelaxed);
            (!validateSpdx && !validateRelaxed ==> r.Success?)
            && (r.Failure? && validateSpdx ==> r.error.SpdxValidationFailed? && r.error.errors != [])
            && (r.Failure? && !validateSpdx ==> validateRelaxed && r.error.MultipleWords?)
  {
    var el := ExpressionLicenseSpec(db, parse, expr);
    ExpressionCompatibilityAsSpecOf(db, parse, spdxErrors, expr, validateSpdx, validateRelaxed, el);
    CompatStageFailures(db, spdxErrors, expr, el.value, validateSpdx, validateRelaxed);
  }
}
