/** Validation conditions: the rules a condition definition must satisfy to be
    saved, whether a response satisfies a condition (`is_valid?`), and the
    one-entry `{rule_key => verdict}` map (`to_hash`).

    A condition compares the subject response's value, read at the class of the
    subject's answer, either with the condition's own literal (literal mode) or
    with the value of the stored response for the condition's question and
    answer (cross-response mode). Regular-expression matching is a parameter. */
module ValidationConditions {
  import opened Common
  import opened Records
  import opened Decimal

  /** `Surveyor::Common::OPERATORS`. */
  const OPERATORS: seq<string> := ["==", "!=", "<", ">", "<=", ">=", "=~"]

  datatype Operator = Eq | Ne | Lt | Gt | Le | Ge | Match

  function Symbol(op: Operator): string {
    match op
    case Eq => "=="
    case Ne => "!="
    case Lt => "<"
    case Gt => ">"
    case Le => "<="
    case Ge => ">="
    case Match => "=~"
  }

  /** The operator a stored operator string names, if it is one of `OPERATORS`. */
  function ParseOperator(s: Option<string>): (r: Option<Operator>)
    ensures r.Some? <==> s.Some? && s.value in OPERATORS
    ensures r.Some? ==> Symbol(r.value) == s.value
  {
    if s.None? then None
    else if s.value == "==" then Some(Eq)
    else if s.value == "!=" then Some(Ne)
    else if s.value == "<" then Some(Lt)
    else if s.value == ">" then Some(Gt)
    else if s.value == "<=" then Some(Le)
    else if s.value == ">=" then Some(Ge)
    else if s.value == "=~" then Some(Match)
    else None
  }

  datatype ValidationCondition = ValidationCondition(
    id: nat,
    validationId: Option<nat>,
    ruleKey: Option<string>,
    operator: Option<string>,
    regexp: Option<string>,
    questionId: Option<nat>,
    answerId: Option<nat>,
    values: Slots)

  // ------------------------------------------------------------ definition validity

  /** The validation errors a definition can carry on an attribute. */
  datatype Error = Blank | Inclusion | Taken

  /** POSIX `[[:space:]]` as Ruby matches it on Unicode strings. */
  predicate IsSpace(c: char) {
    || c == ' ' || c == '\t' || c == '\n' || c == '\r' || c == '\U{000B}' || c == '\U{000C}'
    || c == '\U{0085}' || c == '\U{00A0}' || c == '\U{1680}'
    || ('\U{2000}' <= c <= '\U{200A}')
    || c == '\U{2028}' || c == '\U{2029}' || c == '\U{202F}' || c == '\U{205F}' || c == '\U{3000}'
  }

  /** Ruby's `blank?` on a string attribute: `nil`, or only white space. */
  predicate IsBlank(s: Option<string>) {
    s.None? || forall i :: 0 <= i < |s.value| ==> IsSpace(s.value[i])
  }

  /** Errors on `operator`: presence, then inclusion in `OPERATORS` (a missing
      operator fails both). */
  function OperatorErrors(c: ValidationCondition): (errs: seq<Error>)
    ensures Blank in errs <==> IsBlank(c.operator)
    ensures Inclusion in errs <==> !(c.operator.Some? && c.operator.value in OPERATORS)
    ensures Taken !in errs
    ensures |errs| == (if Blank in errs then 1 else 0) + (if Inclusion in errs then 1 else 0)
  {
    (if IsBlank(c.operator) then [Blank] else [])
      + (if c.operator.Some? && c.operator.value in OPERATORS then [] else [Inclusion])
  }

  /** Another stored condition of the same validation already uses this rule key. */
  predicate RuleKeyTaken(c: ValidationCondition, stored: seq<ValidationCondition>) {
    exists o :: o in stored && o.id != c.id && o.validationId == c.validationId && o.ruleKey == c.ruleKey
  }

  /** Errors on `rule_key`: presence, then uniqueness within the validation. */
  function RuleKeyErrors(c: ValidationCondition, stored: seq<ValidationCondition>): (errs: seq<Error>)
    ensures Blank in errs <==> IsBlank(c.ruleKey)
    ensures Taken in errs <==> RuleKeyTaken(c, stored)
    ensures Inclusion !in errs
    ensures |errs| == (if Blank in errs then 1 else 0) + (if Taken in errs then 1 else 0)
  {
    (if IsBlank(c.ruleKey) then [Blank] else []) + (if RuleKeyTaken(c, stored) then [Taken] else [])
  }

  /** `valid?` as far as these attributes go, against the conditions already stored. */
  function IsDefinitionValid(c: ValidationCondition, stored: seq<ValidationCondition>): (valid: bool)
    ensures valid <==>
      && c.operator.Some? && c.operator.value in OPERATORS
      && !IsBlank(c.ruleKey)
      && forall o :: o in stored && o.id != c.id && o.validationId == c.validationId ==> o.ruleKey != c.ruleKey
  {
    OperatorErrorCount(c);
    RuleKeyUniquePerValidation(c, stored);
    OperatorErrors(c) == [] && RuleKeyErrors(c, stored) == []
  }

  /** Every listed operator is accepted; `#` draws one error and a missing operator two. */
  lemma OperatorErrorCount(c: ValidationCondition)
    ensures c.operator.Some? && c.operator.value in OPERATORS ==> |OperatorErrors(c)| == 0
    ensures c.operator == Some("#") ==> |OperatorErrors(c)| == 1
    ensures c.operator.None? ==> |OperatorErrors(c)| == 2
  {
    if c.operator.Some? && c.operator.value in OPERATORS {
      assert !IsSpace(c.operator.value[0]);
    }
    if c.operator == Some("#") {
      assert !IsSpace("#"[0]);
      assert "#" !in OPERATORS;
    }
  }

  /** Without a rule key a condition is invalid with exactly one error on it, provided
      no other condition of its validation lacks one too. */
  lemma MissingRuleKey(c: ValidationCondition, stored: seq<ValidationCondition>)
    requires c.ruleKey.None?
    requires forall o :: o in stored && o.id != c.id && o.validationId == c.validationId ==> o.ruleKey.Some?
    ensures |RuleKeyErrors(c, stored)| == 1
    ensures !IsDefinitionValid(c, stored)
  {
  }

  /** A second condition with the same rule key in the same validation is invalid with
      exactly one error on the rule key. */
  lemma DuplicateRuleKey(c: ValidationCondition, other: ValidationCondition, stored: seq<ValidationCondition>)
    requires !IsBlank(c.ruleKey)
    requires other in stored && other.id != c.id
    requires other.validationId == c.validationId && other.ruleKey == c.ruleKey
    ensures |RuleKeyErrors(c, stored)| == 1
    ensures !IsDefinitionValid(c, stored)
  {
    assert Taken in RuleKeyErrors(c, stored);
  }

  /** The rule key is acceptable exactly when it is present and no other condition of
      the same validation uses it; conditions of other validations do not matter. */
  lemma RuleKeyUniquePerValidation(c: ValidationCondition, stored: seq<ValidationCondition>)
    ensures RuleKeyErrors(c, stored) == [] <==>
      !IsBlank(c.ruleKey)
      && forall o :: o in stored && o.id != c.id && o.validationId == c.validationId ==> o.ruleKey != c.ruleKey
  {
    var errs := RuleKeyErrors(c, stored);
    if errs != [] {
      assert errs[0] in errs;
    }
  }

  // ------------------------------------------------------------ comparing values

  /** Ruby's `<` on strings: character by character, a proper prefix first. */
  predicate StrLess(x: string, y: string) {
    if x == [] then y != []
    else if y == [] then false
    else if x[0] != y[0] then x[0] < y[0]
    else StrLess(x[1..], y[1..])
  }

  /** `<` on two values of the same kind; values of different kinds are unordered. */
  predicate Less(a: Value, b: Value) {
    match (a, b)
    case (Num(x), Num(y)) => x < y
    case (Str(x), Str(y)) => StrLess(x, y)
    case _ => false
  }

  predicate SameKind(a: Value, b: Value) {
    a.Num? == b.Num?
  }

  /** String order is transitive. */
  lemma {:induction false} StrLessTransitive(x: string, y: string, z: string)
    requires StrLess(x, y) && StrLess(y, z)
    ensures StrLess(x, z)
  {
    if x != [] && x[0] == y[0] && y[0] == z[0] {
      StrLessTransitive(x[1..], y[1..], z[1..]);
    }
  }

  lemma {:induction false} StrLessTrichotomy(x: string, y: string)
    ensures x != y ==> StrLess(x, y) != StrLess(y, x)
    ensures !(StrLess(x, y) && StrLess(y, x))
    ensures x == y ==> !StrLess(x, y)
  {
    if x != [] && y != [] && x[0] == y[0] {
      StrLessTrichotomy(x[1..], y[1..]);
      assert x == [x[0]] + x[1..] && y == [y[0]] + y[1..];
    }
  }

  /** An operator other than `=~` applied to the two operands; an absent operand
      never satisfies it. */
  function Compare(op: Operator, left: Option<Value>, right: Option<Value>): (holds: bool)
    ensures holds ==> left.Some? && right.Some?
    ensures op == Match ==> !holds
    ensures left.Some? && right.Some? && op == Eq ==> (holds <==> left.value == right.value)
    ensures left.Some? && right.Some? && op == Lt ==> (holds <==> Less(left.value, right.value))
    ensures left.Some? && right.Some? && op == Gt ==> (holds <==> Less(right.value, left.value))
    ensures left.Some? && right.Some? && left.value.Num? && right.value.Num? ==>
      match op
      case Lt => holds <==> left.value.n < right.value.n
      case Gt => holds <==> left.value.n > right.value.n
      case Le => holds <==> left.value.n <= right.value.n
      case Ge => holds <==> left.value.n >= right.value.n
      case _ => true
  {
    && left.Some? && right.Some?
    && match op
       case Eq => left.value == right.value
       case Ne => left.value != right.value
       case Lt => Less(left.value, right.value)
       case Gt => Less(right.value, left.value)
       case Le => Less(left.value, right.value) || left.value == right.value
       case Ge => Less(right.value, left.value) || left.value == right.value
       case Match => false
  }

  /** On two present values of the same kind, exactly one of `<`, `==`, `>` holds,
      `==` is reflexive, and `<=`, `>=`, `!=` are the negations of `>`, `<`, `==`. */
  lemma ComparisonLaws(a: Value, b: Value)
    requires SameKind(a, b)
    ensures Compare(Eq, Some(a), Some(a))
    ensures Compare(Lt, Some(a), Some(b)) || Compare(Eq, Some(a), Some(b)) || Compare(Gt, Some(a), Some(b))
    ensures !(Compare(Lt, Some(a), Some(b)) && Compare(Eq, Some(a), Some(b)))
    ensures !(Compare(Eq, Some(a), Some(b)) && Compare(Gt, Some(a), Some(b)))
    ensures !(Compare(Lt, Some(a), Some(b)) && Compare(Gt, Some(a), Some(b)))
    ensures Compare(Le, Some(a), Some(b)) == !Compare(Gt, Some(a), Some(b))
    ensures Compare(Ge, Some(a), Some(b)) == !Compare(Lt, Some(a), Some(b))
    ensures Compare(Ne, Some(a), Some(b)) == !Compare(Eq, Some(a), Some(b))
  {
    if a.Str? {
      StrLessTrichotomy(a.s, b.s);
    }
  }

  // ------------------------------------------------------------ is_valid?

  /** `Response.find_by_question_id_and_answer_id(question_id, answer_id)`: the index
      of the first stored response to the condition's question and answer. */
  function FirstReference(responses: seq<Response>, questionId: Option<nat>, answerId: Option<nat>): Option<nat> {
    FirstIndex(responses, x => References(x, questionId, answerId))
  }

  predicate References(x: Response, questionId: Option<nat>, answerId: Option<nat>) {
    Some(x.questionId) == questionId && x.answerId == answerId
  }

  /** `to_s` of a present value. */
  function Render(v: Value): string {
    match v
    case Str(s) => s
    case Num(n) => IntToString(n)
  }

  /** `is_valid?(response)`. `answerClass` is the response class of the subject
      response's answer; both operands are read at it. `regexMatches(s, pattern)`
      stands for Ruby's regular-expression match. */
  function IsValid(
    c: ValidationCondition, answerClass: ResponseClass, response: Response,
    responses: seq<Response>, regexMatches: (string, string) -> bool): (valid: bool)
    ensures valid ==> c.operator.Some? && c.operator.value in OPERATORS
    ensures valid ==> Read(response.values, answerClass).Some?
    ensures valid && FirstReference(responses, c.questionId, c.answerId).Some? ==> c.operator != Some("=~")
  {
    var reference := FirstReference(responses, c.questionId, c.answerId);
    var left := Read(response.values, answerClass);
    match ParseOperator(c.operator)
    case None => false
    case Some(Match) =>
      reference.None? && left.Some? && regexMatches(Render(left.value), c.regexp.GetOr(""))
    case Some(op) =>
      var compareTo := if reference.Some? then responses[reference.value].values else c.values;
      Compare(op, left, Read(compareTo, answerClass))
  }

  /** In cross-response mode `=~` never holds, whatever the values and the matcher. */
  lemma CrossModeRegexInvalid(
    c: ValidationCondition, answerClass: ResponseClass, response: Response,
    responses: seq<Response>, regexMatches: (string, string) -> bool)
    requires FirstReference(responses, c.questionId, c.answerId).Some?
    requires c.operator == Some("=~")
    ensures !IsValid(c, answerClass, response, responses, regexMatches)
  {
  }

  /** In cross-response mode the condition's own literal values and pattern are ignored:
      the verdict is the comparison with the referenced response's value. */
  lemma CrossModeUsesReferencedValue(
    c: ValidationCondition, values: Slots, regexp: Option<string>, answerClass: ResponseClass,
    response: Response, responses: seq<Response>, regexMatches: (string, string) -> bool)
    requires FirstReference(responses, c.questionId, c.answerId).Some?
    ensures IsValid(c, answerClass, response, responses, regexMatches)
         == IsValid(c.(values := values, regexp := regexp), answerClass, response, responses, regexMatches)
    ensures
      var i := FirstReference(responses, c.questionId, c.answerId).value;
      var op := ParseOperator(c.operator);
      IsValid(c, answerClass, response, responses, regexMatches)
        == (op.Some? && op.value != Match
            && Compare(op.value, Read(response.values, answerClass), Read(responses[i].values, answerClass)))
  {
  }

  /** In literal mode the stored responses play no part. */
  lemma LiteralModeIgnoresResponses(
    c: ValidationCondition, answerClass: ResponseClass, response: Response,
    responses: seq<Response>, regexMatches: (string, string) -> bool)
    requires FirstReference(responses, c.questionId, c.answerId).None?
    ensures IsValid(c, answerClass, response, responses, regexMatches)
         == IsValid(c, answerClass, response, [], regexMatches)
  {
  }

  /** In literal mode a comparison operator compares the subject's value with the
      condition's own value, and `=~` matches the subject's rendered value against the
      condition's pattern (the empty pattern when none is stored). */
  lemma LiteralModeUsesOwnValue(
    c: ValidationCondition, answerClass: ResponseClass, response: Response,
    responses: seq<Response>, regexMatches: (string, string) -> bool)
    requires FirstReference(responses, c.questionId, c.answerId).None?
    ensures
      var op := ParseOperator(c.operator);
      op.Some? && op.value != Match ==>
        IsValid(c, answerClass, response, responses, regexMatches)
          == Compare(op.value, Read(response.values, answerClass), Read(c.values, answerClass))
    ensures
      var left := Read(response.values, answerClass);
      c.operator == Some("=~") ==>
        IsValid(c, answerClass, response, responses, regexMatches)
          == (left.Some? && regexMatches(Render(left.value), c.regexp.GetOr("")))
  {
  }

  /** A condition fails closed: an unknown operator, or a subject response without a
      value in the column its class reads, never validates. */
  lemma FailsClosed(
    c: ValidationCondition, answerClass: ResponseClass, response: Response,
    responses: seq<Response>, regexMatches: (string, string) -> bool)
    requires !(c.operator.Some? && c.operator.value in OPERATORS) || Read(response.values, answerClass).None?
    ensures !IsValid(c, answerClass, response, responses, regexMatches)
  {
  }

  /** On two present values of one class, `!=` validates exactly when `==` does not. */
  lemma InequalityNegatesEquality(
    c: ValidationCondition, answerClass: ResponseClass, response: Response,
    responses: seq<Response>, regexMatches: (string, string) -> bool)
    requires c.operator == Some("==")
    requires Read(response.values, answerClass).Some?
    requires
      var reference := FirstReference(responses, c.questionId, c.answerId);
      Read(if reference.Some? then responses[reference.value].values else c.values, answerClass).Some?
    ensures IsValid(c.(operator := Some("!=")), answerClass, response, responses, regexMatches)
         == !IsValid(c, answerClass, response, responses, regexMatches)
  {
  }

  // ------------------------------------------------------------ to_hash

  /** `to_hash(response)`: a single entry from the rule key to the verdict. */
  function ToHash(
    c: ValidationCondition, answerClass: ResponseClass, response: Response,
    responses: seq<Response>, regexMatches: (string, string) -> bool): (h: map<string, bool>)
    requires c.ruleKey.Some?
    ensures h.Keys == {c.ruleKey.value}
    ensures h[c.ruleKey.value] <==> IsValid(c, answerClass, response, responses, regexMatches)
  {
    map[c.ruleKey.value := IsValid(c, answerClass, response, responses, regexMatches)]
  }

  // ------------------------------------------------------------ worked examples

  /** `/^[a-z]{1,6}$/.to_s`, the pattern as a condition stores it. */
  const PATTERN := "(?-mix:^[a-z]{1,6}$)"

  /** What is known of the matcher: six lower-case letters match the pattern, nine
      do not. */
  predicate MatcherAgreesWithExamples(regexMatches: (string, string) -> bool) {
    regexMatches("clear", PATTERN) && !regexMatches("foobarbaz", PATTERN)
  }

  function StringResponse(id: nat, questionId: nat, answerId: nat, s: string): Response {
    Response(Some(id), 1, questionId, Some(answerId), None, NoValues.(stringValue := Some(s)))
  }

  function IntegerResponse(id: nat, questionId: nat, answerId: nat, n: int): Response {
    Response(Some(id), 1, questionId, Some(answerId), None, NoValues.(integerValue := Some(n)))
  }

  function DatetimeResponse(id: nat, questionId: nat, answerId: nat, t: int): Response {
    Response(Some(id), 1, questionId, Some(answerId), None, NoValues.(datetimeValue := Some(t)))
  }

  /** A condition in literal mode (no question or answer referenced). */
  function Literal(operator: string, regexp: Option<string>, values: Slots): ValidationCondition {
    ValidationCondition(1, Some(1), Some("A"), Some(operator), regexp, None, None, values)
  }

  /** A condition referencing the response to question 10, answer 100. */
  function CrossResponse(operator: string): ValidationCondition {
    ValidationCondition(1, Some(1), Some("A"), Some(operator), None, Some(10), Some(100), NoValues)
  }

  lemma LiteralRegexExamples(regexMatches: (string, string) -> bool, responses: seq<Response>)
    requires MatcherAgreesWithExamples(regexMatches)
    ensures IsValid(Literal("=~", Some(PATTERN), NoValues), String, StringResponse(2, 20, 200, "clear"), responses, regexMatches)
    ensures !IsValid(Literal("=~", Some(PATTERN), NoValues), String, StringResponse(2, 20, 200, "foobarbaz"), responses, regexMatches)
  {
  }

  lemma LiteralComparisonExamples(regexMatches: (string, string) -> bool, today: int, responses: seq<Response>)
    ensures IsValid(Literal(">", None, NoValues.(integerValue := Some(3))), Integer, IntegerResponse(2, 20, 200, 4), responses, regexMatches)
    ensures !IsValid(Literal("<=", None, NoValues.(integerValue := Some(256))), Integer, IntegerResponse(2, 20, 200, 512), responses, regexMatches)
    ensures IsValid(Literal("!=", None, NoValues.(datetimeValue := Some(today + SECONDS_PER_DAY))), Date,
                    DatetimeResponse(2, 20, 200, today), responses, regexMatches)
    ensures IsValid(Literal("==", None, NoValues.(stringValue := Some("foo"))), String, StringResponse(2, 20, 200, "foo"), responses, regexMatches)
  {
    assert (today + SECONDS_PER_DAY) / SECONDS_PER_DAY == today / SECONDS_PER_DAY + 1;
  }

  lemma CrossResponseComparisonExamples(regexMatches: (string, string) -> bool)
    ensures IsValid(CrossResponse(">"), Integer, IntegerResponse(2, 20, 200, 4),
                    [IntegerResponse(1, 10, 100, 3), IntegerResponse(2, 20, 200, 4)], regexMatches)
    ensures !IsValid(CrossResponse("<="), Integer, IntegerResponse(2, 20, 200, 512),
                     [IntegerResponse(1, 10, 100, 4), IntegerResponse(2, 20, 200, 512)], regexMatches)
  {
  }

  lemma CrossResponseEqualityExamples(regexMatches: (string, string) -> bool, today: int)
    ensures IsValid(CrossResponse("!="), Date, DatetimeResponse(2, 20, 200, today),
                    [DatetimeResponse(1, 10, 100, today + SECONDS_PER_DAY), DatetimeResponse(2, 20, 200, today)], regexMatches)
    ensures IsValid(CrossResponse("=="), String, StringResponse(2, 20, 200, "donuts"),
                    [StringResponse(1, 10, 100, "donuts"), StringResponse(2, 20, 200, "donuts")], regexMatches)
  {
    assert (today + SECONDS_PER_DAY) / SECONDS_PER_DAY == today / SECONDS_PER_DAY + 1;
  }

  lemma CrossResponseRegexExamples(regexMatches: (string, string) -> bool, today: int)
    ensures !IsValid(CrossResponse("=~"), Date, DatetimeResponse(2, 20, 200, today),
                     [DatetimeResponse(1, 10, 100, today + SECONDS_PER_DAY), DatetimeResponse(2, 20, 200, today)], regexMatches)
    ensures !IsValid(CrossResponse("=~"), String, StringResponse(2, 20, 200, "donuts"),
                     [StringResponse(1, 10, 100, "donuts"), StringResponse(2, 20, 200, "donuts")], regexMatches)
  {
  }

  lemma ToHashExample(answerClass: ResponseClass, response: Response,
                      responses: seq<Response>, regexMatches: (string, string) -> bool)
    ensures
      var c := Literal("==", None, NoValues);
      ToHash(c, answerClass, response, responses, regexMatches)
        == map["A" := IsValid(c, answerClass, response, responses, regexMatches)]
  {
  }
}
