# surveyor_gui rule engine — a verified Dafny model

surveyor_gui is a survey builder built on the Surveyor gem. A respondent's
answers are kept in a *response set*. Around it sits a small rule engine. It
decides:

- which mandatory questions are still unanswered, counting only questions that
  dependencies have switched on;
- which dependent questions and question groups the form shows, shows as
  mandatory, or hides;
- how many of the responses are correct;
- what name a report shows for the respondent;
- whether a response satisfies a *validation condition*;
- which value column, input type and response a form field uses.

This project models that engine as Dafny functions, one class and lemmas.

| file | module | models |
|---|---|---|
| `common.dfy` | `Common` | `Option`; `select`, `partition`, `map` and `detect` on sequences (`Filter`, `Partition`, `Map`, `FirstIndex`), with their laws |
| `decimal.dfy` | `Decimal` | `Integer#to_s` and its inverse |
| `records.dfy` | `Records` | questions, sections, responses and their typed value columns, and reading a column at a response class |
| `response_set_methods.dfy` | `ResponseSetMethods` | `triggered_mandatory_missing`, `all_dependencies`, `correctness_hash`, `report_user_name` |
| `validation_condition.dfy` | `ValidationConditions` | the rules a condition definition must satisfy, `is_valid?` in literal and cross-response mode, `to_hash` |
| `surveyor_helper.dfy` | `SurveyorHelper` | `rc_to_attr`, `rc_to_as`, the `response_idx` counter (a class with a mutable field), `response_for` |

Some code the engine calls is not part of this model. It appears as function
parameters:

- `Dependency#is_met?` becomes `isMet`;
- `ResponseSet#is_answered?` becomes `isAnswered`;
- `Response#correct?` becomes `isCorrect`;
- Ruby's regular-expression match becomes `regexMatches`.

Database queries are replaced by the sequences they would return. The
`ResponseSetUser` resolver is replaced by an optional name.

Ruby's array difference on Active Record objects compares records by id. So
`a - b` is modelled as keeping the elements of `a` whose id is not among the
ids of `b`. At `lib/surveyor_gui/models/response_set_methods.rb:22` the `||`
alternative can never be taken, because an array is always truthy. The
dependencies used are therefore exactly those whose question is one of the
survey's questions.

`ValidationCondition#is_valid?`, `to_hash`, `rc_to_attr`, `rc_to_as`,
`response_idx` and `response_for` belong to the Surveyor gem, and their code is
not part of this model. Their behaviour is taken from the repository's specs,
which fix it only at the tested points. Between those points the model reads the
gem as follows:

- When a stored response to the condition's question and answer exists, the
  condition compares the subject response with the first such response
  (cross-response mode). Otherwise, including when the condition names a
  question and an answer that no stored response matches, it compares with its
  own literal value and pattern (literal mode).
- `=~` never holds in cross-response mode.
- A date is stored as seconds in `datetime_value` and read as whole days
  (`SECONDS_PER_DAY` = 86400). "Tomorrow" is therefore the stored value plus
  86400.
- In `response_for`, a stored response with no `response_group` matches any
  requested group. The requested group is read as an integer, and `nil` reads
  as 0.

The choices the specs leave open (which class each operand is read at, what an
absent operand gives, and what a condition whose referenced response is not
stored does) are listed under "## Left out".

## Model

| member | source | states |
|---|---|---|
| ResponseSetMethods.TriggeredMandatoryMissing | lib/surveyor_gui/models/response_set_methods.rb:17-32 | every reported question is a survey question, mandatory and unanswered; no question targeted by a stored dependency that is not met is reported, even if another of its dependencies is met |
| ResponseSetMethods.TriggeredMandatoryMissingIsFilter | lib/surveyor_gui/models/response_set_methods.rb:19-28 | the chain of selections and differences equals one selection of the flattened survey: the questions that are mandatory, unanswered and have all their dependencies met |
| ResponseSetMethods.TriggeredMandatoryMissingComplete | lib/surveyor_gui/models/response_set_methods.rb:22-28 | a mandatory, unanswered survey question all of whose dependencies are met (for example, one no dependency targets) is always reported |
| ResponseSetMethods.TriggeredMandatoryMissingKeepsOrder | lib/surveyor_gui/models/response_set_methods.rb:19-28 | the result is a subsequence of the sections-then-questions order, as array difference keeps its left operand's order |
| ResponseSetMethods.TriggeredMandatoryMissingBeforeAnswer | lib/surveyor_gui/models/response_set_methods.rb:24-28 | with Q2 gated on an unmet dependency and nothing answered, only Q1 is missing |
| ResponseSetMethods.TriggeredMandatoryMissingAfterAnswer | lib/surveyor_gui/models/response_set_methods.rb:24-28 | once the dependency is met and Q1 answered, only Q2 is missing |
| ResponseSetMethods.TriggeredMandatoryMissingOneUnmetSuffices | lib/surveyor_gui/models/response_set_methods.rb:24 | a question with two dependencies of its own, one met and one not, is not reported |
| ResponseSetMethods.Flatten | lib/surveyor_gui/models/response_set_methods.rb:19 | the flattened list holds exactly the questions of the sections, as many as all sections together, in section order: question `j` of section `i` is at position `j` after all questions of sections `0..i-1` |
| ResponseSetMethods.FetchDependencies | lib/surveyor_gui/models/response_set_methods.rb:22 | exactly the stored dependencies whose question is one of the survey's questions, in stored order |
| Common.Partition | lib/surveyor_gui/models/response_set_methods.rb:37 | the first part holds the elements the predicate accepts and the second the rest, each in input order; together they are exactly the input, as a multiset |
| ResponseSetMethods.ElementId | lib/surveyor_gui/models/response_set_methods.rb:38-40 | an id starts `g_` exactly when the dependency has a question group and `q_` exactly when it has none |
| ResponseSetMethods.ElementIdRoundTrip | lib/surveyor_gui/models/response_set_methods.rb:38-40 | parsing an element id gives back the group or question it was made from |
| ResponseSetMethods.ElementIdInjective | lib/surveyor_gui/models/response_set_methods.rb:38-40 | two dependencies with the same element id have the same target |
| ResponseSetMethods.MandatoryElementId | lib/surveyor_gui/models/response_set_methods.rb:39 | a met dependency's entry is its element id exactly when it has a group or a mandatory question, and `nil` otherwise |
| ResponseSetMethods.MandatoryIdsAgree | lib/surveyor_gui/models/response_set_methods.rb:38-39 | each `show_mandatory` entry is `nil` or the `show` entry at the same position, and the `show` entry exactly for a group or a mandatory question |
| ResponseSetMethods.MandatoryIds | lib/surveyor_gui/models/response_set_methods.rb:39 | `show_mandatory` is built position by position: one entry per met dependency, an id or `nil`, never filtered |
| ResponseSetMethods.AllDependencies | lib/surveyor_gui/models/response_set_methods.rb:36-44 | `show` and `show_mandatory` have one entry per met dependency and `hide` one per unmet dependency; together `show` and `hide` hold the element ids of all fetched dependencies; entry i is the id of the i-th met (or unmet) dependency; `show_mandatory[i]` is `show[i]` exactly when that dependency has a group or a mandatory question, and `nil` otherwise |
| ResponseSetMethods.AllDependenciesAppend | lib/surveyor_gui/models/response_set_methods.rb:37-40 | each list keeps fetch order: one more fetched dependency extends `show` and `show_mandatory` when met, `hide` otherwise |
| ResponseSetMethods.AllDependenciesSingle | lib/surveyor_gui/models/response_set_methods.rb:38-39 | a met group dependency gives `g_<id>` in both lists; a met dependency on a non-mandatory question gives `q_<id>` and `nil` |
| ResponseSetMethods.CorrectnessHash | lib/surveyor_gui/models/response_set_methods.rb:46-51 | `questions` counts all questions of all sections, `responses` counts the responses, `correct` is the number of correct responses, counted one by one; it is at most `responses`, equals it exactly when all are correct, and is 0 exactly when none is |
| Common.FilterCount | lib/surveyor_gui/models/response_set_methods.rb:49 | `find_all(...).size` equals the one-by-one count of the elements accepted |
| ResponseSetMethods.FakeUserKeys | lib/surveyor_gui/models/response_set_methods.rb:55 | the fake-user table is keyed by the renderings of 0 down to -9 and nothing else |
| ResponseSetMethods.FakeUserKey | lib/surveyor_gui/models/response_set_methods.rb:55-59 | `user_id.to_s` is a key of the table exactly for user ids 0 to -9 |
| ResponseSetMethods.UserIdString | lib/surveyor_gui/models/response_set_methods.rb:59 | `user_id.to_s` is empty exactly for `nil`, and otherwise reads back as the user id |
| ResponseSetMethods.ReportUserName | lib/surveyor_gui/models/response_set_methods.rb:53-60 | the resolver's name when it gives one; else the fake-user name for user ids 0 to -9; else the record id |
| ValidationConditions.ParseOperator | spec/models/validation_condition_spec.rb:44-55 | an operator string is recognised exactly when it is in `OPERATORS`, and names the operator it spells |
| ValidationConditions.OperatorErrors | spec/models/validation_condition_spec.rb:17-22 | a blank operator draws a presence error, and an operator outside `OPERATORS` an inclusion error; nothing else |
| ValidationConditions.OperatorErrorCount | spec/models/validation_condition_spec.rb:44-55 | every listed operator draws 0 operator errors, `#` draws 1 and a missing operator 2 |
| ValidationConditions.RuleKeyErrors | spec/models/validation_condition_spec.rb:24-42 | a blank rule key draws a presence error, and one already used by another condition of the same validation a uniqueness error; nothing else |
| ValidationConditions.IsDefinitionValid | spec/models/validation_condition_spec.rb:17-55 | a definition is valid exactly when its operator is one of `OPERATORS`, its rule key is present, and no other condition of the same validation uses that key |
| ValidationConditions.MissingRuleKey | spec/models/validation_condition_spec.rb:24-31 | without a rule key a condition is invalid with exactly one rule-key error |
| ValidationConditions.DuplicateRuleKey | spec/models/validation_condition_spec.rb:33-42 | a second condition with the same rule key in the same validation is invalid with exactly one rule-key error |
| ValidationConditions.RuleKeyUniquePerValidation | spec/models/validation_condition_spec.rb:33-42 | the rule key is accepted exactly when present and unused by the other conditions of the same validation |
| Records.Read | spec/models/validation_condition_spec.rb:76-77 | each class reads its own column and has a value exactly when that column does; string and text read strings, integer reads the integer, datetime and time read the seconds, and a date reads the whole day the seconds fall in; the float column is never read |
| ValidationConditions.StrLessTrichotomy | spec/models/validation_condition_spec.rb:78 | string order is irreflexive and asymmetric, and of two distinct strings exactly one is smaller |
| ValidationConditions.StrLessTransitive | spec/models/validation_condition_spec.rb:78 | string order is transitive, so together with trichotomy it is a strict total order |
| ValidationConditions.Compare | spec/models/validation_condition_spec.rb:72-79 | a comparison holds only between two present values and `=~` is never a plain comparison; on present values `==` is value equality, `<` is `Less` (numeric order on numbers, Ruby's string order on strings) and `>` is `Less` with the operands swapped; on two numbers `<`, `>`, `<=`, `>=` are integer order |
| ValidationConditions.ComparisonLaws | spec/models/validation_condition_spec.rb:72-79 | on two values of one kind exactly one of `<`, `==`, `>` holds; `<=`, `>=`, `!=` negate `>`, `<`, `==` |
| Common.FirstIndex | spec/models/validation_condition_spec.rb:89-97 | the search behind `find_by_question_id_and_answer_id` (`FirstReference`) and `detect` in `response_for` (`FirstAnswer`): finds the first element that satisfies the predicate, and none before it; or reports none |
| ValidationConditions.IsValid | spec/models/validation_condition_spec.rb:58-109 | a response validates only under an operator of `OPERATORS`, only when its own column has a value, and never by `=~` in cross-response mode; the two modes are pinned down by CrossModeUsesReferencedValue (comparison with the referenced response's value) and LiteralModeUsesOwnValue (comparison with the condition's own value, or `=~` against its pattern) |
| ValidationConditions.CrossModeRegexInvalid | spec/models/validation_condition_spec.rb:106-109 | in cross-response mode `=~` never validates, whatever the values |
| ValidationConditions.CrossModeUsesReferencedValue | spec/models/validation_condition_spec.rb:98-105 | in cross-response mode the verdict is the comparison of the subject's value with the referenced response's value; the condition's own values and pattern play no part |
| ValidationConditions.LiteralModeUsesOwnValue | spec/models/validation_condition_spec.rb:58-79 | in literal mode a comparison operator compares the subject's value with the condition's own value, and `=~` validates exactly when the subject has a value whose rendering matches the condition's pattern (empty when none is stored) |
| ValidationConditions.LiteralModeIgnoresResponses | spec/models/validation_condition_spec.rb:58-64 | in literal mode the stored responses play no part in the verdict |
| ValidationConditions.FailsClosed | spec/models/validation_condition_spec.rb:58-64 | an operator outside `OPERATORS`, or a subject without a value in the column its class reads, never validates |
| ValidationConditions.InequalityNegatesEquality | spec/models/validation_condition_spec.rb:76-79 | with both values present, `!=` validates exactly when `==` does not |
| ValidationConditions.ToHash | spec/models/validation_condition_spec.rb:80-86 | a map with the single key `rule_key`, bound to the verdict of `is_valid?` |
| ValidationConditions.ToHashExample | spec/models/validation_condition_spec.rb:80-86 | the hash of a condition with rule key `A` is `{A => is_valid?}`, true or false |
| ValidationConditions.LiteralRegexExamples | spec/models/validation_condition_spec.rb:66-71 | with a matcher that accepts "clear" and rejects "foobarbaz" for the stored pattern `(?-mix:^[a-z]{1,6}$)`, the literal regexp condition validates the first and not the second |
| ValidationConditions.LiteralComparisonExamples | spec/models/validation_condition_spec.rb:72-79 | literal mode: 4 `>` 3 holds, 512 `<=` 256 does not, today `!=` tomorrow holds, "foo" `==` "foo" holds |
| ValidationConditions.CrossResponseComparisonExamples | spec/models/validation_condition_spec.rb:98-101 | cross-response mode: 4 `>` 3 holds, 512 `<=` 4 does not |
| ValidationConditions.CrossResponseEqualityExamples | spec/models/validation_condition_spec.rb:102-105 | cross-response mode: today `!=` tomorrow holds, "donuts" `==` "donuts" holds |
| ValidationConditions.CrossResponseRegexExamples | spec/models/validation_condition_spec.rb:106-109 | cross-response mode: `=~` fails on dates and on identical strings |
| SurveyorHelper.RcToAttr | spec/helpers/surveyor_helper_spec.rb:67-75 | each response class maps to the attribute `<class>_value`, spelled out for all seven (`string_value`, `text_value`, `integer_value`, `float_value`, `date_value`, `datetime_value`, `time_value`), which names that class's column back |
| SurveyorHelper.RcToAttrInjective | spec/helpers/surveyor_helper_spec.rb:67-75 | distinct classes map to distinct attributes |
| SurveyorHelper.RcToAs | spec/helpers/surveyor_helper_spec.rb:77-85 | string stays string and text stays text; integer, float, date, datetime and time are all entered as string |
| SurveyorHelper.ResponseIndex.constructor | spec/helpers/surveyor_helper_spec.rb:60-61 | a fresh index stands at 0 |
| SurveyorHelper.ResponseIndex.ResponseIdx | spec/helpers/surveyor_helper_spec.rb:60-65 | the counter advances by one unless told not to, and the returned string is its decimal rendering, reading back as the counter |
| SurveyorHelper.ResponseIdxSequence | spec/helpers/surveyor_helper_spec.rb:60-65 | a fresh index answers "1", "2", then "2" without advancing, then "3" |
| SurveyorHelper.NewResponse | spec/helpers/surveyor_helper_spec.rb:50-51 | the built response is unsaved, belongs to the set and the question, keeps the requested group, has no answer and no value, and answers the field it was built for |
| SurveyorHelper.ResponseFor | spec/helpers/surveyor_helper_spec.rb:46-52 | nothing exactly when the response set or the question is missing; otherwise a stored response that answers the field and comes no later than any other that does, or, when none does, a new unsaved response for that set, question and group with every other attribute empty |
| SurveyorHelper.ResponseForFindsExamples | spec/helpers/surveyor_helper_spec.rb:46-49 | no set or no question gives nothing; r1 is found for q1 with or without its answer |
| SurveyorHelper.ResponseForBuildsExamples | spec/helpers/surveyor_helper_spec.rb:50-52 | q2 gets a new response for the set, with or without an answer; r3 is found for q3 with its answer in group "1" |

## Left out

- The Active Record wiring in `self.included` (`has_many`, `attr_accessible`) has no logic to model.
- The database queries (`Dependency.includes(...).where`, `Survey.where(...).includes`) are replaced by the sequences they return.
- `Dependency#is_met?`, `is_answered?`, `Response#correct?` and the `dependencies(question_ids)` fetch are not part of this model; they are parameters, and `all_dependencies` takes the fetched list directly.
- `class_exists?` and `ResponseSetUser` use run-time reflection and another model; the resolver's answer is an optional input.
- `q_text`, with its HTML numbering, image tags and Mustache substitution, renders markup rather than deciding anything.
- The "overriding methods" contexts of the helper specs redefine `rc_to_as` at run time; only the standard table is modelled.
- Regular expressions are a matcher parameter, constrained only by the two tested examples.
- The `float_value` column and float comparisons are left out, because they are floating point; reading a float answer gives no value.
- Dates and times are integer seconds, with dates read as whole days; time zones and `Date#to_s` are left out. Regexp matching on a date answer therefore sees the day number, not Ruby's date text.
- `response_for` returns the built response but does not add it to the set's `responses` association.
- In `response_for`, a response without a group matching any requested group is the model's reading of the Surveyor gem; the specs only test a grouped response found in its own group.
- The factories that build the test records are not modelled.
- ValidationConditions.IsValid: a missing operand (and an operator outside `OPERATORS`) never validates, where Ruby's own comparison of `nil` would raise or compare by identity; the specs do not test this case, so this fail-closed reading is a modelling choice.
- ValidationConditions.IsValid: a condition that names a question and an answer with no stored response to them falls back to its own literal value and pattern (literal mode), as Surveyor's `find_by_question_id_and_answer_id(...) || self` does; reading such a reference as absent, so that no operator (`=~` included) validates, would fit the specs equally well, since they only test references that are stored.
- ValidationConditions.IsValid: both operands are read at the response class of the subject's answer; the specs use one class on both sides, so reading the referenced response at its own answer's class would fit them equally well.
- ResponseSetMethods.AllDependencies: requires every met dependency to have a question group or a question, because Ruby raises on a met dependency with neither.
- ValidationConditions.ToHash: requires a rule key, because `nil.to_sym` raises in Ruby.
- ValidationConditions.MissingRuleKey: requires that no other condition of the same validation also lacks a rule key; otherwise the uniqueness check would draw a second error.
