/** View-helper lookups used while rendering a survey: the response column and the
    form input type for a response class, the running response index, and finding
    (or building) the response a form field edits. */
module SurveyorHelper {
  import opened Common
  import opened Records
  import opened Decimal

  // ------------------------------------------------------------ rc_to_attr, rc_to_as

  /** `rc_to_attr`: the column a response class stores its value in, `"#{rc}_value"`. */
  function RcToAttr(rc: ResponseClass): (attr: string)
    ensures attr == ClassName(rc) + "_value"
    ensures attr == match rc
      case String => "string_value"
      case Text => "text_value"
      case Integer => "integer_value"
      case Float => "float_value"
      case Date => "date_value"
      case Datetime => "datetime_value"
      case Time => "time_value"
    ensures AttrClass(attr) == Some(rc)
  {
    match rc
    case String => assert "string" + "_value" == "string_value"; "string_value"
    case Text => assert "text" + "_value" == "text_value"; "text_value"
    case Integer => assert "integer" + "_value" == "integer_value"; "integer_value"
    case Float => assert "float" + "_value" == "float_value"; "float_value"
    case Date => assert "date" + "_value" == "date_value"; "date_value"
    case Datetime => assert "datetime" + "_value" == "datetime_value"; "datetime_value"
    case Time => assert "time" + "_value" == "time_value"; "time_value"
  }

  /** The response class whose value column an attribute name is. */
  function AttrClass(attr: string): Option<ResponseClass> {
    if attr == "string_value" then Some(String)
    else if attr == "text_value" then Some(Text)
    else if attr == "integer_value" then Some(Integer)
    else if attr == "float_value" then Some(Float)
    else if attr == "date_value" then Some(Date)
    else if attr == "datetime_value" then Some(Datetime)
    else if attr == "time_value" then Some(Time)
    else None
  }

  /** Distinct classes are stored in distinct columns. */
  lemma RcToAttrInjective(a: ResponseClass, b: ResponseClass)
    requires RcToAttr(a) == RcToAttr(b)
    ensures a == b
  {
    assert AttrClass(RcToAttr(a)) == Some(a);
  }

  /** `rc_to_as`: the form input type for a class. Strings and texts keep their own
      type; every other class is entered as a string. */
  function RcToAs(rc: ResponseClass): (input: ResponseClass)
    ensures input == String || input == Text
    ensures input == rc <==> rc == String || rc == Text
    ensures rc == String || rc == Text ==> input == rc
    ensures !(rc == String || rc == Text) ==> input == String
  {
    if rc == Text then Text else String
  }

  // ------------------------------------------------------------ response_idx

  /** The running index a form gives each response it renders. */
  class ResponseIndex {
    var count: nat

    constructor ()
      ensures count == 0
    {
      count := 0;
    }

    /** `response_idx(increment = true)`: advances the index unless told not to, and
        returns it in decimal. */
    method ResponseIdx(increment: bool) returns (idx: string)
      modifies this
      ensures count == old(count) + if increment then 1 else 0
      ensures idx == NatToString(count)
      ensures ParseNat(idx) == count
    {
      if increment {
        count := count + 1;
      }
      idx := NatToString(count);
      ParseNatToString(count);
    }
  }

  /** A fresh index counts "1", "2"; a call that does not advance repeats "2"; the
      next call gives "3". */
  method ResponseIdxSequence() returns (first: string, second: string, repeated: string, third: string)
    ensures first == "1" && second == "2" && repeated == "2" && third == "3"
  {
    var index := new ResponseIndex();
    first := index.ResponseIdx(true);
    second := index.ResponseIdx(true);
    repeated := index.ResponseIdx(false);
    third := index.ResponseIdx(true);
  }

  // ------------------------------------------------------------ response_for

  datatype ResponseSet = ResponseSet(id: nat, responses: seq<Response>)

  /** `response_group.to_i`, where `nil.to_i` is 0. */
  function GroupIndex(group: Option<int>): int {
    group.GetOr(0)
  }

  /** A stored response answers the field: same question, same answer when one is
      given, and, when the response has a group, the requested group. */
  predicate Answers(r: Response, question: Question, answerId: Option<nat>, group: Option<int>) {
    && r.questionId == question.id
    && (answerId.None? || r.answerId == answerId)
    && (r.responseGroup.None? || r.responseGroup.value == GroupIndex(group))
  }

  /** `responses.detect { ... }`: the index of the first response that answers the field. */
  function FirstAnswer(responses: seq<Response>, question: Question, answerId: Option<nat>, group: Option<int>): Option<nat> {
    FirstIndex(responses, r => Answers(r, question, answerId, group))
  }

  /** The response `responses.build(question_id:, response_group:)` makes: unsaved,
      with no answer and no value. */
  function NewResponse(rs: ResponseSet, question: Question, group: Option<int>): (r: Response)
    ensures r.id.None? && r.answerId.None? && r.values == NoValues
    ensures r.responseSetId == rs.id && r.questionId == question.id && r.responseGroup == group
    ensures Answers(r, question, None, group)
  {
    Response(None, rs.id, question.id, None, group, NoValues)
  }

  /** `response_for(r_set, question, answer = nil, response_group = nil)`. */
  function ResponseFor(rs: Option<ResponseSet>, question: Option<Question>, answerId: Option<nat>, group: Option<int>): (r: Option<Response>)
    ensures r.Some? <==> rs.Some? && question.Some?
    ensures r.Some? ==>
      || (r.value in rs.value.responses && Answers(r.value, question.value, answerId, group))
      || (r.value == NewResponse(rs.value, question.value, group)
          && forall i :: 0 <= i < |rs.value.responses| ==> !Answers(rs.value.responses[i], question.value, answerId, group))
    ensures r.Some? ==> forall i :: 0 <= i < |rs.value.responses| && Answers(rs.value.responses[i], question.value, answerId, group) ==>
      r.value in rs.value.responses[..i + 1] && Answers(r.value, question.value, answerId, group)
  {
    if rs.None? || question.None? then None
    else
      var found := FirstAnswer(rs.value.responses, question.value, answerId, group);
      if found.Some? then Some(rs.value.responses[found.value])
      else Some(NewResponse(rs.value, question.value, group))
  }

  const Q1 := Question(1, false)
  const Q2 := Question(2, false)
  const Q3 := Question(3, false)
  const R1 := Response(Some(101), 7, 1, Some(11), None, NoValues)
  const R3 := Response(Some(103), 7, 3, Some(13), Some(1), NoValues)
  /** A response set holding R1 (question 1, answer 11) and R3 (question 3, answer 13,
      group 1). */
  const RS := ResponseSet(7, [R1, R3])

  /** Both a response set and a question are needed; R1 is found with or without its
      answer. */
  lemma ResponseForFindsExamples()
    ensures ResponseFor(Some(RS), None, None, None) == None
    ensures ResponseFor(None, Some(Q1), None, None) == None
    ensures ResponseFor(Some(RS), Some(Q1), None, None) == Some(R1)
    ensures ResponseFor(Some(RS), Some(Q1), Some(11), None) == Some(R1)
  {
    assert Answers(R1, Q1, None, None) && Answers(R1, Q1, Some(11), None);
  }

  /** A question without a response gets a new, unsaved one with default attributes;
      R3 is found in its group. */
  lemma ResponseForBuildsExamples()
    ensures ResponseFor(Some(RS), Some(Q2), None, None) == Some(Response(None, 7, 2, None, None, NoValues))
    ensures ResponseFor(Some(RS), Some(Q2), Some(12), None) == Some(Response(None, 7, 2, None, None, NoValues))
    ensures ResponseFor(Some(RS), Some(Q3), Some(13), Some(1)) == Some(R3)
  {
    assert !Answers(R1, Q2, None, None) && !Answers(R3, Q2, None, None);
    assert !Answers(R1, Q2, Some(12), None) && !Answers(R3, Q2, Some(12), None);
    assert !Answers(R1, Q3, Some(13), Some(1)) && Answers(R3, Q3, Some(13), Some(1));
    assert RS.responses[1..] == [R3];
    assert FirstAnswer([R3], Q3, Some(13), Some(1)) == Some(0);
  }
}
