/** The survey records the rule engine reads: questions grouped into sections,
    responses with their typed value columns, and the reading of a value column
    at a response class (`Response#as`). */
module Records {
  import opened Common

  /** The semantic type of an answer's value. */
  datatype ResponseClass = String | Text | Integer | Float | Date | Datetime | Time

  /** The name of a response class, as its Ruby symbol is spelled. */
  function ClassName(rc: ResponseClass): string {
    match rc
    case String => "string"
    case Text => "text"
    case Integer => "integer"
    case Float => "float"
    case Date => "date"
    case Datetime => "datetime"
    case Time => "time"
  }

  /** A question of a survey; two records with the same id are the same question. */
  datatype Question = Question(id: nat, mandatory: bool)

  /** A section owns an ordered list of questions. */
  datatype Section = Section(questions: seq<Question>)

  /** The typed value columns shared by responses and validation conditions.
      `datetimeValue` counts seconds; the floating-point column is not modelled. */
  datatype Slots = Slots(
    stringValue: Option<string>,
    textValue: Option<string>,
    integerValue: Option<int>,
    datetimeValue: Option<int>)

  const NoValues := Slots(None, None, None, None)

  /** A response of a response set. `id` is `None` for a record built but not saved. */
  datatype Response = Response(
    id: Option<nat>,
    responseSetId: nat,
    questionId: nat,
    answerId: Option<nat>,
    responseGroup: Option<int>,
    values: Slots)

  /** A comparable value: numbers (integers, day and second counts) and strings. */
  datatype Value = Num(n: int) | Str(s: string)

  const SECONDS_PER_DAY: nat := 86400

  /** `as(response_class)`: the value column a response class reads. A date reads the
      datetime column truncated to whole days; the float column is not modelled. */
  function Read(v: Slots, rc: ResponseClass): (r: Option<Value>)
    ensures (rc == String || rc == Text) && r.Some? ==> r.value.Str?
    ensures rc != String && rc != Text && r.Some? ==> r.value.Num?
    ensures rc == Float ==> r.None?
    ensures rc == String ==> r == if v.stringValue.Some? then Some(Str(v.stringValue.value)) else None
    ensures rc == Text ==> r == if v.textValue.Some? then Some(Str(v.textValue.value)) else None
    ensures rc == Integer ==> r == if v.integerValue.Some? then Some(Num(v.integerValue.value)) else None
    ensures rc in {Date, Datetime, Time} ==> (r.Some? <==> v.datetimeValue.Some?)
    ensures rc in {Datetime, Time} && r.Some? ==> r.value.n == v.datetimeValue.value
    ensures rc == Date && r.Some? ==>
      r.value.n * SECONDS_PER_DAY <= v.datetimeValue.value < (r.value.n + 1) * SECONDS_PER_DAY
  {
    match rc
    case String => if v.stringValue.Some? then Some(Str(v.stringValue.value)) else None
    case Text => if v.textValue.Some? then Some(Str(v.textValue.value)) else None
    case Integer => if v.integerValue.Some? then Some(Num(v.integerValue.value)) else None
    case Float => None
    case Date => if v.datetimeValue.Some? then Some(Num(v.datetimeValue.value / SECONDS_PER_DAY)) else None
    case Datetime => if v.datetimeValue.Some? then Some(Num(v.datetimeValue.value)) else None
    case Time => if v.datetimeValue.Some? then Some(Num(v.datetimeValue.value)) else None
  }
}
