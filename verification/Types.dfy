/** The question records of types.ts. */
module Types {

  /** `QuestionType` (types.ts:2-5). */
  datatype QuestionType = SINGLE | MULTIPLE

  /** One answer option `{id, text}` (types.ts:7-10). */
  datatype Option = Option(id: string, text: string)

  /** A question record (types.ts:12-21); `type` is a Dafny keyword, so the field is `kind`.
      The chapter is a JavaScript number; the model keeps its integer values only. */
  datatype Question = Question(
    id: string,
    topic: string,
    kind: QuestionType,
    question: string,
    options: seq<Option>,
    correctAnswers: seq<string>,
    explanation: string,
    chapter: int)

  /** The text `String(q.type)` gives for an enum member. */
  function KindName(k: QuestionType): (s: string)
    ensures s == "SINGLE" <==> k == SINGLE
  {
    match k
    case SINGLE => "SINGLE"
    case MULTIPLE => "MULTIPLE"
  }
}
