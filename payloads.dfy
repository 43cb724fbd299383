/**
 * Request bodies as the client pages build them and the server routes read
 * them. A field the JSON body leaves out is `None`.
 */
module Payloads {
  import opened Wrappers
  import opened Js

  /** One question of a template body: `{ text, title, type, isRequired, displayInTable, options }`. */
  datatype QuestionDraft = QuestionDraft(
    text: Option<string>,
    title: Option<string>,
    qtype: Option<string>,
    isRequired: Option<bool>,
    displayInTable: Option<bool>,
    options: Option<seq<string>>)

  /** `{ title, description, theme, imageUrl, isPublic, tags, questions }` sent to create or replace a template. */
  datatype TemplateBody = TemplateBody(
    title: Option<string>,
    description: Option<string>,
    theme: Option<string>,
    imageUrl: Option<string>,
    isPublic: Option<bool>,
    tags: Option<seq<int>>,
    questions: Option<seq<QuestionDraft>>)

  /** `{ questionId, value }`: one answer of a form body. */
  datatype AnswerInput = AnswerInput(questionId: int, value: JsValue)

  /** The question types whose options are kept. */
  predicate IsChoiceType(t: Option<string>) {
    t == Some("SELECT") || t == Some("RADIO") || t == Some("CHECKBOX")
  }
}
