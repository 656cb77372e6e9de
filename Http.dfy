/** What the three controllers share: the reply they send, the caller the
    authentication middleware attaches to a request (backend/src/middleware/auth.js),
    the request-body conventions of express-validator, and the `catch`
    blocks that turn a model error into a status code. */
module Http {
  import opened Base
  import opened Js
  import opened Store

  /** The JSON body of a reply: `{ error }`, `{ error: "Dados inválidos",
      details }`, `{ message }`, or a handler-specific payload. */
  datatype Body<P> = Error(error: string) | Invalid(details: seq<string>) | Message(message: string) | Payload(value: P)

  /** A status code and a body; `res.json` without `res.status` is 200. */
  datatype Response<P> = Response(status: int, body: Body<P>)

  /** `req.user`: the row `SELECT id, name, email FROM users` found for the token. */
  datatype Caller = Caller(id: Id, name: string, email: string)

  const MsgInvalidData: string := "Dados inválidos"
  const MsgInternal: string := "Erro interno do servidor"

  /** The keyword most model errors about access carry. */
  const KwPermission: string := "permissão"
  /** The keyword of the owner-only errors. */
  const KwCreator: string := "criador"
  /** The keyword of the errors about individual lists. */
  const KwIndividual: string := "individual"
  /** The keyword of the errors about a missing row. */
  const KwNotFound: string := "não encontrado"

  /** express-validator reads an absent field as the empty string. */
  function Given(field: Option<string>): (s: string)
    ensures field.Some? ==> s == field.value
    ensures field.None? ==> s == ""
  {
    if field.Some? then field.value else ""
  }

  /** The value after a `trim()` sanitizer; an absent optional field stays absent. */
  function Trimmed(field: Option<string>): (r: Option<string>)
    ensures r.Some? <==> field.Some?
    ensures r.Some? ==> r.value == Trim(field.value)
  {
    if field.Some? then Some(Trim(field.value)) else None
  }

  /** Some keyword of `keywords` occurs in `message`. */
  predicate MentionsAny(message: string, keywords: seq<string>) {
    exists k :: k in keywords && Includes(message, k)
  }

  /** A `catch` block: the error's own message with status `code` when it
      mentions one of the keywords, otherwise a generic 500. */
  function Caught<P>(message: string, keywords: seq<string>, code: int): (res: Response<P>)
    ensures MentionsAny(message, keywords) ==> res == Response(code, Error(message))
    ensures !MentionsAny(message, keywords) ==> res == Response(500, Error(MsgInternal))
  {
    if MentionsAny(message, keywords) then Response(code, Error(message)) else Response(500, Error(MsgInternal))
  }

  /** A message spelled around a keyword mentions it. */
  lemma Mentions(a: string, k: string, b: string, keywords: seq<string>)
    requires k in keywords
    ensures MentionsAny(a + k + b, keywords)
  {
    IncludesMiddle(a, k, b);
  }
}
