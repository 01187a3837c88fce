/** The word-click endpoint (pages/api/word-clicks.ts): the decision that
    maps the request method, the request body and the outcomes of the two
    database calls to an HTTP status and reply, together with the database
    calls it makes. The database itself is outside the model: whether
    `initDatabase` succeeds and what `insertWordClick` returns (or that it
    throws) are inputs. */
module WordClicks {
  import opened Wrappers

  /** A JavaScript value as it can arrive in a parsed request body. */
  datatype Value =
    | Undefined
    | Null
    | Bool(b: bool)
    | Num(n: real)
    | Str(s: string)
    | Obj(fields: map<string, Value>)

  /** JavaScript truthiness (NaN is not modelled). */
  predicate Truthy(v: Value) {
    match v
    case Undefined => false
    case Null => false
    case Bool(b) => b
    case Num(n) => n != 0.0
    case Str(s) => s != []
    case Obj(_) => true
  }

  /** Reading property `k` of a value that is neither undefined nor null: an
      object's own field, and undefined for anything else. */
  function Property(v: Value, k: string): Value {
    if v.Obj? && k in v.fields then v.fields[k] else Undefined
  }

  /** The row handed to `insertWordClick`. */
  datatype ClickRow = ClickRow(userId: Value, transcriptId: Value, utteranceId: Value, utterance: Value, word: Value)

  datatype DbCall = InitDatabase | InsertWordClick(row: ClickRow)

  datatype Reply = Error(message: string) | Success(data: Value)

  /** The status sent, the JSON reply, and the database calls made, in order. */
  datatype Response = Response(status: int, reply: Reply, calls: seq<DbCall>)

  const MethodNotAllowed: string := "Method not allowed"
  const MissingFields: string := "Missing required fields: user_id, transcript_id, utterance_id, utterance, word"
  const InternalError: string := "Internal server error"

  function RowOf(body: Value): ClickRow {
    ClickRow(Property(body, "user_id"), Property(body, "transcript_id"), Property(body, "utterance_id"),
             Property(body, "utterance"), Property(body, "word"))
  }

  /** The validation test: the four string fields must be truthy, while
      `utterance_id` only has to be defined. */
  predicate ValidRow(row: ClickRow) {
    Truthy(row.userId) && Truthy(row.transcriptId) && !row.utteranceId.Undefined?
    && Truthy(row.utterance) && Truthy(row.word)
  }

  /** `handler`. `httpMethod` is None when the request carries none; `initOk`
      says whether `initDatabase` resolves; `inserted` is what
      `insertWordClick` resolves to, or None when it throws. Destructuring an
      undefined or null body throws inside the `try`, so it ends in 500. */
  function Handle(httpMethod: Option<string>, body: Value, initOk: bool, inserted: Option<Value>): (r: Response)
    ensures httpMethod != Some("POST") ==> r == Response(405, Error(MethodNotAllowed), [])
    ensures httpMethod == Some("POST") ==> |r.calls| >= 1 && r.calls[0] == InitDatabase
    ensures httpMethod == Some("POST") && !initOk ==> r == Response(500, Error(InternalError), [InitDatabase])
    ensures r.status == 400 <==>
      httpMethod == Some("POST") && initOk && !body.Undefined? && !body.Null? && !ValidRow(RowOf(body))
    ensures r.status == 400 ==> r.calls == [InitDatabase] && r.reply == Error(MissingFields)
    ensures r.status == 200 <==>
      httpMethod == Some("POST") && initOk && !body.Undefined? && !body.Null? && ValidRow(RowOf(body)) && inserted.Some?
    ensures r.status == 200 ==>
      r.reply == Success(inserted.value) && r.calls == [InitDatabase, InsertWordClick(RowOf(body))]
    ensures r.status in {200, 400, 405, 500}
    ensures r.status == 405 <==> httpMethod != Some("POST")
    ensures r.status == 500 <==>
      httpMethod == Some("POST")
      && (!initOk || body.Undefined? || body.Null? || (ValidRow(RowOf(body)) && inserted.None?))
    ensures r.status == 500 ==> r.reply == Error(InternalError)
    ensures httpMethod == Some("POST") && initOk && !body.Undefined? && !body.Null? && ValidRow(RowOf(body)) ==>
      r.calls == [InitDatabase, InsertWordClick(RowOf(body))]
    ensures (exists row :: InsertWordClick(row) in r.calls) ==>
      ValidRow(RowOf(body)) && r.calls == [InitDatabase, InsertWordClick(RowOf(body))]
  {
    if httpMethod != Some("POST") then Response(405, Error(MethodNotAllowed), [])
    else if !initOk then Response(500, Error(InternalError), [InitDatabase])
    else if body.Undefined? || body.Null? then Response(500, Error(InternalError), [InitDatabase])
    else
      var row := RowOf(body);
      if !ValidRow(row) then Response(400, Error(MissingFields), [InitDatabase])
      else match inserted
        case None => Response(500, Error(InternalError), [InitDatabase, InsertWordClick(row)])
        case Some(data) => Response(200, Success(data), [InitDatabase, InsertWordClick(row)])
  }

  /** An `utterance_id` of 0 passes validation, although 0 is falsy: a body
      whose other four fields are non-empty strings is stored. */
  lemma UtteranceIdZeroAccepted(userId: string, transcriptId: string, utterance: string, word: string, data: Value)
    requires userId != [] && transcriptId != [] && utterance != [] && word != []
    ensures var body := Obj(map["user_id" := Str(userId), "transcript_id" := Str(transcriptId),
                                "utterance_id" := Num(0.0), "utterance" := Str(utterance), "word" := Str(word)]);
      Handle(Some("POST"), body, true, Some(data)).status == 200
  {
    var body := Obj(map["user_id" := Str(userId), "transcript_id" := Str(transcriptId),
                        "utterance_id" := Num(0.0), "utterance" := Str(utterance), "word" := Str(word)]);
    assert Property(body, "utterance_id") == Num(0.0);
    assert Property(body, "user_id") == Str(userId);
    assert Property(body, "transcript_id") == Str(transcriptId);
    assert Property(body, "utterance") == Str(utterance);
    assert Property(body, "word") == Str(word);
  }

  /** A missing `utterance_id`, by contrast, is refused with 400 before any
      insert. */
  lemma UtteranceIdMissingRefused(body: Value, inserted: Option<Value>)
    requires body.Obj? && "utterance_id" !in body.fields
    ensures Handle(Some("POST"), body, true, inserted) == Response(400, Error(MissingFields), [InitDatabase])
  {
  }
}
