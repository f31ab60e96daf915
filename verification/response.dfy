/**
 * The JSON response envelope of app/utils/response.py.
 *
 * Both helpers build an ordered three-field object
 * `{"status": bool, "message": string, "data": any}` and wrap it, with a
 * status code, in an `application/json` response. The model keeps the ordered
 * object as a `Json` value; serialising it to text is not modelled.
 */
module Response {
  import opened Wrappers

  /** The JSON values the controllers put into a response. */
  datatype Json =
    | JNull
    | JBool(b: bool)
    | JInt(i: int)
    | JString(s: string)
    | JObject(members: seq<(string, Json)>)

  /** What a client reads from a response body: the three envelope fields. */
  datatype Envelope = Envelope(status: bool, message: string, data: Json)

  /** An HTTP response: the ordered body object, the status code and the media type. */
  datatype HttpResponse = HttpResponse(body: Json, statusCode: int, mimetype: string)

  const JsonMimetype: string := "application/json"

  /** The keys of an object, in order; empty for any other value. */
  function Keys(j: Json): seq<string>
  {
    match j
    case JObject(ms) => seq(|ms|, i requires 0 <= i < |ms| => ms[i].0)
    case _ => []
  }

  /** The ordered object an envelope is written as: status, then message, then data. */
  function ToJson(e: Envelope): (j: Json)
    ensures Keys(j) == ["status", "message", "data"]
  {
    JObject([("status", JBool(e.status)), ("message", JString(e.message)), ("data", e.data)])
  }

  /** Reads an envelope back from a body; None unless the body has exactly the three fields, in order. */
  function FromJson(j: Json): (r: Option<Envelope>)
    ensures r.Some? ==> ToJson(r.value) == j
  {
    match j
    case JObject(ms) =>
      if |ms| == 3 && ms[0].0 == "status" && ms[0].1.JBool? && ms[1].0 == "message"
         && ms[1].1.JString? && ms[2].0 == "data"
      then Some(Envelope(ms[0].1.b, ms[1].1.s, ms[2].1))
      else None
    case _ => None
  }

  lemma EnvelopeRoundTrip(e: Envelope)
    ensures FromJson(ToJson(e)) == Some(e)
  {
  }

  /** `success(data=None, message="Success", status_code=200)`. */
  function Success(data: Json := JNull, message: string := "Success", statusCode: int := 200): (r: HttpResponse)
    ensures FromJson(r.body) == Some(Envelope(true, message, data))
    ensures Keys(r.body) == ["status", "message", "data"]
    ensures r.statusCode == statusCode && r.mimetype == JsonMimetype
  {
    HttpResponse(ToJson(Envelope(true, message, data)), statusCode, JsonMimetype)
  }

  /** `error(message="Error", status_code=400, data=None)`; note the different argument order. */
  function Error(message: string := "Error", statusCode: int := 400, data: Json := JNull): (r: HttpResponse)
    ensures FromJson(r.body) == Some(Envelope(false, message, data))
    ensures Keys(r.body) == ["status", "message", "data"]
    ensures r.statusCode == statusCode && r.mimetype == JsonMimetype
  {
    HttpResponse(ToJson(Envelope(false, message, data)), statusCode, JsonMimetype)
  }

  /** The defaults of both helpers. */
  lemma Defaults()
    ensures FromJson(Success().body) == Some(Envelope(true, "Success", JNull)) && Success().statusCode == 200
    ensures FromJson(Error().body) == Some(Envelope(false, "Error", JNull)) && Error().statusCode == 400
  {
  }

  /** With the same message, data and code, the two helpers differ in the status flag and nothing else. */
  lemma SuccessErrorDifferOnlyInStatus(message: string, data: Json, statusCode: int)
    ensures Success(data, message, statusCode) != Error(message, statusCode, data)
    ensures Success(data, message, statusCode).statusCode == Error(message, statusCode, data).statusCode
    ensures Success(data, message, statusCode).mimetype == Error(message, statusCode, data).mimetype
    ensures FromJson(Success(data, message, statusCode).body).value
         == FromJson(Error(message, statusCode, data).body).value.(status := true)
  {
  }
}
