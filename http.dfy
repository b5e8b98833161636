/** The responses the handlers send: a status code and a JSON body. */
module Http {
  import opened JsValues

  datatype Body =
    | Error(error: string)      // `{ error: ... }`
    | Message(message: string)  // `{ message: ... }`
    | Objects(items: seq<JsObject>)  // a JSON array of objects

  datatype HttpResponse = HttpResponse(status: int, body: Body)
}
