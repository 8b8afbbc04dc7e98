/** The JSON replies of the Flask views: a status code and a one-field payload. */
module Http {

  datatype Payload =
    | Message(text: string)   // {"message": text}
    | Error(text: string)     // {"error": text}

  datatype Reply = Reply(status: int, payload: Payload)
}
