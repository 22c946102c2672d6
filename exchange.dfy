/** Values exchanged between the chat handlers, the completion provider and
    the HTTP client. */
module Exchange {

  datatype Option<T> = None | Some(value: T)

  /** The outcome of the call to the completion provider: the text of its
      first choice, or any failure (network error, non-2xx status, a
      response without that field). */
  datatype ProviderOutcome = Completed(answer: string) | ProviderFailed

  /** What a chat request answers: `{ message }` with status 200, status 400
      for a prompt that fails validation, or status 500 with a generic text. */
  datatype Response = Ok(message: string) | BadRequest | ServerError
}
