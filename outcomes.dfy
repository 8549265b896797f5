/** Success/failure values standing for the Java exceptions the core throws, catches or lets through. */
module Outcomes {

  datatype Option<+T> = None | Some(value: T)

  /** The exceptions of the core, by what raised them. */
  datatype Error =
    | InvalidWatsonId(id: string)   // RuntimeException from CiUtil.getNameFromId: the id holds no '/'
    | IndexOutOfBounds              // StringIndexOutOfBoundsException from String.substring
    | RemoteFailure                 // an exception raised by the remote Concept Insights service
    | BadRequest(message: Option<string>)  // the service's BadRequestException, rethrown
    | RetriesExhausted              // "Calling getCorpusWithRetries failed"
    | NoInputLine                   // Scanner.nextLine() on a closed standard input

  datatype Result<+T> = Success(value: T) | Failure(error: Error)
}
