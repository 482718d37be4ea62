/** Failure values of the search server. Every `throw` of the source becomes an
    `Err` (or `Fail`) carrying one of these; the text of the exception message is
    kept only as far as it names the offending word or id. */
module Errors {

  datatype Error =
    | InvalidStopWord(word: string)        // ParseStopWords: "invalid word ... was passed as stop word"
    | IllegalStopWords                     // MakeUniqueNonEmptyStrings: "stop words contain illegal characters"
    | InvalidDocumentId(id: int)           // AddDocument: "document id ... is invalid or already exists"
    | InvalidDocumentWord(word: string)    // ParseDocument: "invalid word ... was passed to document"
    | InvalidQueryWord(word: string)       // ParseQueryWord: "invalid word ... was passed to query"
    | OutOfRange                           // std::out_of_range from vector::at / map::at

  datatype Result<T> = Ok(value: T) | Err(error: Error)

  /** The result of an operation that returns nothing but may throw. */
  datatype Outcome = Pass | Fail(error: Error)
}
