/** The value types of document.h. */
module Documents {

  /** The four statuses, in the declaration order of the enum class. */
  datatype DocumentStatus = Actual | Irrelevant | Banned | Removed

  /** A search result. It carries no status: the status lives only in the
      server's per-document data. */
  datatype Document = Document(id: int, relevance: real, rating: int)

  /** `Document()` with its default member initialisers. */
  const DefaultDocument := Document(0, 0.0, 0)

  /** The filter a caller passes to FindTopDocuments: (document id, status, rating) -> keep? */
  type DocumentPredicate = (int, DocumentStatus, int) -> bool
}
