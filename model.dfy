/**
 * The records of the book-acquisition pipeline: a saved book row, a download
 * job row, the metadata record scraped from Anna's Archive, and the status
 * strings the rows carry.
 */
module Model {
  import opened Wrappers

  // Book statuses (the `savedbooks.status` column).
  const BookStatusProcessing: string := "processing"
  const BookStatusReady: string := "ready"
  const BookStatusError: string := "error"

  // Download job statuses (the `downloadjobs.status` column).
  const DownloadStatusPending: string := "pending"
  const DownloadStatusDownloading: string := "downloading"
  const DownloadStatusCompleted: string := "completed"
  const DownloadStatusFailed: string := "failed"

  /**
   * A row of `savedbooks`. `requestedBy` is a nullable column; `isGhost` hides the
   * row from every user except the requester and admins.
   */
  datatype SavedBook = SavedBook(
    id: int,
    hash: string,
    title: string,
    authors: string,
    publisher: string,
    language: string,
    format: string,
    size: string,
    coverURL: string,
    coverData: string,
    filePath: string,
    status: string,
    isGhost: bool,
    requestedBy: Option<int>,
    downloadCount: int,
    createdAt: int,
    updatedAt: int)

  /** A row of `downloadjobs`. */
  datatype DownloadJob = DownloadJob(
    id: int,
    userId: int,
    bookHash: string,
    status: string,
    progress: int,
    errorMsg: string,
    filePath: string,
    createdAt: int,
    updatedAt: int)

  /** The metadata record of one search result of Anna's Archive (`anna.Book`). */
  datatype AnnaBook = AnnaBook(
    language: string,
    format: string,
    size: string,
    title: string,
    publisher: string,
    authors: string,
    url: string,
    hash: string,
    coverURL: string,
    coverData: string)

  /** An `anna.Book` that carries only a hash and a title. */
  function TitleOnly(hash: string, title: string): AnnaBook
  {
    AnnaBook("", "", "", title, "", "", "", hash, "", "")
  }
}
