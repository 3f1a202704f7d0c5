/** The decoded Google Books response (models/book.go) and the row that is
    inserted for a book (models/BookData.go). Only the fields the pipeline
    reads are kept. */
module Models {
  import opened Dates

  /** One entry of a volume's industryIdentifiers: its type ("ISBN_13",
      "ISBN_10", "OTHER", ...) and its value. `type` is a Dafny keyword, so
      the field is called `kind`. */
  datatype IndustryIdentifier = IndustryIdentifier(kind: string, identifier: string)

  datatype ImageLinks = ImageLinks(thumbnail: string)

  datatype VolumeInfo = VolumeInfo(
    title: string,
    subtitle: string,
    authors: seq<string>,
    publisher: string,
    publishedDate: string,
    description: string,
    industryIdentifiers: seq<IndustryIdentifier>,
    categories: seq<string>,
    imageLinks: ImageLinks)

  datatype BookInfo = BookInfo(selfLink: string, volumeInfo: VolumeInfo)

  /** The decoded response. A missing JSON field decodes to Go's zero value:
      0, "" or an empty list. */
  datatype Result = Result(totalItems: int, items: seq<BookInfo>)

  /** The row handed to the insert statement. `source` is never assigned, so
      it keeps Go's zero value "". */
  datatype BookData = BookData(
    title: string,
    subtitle: string,
    description: string,
    publisher: string,
    thumbnail: string,
    publishedDate: Timestamp,
    selfLink: string,
    categories: string,
    authors: string,
    isbn10: string,
    isbn13: string,
    source: string)
}
