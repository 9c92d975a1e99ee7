/** The rating table shared by the cleaning script and the dashboard. */
module Records {

  /** A numeric cell that the cleaning pass may blank out. `Missing` is the
      out-of-band marker the cleaner writes ('N/A' in the CSV file, which
      reads back as a missing value). */
  datatype Measure = Present(value: int) | Missing

  /** One row of the pre-merged table: a user's rating of a book, with the
      book's and the user's attributes joined in. */
  datatype Row = Row(
    isbn: string,
    bookTitle: string,
    bookAuthor: string,
    yearPub: int,
    userId: int,
    location: string,
    age: Measure,
    bookRating: Measure)
}
