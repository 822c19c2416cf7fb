/** Documents of the library store, as the controller sees them. */
module Models {

  datatype Option<T> = None | Some(value: T)

  /** Identifiers the store assigns to documents. */
  type AuthorId = nat
  type CategoryId = nat

  /** An author document. A missing date of birth is `None`; a present one is
      the date's numeric value. */
  datatype Author = Author(id: AuthorId, name: string, bio: string, dateOfBirth: Option<int>)

  /** A book document; `author` and `category` are references by identifier. */
  datatype Book = Book(title: string, author: AuthorId, category: CategoryId)

  /** Name and biography of the placeholder author that inherits the books of
      a deleted author. */
  const UnknownName: string := "Không rõ"
  const UnknownBio: string := "Chưa có thông tin về tác giả của cuốn sách này đâu ạ"
}
