/** The parsed entities every other component works on: the `Author` and
    `Paper` dataclasses and Python's `Optional`. */
module Records {

  datatype Option<+T> = None | Some(value: T) {
    function GetOr(default: T): T {
      match this
      case Some(v) => v
      case None => default
    }
  }

  /** One listed author.  `email` is absent when none was found in the
      affiliation text. */
  datatype Author = Author(
    lastName: string,
    firstName: string,
    initials: string,
    affiliation: string,
    email: Option<string>)

  /** One bibliographic record; `authors` keeps document order. */
  datatype Paper = Paper(
    pubmedId: string,
    title: string,
    publicationDate: string,
    authors: seq<Author>,
    correspondingEmail: Option<string>,
    journal: string,
    abstractText: string)
}
