/** A catalog entry as the games list supplies it, with the defaults the
    browser applies to missing fields. */
module Games {

  datatype Option<T> = None | Some(value: T)

  /** One game. `description`, `thumbnail`, `popularity` and `added` may be
      missing from a record; `title`, `tags` and `url` are always present. */
  datatype Game = Game(
    title: string,
    description: Option<string>,
    tags: seq<string>,
    url: string,
    thumbnail: Option<string>,
    popularity: Option<int>,
    added: Option<int>)

  /** `g.description || ""`: a missing description reads as the empty string. */
  function DescriptionOf(g: Game): string
  {
    match g.description
    case Some(text) => text
    case None => ""
  }

  /** `g.popularity || 0`: a missing popularity counts as 0. */
  function PopularityOf(g: Game): int
  {
    match g.popularity
    case Some(value) => value
    case None => 0
  }

  /** `g.added || 0`: a missing timestamp counts as 0. */
  function AddedOf(g: Game): int
  {
    match g.added
    case Some(value) => value
    case None => 0
  }
}
