/**
 * The records of the publishing store: articles, categories, the inputs of
 * the authoring operations and the errors the services raise.
 */
module Domain {

  datatype Option<T> = None | Some(value: T)

  /** Outcome of a lookup or a write that may fail. */
  datatype Result<T> = Ok(value: T) | Err(error: Error)

  /** Outcome of a write that returns nothing. */
  datatype Outcome = Done | Failed(error: Error)

  /**
   * NotFound: no live row matches (a soft-deleted row counts as absent).
   * Forbidden: the requester is not the article's author (code 403).
   */
  datatype Error = NotFound | Forbidden

  datatype Status = Draft | Published

  /**
   * One row of the article table together with its category associations.
   * `deleted` is the soft-delete tombstone; `createdAt` is the creation
   * timestamp, supplied by the caller.
   */
  datatype Article = Article(
    id: int,
    title: string,
    slug: string,
    content: string,
    status: Status,
    authorId: int,
    createdAt: int,
    deleted: bool,
    categories: set<int>)

  datatype Category = Category(id: int, name: string, slug: string)

  /**
   * Validated input of article creation: title and content are required,
   * the other fields may be absent.
   */
  datatype NewArticle = NewArticle(
    title: string,
    content: string,
    slug: Option<string>,
    status: Option<Status>,
    categoryIds: Option<set<int>>)

  /** Validated input of an update: every field may be absent. */
  datatype ArticlePatch = ArticlePatch(
    title: Option<string>,
    slug: Option<string>,
    content: Option<string>,
    status: Option<Status>,
    categoryIds: Option<set<int>>)

  /** A live row: one that has not been soft-deleted. */
  predicate Live(a: Article) { !a.deleted }

  /** A row that public listings may show. */
  predicate Visible(a: Article) { Live(a) && a.status == Published }
}
