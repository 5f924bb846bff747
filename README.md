# Simple Article Management API — verified model of the article and category services

This project models the two services at the core of a small publishing API.

- **ArticleService** has five operations:
  - the public listing of published articles, with search, sort and pagination;
  - the lookup of one article by its slug;
  - creation, partial update and soft deletion of articles. Update and delete are guarded by an ownership check.
- **CategoryService** returns one category, looked up by slug, together with one page of its published articles, newest first.

The database is modelled as an in-memory store, `ArticleService.ArticleStore`. It holds the article table and the category table as sequences in id order. Ids are assigned from 1 in insertion order and rows are never removed: deletion only sets the `deleted` tombstone. So row `i` always has id `i + 1`, and this is the store's invariant (`Valid`). Every read ignores tombstoned rows, as the soft-delete scope does.

The read operations are functions over the article sequence. The write operations are methods on the store that change its `articles` field. Each write is specified against the function `Patched`, or states the new table outright.

Modules:

- `Text`:
  - ASCII character classes and lower-casing;
  - substring search, with the case-insensitive form used by LIKE;
  - lexicographic string order.
- `Slug`: slug generation from a title, and the shape of a slug.
- `Domain`: the records (article, category, create and update inputs) and the error kinds.
- `Listing`:
  - filtering;
  - a stable sort on a key and direction;
  - the paginator, with its page-number resolution and default page size.
- `ArticleService`: the article queries, the partial-update function and the store class.
- `CategoryService`: the category page.
- `Scenarios`: the ownership and category scenarios of the feature tests, stated over a fresh store.

## Model

| member | source | states |
|---|---|---|
| ArticleService.GetPublishedArticles | app/Services/ArticleService.php:15-35 | every item is a live, published row of the table that matches the search. Items are ordered on the requested key and direction. A page holds at most perPage items. The page size and page number are the resolved ones. The total is the length of `ListedRows`, which holds each matching row exactly as often as the table does |
| ArticleService.ListedRows | app/Services/ArticleService.php:17-26 | a row is listed exactly when it is live, published and matches the search, and it appears as often as in the table; other rows appear not at all |
| ArticleService.OrderedListing | app/Services/ArticleService.php:28-30 | the listing is ordered on the key and direction, and holds exactly the listed rows (as a multiset) |
| ArticleService.PageOfListing | app/Services/ArticleService.php:32-34 | page n of a request is page n of its ordered listing |
| ArticleService.ListedArticleIsOnSomePage | app/Services/ArticleService.php:15-35 | every live, published, matching article appears on some page of the listing |
| ArticleService.DefaultListing | app/Services/ArticleService.php:28-34 | with no parameters, the listing is page 1 of 10 items, newest first |
| ArticleService.GetArticleBySlug | app/Services/ArticleService.php:38-43 | Ok gives a live row with that slug, whatever its status. NotFound means no live row has that slug |
| ArticleService.FindLive | app/Services/ArticleService.php:68 | Ok gives the live row with that id. NotFound means every row with that id is soft-deleted, or there is none |
| ArticleService.DeletedArticleIsHidden | app/Services/ArticleService.php:100-109 | a tombstoned row stays in the table but is on no listing page, and neither the slug lookup nor the id lookup returns it |
| ArticleService.Patched | app/Services/ArticleService.php:74-94 | present fields replace the stored ones and absent fields are kept. A new title without a slug regenerates the slug, and an explicit slug wins. Categories are replaced wholesale. The id, author, creation time and tombstone never change |
| ArticleService.PatchIdempotent | app/Services/ArticleService.php:74-94 | applying the same update twice equals applying it once |
| ArticleService.EmptyPatchIsIdentity | app/Services/ArticleService.php:74-94 | an update with no fields leaves the article unchanged |
| ArticleService.ArticleStore.constructor | tests/Feature/ArticlePermissionTest.php:20-30 | a store starts with no articles and the given categories, and satisfies its invariant |
| ArticleService.ArticleStore.FoundAtPosition | app/Services/ArticleService.php:68 | in a valid store, the live row with id `id` is row `id - 1` |
| ArticleService.ArticleStore.DeletedIsFinal | app/Services/ArticleService.php:100-109 | once tombstoned, an article is not found by any later update or delete |
| ArticleService.ArticleStore.CreateArticle | app/Services/ArticleService.php:46-63 | appends one row with the next id, the given title and content, and the given author and time. The slug is the given one or derived from the title. The status is the given one or draft. The categories are the given ids or none. The invariant is kept |
| ArticleService.ArticleStore.UpdateArticle | app/Services/ArticleService.php:66-97 | NotFound exactly when no live row has the id. Forbidden exactly when the requester is not the author. Either failure leaves the table unchanged. Success replaces row `id - 1` with `Patched` of it and leaves every other row unchanged |
| ArticleService.ArticleStore.DeleteArticle | app/Services/ArticleService.php:100-109 | has the same NotFound and Forbidden conditions as update, and a failure leaves the table unchanged. Success sets the tombstone of row `id - 1` and keeps the row, its fields and its categories |
| CategoryService.FindCategory | app/Services/CategoryService.php:15 | Ok gives a category with that slug. NotFound means no category has it |
| CategoryService.CategoryListing | app/Services/CategoryService.php:17-21 | the rows are exactly the live, published rows tagged with the category, each as often as in the table, newest first |
| CategoryService.GetCategoryWithArticles | app/Services/CategoryService.php:13-31 | fails with NotFound exactly when no category has the slug. On success it returns the category's id, name and slug, and a page of at most perPage tagged, live, published articles, newest first. The total is the length of `CategoryListing`, which holds each tagged row as often as the table does, and the page carries the resolved page number |
| CategoryService.TaggedArticleIsOnSomePage | app/Services/CategoryService.php:17-21 | every live, published article tagged with the category appears on some page |
| CategoryService.CategoryPageOfListing | app/Services/CategoryService.php:20-21 | page n of the category is the slice of its newest-first listing starting at position (n-1)·perPage |
| Listing.Where | app/Services/ArticleService.php:17-18 | keeps every row satisfying the condition as many times as the table holds it, and no other row |
| Listing.InOrderTotal | app/Services/ArticleService.php:28-30 | any two articles are comparable on every sort key and in both directions |
| Listing.InOrderTransitive | app/Services/ArticleService.php:28-30 | the order on every key and direction is transitive |
| Listing.SortBy | app/Services/ArticleService.php:30 | the result is ordered on the key and direction, and is a permutation of the input |
| Listing.Insert | app/Services/ArticleService.php:30 | inserting into an ordered list keeps it ordered and adds exactly that element |
| Listing.CurrentPage | app/Services/ArticleService.php:34 | the page number is the requested page whenever that is positive, and is 1 otherwise |
| Listing.Paginate | app/Services/ArticleService.php:34 | page p holds the rows from position (p-1)·perPage on, and no more than perPage of them. It is full unless it is the last page, and empty past the end. The total is the whole listing's length |
| Listing.PageHolds | app/Services/ArticleService.php:34 | row k of a listing is row k mod perPage of page k div perPage + 1 |
| Listing.SortedPage | app/Services/ArticleService.php:30-34 | a page cut from an ordered listing is ordered |
| Text.ContainsIffOccurs | app/Services/ArticleService.php:23-24 | the recursive substring search holds exactly when the needle occurs at some position |
| Text.OccurrenceIgnoringCase | app/Services/ArticleService.php:23-24 | text that occurs verbatim also matches the case-insensitive LIKE pattern |
| Text.CaseOfNeedleIsIgnored | app/Services/ArticleService.php:23-24 | the search text matches the same rows whatever its case |
| Text.LoweredIdempotent | app/Services/ArticleService.php:23-24 | lower-casing twice equals lower-casing once |
| Text.StrLeTotal | app/Services/ArticleService.php:30 | any two titles are comparable |
| Text.StrLeTransitive | app/Services/ArticleService.php:30 | the title order is transitive |
| Slug.Slugify | app/Services/ArticleService.php:48 | a generated slug has only lower-case letters, digits and hyphens, never two hyphens in a row, and no hyphen at either end |
| Slug.JoinIsSlug | app/Services/ArticleService.php:77 | words joined with hyphens form a slug, which is empty exactly when there are no words |
| Slug.WordsOfJoin | app/Services/ArticleService.php:48 | splitting runs joined by a non-alphanumeric separator gives back the runs, lower-cased |
| Slug.SlugifyIdempotent | app/Services/ArticleService.php:76-78 | slugifying a generated slug gives it back unchanged |
| Slug.SlugOfTestTitle | tests/Feature/ArticleCreationTest.php:73-84 | the title "My Test Article Title" gets the slug "my-test-article-title" |
| Slug.SlugOfSpacedRuns | tests/Feature/ArticleCreationTest.php:76-83 | the four runs of that title joined by spaces slugify to the four lower-cased runs joined by hyphens |
| Slug.TestTitleJoins | tests/Feature/ArticleCreationTest.php:76-83 | the test title is its four runs joined by spaces, and the expected slug is the lower-cased runs joined by hyphens |
| Scenarios.OtherUserCannotUpdate | tests/Feature/ArticlePermissionTest.php:66-91 | an update by a user who is not the author is Forbidden, and the stored article is unchanged |
| Scenarios.OtherUserCannotDelete | tests/Feature/ArticlePermissionTest.php:121-142 | a delete by a user who is not the author is Forbidden, and the article stays live |
| Scenarios.AuthorCanDelete | tests/Feature/ArticlePermissionTest.php:96-116 | the author's delete succeeds. The row stays with its tombstone set, and the lookup by slug gives NotFound |
| Scenarios.AuthorReplacesCategories | tests/Feature/ArticlePermissionTest.php:185-211 | updating the categories {1} with {2} gives exactly {2} |
| Scenarios.CreatedArticleDefaultsToDraft | tests/Feature/ArticleCreationTest.php:156-167 | an article created without a status is a draft, with the creating user as its author |

## Left out

- ArticleService.GetPublishedArticles: `ListRequest.q` is the search text after the framework's default input middleware, which trims strings and turns an empty string into null; so a blank `q` such as "  " reaches the service as absent. That trimming is not modelled.
- The HTTP layer is not modelled:
  - routing;
  - the controllers, which turn every exception of update and delete into a 403 response;
  - authentication (the 401 cases);
  - JSON rendering.
- The current user and the creation time are parameters of the operations.
- AuthService (registration and login) is not part of this model.
- Request validation is left out. The validated shape is built into the input records: title and content are present, and status is draft or published.
  - The invalid-input 422 response is left out too.
- ArticleService.ArticleStore.CreateArticle and ArticleService.ArticleStore.UpdateArticle require every given category id to name an existing category. The source passes the ids straight to the association table, where an unknown id is a storage-level failure. That failure would leave a created article without its categories, because creation is not wrapped in a transaction. Likewise, an update saves the changed fields before it replaces the categories (app/Services/ArticleService.php:90-94), so an unknown id there would leave the new fields written without the new categories. Neither partial state is modelled.
- Slug.Slugify is the plain ASCII form of slug generation: lower-case, then turn each run of non-alphanumeric characters into one hyphen, and trim hyphens. The framework helper differs: it transliterates non-ASCII letters, replaces "@" with "at", and removes every character that is not a letter, digit, whitespace, hyphen or underscore before splitting, so "a.b" gives "ab" where the model gives "a-b". None of this is modelled.
- Slug uniqueness is not enforced by the services, and it is not modelled. ArticleService.GetArticleBySlug returns one live match, and the earliest row is the model's choice. The database promises no particular row.
- ArticleService.GetPublishedArticles takes the sort column from a fixed set: title, creation time and status. The source passes any caller-supplied column name to the query, and also any direction string. Other columns and invalid directions are not modelled.
- ArticleService.GetPublishedArticles orders titles by character code, as a binary collation (the SQLite default) does; a case-insensitive collation, which would also fold case in the title order, is not modelled for sorting.
- ArticleService.GetPublishedArticles orders rows that tie on the sort key stably, by id. The database leaves their order unspecified, so the contract states only the ordering and the permutation.
- ArticleService.GetPublishedArticles, CategoryService.GetCategoryWithArticles: LIKE wildcards inside the search text (`%`, `_`) are treated as literal characters. Case-insensitivity is ASCII-only, as in a default case-insensitive collation.
- ArticleService.GetPublishedArticles and CategoryService.GetCategoryWithArticles require a positive page size.
  - The framework's handling of a zero, negative or non-numeric page size is left out.
  - So is the absence of an upper bound on page size.
  - A non-numeric page number is modelled as an absent one.
- Eager loading of the author (id and name) and the categories (id, name and slug) is left out: an article carries its category ids only.
- Timestamps other than the creation time are not modelled: `updated_at`, and the deletion time, which is modelled only as the tombstone flag.
- Concurrency and transactional isolation between requests are not modelled: each operation runs to completion on the store.
