# Yatube blog core in Dafny

Yatube is a small blog built on Django. Users publish posts, optionally in a
group and with an image. They comment on posts and follow other authors. Every
feed (the index, a group, a profile, the follow feed) is shown ten posts to a
page, newest first.

This project models the decision logic and table updates under the framework,
over an in-memory store instead of the database. It has six modules:

- `Blog` (`store.dfy`) holds the handlers and the store.
  - The handlers of `posts/views.py` appear in two forms:
    - `post_create`, `post_edit`, `add_comment`, `profile_follow` and `profile_unfollow` change the store, so they are methods of the class `Blog.Store`;
    - `follow_index` builds its author set with a loop, so it is also a method;
    - the other views only read, so they are functions.
  - Every handler returns a tagged outcome: `Rendered(context)`, `Redirect(route)`, `NotFound` or `Raised(error)`.
  - The delete rules of `posts/models.py` are store methods:
    - deleting a user cascades to their posts, comments and follow edges;
    - deleting a group sets `group` to null on its posts;
    - deleting a post deletes its comments.
  - The invariant `Valid()` states that every reference points at a stored row and that every table is in its model's ordering.
- `Models` (`models.dfy`) holds the entities `Group`, `Post`, `Comment` and `Follow` as values. It also holds:
  - their field constraints;
  - their `__str__` texts;
  - their orderings: posts by `pub_date` descending, comments by `created` descending, groups by `title`;
  - the filter that every query is built from.
- `Pagination` (`pagination.dfy`) holds:
  - the page size of 10;
  - the `FakePaginator` of the view tests, which predicts page counts;
  - the page slice served by `paginator_get_page`.
- `UrlView` (`url_view.dfy`) holds the URL helpers of the view tests (`UrlViewData`). The class is written twice, in `test_data.py` and `class_url.py`. The helpers both copies define have the same bodies; only `class_url.py` has `login_url` and `get_redirect_to_login`, and the two copies declare their fields in a different order. The helpers:
  - substitute `<id>` and `<username>`;
  - build the `?page=` and `?next=` URLs;
  - parse the `kwargs` text.
- `Wrappers` (`wrappers.dfy`) holds the `Option` and `Result` types the other modules return.
- `Text` (`text.dfy`) holds the Python string operations the rest relies on:
  - `s[:k]`;
  - `str.replace`, which replaces every occurrence, left to right, without overlaps;
  - `str.split` on one character, and `join`;
  - `str(int)`.

Modelling choices:

- **Timestamps.** A counter stands in for `pub_date` and `created`. Each creation advances it.
- **Storage order.**
  - Posts and comments are stored newest first, because a new row is put in front.
  - Groups are stored sorted by title.
  - So each listing a view takes from the store is already in its `Meta` ordering.
- **Forms.** Form validation is abstract. A bound form carries the form library's verdict, `accepted`. On top of that, the model requires:
  - non-empty text, because `blank=False` applies to both `Post.text` and `Comment.text`;
  - that a chosen group exists.
- **Images.** `post_create` passes no files to its form, so a created post never has an image. `post_edit` passes them. In this model an edit keeps the old image unless a new file is sent (see "## Left out" for clearing).
- **Users.** Users are the framework's and are identified by their unique username. `Blog.Store.AddUser` only fills the store.
- **Quirks modelled as written.**
  - `_get_attr_with_mask` tests `id is None`. Here `id` is Python's builtin, which is never None, so a None value is substituted as the text `"None"`.
  - `FakePaginator` predicts 0 pages and a full last page of 10 for an empty list.

## Model

| member | source | states |
|---|---|---|
| Pagination.FakePaginator.Pages | yatube/posts/tests/test_data.py:38-39 | `pages()` is the ceiling of n/per: (k-1)·per < n ≤ k·per, so it is 0 for n = 0 |
| Pagination.FakePaginator.RecordsInLastPage | yatube/posts/tests/test_data.py:41-45 | the result lies in 1..per and is congruent to n modulo per: the remainder, or a full page when the remainder is 0 |
| Pagination.EmptyPaginator | yatube/posts/tests/test_data.py:38-45 | for n = 0, `pages()` is 0 and `records_in_last_page()` is the page size |
| Pagination.LastPageReconstruction | yatube/posts/tests/test_data.py:38-45 | for n > 0, (pages() − 1)·per + records_in_last_page() = n |
| Pagination.LastPageGrowth | yatube/posts/tests/test_data.py:41-45 | one more record makes the last page one longer exactly when n is not a multiple of the page size |
| Pagination.NumPages | yatube/posts/views.py:11-13 | the paginator's page count is exactly 1 for an empty list and, for a non-empty list, equals `FakePaginator.pages()` at page size 10 |
| Pagination.ServedPage | yatube/posts/views.py:11-13 | the page served for any `?page=` value (missing, out of range or not a number) is a page that exists |
| Pagination.GetPage | yatube/posts/views.py:8-13 | a served page holds at most NUMBER_DISPLAYED_POSTS = 10 items, all taken from the list |
| Pagination.PageSlice | yatube/posts/views.py:11-13 | page k of the list is the slice of items 10(k−1) up to 10k |
| Pagination.FirstPage | yatube/posts/views.py:11-13 | the first page holds the ten newest items, or all items when there are fewer than ten |
| Pagination.LastPageHoldsRemainder | yatube/posts/tests/test_views.py:187-204 | on a non-empty feed, the page numbered `pages()` holds exactly `records_in_last_page()` items, as the paginator test expects |
| Pagination.EmptyFeedQuirk | yatube/posts/tests/test_data.py:38-45 | for an empty feed the prediction is 0 pages and 10 items on the last page, yet the page served holds none |
| Pagination.PagesUpToPrefix | yatube/posts/views.py:11-13 | pages 1..k together are the first 10k items: no item is skipped or repeated |
| Pagination.PagesCoverFeed | yatube/posts/views.py:11-13 | all pages together give back the whole list, in order |
| Text.Prefix | yatube/posts/models.py:73-74 | `s[:k]` has length min(k, len(s)) and is a prefix of `s` |
| Text.ReplaceAll | yatube/posts/tests/test_data.py:64 | `str.replace`, replacing every non-overlapping occurrence from left to right; replacing a pattern by itself gives back the text (ReplaceAbsent, ReplaceSingle and ReplaceRemovesAll below state the rest) |
| Text.ReplaceAbsent | yatube/posts/tests/test_data.py:64 | `replace` with a pattern that does not occur returns the text unchanged |
| Text.ReplaceSingle | yatube/posts/tests/test_data.py:64 | `replace` substitutes exactly the one occurrence of the pattern and keeps the text around it |
| Text.ReplaceRemovesAll | yatube/posts/tests/class_url.py:42 | no occurrence of the pattern remains when the replacement is non-empty and shares no character with the pattern |
| Text.ReplaceByEmptyDeletes | yatube/posts/tests/test_data.py:80 | replacing a one-character pattern by nothing deletes every copy of that character |
| Text.Split | yatube/posts/tests/test_data.py:81 | `split(sep)` gives one more part than there are separators, and no part contains the separator |
| Text.JoinSplit | yatube/posts/tests/test_data.py:81 | joining the parts of a split with the separator gives back the text |
| Text.SplitAtOnlySep | yatube/posts/tests/test_data.py:81 | a text with a single separator splits into exactly the two pieces around it |
| Text.NatToString | yatube/posts/tests/test_data.py:85 | `str(n)` for n ≥ 0 is a non-empty string of decimal digits |
| Text.IntToString | yatube/posts/tests/test_data.py:85 | `str(i)` for any int is non-empty and made of digits and '-' |
| Text.DigitsValueOfNatToString | yatube/posts/tests/test_data.py:85 | the digits of `str(n)` read back as n |
| UrlView.AttrWithMask | yatube/posts/tests/test_data.py:58-64 | `_get_attr_with_mask` gives None exactly when the attribute is the redirect and the redirect is None; a None value does not short-circuit it |
| UrlView.UrlWithId | yatube/posts/tests/test_data.py:66-67 | `get_url_with_id` always gives a URL, since `url` is never None |
| UrlView.UrlWithUsername | yatube/posts/tests/test_data.py:69-70 | `get_url_with_username` always gives a URL |
| UrlView.RedirectWithId | yatube/posts/tests/test_data.py:72-73 | `get_redirect_with_id` is None exactly when `redirect` is None |
| UrlView.RedirectToLogin | yatube/posts/tests/class_url.py:53-54 | `get_redirect_to_login` starts with the login URL followed by `?next=` |
| UrlView.LastPageUrl | yatube/posts/tests/test_data.py:84-85 | `get_last_page_url` starts with the URL followed by `?page=` and is longer than that prefix |
| UrlView.UrlKwargs | yatube/posts/tests/test_data.py:75-82 | no kwargs when the id or the kwargs text is None; a wrong number of ':'-separated parts is `dict`'s ValueError; key and value never contain ':' |
| UrlView.UrlWithoutMaskUnchanged | yatube/posts/tests/test_data.py:58-70 | a URL without `<id>` (or without `<username>`) comes back unchanged, whatever the value |
| UrlView.UrlWithIdSubstitutes | yatube/posts/tests/test_data.py:66-67 | `get_url_with_id` puts `str(id)` in place of the `<id>` and keeps the rest of the URL (the same body is at class_url.py:44-45) |
| UrlView.UrlWithUsernameSubstitutes | yatube/posts/tests/class_url.py:47-48 | `get_url_with_username` puts `str(username)` in place of the `<username>` and keeps the rest of the URL |
| UrlView.RedirectWithIdSubstitutes | yatube/posts/tests/class_url.py:36-51 | `get_redirect_with_id` is None exactly when `redirect` is None; otherwise `<id>` is replaced by `str(id)` |
| UrlView.NoneIdIsWrittenOut | yatube/posts/tests/test_data.py:58-64 | the `id is None` guard never fires: a None value is substituted as the text "None", so the URL changes |
| UrlView.IdMaskFullyReplaced | yatube/posts/tests/class_url.py:42-45 | no `<id>` remains after substituting an integer id |
| UrlView.UsernameMaskFullyReplaced | yatube/posts/tests/class_url.py:42-48 | no `<username>` remains after substituting a non-empty username that shares no character with the mask |
| UrlView.MaskCanReappear | yatube/posts/tests/class_url.py:42 | a value without the mask can still leave one: "<i<id>" with "d>" gives "<id>" |
| UrlView.LastPageUrlQuery | yatube/posts/tests/test_data.py:84-85 | `get_last_page_url(k)` is the URL, one '?', then `page=` and `str(k)`, whose digits read back as k (the same body is at class_url.py:65-66) |
| UrlView.RedirectToLoginNext | yatube/posts/tests/class_url.py:53-54 | `get_redirect_to_login` is the login URL, one '?', then `next=` and the URL with its id substituted |
| UrlView.UrlKwargsParsing | yatube/posts/tests/test_data.py:75-82 | the kwargs parse into a key and a value exactly when the cleaned text has one ':'; neither holds ':' or a space, and joined by ':' they give the cleaned text |
| UrlView.PostDetailKwargs | yatube/posts/tests/test_data.py:79-82 | "post_id: <id>" with id 5 becomes the keyword argument post_id = "5" |
| Models.GroupStr | yatube/posts/models.py:25-26 | `str(group)` is the title, so for a valid group it is non-empty and at most 200 characters |
| Models.PostStr | yatube/posts/models.py:73-74 | `str(post)` is a prefix of the text of length min(15, len(text)) |
| Models.CommentStr | yatube/posts/models.py:111-112 | `str(comment)` is a prefix of the text of length min(15, len(text)) |
| Models.Filter | yatube/posts/views.py:124-126 | a queryset `filter`: at most as many rows as the table, and a row is kept exactly when it is in the table and matches |
| Models.FilterCounts | yatube/posts/views.py:148 | a filter keeps each accepted row as often as it occurs and drops every other row |
| Models.FilterKeepsPairwise | yatube/posts/models.py:69 | a filtered listing keeps the ordering of the table it filters |
| Models.TitleLeqTotal | yatube/posts/models.py:29 | any two titles are ordered one way or the other |
| Models.TitleLeqTrans | yatube/posts/models.py:29 | the title order is transitive |
| Models.InsertByTitle | yatube/posts/models.py:29 | a new group goes into the title-ordered listing, which stays ordered and gains exactly that group |
| Models.InsertKeepsRowsDistinct | yatube/posts/models.py:15-19 | a group with a fresh key and a fresh slug keeps the slugs unique |
| Blog.FindPost | yatube/posts/views.py:84 | the lookup finds a stored post with the id, or reports None exactly when no post has that id |
| Blog.FindGroup | yatube/posts/views.py:27 | the lookup finds a stored group with the slug, or reports None only when no group has it |
| Blog.FollowFeed | yatube/posts/views.py:120-126 | the follow feed holds at most as many posts as the table, and a post is in it exactly when it is stored and its author is followed |
| Blog.AfterFollow | yatube/posts/views.py:137-141 | after get-or-create the old edges are kept in front, at most one edge is added, and the (caller, author) edge exists exactly when it existed or the author is someone else |
| Blog.AfterUnfollow | yatube/posts/views.py:148 | an edge survives exactly when it existed and is not a (caller, author) edge |
| Blog.Edited | yatube/posts/views.py:87-94 | an edit keeps the key, date and author, takes the new text and group, and takes the sent image or keeps the old one |
| Blog.EditPosts | yatube/posts/views.py:93-94 | only posts with the edited id change, and they take the new text; the table keeps its length |
| Blog.Unlink | yatube/posts/models.py:53-61 | after `SET_NULL` no post refers to the group, and every post keeps its position and id |
| Blog.FindPostUnique | yatube/posts/views.py:55 | with the store's distinct keys, the post found for an id is the stored post with that id |
| Blog.DetailTitle | yatube/posts/views.py:60 | the detail title is a prefix of the text of length min(30, len(text)) |
| Blog.ProfileFlags | yatube/posts/views.py:41-44 | `following` is None exactly for an anonymous caller and otherwise true iff a (caller, author) edge exists; `myself` is true iff the caller is the author |
| Blog.Store.AddUser | yatube/posts/models.py:4 | a username is added exactly when it is new; no other table changes and the store stays valid |
| Blog.Store.AddGroup | yatube/posts/models.py:7-23 | a group is saved exactly when its title has 1..200 characters, its slug has 1..50 characters that are ASCII letters, digits, '-' or '_', and the slug is not taken; the new listing is the old one plus that group |
| Blog.Store.Index | yatube/posts/views.py:16-23 | the index renders exactly the served page of all posts (`GetPage`), so at most 10 stored posts, newest first |
| Blog.Store.GroupPosts | yatube/posts/views.py:26-34 | not found exactly when no group has the slug; otherwise exactly the served page of that group's posts, at most 10, newest first |
| Blog.Store.Profile | yatube/posts/views.py:37-51 | not found exactly for an unknown username; otherwise exactly the served page of that author's posts, at most 10, newest first, with the flags above |
| Blog.Store.PostDetail | yatube/posts/views.py:54-64 | not found exactly for an unknown id; otherwise the post, its 30-character title, and exactly its comments, newest first |
| Blog.Store.CreatePost | yatube/posts/views.py:67-80 | anonymous: redirect to the index, posts unchanged; valid form: exactly one new post in front, by the caller and stamped now, then a redirect to the caller's profile; invalid: the form page titled "Новый пост", posts unchanged; the store stays valid |
| Blog.Store.EditPost | yatube/posts/views.py:83-101 | a missing id raises DoesNotExist; anyone but the author, the anonymous caller included, is redirected to the post and nothing changes; the author's valid form edits that post and redirects to it; an invalid form shows "Редактировать пост" with `is_edit` |
| Blog.Store.AddComment | yatube/posts/views.py:104-114 | anonymous: redirect to login with `next`; unknown post: not found; otherwise always a redirect to the post, with exactly one new comment by the caller on that post, stamped now, when the form is valid; the clock and the comment key advance exactly then |
| Blog.Store.FollowIndex | yatube/posts/views.py:117-131 | the loop's author set is the set of followed authors, and the page rendered is a page of exactly the posts by those authors |
| Blog.Store.ProfileFollow | yatube/posts/views.py:134-142 | anonymous: login redirect; unknown author: not found; otherwise get-or-create of the (caller, author) edge, skipped for oneself, then a redirect to the profile; more than one existing edge raises MultipleObjectsReturned |
| Blog.Store.ProfileUnfollow | yatube/posts/views.py:145-149 | anonymous: login redirect; unknown author: not found; otherwise every (caller, author) edge is deleted, then a redirect to the profile |
| Blog.Store.DeleteUser | yatube/posts/models.py:45-52 | deleting a user removes their posts, their comments, the comments on their posts and their follow edges both ways; all else stays; the store stays valid |
| Blog.Store.DeleteGroup | yatube/posts/models.py:53-61 | deleting a group removes that group and sets `group` to null on its posts; the store stays valid |
| Blog.Store.DeletePost | yatube/posts/models.py:79-87 | deleting a post removes it and its comments; the store stays valid |
| Blog.AddGroupKeepsValid | yatube/posts/models.py:8-19 | saving a valid group with a fresh slug keeps titles ordered, slugs unique and every post's group reference valid |
| Blog.DeleteUserKeepsValid | yatube/posts/models.py:45-95 | after the user cascade, every remaining post, comment and edge refers only to remaining users and posts |
| Blog.DeletePostKeepsValid | yatube/posts/models.py:79-87 | after the post cascade, every remaining comment is on a remaining post |
| Blog.UserDeletionKeepsReferences | yatube/posts/models.py:79-95 | the surviving posts are exactly those by others; the surviving comments are exactly those by others on surviving posts |
| Blog.UserDeletionFollows | yatube/posts/models.py:115-128 | the surviving edges are exactly those neither from nor to the user, so the user follows no one |
| Blog.PostDeletionCascade | yatube/posts/models.py:79-81 | the surviving comments are exactly those on other posts, and the post ids lose exactly the deleted id |
| Blog.GroupDeletionSetsNull | yatube/posts/models.py:53-56 | no post refers to the deleted group; each post keeps every field but that reference |
| Blog.UnlinkKeepsValid | yatube/posts/models.py:53-61 | after clearing the references, all posts survive, keep their ids and refer only to remaining groups |
| Blog.EditKeepsValid | yatube/posts/views.py:93-95 | an edit keeps every post's key, date and author, so the ordering and every comment's post reference still hold |
| Blog.EditChangesOnlyTarget | yatube/posts/views.py:87-95 | an edit changes only the edited post, and only its text, group and image |
| Blog.FollowIdempotent | yatube/posts/views.py:138-141 | a second follow of the same author changes nothing |
| Blog.FollowKeepsAtMostOne | yatube/posts/views.py:137-141 | a follow never creates a self-edge, leaves exactly one (caller, author) edge when there was at most one, and touches no other edge |
| Blog.RepeatedFollow | yatube/posts/views.py:134-142 | any number of follows, at least one, has the effect of one |
| Blog.UnfollowRemovesEdges | yatube/posts/views.py:148 | no (caller, author) edge remains; every other edge keeps its multiplicity; without such an edge nothing changes |
| Blog.FollowShowsOnProfile | yatube/posts/views.py:41-44 | after following another author the profile shows `following` true; after unfollowing it shows false |
| Blog.FollowedAuthorsOfList | yatube/posts/views.py:120-123 | the authors collected from the caller's follow rows are exactly the authors the caller follows |
| Blog.FollowFeedMembers | yatube/posts/views.py:119-126 | a post is in the follow feed exactly when it is stored and the caller follows its author |
| Blog.FollowFeedNewPost | yatube/posts/views.py:124-126 | a new post adds one item, in front, to the follow feed when its author is followed, and none otherwise |
| Blog.FollowFeedNewestFirst | yatube/posts/views.py:124-126 | the follow feed is newest first |
| Blog.PageKeepsPairwise | yatube/posts/views.py:11-13 | a page of an ordered list is ordered |
| Blog.CreatedPostLeadsFeed | yatube/posts/views.py:18-19 | a post just created is the first item on the first page of a listing it heads |

## Left out

- The ORM, `select_related`, `render`, the templates and `reverse` are not modelled. Redirect targets are named routes, and the login URL is an opaque parameter.
- `login_required` is modelled only as its effect: an anonymous caller is redirected to the login page with `next`.
- `cache_page(20, ...)` on `index` is left out. It is a wall-clock cache in the framework, not logic of this code.
- The validation of `PostForm` and `CommentForm` is left out, because forms.py is not part of this model. It is an abstract `accepted` flag plus the model's own field constraints.
- Image upload and file storage are left out. An image is a file name.
- Timestamps are a counter, not wall-clock times, so no two rows share a date.
- Users and their table are the framework's. `AddUser` only fills the store, and the user fields beyond the username are not modelled.
- The admin configuration, the schema migration, the users' URL configuration, the static pages and the test case set-up (Faker, temporary media, the HTTP test client) are left out: they have no logic of their own.
- Pagination.ServedPage: Django's `Paginator.get_page` is not part of this model. Its policy is an assumption:
  - a missing or non-integer page gives page 1;
  - a number outside 1..num_pages gives the last page;
  - an empty list has one empty page.
- Pagination.FakePaginator.Pages: `math.ceil` of a float division is computed exactly on integers. Float rounding for huge counts is not modelled.
- Pagination.FakePaginator.Pages requires a positive page size. For zero the source divides by zero, and negative page sizes are not modelled.
- Models.TitleLeq: titles are ordered by code point. The database collation is not modelled.
- Blog.Store.CreatePost and Blog.Store.EditPost follow views.py, not the URL tests:
  - the URL tests expect an anonymous client requesting `/create/` to end at `/?next=/create/`, but the view redirects to `/`;
  - the URL tests expect an anonymous client requesting `/posts/<id>/edit/` to end at `/?next=/posts/<id>/edit/`, but the view redirects to the detail page.
- Blog.Store.AddGroup: models the field validation a group form or `full_clean` runs. A bare `save()` runs no validators, and the database may or may not enforce the lengths; that difference is not modelled.
- Blog.Edited: the image field is a Django `ImageField`, whose default widget also lets an edit clear the image without sending a file. forms.py is not part of this model, so that path is not modelled: an edit without a file keeps the old image.
- Blog.Store.CreatePost, Blog.Store.EditPost: the `form` entry of the form page's context is not modelled. `PostFormContext` carries only the title and `is_edit`.
- Blog.Store.PostDetail: the unbound `CommentForm` in the context is not modelled.
- Blog.Store.Profile, Blog.Store.Index, Blog.Store.GroupPosts: the `Page` object is modelled as the list of its posts. Its navigation attributes are not modelled.
- UrlView.UrlKwargsParsing: `reverse` itself and the test client are not modelled, and the `ValueError` message is not reproduced.
- UrlView.IdMaskFullyReplaced: mask removal is proved for integer ids and for usernames that share no character with the mask. That is narrower than "the value does not contain the mask", and UrlView.MaskCanReappear shows that the broader statement does not hold.
- Follow edges carry no uniqueness constraint in the schema, so duplicates can exist. Their only effect modelled is the `MultipleObjectsReturned` raised by `get_or_create`.
