# Blog post and category store

This project models the server core of a MERN blog in Dafny: the post
document with its schema bounds, its defaults and the pre-save hook, the
post request handlers and the category request handlers.

- The pre-save hook derives a post's slug from its title and fills an
  empty excerpt from the content.
- The post handlers list posts with paging and a published filter, fetch a
  post (counting a view), create, update (a truthy-only field merge), delete,
  and add or delete comments. Update and delete require the author or an
  admin. Deleting a comment requires the comment's owner or an admin.
- The category handlers list categories by name and fetch one with its post
  count. They create and update categories under a unique name, and refuse
  to delete a category that posts still refer to.
- The client turns the comma-separated tag field into the tag list the
  handlers receive. That rule, and its round trip with the edit form's
  joined field, are modelled beside the server.

Modules:

- `Common` (common.dfy): identifiers, actors, error outcomes and the
  "owner or admin" rule.
- `Text` (common.dfy): `String.prototype.trim`, which the schema's trim
  setters apply.
- `PostModel` (post_model.dfy): the post and comment records, slug and
  excerpt derivation, validation, the pre-save hook, and the document that
  `Post.create` builds.
- `PostController` (post_controller.dfy): the `PostStore` class. It holds
  the post collection as a map that its methods update, and proves a store
  invariant. Every stored post passed validation, carries a well-formed slug
  and an excerpt, and has distinct comment ids. Slugs are unique.
- `CategoryController` (category_controller.dfy): the `CategoryStore` class,
  whose invariant is that category names are unique. The reference guard is
  checked against the post map.
- `ClientTags` (client_tags.dfy): splitting, trimming and filtering the tag
  field, and joining tags back into it.

How the database is modelled:

- A save is validation, then the pre-save hook, then the unique slug index.
- Post ids are handed out in increasing order, so the newest-first sort on
  the creation time is a descending sort on ids.
- The text index's matches for a search are a parameter.
- The parsed page and limit are parameters; `None` stands for `NaN`.
- A negative skip is refused by the database (`ServerError`). A negative
  limit returns at most |limit| documents.
- An empty string stands for a missing value where the handlers test
  truthiness (title, content, excerpt, category name and description).
- `Option` stands for a value that may be `undefined` where they test
  definedness (featured image, published, tags).
- The listing sort that the database performs for getCategories is modelled
  as an insertion by name, in the database's default string order (code
  points).

## Model

| member | source | states |
|---|---|---|
| Common.CanModify | server/controllers/postController.js:124 | the author-or-admin rule: the actor may change what it owns, and an admin may change anything (the same test guards delete at line 165 and comment deletion at line 231) |
| Text.Trim | server/models/Post.js:32 | the trimmed string neither starts nor ends with JavaScript white space |
| Text.TrimStartIsSuffix | server/models/Post.js:32 | the leading trim leaves a suffix of the input |
| Text.TrimEndIsPrefix | server/models/Post.js:32 | the trailing trim leaves a prefix of the input |
| Text.TrimStartDropsSpace | server/models/Post.js:32 | everything the leading trim removes is white space |
| Text.TrimEndDropsSpace | server/models/Post.js:32 | everything the trailing trim removes is white space |
| Text.TrimIsSlice | server/models/Post.js:32 | trim returns the slice of the input after its leading white space; only white space lies before and after that slice |
| Text.TrimKeepsTrimmed | server/models/Post.js:32 | a string with no white space at either end is its own trim |
| Text.TrimIdempotent | server/models/Post.js:32 | trimming twice is trimming once |
| PostModel.LowerChar | server/models/Post.js:87 | toLowerCase of one character, as far as [a-z0-9] can tell: ASCII capitals, U+0130 and U+212A |
| PostModel.Lower | server/models/Post.js:87 | toLowerCase, character by character |
| PostModel.LowerAppend | server/models/Post.js:87 | lowering a concatenation lowers each part |
| PostModel.SkipSeparators | server/models/Post.js:88 | dropping a run of characters outside [a-z0-9]: the result is no longer than the input and is empty or starts with a letter or digit |
| PostModel.Hyphenate | server/models/Post.js:88 | the result is empty exactly when the input is, and starts with the input's first character when that is a letter or digit, with a hyphen otherwise (what the replacement means as a whole is stated by HyphenateIsSlugText and HyphenateJoin) |
| PostModel.HyphenateIsSlugText | server/models/Post.js:88 | after the replacement only [a-z0-9-] remains, with no "--" |
| PostModel.SkipWholeRun | server/models/Post.js:88 | a whole run of separators in front of a letter, a digit or the end is skipped |
| PostModel.SkipStopsEarly | server/models/Post.js:88 | skipping stops at the first letter or digit, leaving what follows untouched |
| PostModel.SkipWholeRunStops | server/models/Post.js:88 | a string that ends in a letter or digit is never skipped away entirely |
| PostModel.HyphenateJoin | server/models/Post.js:88 | a separator run between kept characters (or at an end, next to one) becomes exactly one hyphen, and the two sides are hyphenated independently |
| PostModel.SkipIsSuffix | server/models/Post.js:88 | skipping a run of separators leaves a suffix of the input |
| PostModel.StripLeadingHyphens | server/models/Post.js:89 | the result is no longer than the input and does not start with a hyphen |
| PostModel.StripLeadingIsSuffix | server/models/Post.js:89 | the leading-hyphen strip leaves a suffix of the input |
| PostModel.StripLeadingDropsHyphens | server/models/Post.js:89 | the leading strip removes hyphens only |
| PostModel.StripTrailingHyphens | server/models/Post.js:89 | the result is no longer than the input and does not end with a hyphen |
| PostModel.StripTrailingIsPrefix | server/models/Post.js:89 | the trailing-hyphen strip leaves a prefix of the input |
| PostModel.StripTrailingDropsHyphens | server/models/Post.js:89 | the trailing strip removes hyphens only |
| PostModel.StripHyphens | server/models/Post.js:89 | the result has no edge hyphen and keeps the [a-z0-9-] alphabet and the absence of "--" (StripHyphensIsSlice states which slice it is) |
| PostModel.StripHyphensIsSlice | server/models/Post.js:89 | the stripped text is the slice of the input between its leading and its trailing run of hyphens: only hyphens lie outside it, and it neither starts nor ends with one |
| PostModel.Slugify | server/models/Post.js:86-89 | the derived slug is in [a-z0-9-], has no edge hyphen and no "--" (SlugKeepsAlnums and SlugJoin state which letters it keeps and where its hyphens go) |
| PostModel.SlugKeepsAlnums | server/models/Post.js:86-89 | the slug keeps every ASCII letter and digit of the lowered title, in order, and nothing else but hyphens |
| PostModel.LowerJoin | server/models/Post.js:87 | lowering a title made of two words and a separator run lowers each piece |
| PostModel.HyphenateSlugJoin | server/models/Post.js:88 | two slugs with a separator run between them hyphenate to the slugs joined by one hyphen |
| PostModel.StripSlugJoin | server/models/Post.js:89 | two non-empty slugs joined by a hyphen have nothing to strip |
| PostModel.SlugJoin | server/models/Post.js:86-89 | two words whose lowering is a slug, separated by any run that holds no letter or digit even once lowered, give the two lowered words joined by exactly one hyphen ("Hello World" gives "hello-world") |
| PostModel.SlugEmptyIff | server/models/Post.js:86-89 | the slug is empty exactly when the lowered title has no ASCII letter or digit |
| PostModel.LowerKeepsSlugText | server/models/Post.js:87 | lowering leaves a string in [a-z0-9-] unchanged |
| PostModel.HyphenateKeepsSlugText | server/models/Post.js:88 | hyphenation leaves a string in [a-z0-9-] without "--" unchanged |
| PostModel.SlugOfSlug | server/models/Post.js:86-89 | a well-formed slug is its own slug |
| PostModel.SlugIdempotent | server/models/Post.js:86-89 | slug(slug(t)) == slug(t) |
| PostModel.ValidComment | server/models/Post.js:5-16 | the comment schema's validators: a non-empty author and 1 to 500 characters of content |
| PostModel.ValidPost | server/models/Post.js:29-76 | the post schema's validators: title 3 to 200 characters, content at least 10, excerpt at most 300, a category, and valid comments |
| PostModel.DeriveExcerpt | server/models/Post.js:94 | the derived excerpt is the first min(150, length) characters of the content followed by "...", so at most 153 characters and within the 300-character bound |
| PostModel.PreSave | server/models/Post.js:84-98 | the slug is recomputed exactly when the title was modified, and is kept otherwise; an empty excerpt is filled with the derived excerpt when there is content; a non-empty excerpt is never overwritten; no other field changes; the excerpt bound is kept |
| PostModel.SavedIsStored | server/models/Post.js:27-98 | a document that passes validation leaves the hook as a storable post, with a well-formed slug and a non-empty excerpt |
| PostModel.ResaveKeepsPost | server/models/Post.js:84-98 | saving a stored post again without changing its title changes nothing |
| PostModel.TrimAll | server/models/Post.js:60-63 | the tag list keeps its length |
| PostModel.TrimAllTrimsEach | server/models/Post.js:60-63 | each tag is replaced by its trim where it stands |
| PostModel.TrimAllIdempotent | server/models/Post.js:60-63 | trimming the tags twice is trimming them once |
| PostModel.NewComment | server/controllers/postController.js:193-197 | the pushed comment: trimmed name and text (the schema's trim setters), owned by the actor |
| PostModel.NewDocument | server/models/Post.js:64-75 | the document before validation: trimmed title, author stamped, views 0, no comments, and the defaults (no tags, empty featured image, unpublished) for what the request leaves out |
| PostController.ParamOr | server/controllers/postController.js:8-9 | parseInt(x) \|\| fallback: the parsed value unless it is missing, NaN or 0, in which case the fallback; never 0 |
| PostController.PageOf | server/controllers/postController.js:8 | the page number is never 0 |
| PostController.LimitOf | server/controllers/postController.js:9 | the limit is never 0 |
| PostController.CeilDiv | server/controllers/postController.js:49 | Math.ceil(total / limit) for either sign of the limit, stated without division |
| PostController.PageNonEmptyIff | server/controllers/postController.js:10-49 | with a positive limit, page p holds posts exactly when p <= totalPages |
| PostController.Window | server/controllers/postController.js:43-44 | .skip(n).limit(k) returns the elements of the listing from position n on, at most k of them |
| PostController.PublishedFilter | server/controllers/postController.js:21-28 | an explicit published parameter filters on (param == "true"); with no parameter and no user, only published posts match; with a user, no filter |
| PostController.FilterOf | server/controllers/postController.js:13-33 | the query: the category when one is given, the published rule, and the text index's matches when a search is given |
| PostController.Matching | server/controllers/postController.js:39-42 | the listing holds exactly the posts the filter admits, newest first and without repeats |
| PostController.MatchSetBelowStep | server/controllers/postController.js:36-42 | one more id adds one match exactly when the filter admits it |
| PostController.MatchingCountsBelow | server/controllers/postController.js:36-42 | the listing holds one entry per admitted post below the id bound |
| PostController.MatchingCountsMatches | server/controllers/postController.js:36 | the listing's length is countDocuments of the query |
| PostController.Merge | server/controllers/postController.js:130-136 | title, content, excerpt, category and tags are replaced only when truthy (an empty tag list does replace); featured image and published are replaced whenever defined; author, views, comments and slug are unchanged |
| PostController.MergeIdempotent | server/controllers/postController.js:130-136 | applying the same update twice has the effect of applying it once |
| PostController.UpdateKeepsExcerpt | server/controllers/postController.js:132 | an update that sends no excerpt keeps the stored excerpt through the save, even when the content changes |
| PostController.UpdateKeepsSlugDerived | server/controllers/postController.js:130 | a post whose slug is its title's slug still has its title's slug after an update and save |
| PostController.CommentIndex | server/controllers/postController.js:224 | finds the first comment with the sub-id, or reports that none has it |
| PostController.FindComment | server/controllers/postController.js:224 | the scan for a comment's sub-id returns the position CommentIndex specifies |
| PostController.CommentIndexIsFirst | server/controllers/postController.js:224 | the first position holding the sub-id is the one CommentIndex finds |
| PostController.RemoveAt | server/controllers/postController.js:235 | removing the comment at position i keeps every other comment, in order |
| PostController.RemoveCommentExactly | server/controllers/postController.js:224-236 | removing the found comment leaves no comment with that sub-id and keeps every other comment, with distinct ids |
| PostController.DistinctAfterRemove | server/controllers/postController.js:235 | removing a comment keeps the comment ids distinct |
| PostController.PutKeepsInv | server/controllers/postController.js:138 | writing a storable post under a free slug keeps the store invariant |
| PostController.RemoveKeepsInv | server/controllers/postController.js:169 | removing a post keeps the store invariant |
| PostController.GrowKeepsInv | server/controllers/postController.js:91 | advancing the id counters keeps the store invariant |
| PostController.Saving | server/controllers/postController.js:138 | save: Invalid exactly when validation fails; DuplicateSlug exactly when the document is valid and another post holds the hooked document's slug; it succeeds exactly otherwise, with the hooked document |
| PostController.SavingStores | server/controllers/postController.js:138 | a successful save of a document with distinct comment ids and a well-formed or recomputed slug yields a storable post |
| PostController.CreateKeepsInv | server/controllers/postController.js:91-100 | saving a new document without comments under the next id keeps the store invariant |
| PostController.ViewedIsStored | server/controllers/postController.js:72-73 | a stored post with one more view is still storable, and the hook leaves it unchanged |
| PostController.ResaveSucceeds | server/controllers/postController.js:73 | re-saving a stored post under its own slug succeeds and returns the post unchanged |
| PostController.ViewStep | server/controllers/postController.js:72-73 | counting a view saves successfully and keeps the store invariant |
| PostController.PostStore.constructor | server/models/Post.js:103 | an empty collection satisfies the store invariant |
| PostController.PostStore.ListPosts | server/controllers/postController.js:6-55 | a negative skip is a server error; otherwise the page is the window [skip, skip+\|limit\|) of the matching posts, newest first, each admitted by the filter; totalPosts counts every match, totalPages is ceil(totalPosts / limit), and with no published parameter and no user every listed post is published |
| PostController.PostStore.ViewPost | server/controllers/postController.js:60-82 | a missing id is NotFound and leaves the store unchanged; otherwise the post's views go up by exactly one and nothing else changes |
| PostController.PostStore.CreatePost | server/controllers/postController.js:87-110 | Invalid iff the built document fails validation; DuplicateSlug iff another post holds its title's slug; it succeeds exactly when the document is valid and the slug is free, and then one post is added under a fresh id, authored by the actor, with 0 views, no comments, the trimmed title and its slug; on error nothing changes |
| PostController.PostStore.UpdatePost | server/controllers/postController.js:115-151 | NotFound for a missing post; Forbidden iff the actor is neither the author nor an admin; Invalid iff the merged document fails validation; DuplicateSlug iff it is valid and another post holds the hooked merge's slug; it succeeds exactly when the post exists, the actor may modify it, the merge is valid and its slug is free, and then the post becomes the hooked merge, with the slug recomputed iff the title changed and with author, views and comments kept; on error nothing changes |
| PostController.PostStore.DeletePost | server/controllers/postController.js:156-178 | NotFound for a missing post; Forbidden iff the actor is neither the author nor an admin; it succeeds exactly otherwise and then removes only that post |
| PostController.PostStore.AddComment | server/controllers/postController.js:183-211 | NotFound for a missing post; Invalid iff the trimmed comment fails validation; on success exactly one comment, owned by the actor and carrying the trimmed name and text, is appended at the end, and the earlier comments are unchanged |
| PostController.PostStore.DeleteComment | server/controllers/postController.js:216-242 | NotFound when the post or the comment is missing; Forbidden iff the actor is neither the comment's owner nor an admin (the post's author does not suffice); on success exactly that comment is removed and the others keep their order |
| PostController.AppendedComment | server/controllers/postController.js:199-200 | appending a comment under a fresh sub-id keeps the post valid exactly when the comment is valid, and keeps the sub-ids distinct |
| PostController.RemovedComment | server/controllers/postController.js:235-236 | removing a comment keeps a stored post storable, and the save leaves it unchanged |
| CategoryController.NameLe | server/controllers/categoryController.js:9 | sort({ name: 1 }): names in code-point order, a prefix first |
| CategoryController.NameLeTotal | server/controllers/categoryController.js:9 | any two names are ordered by the name order one way or the other |
| CategoryController.NameLeAntisymmetric | server/controllers/categoryController.js:9 | names ordered both ways are equal |
| CategoryController.NameLeTransitive | server/controllers/categoryController.js:9 | the name order is transitive |
| CategoryController.NameLtTransitive | server/controllers/categoryController.js:9 | the strict name order is transitive |
| CategoryController.NameLtConnected | server/controllers/categoryController.js:9 | of two different names, exactly one precedes the other |
| CategoryController.PostsCount | server/controllers/categoryController.js:28 | countDocuments({ category }) is positive exactly when some post refers to the category |
| CategoryController.PostsCountRemove | server/controllers/categoryController.js:112 | removing a post lowers a category's count by one exactly when the post refers to it |
| CategoryController.MergeCategory | server/controllers/categoryController.js:83-84 | name and description are replaced only by truthy values |
| CategoryController.MergeCategoryIdempotent | server/controllers/categoryController.js:83-84 | applying the same update twice has the effect of applying it once |
| CategoryController.CategoryStore.constructor | server/controllers/categoryController.js:1 | the category collection starts empty, and an empty collection has unique names |
| CategoryController.CategoryStore.ListCategories | server/controllers/categoryController.js:7-14 | every category is listed exactly once, in strictly ascending name order |
| CategoryController.InsertionPoint | server/controllers/categoryController.js:9 | finds the first listed name not below the new name |
| CategoryController.InsertStep | server/controllers/categoryController.js:9 | placing one more category at its insertion point keeps the partial listing sorted and complete |
| CategoryController.InsertKeepsSorted | server/controllers/categoryController.js:9 | inserting a name at its insertion point keeps a listing sorted |
| CategoryController.CategoryStore.GetCategory | server/controllers/categoryController.js:19-40 | NotFound exactly when the id is missing; otherwise the category with the number of posts filed under it, positive exactly when some post refers to it |
| CategoryController.CategoryStore.CreateCategory | server/controllers/categoryController.js:45-68 | CategoryExists, with nothing changed, exactly when the name is taken; otherwise exactly one category is added under a fresh id, and names stay unique |
| CategoryController.CategoryStore.UpdateCategory | server/controllers/categoryController.js:73-98 | NotFound for a missing id; CategoryNameExists exactly when another category holds the merged name; it succeeds exactly when the category exists and the merged name is free, and then the category becomes the truthy-only merge; on error nothing changes; names stay unique |
| CategoryController.CategoryStore.DeleteCategory | server/controllers/categoryController.js:103-129 | NotFound for a missing id; CategoryInUse with the count while posts refer to the category; it succeeds exactly when the category exists and no post refers to it, and then removes only it; no post is left referring to a removed category |
| ClientTags.Clean | client/src/pages/CreatePost.jsx:62 | map(trim) then filter(tag => tag): each piece trimmed, the empty ones dropped, order kept |
| ClientTags.ParseTags | client/src/pages/CreatePost.jsx:62 | the tag list the form sends: the field split on commas, then cleaned |
| ClientTags.JoinTags | client/src/pages/EditPost.jsx:52 | join(', '): the tags in order with ", " between them |
| ClientTags.SplitCommas | client/src/pages/CreatePost.jsx:62 | split(',') yields at least one piece |
| ClientTags.SplitGivesPieces | client/src/pages/CreatePost.jsx:62 | no piece of the split holds a comma |
| ClientTags.CleanGivesTags | client/src/pages/CreatePost.jsx:62 | trimming and dropping empty pieces gives non-empty, trimmed, comma-free tags |
| ClientTags.ParseGivesTags | client/src/pages/CreatePost.jsx:62 | every tag the form sends is non-empty, trimmed and comma-free |
| ClientTags.TrimKeepsCommaFree | client/src/pages/CreatePost.jsx:62 | trimming a comma-free piece leaves it comma-free |
| ClientTags.SplitWithoutComma | client/src/pages/EditPost.jsx:81 | a comma-free field splits into itself |
| ClientTags.SplitAfterPrefix | client/src/pages/EditPost.jsx:81 | a comma-free prefix joins the first piece of what follows it |
| ClientTags.SplitAtComma | client/src/pages/EditPost.jsx:81 | a comma-free piece followed by a comma splits off as one piece |
| ClientTags.TrimDropsLeadingSpace | client/src/pages/EditPost.jsx:81 | a leading space does not survive the trim |
| ClientTags.CleanAfterSpace | client/src/pages/EditPost.jsx:81 | a space in front of the field does not change the parsed tags |
| ClientTags.ParseAfterTag | client/src/pages/EditPost.jsx:81 | a tag followed by ", " and a field parses to that tag followed by the field's tags |
| ClientTags.ParseOneTag | client/src/pages/EditPost.jsx:81 | a field holding one tag parses to that tag |
| ClientTags.ParseJoinRoundTrip | client/src/pages/EditPost.jsx:52-81 | filling the edit form with a post's tags and sending it unchanged gives back the same tags |
| ClientTags.ParseTagsStable | client/src/pages/EditPost.jsx:52-81 | parsing a field, joining the tags and parsing again gives the same tags |

## Left out

- The `$text` search ranking is left out: the posts the text index matches are a parameter of `ListPosts`.
- The parsing of query strings (`parseInt`) is left out: the parsed value, or `None` for `NaN`, is a parameter.
- `populate` joins are left out: they only shape the responses.
- HTTP status codes and messages are abstracted to the `Error` values.
- ObjectId cast errors are left out: identifiers are numbers, so a malformed id is simply a missing one (`NotFound`).
- Generic 500 responses from database failures are left out. The failures that Mongoose and MongoDB raise for the handlers to map to a 500 (a validation error, a duplicate slug, a negative skip) are modelled as their own `Error` values.
- `createdAt`/`updatedAt` timestamps are left out: post ids are handed out in increasing order and serve as the creation-time ordering key.
- The read-modify-write race on the view counter, and all concurrency, are left out: each handler runs as one atomic step.
- `LowerChar` models `toLowerCase` only as far as a slug can tell it apart: ASCII capitals, U+0130 and U+212A. Every other character lies outside [a-z0-9] both before and after lowering.
- Lengths are counted in code points, not in the UTF-16 code units JavaScript counts.
- `published: null` and `featuredImage: null` in a request body are left out: `published` is either absent or a boolean, and `featuredImage` either absent or a string. Both nulls would be stored as null, by createPost because the schema defaults apply only to undefined values, and by updatePost because of its `!== undefined` tests (postController.js:135-136).
- The `protect`, `admin`, `validatePost` and `validateComment` middleware is left out. The authenticated user is the `actor` parameter.
- Category mutators take no actor: the routes admit only admins, and the handlers themselves check nothing about the user.
- `ListPosts` is given `user` as a parameter. The route serves getPosts without authentication, so in practice it is always `None`.
- server/models/Category.js is not part of this model. Name uniqueness is taken from the duplicate-key handling in the category handlers, and no other category validation is modelled.
- `CategoryController.CategoryStore.CreateCategory` compares names exactly. Any collation or trimming the category schema may apply is not modelled.
- `PostController.PostStore.CreatePost` does not check that the category exists, because the handler does not either; the schema only requires that some category is given.
- `PostController.PostStore.Valid` requires every slug to be well formed, not to equal the slug of the post's current title. That equality is stated per operation instead: `CreatePost` and `UpdatePost` state the slug they store, and `UpdateKeepsSlugDerived` carries it across updates.
- Comments always have an owning user, because addComment stamps one. A stored comment without a user, which would make deleteComment fail with a 500, is not modelled.
- Comment timestamps are left out.
- The pre-save hook is modelled as a function on post records, and `isModified('title')` as "the title value changed". The handlers' field assignments are modelled as record updates inside the store methods.
- Hyphenate: its own contract states only emptiness and the first character. That the result is in [a-z0-9-] without "--" is HyphenateIsSlugText, and that each separator run becomes exactly one hyphen is HyphenateJoin. These are lemmas so that the store proofs, which unfold the slug of a new title, do not carry them.
- StripLeadingHyphens: its own contract states a length bound and that no hyphen is left in front. That the result is a suffix with only hyphens removed is StripLeadingIsSuffix and StripLeadingDropsHyphens.
- StripTrailingHyphens: its own contract states a length bound and that no hyphen is left at the end. That the result is a prefix with only hyphens removed is StripTrailingIsPrefix and StripTrailingDropsHyphens.
- StripHyphens: its own contract states the edge and alphabet facts. Which slice of the input it keeps is StripHyphensIsSlice.
- Slugify: its own contract states the shape of a slug. Which letters and digits survive is SlugKeepsAlnums, and where the hyphens go is SlugJoin. SlugJoin covers two pieces around one separator run, where each piece lowers to a slug (which may itself hold hyphens, as "well-known"). A title with more than one separator run that is not already hyphenated, such as "a b c", is not covered by one lemma.
