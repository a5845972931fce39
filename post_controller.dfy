/** The post request handlers: listing with pagination and filters, fetching
    (which counts a view), creating, updating, deleting, and adding and
    deleting comments. */
module PostController {
  import opened Common
  import opened Text
  import opened PostModel

  // ----------------------------------------------------------- paging

  /** parseInt(param) || fallback: a missing or unparsable value (None) and
      zero both give the fallback; any other value is taken as it is. */
  function ParamOr(param: Option<int>, fallback: int): (r: int)
    requires fallback != 0
    ensures r != 0
    ensures r == fallback || param == Some(r)
    ensures param.Some? && param.value != 0 ==> r == param.value
  {
    if param.Some? && param.value != 0 then param.value else fallback
  }

  const DefaultPage := 1
  const DefaultLimit := 10

  function Abs(x: int): nat {
    if x < 0 then -x else x
  }

  /** Math.ceil(total / limit): the least integer r with r >= total / limit,
      stated without division for either sign of limit. */
  function CeilDiv(total: nat, limit: int): (r: int)
    requires limit != 0
    ensures limit > 0 ==> (r - 1) * limit < total <= r * limit
    ensures limit < 0 ==> r * limit <= total < (r - 1) * limit
  {
    if limit > 0 then
      var q := (total + limit - 1) / limit;
      DivBounds(total + limit - 1, limit);
      q
    else
      var q := total / -limit;
      DivBounds(total, -limit);
      -q
  }

  lemma DivBounds(n: int, d: int)
    requires d > 0
    ensures (n / d) * d <= n < (n / d) * d + d
  {
  }

  /** With a positive limit, page p (from 1) of a listing of total items is
      non-empty exactly when p is at most totalPages. */
  lemma PageNonEmptyIff(total: nat, limit: int, page: int)
    requires limit > 0 && page >= 1
    ensures (page - 1) * limit < total <==> page <= CeilDiv(total, limit)
  {
    var c := CeilDiv(total, limit);
    if page <= c {
      assert (page - 1) * limit <= (c - 1) * limit by {
        MulMonotone(page - 1, c - 1, limit);
      }
    } else {
      assert c * limit <= (page - 1) * limit by {
        MulMonotone(c, page - 1, limit);
      }
    }
  }

  lemma MulMonotone(a: int, b: int, k: int)
    requires a <= b && k >= 0
    ensures a * k <= b * k
  {
    assert b * k - a * k == (b - a) * k;
  }

  /** The part of s that .skip(skip).limit(count) returns. */
  function Window<T>(s: seq<T>, skip: nat, count: nat): (r: seq<T>)
    ensures |r| <= count
    ensures skip >= |s| ==> r == []
    ensures skip < |s| ==> |r| == Min(count, |s| - skip)
    ensures forall k :: 0 <= k < |r| ==> skip + k < |s| && r[k] == s[skip + k]
  {
    var lo := Min(skip, |s|);
    var hi := Min(skip + count, |s|);
    s[lo..hi]
  }

  // --------------------------------------------------------- filtering

  /** The query the list handler builds: category equality, a published
      flag, and the posts the database's text index matched for a search. */
  datatype Filter = Filter(category: Option<CategoryId>, published: Option<bool>, search: Option<set<PostId>>) {
    predicate Admits(id: PostId, p: Post) {
      && (category.Some? ==> p.category == category)
      && (published.Some? ==> p.published == published.value)
      && (search.Some? ==> id in search.value)
    }
  }

  /** An explicit published parameter filters on (param == "true"); without
      one, a request with no user sees only published posts. */
  function PublishedFilter(param: Option<string>, user: Option<Actor>): (r: Option<bool>)
    ensures param.Some? ==> r == Some(param.value == "true")
    ensures param.None? && user.None? ==> r == Some(true)
    ensures param.None? && user.Some? ==> r == None
  {
    if param.Some? then Some(param.value == "true")
    else if user.None? then Some(true)
    else None
  }

  /** The ids of the posts admitted by f, newest first. */
  function Matching(posts: map<PostId, Post>, f: Filter, n: nat): (r: seq<PostId>)
    ensures forall k :: 0 <= k < |r| ==> r[k] < n && r[k] in posts && f.Admits(r[k], posts[r[k]])
    ensures forall j, k :: 0 <= j < k < |r| ==> r[j] > r[k]
    ensures forall id :: id < n && id in posts && f.Admits(id, posts[id]) ==> id in r
  {
    if n == 0 then []
    else
      var rest := Matching(posts, f, n - 1);
      if n - 1 in posts && f.Admits(n - 1, posts[n - 1]) then [n - 1] + rest else rest
  }

  /** The set of post ids the filter admits. */
  function MatchSet(posts: map<PostId, Post>, f: Filter): set<PostId> {
    set id | id in posts && f.Admits(id, posts[id])
  }

  function MatchSetBelow(posts: map<PostId, Post>, f: Filter, n: nat): set<PostId> {
    set id | id in posts && id < n && f.Admits(id, posts[id])
  }

  /** One more id adds one match below it exactly when the filter admits it. */
  lemma MatchSetBelowStep(posts: map<PostId, Post>, f: Filter, n: nat)
    requires n > 0
    ensures |MatchSetBelow(posts, f, n)| ==
      |MatchSetBelow(posts, f, n - 1)| + (if n - 1 in posts && f.Admits(n - 1, posts[n - 1]) then 1 else 0)
  {
    var below := MatchSetBelow(posts, f, n - 1);
    if n - 1 in posts && f.Admits(n - 1, posts[n - 1]) {
      assert MatchSetBelow(posts, f, n) == below + {n - 1};
      assert n - 1 !in below;
    } else {
      assert MatchSetBelow(posts, f, n) == below;
    }
  }

  lemma {:induction false} MatchingCountsBelow(posts: map<PostId, Post>, f: Filter, n: nat)
    ensures |Matching(posts, f, n)| == |MatchSetBelow(posts, f, n)|
  {
    if n == 0 {
      assert MatchSetBelow(posts, f, n) == {};
    } else {
      MatchingCountsBelow(posts, f, n - 1);
      MatchSetBelowStep(posts, f, n);
    }
  }

  /** totalPosts: the newest-first listing has one entry per matching post. */
  lemma MatchingCountsMatches(posts: map<PostId, Post>, f: Filter, n: nat)
    requires forall id :: id in posts ==> id < n
    ensures |Matching(posts, f, n)| == |MatchSet(posts, f)|
  {
    MatchingCountsBelow(posts, f, n);
    assert MatchSetBelow(posts, f, n) == MatchSet(posts, f);
  }

  /** The posts stored under ids, in the same order. */
  function Lookup(posts: map<PostId, Post>, ids: seq<PostId>): (r: seq<Post>)
    requires forall k :: 0 <= k < |ids| ==> ids[k] in posts
    ensures |r| == |ids|
    ensures forall k :: 0 <= k < |ids| ==> r[k] == posts[ids[k]]
  {
    seq(|ids|, k requires 0 <= k < |ids| => posts[ids[k]])
  }

  /** The listing response: the ids of the page's posts with the posts
      themselves, the page number, the page count and the match count. */
  datatype Listing = Listing(ids: seq<PostId>, posts: seq<Post>, currentPage: int, totalPages: int, totalPosts: nat)

  /** The query string of a list request: page, limit, category and published
      as sent, and the text index's matches when a search is given. */
  datatype ListQuery = ListQuery(
    page: Option<int>,
    limit: Option<int>,
    category: Option<CategoryId>,
    published: Option<string>,
    search: Option<set<PostId>>)

  function PageOf(q: ListQuery): (r: int)
    ensures r != 0
  {
    ParamOr(q.page, DefaultPage)
  }

  function LimitOf(q: ListQuery): (r: int)
    ensures r != 0
  {
    ParamOr(q.limit, DefaultLimit)
  }

  function FilterOf(q: ListQuery, user: Option<Actor>): Filter {
    Filter(q.category, PublishedFilter(q.published, user), q.search)
  }

  // --------------------------------------------------------- update merge

  /** The field-by-field merge of an update: title, content, excerpt,
      category and tags are taken from the input only when present and
      truthy (an empty tag list is truthy), featured image and published
      whenever present; author, views, comments and slug are never touched. */
  function Merge(p: Post, u: PostInput): (r: Post)
    ensures r.author == p.author && r.views == p.views && r.comments == p.comments && r.slug == p.slug
    ensures u.title == "" ==> r.title == p.title
    ensures u.content == "" ==> r.content == p.content
    ensures u.excerpt == "" ==> r.excerpt == p.excerpt
    ensures u.category.None? ==> r.category == p.category
    ensures u.tags.None? ==> r.tags == p.tags
    ensures u.featuredImage.None? ==> r.featuredImage == p.featuredImage
    ensures u.published.None? ==> r.published == p.published
    ensures u.title != "" ==> r.title == Trim(u.title)
    ensures u.content != "" ==> r.content == u.content
    ensures u.excerpt != "" ==> r.excerpt == u.excerpt
    ensures u.category.Some? ==> r.category == u.category
    ensures u.tags.Some? ==> r.tags == TrimAll(u.tags.value)
    ensures u.featuredImage.Some? ==> r.featuredImage == u.featuredImage.value
    ensures u.published.Some? ==> r.published == u.published.value
  {
    Post(
      title := if u.title != "" then Trim(u.title) else p.title,
      slug := p.slug,
      content := if u.content != "" then u.content else p.content,
      excerpt := if u.excerpt != "" then u.excerpt else p.excerpt,
      author := p.author,
      category := if u.category.Some? then u.category else p.category,
      tags := if u.tags.Some? then TrimAll(u.tags.value) else p.tags,
      featuredImage := u.featuredImage.GetOr(p.featuredImage),
      published := u.published.GetOr(p.published),
      views := p.views,
      comments := p.comments)
  }

  /** Sending the same update twice has the effect of sending it once. */
  lemma MergeIdempotent(p: Post, u: PostInput)
    ensures Merge(Merge(p, u), u) == Merge(p, u)
  {
    var m := Merge(p, u);
    var mm := Merge(m, u);
    TrimIdempotent(u.title);
    if u.tags.Some? {
      TrimAllIdempotent(u.tags.value);
    }
    assert mm.title == m.title && mm.tags == m.tags;
    assert mm.content == m.content && mm.excerpt == m.excerpt && mm.category == m.category;
    assert mm.featuredImage == m.featuredImage && mm.published == m.published;
  }

  /** An update never rewrites a stored excerpt unless it supplies one, even
      when it changes the content. */
  lemma UpdateKeepsExcerpt(p: Post, u: PostInput, titleModified: bool)
    requires Stored(p) && u.excerpt == ""
    ensures PreSave(Merge(p, u), titleModified).excerpt == p.excerpt
  {
  }

  /** A post whose slug is its title's slug still has that after an update:
      the hook recomputes the slug exactly when the merged title differs. */
  lemma UpdateKeepsSlugDerived(p: Post, u: PostInput)
    requires p.slug == Slugify(p.title)
    ensures var m := Merge(p, u); PreSave(m, m.title != p.title).slug == Slugify(m.title)
  {
  }

  // ------------------------------------------------------------ comments

  /** The position of the comment with the given sub-id, if any: the first one. */
  function CommentIndex(cs: seq<Comment>, cid: CommentId): (r: Option<nat>)
    ensures r.Some? ==> r.value < |cs| && cs[r.value].id == cid
    ensures r.Some? ==> forall j :: 0 <= j < r.value ==> cs[j].id != cid
    ensures r.None? ==> forall j :: 0 <= j < |cs| ==> cs[j].id != cid
  {
    if cs == [] then None
    else if cs[0].id == cid then Some(0)
    else
      var r := CommentIndex(cs[1..], cid);
      if r.Some? then Some(r.value + 1) else None
  }

  /** post.comments.id(cid): a scan of the embedded comments. */
  method FindComment(cs: seq<Comment>, cid: CommentId) returns (r: Option<nat>)
    ensures r == CommentIndex(cs, cid)
  {
    var i := 0;
    while i < |cs|
      invariant 0 <= i <= |cs|
      invariant forall j :: 0 <= j < i ==> cs[j].id != cid
    {
      if cs[i].id == cid {
        CommentIndexIsFirst(cs, cid, i);
        return Some(i);
      }
      i := i + 1;
    }
    return None;
  }

  lemma CommentIndexIsFirst(cs: seq<Comment>, cid: CommentId, i: nat)
    requires i < |cs| && cs[i].id == cid
    requires forall j :: 0 <= j < i ==> cs[j].id != cid
    ensures CommentIndex(cs, cid) == Some(i)
  {
    var r := CommentIndex(cs, cid);
    assert r.Some?;
  }

  /** The comments without the one at position i; the others keep their order. */
  function RemoveAt(cs: seq<Comment>, i: nat): (r: seq<Comment>)
    requires i < |cs|
    ensures |r| == |cs| - 1
    ensures forall j :: 0 <= j < i ==> r[j] == cs[j]
    ensures forall j :: i <= j < |r| ==> r[j] == cs[j + 1]
  {
    cs[..i] + cs[i + 1..]
  }

  /** Removing the comment with a given sub-id from comments with distinct
      ids leaves every other comment, and no comment with that id. */
  lemma RemoveCommentExactly(cs: seq<Comment>, cid: CommentId)
    requires CommentIdsDistinct(cs) && CommentIndex(cs, cid).Some?
    ensures forall c :: c in RemoveAt(cs, CommentIndex(cs, cid).value) ==> c.id != cid
    ensures forall c :: c in cs && c.id != cid ==> c in RemoveAt(cs, CommentIndex(cs, cid).value)
    ensures CommentIdsDistinct(RemoveAt(cs, CommentIndex(cs, cid).value))
  {
    var i := CommentIndex(cs, cid).value;
    var r := RemoveAt(cs, i);
    forall c | c in r ensures c.id != cid {
      var k :| 0 <= k < |r| && r[k] == c;
      if k < i { assert r[k] == cs[k]; } else { assert r[k] == cs[k + 1]; }
    }
    forall c | c in cs && c.id != cid ensures c in r {
      var k :| 0 <= k < |cs| && cs[k] == c;
      if k < i { assert r[k] == c; } else { assert k != i && r[k - 1] == c; }
    }
    DistinctAfterRemove(cs, i);
  }

  lemma DistinctAfterRemove(cs: seq<Comment>, i: nat)
    requires i < |cs| && CommentIdsDistinct(cs)
    ensures CommentIdsDistinct(RemoveAt(cs, i))
  {
    var r := RemoveAt(cs, i);
    forall j, k | 0 <= j < k < |r| ensures r[j].id != r[k].id {
      var j' := if j < i then j else j + 1;
      var k' := if k < i then k else k + 1;
      assert r[j] == cs[j'] && r[k] == cs[k'] && j' < k';
    }
  }

  // ----------------------------------------------------------- the store

  predicate SlugsUnique(posts: map<PostId, Post>) {
    forall a, b :: a in posts && b in posts && a != b ==> posts[a].slug != posts[b].slug
  }

  /** No post other than id holds the slug. */
  predicate SlugFree(posts: map<PostId, Post>, id: PostId, slug: string) {
    forall other :: other in posts && other != id ==> posts[other].slug != slug
  }

  predicate CommentIdsBelow(cs: seq<Comment>, bound: CommentId) {
    forall i :: 0 <= i < |cs| ==> cs[i].id < bound
  }

  /** The post collection's invariant: ids and comment sub-ids below the next
      ones to hand out, every post as a save leaves it, slugs unique. */
  ghost predicate StoreInv(posts: map<PostId, Post>, nextId: PostId, nextCommentId: CommentId) {
    && (forall id :: id in posts ==> id < nextId)
    && (forall id :: id in posts ==> Stored(posts[id]) && CommentIdsBelow(posts[id].comments, nextCommentId))
    && SlugsUnique(posts)
  }

  lemma {:induction false} PutKeepsInv(posts: map<PostId, Post>, n: PostId, m: CommentId, id: PostId, d: Post)
    requires StoreInv(posts, n, m) && id < n
    requires Stored(d) && CommentIdsBelow(d.comments, m) && SlugFree(posts, id, d.slug)
    ensures StoreInv(posts[id := d], n, m)
  {
    var q := posts[id := d];
    forall x | x in q
      ensures x < n && Stored(q[x]) && CommentIdsBelow(q[x].comments, m)
    {
      if x != id { assert q[x] == posts[x]; }
    }
    forall a, b | a in q && b in q && a != b
      ensures q[a].slug != q[b].slug
    {
      if a == id { assert q[b] == posts[b]; }
      else if b == id { assert q[a] == posts[a]; }
      else { assert q[a] == posts[a] && q[b] == posts[b]; }
    }
  }

  lemma {:induction false} RemoveKeepsInv(posts: map<PostId, Post>, n: PostId, m: CommentId, id: PostId)
    requires StoreInv(posts, n, m)
    ensures StoreInv(posts - {id}, n, m)
  {
  }

  lemma {:induction false} GrowKeepsInv(posts: map<PostId, Post>, n: PostId, m: CommentId, n': PostId, m': CommentId)
    requires StoreInv(posts, n, m) && n <= n' && m <= m'
    ensures StoreInv(posts, n', m')
  {
  }

  /** post.save() of the document doc under id: validation, then the pre-save
      hook, then the unique slug index. */
  function Saving(posts: map<PostId, Post>, id: PostId, doc: Post, titleModified: bool): (r: Result<Post>)
    ensures r.Err? ==> r.error == Invalid || r.error == DuplicateSlug
    ensures r.Err? && r.error == Invalid <==> !ValidPost(doc)
    ensures r.Ok? ==> r.value == PreSave(doc, titleModified) && SlugFree(posts, id, r.value.slug)
    ensures r == Err(DuplicateSlug) <==> ValidPost(doc) && !SlugFree(posts, id, PreSave(doc, titleModified).slug)
    ensures r.Ok? <==> ValidPost(doc) && SlugFree(posts, id, PreSave(doc, titleModified).slug)
  {
    if !ValidPost(doc) then Err(Invalid)
    else
      var d := PreSave(doc, titleModified);
      if SlugFree(posts, id, d.slug) then Ok(d) else Err(DuplicateSlug)
  }

  /** A successful save of a document whose comments have distinct ids, and
      whose slug is well formed or about to be recomputed, yields a storable
      post. */
  lemma SavingStores(posts: map<PostId, Post>, id: PostId, doc: Post, titleModified: bool)
    requires Saving(posts, id, doc, titleModified).Ok?
    requires CommentIdsDistinct(doc.comments) && (titleModified || IsSlug(doc.slug))
    ensures Stored(Saving(posts, id, doc, titleModified).value)
  {
    SavedIsStored(doc, titleModified);
  }

  /** Saving a new document, without comments, under the next id keeps the
      store invariant once the id counter moves on. */
  lemma {:induction false} CreateKeepsInv(posts: map<PostId, Post>, n: PostId, m: CommentId, doc: Post)
    requires StoreInv(posts, n, m) && doc.comments == [] && Saving(posts, n, doc, true).Ok?
    ensures StoreInv(posts[n := PreSave(doc, true)], n + 1, m)
  {
    SavingStores(posts, n, doc, true);
    GrowKeepsInv(posts, n, m, n + 1, m);
    PutKeepsInv(posts, n + 1, m, n, PreSave(doc, true));
  }

  /** A stored post with one more view is stored, and saving it again leaves
      it as it is. */
  lemma ViewedIsStored(p: Post)
    requires Stored(p)
    ensures Stored(p.(views := p.views + 1))
    ensures PreSave(p.(views := p.views + 1), false) == p.(views := p.views + 1)
  {
    ResaveKeepsPost(p.(views := p.views + 1));
  }

  /** Saving a storable post under id, keeping the slug id already holds in a
      collection with unique slugs, succeeds and changes nothing in it. */
  lemma {:induction false} ResaveSucceeds(posts: map<PostId, Post>, id: PostId, p: Post)
    requires SlugsUnique(posts) && id in posts && p.slug == posts[id].slug && Stored(p)
    ensures Saving(posts, id, p, false) == Ok(p)
  {
    ResaveKeepsPost(p);
  }

  /** Counting a view: the save succeeds and the invariant survives. */
  lemma {:induction false} ViewStep(posts: map<PostId, Post>, n: PostId, m: CommentId, id: PostId, p: Post)
    requires StoreInv(posts, n, m) && id in posts && p == posts[id].(views := posts[id].views + 1)
    ensures Saving(posts, id, p, false) == Ok(p)
    ensures StoreInv(posts[id := p], n, m)
  {
    ViewedIsStored(posts[id]);
    ResaveSucceeds(posts, id, p);
    PutKeepsInv(posts, n, m, id, p);
  }

  /** The post collection: documents by id, and the next post id and comment
      sub-id to hand out. */
  class PostStore {
    var posts: map<PostId, Post>
    var nextId: PostId
    var nextCommentId: CommentId

    ghost predicate Valid()
      reads this
    {
      StoreInv(posts, nextId, nextCommentId)
    }

    constructor ()
      ensures Valid() && posts == map[] && nextId == 0 && nextCommentId == 0
    {
      posts := map[];
      nextId := 0;
      nextCommentId := 0;
    }

    /** getPosts. */
    function ListPosts(q: ListQuery, user: Option<Actor>): (r: Result<Listing>)
      reads this
      requires Valid()
      ensures r.Err? <==> (PageOf(q) - 1) * LimitOf(q) < 0
      ensures r.Err? ==> r.error == ServerError
      ensures r.Ok? ==> r.value.currentPage == PageOf(q)
      ensures r.Ok? ==> r.value.totalPosts == |MatchSet(posts, FilterOf(q, user))|
      ensures r.Ok? ==> r.value.totalPages == CeilDiv(r.value.totalPosts, LimitOf(q))
      ensures r.Ok? ==>
        r.value.ids == Window(Matching(posts, FilterOf(q, user), nextId), (PageOf(q) - 1) * LimitOf(q), Abs(LimitOf(q)))
      ensures r.Ok? ==> |r.value.posts| == |r.value.ids| <= Abs(LimitOf(q))
      ensures r.Ok? ==> forall k :: 0 <= k < |r.value.ids| ==>
        (r.value.ids[k] in posts && r.value.posts[k] == posts[r.value.ids[k]]
         && FilterOf(q, user).Admits(r.value.ids[k], r.value.posts[k]))
      ensures r.Ok? ==> forall j, k :: 0 <= j < k < |r.value.ids| ==> r.value.ids[j] > r.value.ids[k]
      ensures r.Ok? && q.published.None? && user.None? ==>
        forall k :: 0 <= k < |r.value.posts| ==> r.value.posts[k].published
    {
      var page := PageOf(q);
      var limit := LimitOf(q);
      var skip := (page - 1) * limit;
      if skip < 0 then Err(ServerError)
      else
        var f := FilterOf(q, user);
        var all := Matching(posts, f, nextId);
        MatchingCountsMatches(posts, f, nextId);
        var ids := Window(all, skip, Abs(limit));
        Ok(Listing(ids, Lookup(posts, ids), page, CeilDiv(|all|, limit), |all|))
    }

    /** getPostById: one more view, saved; NotFound leaves the store alone. */
    method ViewPost(id: PostId) returns (r: Result<Post>)
      requires Valid()
      modifies this
      ensures Valid() && nextId == old(nextId) && nextCommentId == old(nextCommentId)
      ensures id !in old(posts) ==> r == Err(NotFound) && posts == old(posts)
      ensures id in old(posts) ==> r == Ok(old(posts)[id].(views := old(posts)[id].views + 1))
      ensures id in old(posts) ==> posts == old(posts)[id := r.value]
    {
      if id !in posts {
        return Err(NotFound);
      }
      var post := posts[id];
      post := post.(views := post.views + 1);
      ViewStep(posts, nextId, nextCommentId, id, post);
      posts := posts[id := post];
      r := Ok(post);
    }

    /** createPost: a new post authored by the actor, under a fresh id. */
    method CreatePost(input: PostInput, actor: Actor) returns (r: Result<PostId>)
      requires Valid()
      modifies this
      ensures Valid() && nextCommentId == old(nextCommentId)
      ensures r == Err(Invalid) <==> !ValidPost(NewDocument(input, actor.id))
      ensures r == Err(DuplicateSlug) <==>
        (ValidPost(NewDocument(input, actor.id)) && !SlugFree(old(posts), old(nextId), Slugify(Trim(input.title))))
      ensures r.Err? ==> posts == old(posts) && nextId == old(nextId)
      ensures r.Ok? ==> r.value == old(nextId) && r.value !in old(posts) && nextId == old(nextId) + 1
      ensures r.Ok? ==> posts == old(posts)[r.value := PreSave(NewDocument(input, actor.id), true)]
      ensures r.Ok? ==> posts[r.value].author == actor.id && posts[r.value].views == 0
      ensures r.Ok? ==> posts[r.value].comments == []
      ensures r.Ok? ==> posts[r.value].title == Trim(input.title) && posts[r.value].slug == Slugify(Trim(input.title))
      ensures r.Ok? <==> ValidPost(NewDocument(input, actor.id)) && SlugFree(old(posts), old(nextId), Slugify(Trim(input.title)))
    {
      var doc := NewDocument(input, actor.id);
      var id := nextId;
      var saved := Saving(posts, id, doc, true);
      if saved.Err? {
        return Err(saved.error);
      }
      var post := PreSave(doc, true);
      CreateKeepsInv(posts, nextId, nextCommentId, doc);
      posts := posts[id := post];
      nextId := nextId + 1;
      r := Ok(id);
    }

    /** updatePost: author or admin only; the merged document is saved, its
      slug recomputed when the title changed. */
    method UpdatePost(id: PostId, input: PostInput, actor: Actor) returns (r: Result<Post>)
      requires Valid()
      modifies this
      ensures Valid() && nextId == old(nextId) && nextCommentId == old(nextCommentId)
      ensures r.Err? ==> posts == old(posts)
      ensures id !in old(posts) ==> r == Err(NotFound)
      ensures id in old(posts) ==>
        (r == Err(Forbidden) <==> !CanModify(actor, old(posts)[id].author))
      ensures id in old(posts) ==>
        (r == Err(Invalid) <==> CanModify(actor, old(posts)[id].author) && !ValidPost(Merge(old(posts)[id], input)))
      ensures r.Ok? ==> id in old(posts) && posts == old(posts)[id := r.value]
      ensures r.Ok? ==>
        r.value == PreSave(Merge(old(posts)[id], input), Merge(old(posts)[id], input).title != old(posts)[id].title)
      ensures r.Ok? ==> r.value.author == old(posts)[id].author && r.value.views == old(posts)[id].views
      ensures r.Ok? ==> r.value.comments == old(posts)[id].comments
      ensures r.Ok? ==>
        r.value.slug == if r.value.title != old(posts)[id].title then Slugify(r.value.title) else old(posts)[id].slug
      ensures id in old(posts) ==>
        var m := Merge(old(posts)[id], input);
        (r == Err(DuplicateSlug) <==>
          CanModify(actor, old(posts)[id].author) && ValidPost(m) && !SlugFree(old(posts), id, PreSave(m, m.title != old(posts)[id].title).slug))
      ensures r.Ok? <==>
        (id in old(posts) && CanModify(actor, old(posts)[id].author) &&
         var m := Merge(old(posts)[id], input);
         ValidPost(m) && SlugFree(old(posts), id, PreSave(m, m.title != old(posts)[id].title).slug))
    {
      if id !in posts {
        return Err(NotFound);
      }
      var post := posts[id];
      if !CanModify(actor, post.author) {
        return Err(Forbidden);
      }
      var merged := Merge(post, input);
      var saved := Saving(posts, id, merged, merged.title != post.title);
      if saved.Err? {
        return Err(saved.error);
      }
      SavingStores(posts, id, merged, merged.title != post.title);
      PutKeepsInv(posts, nextId, nextCommentId, id, saved.value);
      posts := posts[id := saved.value];
      r := saved;
    }

    /** deletePost: author or admin only; the post goes with its comments. */
    method DeletePost(id: PostId, actor: Actor) returns (r: Result<()>)
      requires Valid()
      modifies this
      ensures Valid() && nextId == old(nextId) && nextCommentId == old(nextCommentId)
      ensures id !in old(posts) ==> r == Err(NotFound)
      ensures id in old(posts) ==> (r == Err(Forbidden) <==> !CanModify(actor, old(posts)[id].author))
      ensures r.Err? ==> posts == old(posts)
      ensures r.Ok? ==> posts == old(posts) - {id}
      ensures r.Ok? <==> id in old(posts) && CanModify(actor, old(posts)[id].author)
    {
      if id !in posts {
        return Err(NotFound);
      }
      if !CanModify(actor, posts[id].author) {
        return Err(Forbidden);
      }
      RemoveKeepsInv(posts, nextId, nextCommentId, id);
      posts := posts - {id};
      r := Ok(());
    }

    /** addComment: appends one comment owned by the actor. */
    method AddComment(id: PostId, author: string, content: string, actor: Actor) returns (r: Result<Post>)
      requires Valid()
      modifies this
      ensures Valid() && nextId == old(nextId)
      ensures r.Err? ==> posts == old(posts) && nextCommentId == old(nextCommentId)
      ensures id !in old(posts) ==> r == Err(NotFound)
      ensures id in old(posts) ==>
        (r == Err(Invalid) <==> !ValidComment(NewComment(old(nextCommentId), author, content, actor.id)))
      ensures r.Ok? ==> id in old(posts) && nextCommentId == old(nextCommentId) + 1 && posts == old(posts)[id := r.value]
      ensures r.Ok? ==>
        r.value == old(posts)[id].(comments := old(posts)[id].comments + [NewComment(old(nextCommentId), author, content, actor.id)])
      ensures id in old(posts) ==> (r.Ok? <==> ValidComment(NewComment(old(nextCommentId), author, content, actor.id)))
      ensures r.Ok? ==> |r.value.comments| == |old(posts)[id].comments| + 1
      ensures r.Ok? ==> r.value.comments[..|old(posts)[id].comments|] == old(posts)[id].comments
      ensures r.Ok? ==> var c := r.value.comments[|r.value.comments| - 1];
        c.user == actor.id && c.author == Trim(author) && c.content == Trim(content)
    {
      if id !in posts {
        return Err(NotFound);
      }
      var post := posts[id];
      var c := NewComment(nextCommentId, author, content, actor.id);
      var doc := post.(comments := post.comments + [c]);
      AppendedComment(post, c, nextCommentId);
      var saved := Saving(posts, id, doc, false);
      if saved.Err? {
        return Err(saved.error);
      }
      assert saved.value == doc;
      GrowKeepsInv(posts, nextId, nextCommentId, nextId, nextCommentId + 1);
      PutKeepsInv(posts, nextId, nextCommentId + 1, id, doc);
      posts := posts[id := doc];
      nextCommentId := nextCommentId + 1;
      r := Ok(doc);
    }

    /** deleteComment: the comment's owner or an admin (not the post's author)
      removes exactly that comment. */
    method DeleteComment(id: PostId, cid: CommentId, actor: Actor) returns (r: Result<()>)
      requires Valid()
      modifies this
      ensures Valid() && nextId == old(nextId) && nextCommentId == old(nextCommentId)
      ensures r.Err? ==> posts == old(posts)
      ensures id !in old(posts) ==> r == Err(NotFound)
      ensures id in old(posts) && CommentIndex(old(posts)[id].comments, cid).None? ==> r == Err(NotFound)
      ensures id in old(posts) && CommentIndex(old(posts)[id].comments, cid).Some? ==>
        (r == Err(Forbidden) <==>
         !CanModify(actor, old(posts)[id].comments[CommentIndex(old(posts)[id].comments, cid).value].user))
      ensures r.Ok? <==>
        (id in old(posts) && CommentIndex(old(posts)[id].comments, cid).Some?
         && CanModify(actor, old(posts)[id].comments[CommentIndex(old(posts)[id].comments, cid).value].user))
      ensures r.Ok? ==>
        posts == old(posts)[id := old(posts)[id].(comments :=
          RemoveAt(old(posts)[id].comments, CommentIndex(old(posts)[id].comments, cid).value))]
    {
      if id !in posts {
        return Err(NotFound);
      }
      var post := posts[id];
      var i := FindComment(post.comments, cid);
      if i.None? {
        return Err(NotFound);
      }
      if !CanModify(actor, post.comments[i.value].user) {
        return Err(Forbidden);
      }
      var doc := post.(comments := RemoveAt(post.comments, i.value));
      RemovedComment(post, cid, nextCommentId);
      assert Saving(posts, id, doc, false) == Ok(doc);
      PutKeepsInv(posts, nextId, nextCommentId, id, doc);
      posts := posts[id := doc];
      r := Ok(());
    }
  }

  /** Appending a comment keeps a stored post valid exactly when the comment
      is valid, and a fresh sub-id keeps the sub-ids distinct. */
  lemma {:induction false} AppendedComment(p: Post, c: Comment, m: CommentId)
    requires Stored(p) && CommentIdsBelow(p.comments, m) && c.id == m
    ensures var d := p.(comments := p.comments + [c]);
      && (ValidPost(d) <==> ValidComment(c))
      && CommentIdsDistinct(d.comments) && CommentIdsBelow(d.comments, m + 1)
      && IsSlug(d.slug) && PreSave(d, false) == d
  {
    var d := p.(comments := p.comments + [c]);
    assert forall i :: 0 <= i < |p.comments| ==> d.comments[i] == p.comments[i];
    assert d.comments[|p.comments|] == c;
  }

  /** Removing a comment keeps a stored post stored. */
  lemma {:induction false} RemovedComment(p: Post, cid: CommentId, m: CommentId)
    requires Stored(p) && CommentIdsBelow(p.comments, m) && CommentIndex(p.comments, cid).Some?
    ensures var d := p.(comments := RemoveAt(p.comments, CommentIndex(p.comments, cid).value));
      Stored(d) && CommentIdsBelow(d.comments, m) && PreSave(d, false) == d
  {
    var i := CommentIndex(p.comments, cid).value;
    var cs := p.comments;
    var r := RemoveAt(cs, i);
    var d := p.(comments := r);
    forall j | 0 <= j < |r| ensures ValidComment(r[j]) && r[j].id < m {
      if j < i { assert r[j] == cs[j]; } else { assert r[j] == cs[j + 1]; }
    }
    DistinctAfterRemove(cs, i);
    assert ValidPost(d);
    ResaveKeepsPost(d);
  }
}
