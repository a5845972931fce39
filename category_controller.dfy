/** The category request handlers: listing by name, fetching with the number
    of posts filed under a category, creating, updating and deleting, the last
    guarded by the posts that still refer to the category. */
module CategoryController {
  import opened Common
  import opened PostModel

  /** A category document: a unique name and a description; an empty
      description stands for an unset one. */
  datatype Category = Category(name: string, description: string)

  /** What getCategoryById answers: the category and its post count. */
  datatype CategoryView = CategoryView(category: Category, postsCount: nat)

  // ------------------------------------------------------------ ordering

  /** The database's default string order: lexicographic on code points
      (the order of their UTF-8 bytes), a proper prefix first. */
  predicate NameLe(a: string, b: string) {
    a == [] || (b != [] && (a[0] < b[0] || (a[0] == b[0] && NameLe(a[1..], b[1..]))))
  }

  predicate NameLt(a: string, b: string) {
    NameLe(a, b) && a != b
  }

  lemma {:induction false} NameLeTotal(a: string, b: string)
    ensures NameLe(a, b) || NameLe(b, a)
  {
    if a != [] && b != [] && a[0] == b[0] {
      NameLeTotal(a[1..], b[1..]);
    }
  }

  lemma {:induction false} NameLeAntisymmetric(a: string, b: string)
    requires NameLe(a, b) && NameLe(b, a)
    ensures a == b
  {
    if a != [] && b != [] {
      NameLeAntisymmetric(a[1..], b[1..]);
      assert a == [a[0]] + a[1..] && b == [b[0]] + b[1..];
    }
  }

  lemma {:induction false} NameLeTransitive(a: string, b: string, c: string)
    requires NameLe(a, b) && NameLe(b, c)
    ensures NameLe(a, c)
  {
    if a != [] && b != [] && c != [] && a[0] == b[0] && b[0] == c[0] {
      NameLeTransitive(a[1..], b[1..], c[1..]);
    }
  }

  lemma NameLtTransitive(a: string, b: string, c: string)
    requires NameLt(a, b) && NameLt(b, c)
    ensures NameLt(a, c)
  {
    NameLeTransitive(a, b, c);
    if a == c {
      NameLeAntisymmetric(a, b);
    }
  }

  /** Two different names are ordered one way or the other. */
  lemma NameLtConnected(a: string, b: string)
    requires a != b
    ensures NameLt(a, b) <==> !NameLt(b, a)
  {
    NameLeTotal(a, b);
    if NameLt(a, b) && NameLt(b, a) {
      NameLeAntisymmetric(a, b);
    }
  }

  /** The ids of a listing, each a category, in strictly increasing name order. */
  predicate SortedByName(categories: map<CategoryId, Category>, ids: seq<CategoryId>) {
    && (forall k :: 0 <= k < |ids| ==> ids[k] in categories)
    && (forall j, k :: 0 <= j < k < |ids| ==> NameLt(categories[ids[j]].name, categories[ids[k]].name))
  }

  // ------------------------------------------------------- post counting

  /** The posts filed under category c. */
  function PostsIn(posts: map<PostId, Post>, c: CategoryId): set<PostId> {
    set id | id in posts && posts[id].category == Some(c)
  }

  /** Post.countDocuments({ category: c }): positive exactly when some post
      refers to c. */
  function PostsCount(posts: map<PostId, Post>, c: CategoryId): (r: nat)
    ensures r > 0 <==> exists id :: id in posts && posts[id].category == Some(c)
  {
    var s := PostsIn(posts, c);
    if s != {} then
      var id :| id in s;
      assert id in posts && posts[id].category == Some(c);
      |s|
    else
      assert forall id :: id in posts && posts[id].category == Some(c) ==> id in s;
      |s|
  }

  /** Removing a post from the count lowers it by one exactly when that post
      is filed under c. */
  lemma PostsCountRemove(posts: map<PostId, Post>, c: CategoryId, id: PostId)
    requires id in posts
    ensures PostsCount(posts - {id}, c) == PostsCount(posts, c) - (if posts[id].category == Some(c) then 1 else 0)
  {
    if posts[id].category == Some(c) {
      assert PostsIn(posts, c) == PostsIn(posts - {id}, c) + {id};
    } else {
      assert PostsIn(posts, c) == PostsIn(posts - {id}, c);
    }
  }

  /** No name is held by two categories. */
  predicate NamesUnique(categories: map<CategoryId, Category>) {
    forall a, b :: a in categories && b in categories && a != b ==> categories[a].name != categories[b].name
  }

  /** Some category other than id holds the name. */
  predicate NameTaken(categories: map<CategoryId, Category>, name: string, except: Option<CategoryId>) {
    exists other :: other in categories && Some(other) != except && categories[other].name == name
  }

  /** The field-by-field update: name and description are replaced only by
      truthy (non-empty) values. */
  function MergeCategory(c: Category, name: string, description: string): (r: Category)
    ensures name == "" ==> r.name == c.name
    ensures name != "" ==> r.name == name
    ensures description == "" ==> r.description == c.description
    ensures description != "" ==> r.description == description
  {
    Category(if name != "" then name else c.name, if description != "" then description else c.description)
  }

  /** Updating twice with the same request is updating once. */
  lemma MergeCategoryIdempotent(c: Category, name: string, description: string)
    ensures MergeCategory(MergeCategory(c, name, description), name, description) == MergeCategory(c, name, description)
  {
  }

  /** The category collection: documents by id and the next id to hand out. */
  class CategoryStore {
    var categories: map<CategoryId, Category>
    var nextId: CategoryId

    ghost predicate Valid()
      reads this
    {
      && (forall id :: id in categories ==> id < nextId)
      && NamesUnique(categories)
    }

    constructor ()
      ensures Valid() && categories == map[] && nextId == 0
    {
      categories := map[];
      nextId := 0;
    }

    /** getCategories: every category once, in ascending name order. */
    method ListCategories() returns (ids: seq<CategoryId>)
      requires Valid()
      ensures SortedByName(categories, ids)
      ensures forall id :: id in categories <==> id in ids
      ensures |ids| == |categories|
    {
      var rest := categories.Keys;
      ids := [];
      while rest != {}
        invariant ListedSoFar(categories, ids, rest)
        decreases |rest|
      {
        var id :| id in rest;
        var i := InsertionPoint(categories, ids, categories[id].name);
        InsertStep(categories, ids, rest, id, i);
        ids := ids[..i] + [id] + ids[i..];
        rest := rest - {id};
      }
    }

    /** getCategoryById: the category with the number of posts filed under it. */
    function GetCategory(id: CategoryId, posts: map<PostId, Post>): (r: Result<CategoryView>)
      reads this
      ensures r.Err? <==> id !in categories
      ensures r.Err? ==> r.error == NotFound
      ensures r.Ok? ==> r.value.category == categories[id]
      ensures r.Ok? ==> (r.value.postsCount > 0 <==> exists pid :: pid in posts && posts[pid].category == Some(id))
      ensures r.Ok? ==> r.value.postsCount == |PostsIn(posts, id)|
    {
      if id !in categories then Err(NotFound)
      else Ok(CategoryView(categories[id], PostsCount(posts, id)))
    }

    /** createCategory: refused while the name is taken; otherwise exactly one
      category is added, under a fresh id. */
    method CreateCategory(name: string, description: string) returns (r: Result<CategoryId>)
      requires Valid()
      modifies this
      ensures Valid()
      ensures r.Err? <==> NameTaken(old(categories), name, None)
      ensures r.Err? ==> r.error == CategoryExists && categories == old(categories) && nextId == old(nextId)
      ensures r.Ok? ==> r.value == old(nextId) && r.value !in old(categories) && nextId == old(nextId) + 1
      ensures r.Ok? ==> categories == old(categories)[r.value := Category(name, description)]
    {
      if exists other :: other in categories && categories[other].name == name {
        return Err(CategoryExists);
      }
      var id := nextId;
      categories := categories[id := Category(name, description)];
      nextId := nextId + 1;
      r := Ok(id);
    }

    /** updateCategory: the truthy-only merge, refused when the merged name is
      another category's; on any error nothing changes. */
    method UpdateCategory(id: CategoryId, name: string, description: string) returns (r: Result<Category>)
      requires Valid()
      modifies this
      ensures Valid() && nextId == old(nextId)
      ensures r.Err? ==> categories == old(categories)
      ensures id !in old(categories) ==> r == Err(NotFound)
      ensures id in old(categories) ==>
        (r == Err(CategoryNameExists) <==> NameTaken(old(categories), MergeCategory(old(categories)[id], name, description).name, Some(id)))
      ensures r.Ok? ==> id in old(categories) && r.value == MergeCategory(old(categories)[id], name, description)
      ensures r.Ok? ==> categories == old(categories)[id := r.value]
      ensures r.Ok? <==>
        id in old(categories) && !NameTaken(old(categories), MergeCategory(old(categories)[id], name, description).name, Some(id))
    {
      if id !in categories {
        return Err(NotFound);
      }
      var merged := MergeCategory(categories[id], name, description);
      if exists other :: other in categories && other != id && categories[other].name == merged.name {
        return Err(CategoryNameExists);
      }
      categories := categories[id := merged];
      r := Ok(merged);
    }

    /** deleteCategory: refused, with the count, while posts are filed under
      the category; otherwise the category goes. A category that a post
      refers to is never deleted. */
    method DeleteCategory(id: CategoryId, posts: map<PostId, Post>) returns (r: Result<()>)
      requires Valid()
      modifies this
      ensures Valid() && nextId == old(nextId)
      ensures id !in old(categories) ==> r == Err(NotFound)
      ensures id in old(categories) && PostsCount(posts, id) > 0 ==> r == Err(CategoryInUse(PostsCount(posts, id)))
      ensures r.Err? ==> categories == old(categories)
      ensures r.Ok? <==> id in old(categories) && PostsCount(posts, id) == 0
      ensures r.Ok? ==> categories == old(categories) - {id}
      ensures forall pid :: (pid in posts && posts[pid].category.Some? && posts[pid].category.value in old(categories)) ==>
        posts[pid].category.value in categories
    {
      if id !in categories {
        return Err(NotFound);
      }
      var count := PostsCount(posts, id);
      if count > 0 {
        return Err(CategoryInUse(count));
      }
      categories := categories - {id};
      r := Ok(());
    }
  }

  /** The first position of a listing whose name is not below name: every
      name before it is smaller. */
  method InsertionPoint(categories: map<CategoryId, Category>, ids: seq<CategoryId>, name: string) returns (i: nat)
    requires forall k :: 0 <= k < |ids| ==> ids[k] in categories
    ensures i <= |ids|
    ensures forall j :: 0 <= j < i ==> NameLt(categories[ids[j]].name, name)
    ensures i < |ids| ==> !NameLt(categories[ids[i]].name, name)
  {
    i := 0;
    while i < |ids| && NameLt(categories[ids[i]].name, name)
      invariant i <= |ids|
      invariant forall j :: 0 <= j < i ==> NameLt(categories[ids[j]].name, name)
    {
      i := i + 1;
    }
  }

  /** A listing under construction: the ids listed so far, sorted, and the
      ids still to place, together every category once. */
  ghost predicate ListedSoFar(categories: map<CategoryId, Category>, ids: seq<CategoryId>, rest: set<CategoryId>) {
    && rest <= categories.Keys
    && (forall id :: id in categories <==> id in ids || id in rest)
    && (forall k :: 0 <= k < |ids| ==> ids[k] !in rest)
    && SortedByName(categories, ids)
    && |ids| + |rest| == |categories|
  }

  /** Placing one more id at its insertion point keeps the listing under
      construction well formed. */
  lemma InsertStep(categories: map<CategoryId, Category>, ids: seq<CategoryId>, rest: set<CategoryId>, id: CategoryId, i: nat)
    requires NamesUnique(categories) && ListedSoFar(categories, ids, rest) && id in rest
    requires i <= |ids|
    requires forall j :: 0 <= j < i ==> NameLt(categories[ids[j]].name, categories[id].name)
    requires i < |ids| ==> !NameLt(categories[ids[i]].name, categories[id].name)
    ensures ListedSoFar(categories, ids[..i] + [id] + ids[i..], rest - {id})
  {
    var next := ids[..i] + [id] + ids[i..];
    InsertKeepsSorted(categories, ids, id, i);
    assert forall x :: x in next <==> x in ids || x == id;
    assert forall k :: 0 <= k < |next| ==> next[k] in ids || next[k] == id;
  }

  /** Inserting id at position i of a sorted listing, where every name before
      i is smaller and the name at i is not, keeps it sorted. */
  lemma InsertKeepsSorted(categories: map<CategoryId, Category>, ids: seq<CategoryId>, id: CategoryId, i: nat)
    requires NamesUnique(categories) && SortedByName(categories, ids)
    requires id in categories && i <= |ids| && (forall k :: 0 <= k < |ids| ==> ids[k] != id)
    requires forall j :: 0 <= j < i ==> NameLt(categories[ids[j]].name, categories[id].name)
    requires i < |ids| ==> !NameLt(categories[ids[i]].name, categories[id].name)
    ensures SortedByName(categories, ids[..i] + [id] + ids[i..])
  {
    var name := categories[id].name;
    var s := ids[..i] + [id] + ids[i..];
    forall k | i <= k < |ids| ensures NameLt(name, categories[ids[k]].name) {
      NameLtConnected(name, categories[ids[i]].name);
      if k > i {
        NameLtTransitive(name, categories[ids[i]].name, categories[ids[k]].name);
      }
    }
    forall j, k | 0 <= j < k < |s| ensures NameLt(categories[s[j]].name, categories[s[k]].name) {
      if k < i {
        assert s[j] == ids[j] && s[k] == ids[k];
      } else if k == i {
        assert s[j] == ids[j];
      } else if j < i {
        assert s[j] == ids[j] && s[k] == ids[k - 1];
        NameLtTransitive(categories[ids[j]].name, name, categories[ids[k - 1]].name);
      } else if j == i {
        assert s[k] == ids[k - 1];
      } else {
        assert s[j] == ids[j - 1] && s[k] == ids[k - 1];
      }
    }
  }
}
