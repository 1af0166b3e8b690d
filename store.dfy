/**
 * The blog's request handlers (posts/views.py) over an in-memory store of
 * users, groups, posts, comments and follow edges, and the store's delete
 * rules (the `on_delete` behaviour declared in posts/models.py).
 *
 * Posts and comments are kept newest first and groups by title, so every
 * listing a view takes from the store is already in its model's ordering.
 * Timestamps come from a counter that every creation advances.
 */
module Blog {
  import opened Wrappers
  import opened Text
  import opened Models
  import opened Pagination

  /** The requesting user: anonymous, or a registered user by username. */
  datatype Caller = Anonymous | Authenticated(username: Username)

  /** Named routes a handler redirects to; the login page carries its `next` target. */
  datatype Route =
    | IndexPage
    | ProfilePage(username: Username)
    | PostDetailPage(postId: nat)
    | AddCommentPage(postId: nat)
    | FollowIndexPage
    | ProfileFollowPage(username: Username)
    | ProfileUnfollowPage(username: Username)
    | LoginPage(next: Route)

  /** The template context a rendered page receives. */
  datatype Context =
    | FeedContext(pageObj: seq<Post>)
    | GroupContext(pageObj: seq<Post>, group: Group)
    | ProfileContext(pageObj: seq<Post>, author: Username, following: Option<bool>, myself: bool)
    | DetailContext(post: Post, title: string, comments: seq<Comment>)
    | PostFormContext(title: string, isEdit: bool)

  /** Exceptions a handler lets escape. */
  datatype Error = DoesNotExist | MultipleObjectsReturned

  datatype Outcome = Rendered(context: Context) | Redirect(to: Route) | NotFound | Raised(error: Error)

  /** The fields a post form submits. */
  datatype PostFields = PostFields(text: string, group: Option<nat>, image: Option<string>)

  /**
   * A form: unbound (no POST data), or bound to submitted data together with
   * the form library's own verdict on it (`accepted`).
   */
  datatype Form<T> = Unbound | Bound(data: T, accepted: bool)

  const CreatePostTitle: string := "Новый пост"
  const EditPostTitle: string := "Редактировать пост"
  const DetailTitleLength: nat := 30

  function GroupIds(groups: seq<Group>): set<nat>
  {
    set g | g in groups :: g.id
  }

  function PostIds(posts: seq<Post>): set<nat>
  {
    set p | p in posts :: p.id
  }

  // ----- Queries -----

  function ByAuthor(u: Username): Post -> bool { (p: Post) => p.author == u }
  function NotByAuthor(u: Username): Post -> bool { (p: Post) => p.author != u }
  function ByAuthorIn(authors: set<Username>): Post -> bool { (p: Post) => p.author in authors }
  function InGroup(gid: nat): Post -> bool { (p: Post) => p.group == Some(gid) }
  function NotPost(pid: nat): Post -> bool { (p: Post) => p.id != pid }
  function OnPost(pid: nat): Comment -> bool { (c: Comment) => c.post == pid }
  function NotOnPost(pid: nat): Comment -> bool { (c: Comment) => c.post != pid }
  function FollowsBy(u: Username): Follow -> bool { (f: Follow) => f.user == u }
  function NotEdge(u: Username, a: Username): Follow -> bool { (f: Follow) => f != Follow(u, a) }
  function NotTouching(u: Username): Follow -> bool { (f: Follow) => f.user != u && f.author != u }
  function NotGroup(gid: nat): Group -> bool { (g: Group) => g.id != gid }

  /** `Post.objects.get(id=...)`: the post with that id, if any. */
  function FindPost(posts: seq<Post>, id: nat): (r: Option<Post>)
    ensures r.Some? ==> r.value in posts && r.value.id == id
    ensures r.None? <==> id !in PostIds(posts)
  {
    if posts == [] then None
    else if posts[0].id == id then Some(posts[0])
    else
      assert posts == [posts[0]] + posts[1..];
      assert PostIds(posts) == {posts[0].id} + PostIds(posts[1..]);
      FindPost(posts[1..], id)
  }

  /** A group with that slug, if any. */
  function FindGroup(groups: seq<Group>, slug: string): (r: Option<Group>)
    ensures r.Some? ==> r.value in groups && r.value.slug == slug
    ensures r.None? ==> forall g :: g in groups ==> g.slug != slug
  {
    if groups == [] then None
    else if groups[0].slug == slug then Some(groups[0])
    else
      assert groups == [groups[0]] + groups[1..];
      FindGroup(groups[1..], slug)
  }

  /** With distinct keys, the post found is the only one with that id. */
  lemma FindPostUnique(posts: seq<Post>, p: Post)
    requires Pairwise(posts, Newer) && p in posts
    ensures FindPost(posts, p.id) == Some(p)
  {
    var q := FindPost(posts, p.id).value;
    var i :| 0 <= i < |posts| && posts[i] == p;
    var j :| 0 <= j < |posts| && posts[j] == q;
    forall a, b | 0 <= a < |posts| && 0 <= b < |posts| && a != b ensures posts[a].id != posts[b].id {
      if a < b {
        assert Newer(posts[a], posts[b]);
      } else {
        assert Newer(posts[b], posts[a]);
      }
    }
  }

  // ----- Pure parts of the views -----

  /** The `title` of a post detail page: the first 30 characters of the text. */
  function DetailTitle(p: Post): (r: string)
    ensures r <= p.text && |r| == Min(DetailTitleLength, |p.text|)
  {
    Prefix(p.text, DetailTitleLength)
  }

  /**
   * The `following` and `myself` flags of a profile page: `following` is
   * None for an anonymous caller and otherwise tells whether the caller
   * follows the author; `myself` tells whether the caller is the author.
   */
  function ProfileFlags(follows: seq<Follow>, caller: Caller, author: Username): (flags: (Option<bool>, bool))
    ensures flags.0.None? <==> caller.Anonymous?
    ensures caller.Authenticated? ==> (flags.0 == Some(true) <==> Follow(caller.username, author) in follows)
    ensures flags.1 <==> caller == Authenticated(author)
  {
    var following := if caller.Authenticated? then Some(Follow(caller.username, author) in follows) else None;
    (following, caller == Authenticated(author))
  }

  /** The authors `u` follows. */
  function FollowedAuthors(follows: seq<Follow>, u: Username): set<Username>
  {
    set f | f in follows && f.user == u :: f.author
  }

  /** The posts of the follow feed of `u`: those whose author `u` follows, newest first. */
  function FollowFeed(posts: seq<Post>, follows: seq<Follow>, u: Username): (r: seq<Post>)
    ensures |r| <= |posts|
    ensures forall p :: p in r <==> p in posts && p.author in FollowedAuthors(follows, u)
  {
    Filter(posts, ByAuthorIn(FollowedAuthors(follows, u)))
  }

  /** How many (user, author) edges there are. */
  function EdgeCount(follows: seq<Follow>, u: Username, a: Username): nat
  {
    multiset(follows)[Follow(u, a)]
  }

  /** The follow edges after a successful `profile_follow`: get-or-create, skipped for oneself. */
  function AfterFollow(follows: seq<Follow>, u: Username, a: Username): (r: seq<Follow>)
    ensures follows <= r && |r| <= |follows| + 1
    ensures Follow(u, a) in r <==> u != a || Follow(u, a) in follows
  {
    if u == a || Follow(u, a) in follows then follows else follows + [Follow(u, a)]
  }

  /** The follow edges after `profile_unfollow`: every (user, author) edge deleted. */
  function AfterUnfollow(follows: seq<Follow>, u: Username, a: Username): (r: seq<Follow>)
    ensures |r| <= |follows|
    ensures forall f :: f in r <==> f in follows && f != Follow(u, a)
  {
    Filter(follows, NotEdge(u, a))
  }

  /** The post a valid create form saves: the caller's, stamped now; files are not passed on create. */
  function NewPost(id: nat, data: PostFields, date: nat, author: Username): Post
  {
    Post(id, data.text, date, author, data.group, None)
  }

  /**
   * A post after a valid edit form: new text and group, and the sent image if
   * there is one; key, date and author are kept.
   */
  function Edited(p: Post, data: PostFields): (r: Post)
    ensures r.id == p.id && r.pubDate == p.pubDate && r.author == p.author
    ensures r.text == data.text && r.group == data.group
    ensures data.image.Some? ==> r.image == data.image
    ensures data.image.None? ==> r.image == p.image
  {
    p.(text := data.text, group := data.group, image := if data.image.Some? then data.image else p.image)
  }

  /** The posts after editing the post `id`. */
  function EditPosts(posts: seq<Post>, id: nat, data: PostFields): (r: seq<Post>)
    ensures |r| == |posts|
    ensures forall i :: 0 <= i < |posts| && posts[i].id != id ==> r[i] == posts[i]
    ensures forall i :: 0 <= i < |posts| && posts[i].id == id ==> r[i].id == id && r[i].text == data.text
  {
    seq(|posts|, i requires 0 <= i < |posts| => if posts[i].id == id then Edited(posts[i], data) else posts[i])
  }

  /** A post form passes validation: accepted, non-empty text, and an existing group if one is chosen. */
  predicate PostFormValid(groups: seq<Group>, form: Form<PostFields>)
  {
    form.Bound? && form.accepted && |form.data.text| > 0
    && (form.data.group.Some? ==> form.data.group.value in GroupIds(groups))
  }

  /** A comment form passes validation: accepted, with non-empty text. */
  predicate CommentFormValid(form: Form<string>)
  {
    form.Bound? && form.accepted && |form.data| > 0
  }

  /** Posts whose group was deleted: `group` set to null, everything else kept. */
  function Unlink(posts: seq<Post>, gid: nat): (r: seq<Post>)
    ensures |r| == |posts|
    ensures forall i :: 0 <= i < |posts| ==> r[i].group != Some(gid) && r[i].id == posts[i].id
  {
    seq(|posts|, i requires 0 <= i < |posts| => if posts[i].group == Some(gid) then posts[i].(group := None) else posts[i])
  }

  /** The ids of the posts of `u`, which a deletion of `u` removes. */
  function PostIdsBy(posts: seq<Post>, u: Username): set<nat>
  {
    set p | p in posts && p.author == u :: p.id
  }

  /** A comment outlives the deletion of `u` unless `u` wrote it or it is on a removed post. */
  function CommentOutlives(u: Username, removed: set<nat>): Comment -> bool
  {
    (c: Comment) => c.author != u && c.post !in removed
  }

  // ----- Store invariants -----

  ghost predicate GroupsValid(groups: seq<Group>, nextGroupId: nat)
  {
    && Pairwise(groups, TitleOrder)
    && Pairwise(groups, GroupsDiffer)
    && forall g :: g in groups ==> GroupFieldsValid(g) && g.id < nextGroupId
  }

  ghost predicate PostValid(p: Post, users: set<Username>, groups: seq<Group>, clock: nat, nextPostId: nat)
  {
    && p.author in users && |p.text| > 0 && p.pubDate < clock && p.id < nextPostId
    && (p.group.Some? ==> p.group.value in GroupIds(groups))
  }

  ghost predicate PostsValid(posts: seq<Post>, users: set<Username>, groups: seq<Group>, clock: nat, nextPostId: nat)
  {
    Pairwise(posts, Newer) && forall p :: p in posts ==> PostValid(p, users, groups, clock, nextPostId)
  }

  ghost predicate CommentValid(c: Comment, users: set<Username>, posts: seq<Post>, clock: nat, nextCommentId: nat)
  {
    c.author in users && c.post in PostIds(posts) && |c.text| > 0 && c.created < clock && c.id < nextCommentId
  }

  ghost predicate CommentsValid(comments: seq<Comment>, users: set<Username>, posts: seq<Post>, clock: nat, nextCommentId: nat)
  {
    Pairwise(comments, NewerComment) && forall c :: c in comments ==> CommentValid(c, users, posts, clock, nextCommentId)
  }

  ghost predicate FollowsValid(follows: seq<Follow>, users: set<Username>)
  {
    forall f :: f in follows ==> f.user in users && f.author in users
  }

  ghost predicate StoreValid(users: set<Username>, groups: seq<Group>, posts: seq<Post>, comments: seq<Comment>,
                             follows: seq<Follow>, clock: nat, nextGroupId: nat, nextPostId: nat, nextCommentId: nat)
  {
    && GroupsValid(groups, nextGroupId)
    && PostsValid(posts, users, groups, clock, nextPostId)
    && CommentsValid(comments, users, posts, clock, nextCommentId)
    && FollowsValid(follows, users)
  }

  // ----- The store -----

  class Store {
    var users: set<Username>
    var groups: seq<Group>
    var posts: seq<Post>
    var comments: seq<Comment>
    var follows: seq<Follow>
    var clock: nat
    var nextGroupId: nat
    var nextPostId: nat
    var nextCommentId: nat

    /** Every reference points at a stored row, and every table is in its model's ordering. */
    ghost predicate Valid()
      reads this
    {
      StoreValid(users, groups, posts, comments, follows, clock, nextGroupId, nextPostId, nextCommentId)
    }

    /** An authenticated caller is a registered user. */
    predicate Known(caller: Caller)
      reads this
    {
      caller.Authenticated? ==> caller.username in users
    }

    constructor()
      ensures Valid()
      ensures users == {} && groups == [] && posts == [] && comments == [] && follows == []
    {
      users, groups, posts, comments, follows := {}, [], [], [], [];
      clock, nextGroupId, nextPostId, nextCommentId := 0, 0, 0, 0;
    }

    /** Registers a user; usernames are unique. */
    method AddUser(name: Username) returns (added: bool)
      requires Valid()
      modifies this
      ensures Valid()
      ensures added <==> name !in old(users)
      ensures users == old(users) + {name}
      ensures groups == old(groups) && posts == old(posts) && comments == old(comments) && follows == old(follows)
      ensures clock == old(clock) && nextGroupId == old(nextGroupId)
      ensures nextPostId == old(nextPostId) && nextCommentId == old(nextCommentId)
    {
      added := name !in users;
      users := users + {name};
    }

    /** Saves a new group, refused when a field is invalid or the slug is taken. */
    method AddGroup(title: string, slug: string, description: Option<string>) returns (r: Result<nat>)
      requires Valid()
      modifies this
      ensures Valid()
      ensures r.Ok? <==> GroupFieldsValid(Group(old(nextGroupId), title, slug, description))
                         && forall g :: g in old(groups) ==> g.slug != slug
      ensures r.Ok? ==> r.value == old(nextGroupId)
                        && multiset(groups) == multiset(old(groups)) + multiset{Group(r.value, title, slug, description)}
                        && nextGroupId == old(nextGroupId) + 1
      ensures r.Err? ==> groups == old(groups) && nextGroupId == old(nextGroupId)
      ensures users == old(users) && posts == old(posts) && comments == old(comments) && follows == old(follows)
      ensures clock == old(clock) && nextPostId == old(nextPostId) && nextCommentId == old(nextCommentId)
    {
      var g := Group(nextGroupId, title, slug, description);
      if !GroupFieldsValid(g) {
        return Err("invalid field");
      }
      if FindGroup(groups, slug).Some? {
        return Err("slug already exists");
      }
      var gs := InsertByTitle(groups, g);
      AddGroupKeepsValid(users, groups, posts, comments, follows, clock, nextGroupId, nextPostId, nextCommentId, g);
      groups := gs;
      nextGroupId := nextGroupId + 1;
      r := Ok(g.id);
    }

    /** `index`: a page of all posts, newest first. */
    function Index(page: Option<int>): (out: Outcome)
      reads this
      requires Valid()
      ensures out.Rendered? && out.context.FeedContext?
      ensures out.context.pageObj == GetPage(posts, page)
      ensures |out.context.pageObj| <= NumberDisplayedPosts
      ensures Pairwise(out.context.pageObj, Newer)
      ensures forall p :: p in out.context.pageObj ==> p in posts
    {
      PageKeepsPairwise(posts, page, Newer);
      PageFromItems(posts, page);
      Rendered(FeedContext(GetPage(posts, page)))
    }

    /** `group_posts`: a page of the group's posts, or not found for an unknown slug. */
    function GroupPosts(slug: string, page: Option<int>): (out: Outcome)
      reads this
      requires Valid()
      ensures out.NotFound? <==> forall g :: g in groups ==> g.slug != slug
      ensures out.Rendered? ==>
        && out.context.GroupContext? && out.context.group in groups && out.context.group.slug == slug
        && out.context.pageObj == GetPage(Filter(posts, InGroup(out.context.group.id)), page)
        && |out.context.pageObj| <= NumberDisplayedPosts
        && Pairwise(out.context.pageObj, Newer)
        && forall p :: p in out.context.pageObj ==> p in posts && p.group == Some(out.context.group.id)
      ensures out.NotFound? || out.Rendered?
    {
      match FindGroup(groups, slug)
      case None => NotFound
      case Some(g) =>
        var list := Filter(posts, InGroup(g.id));
        FilterKeepsPairwise(posts, InGroup(g.id), Newer);
        PageKeepsPairwise(list, page, Newer);
        PageFromItems(list, page);
        Rendered(GroupContext(GetPage(list, page), g))
    }

    /** `profile`: a page of the author's posts with the caller's flags, or not found for an unknown user. */
    function Profile(caller: Caller, username: Username, page: Option<int>): (out: Outcome)
      reads this
      requires Valid()
      ensures out.NotFound? <==> username !in users
      ensures out.Rendered? ==>
        && out.context.ProfileContext? && out.context.author == username
        && out.context.pageObj == GetPage(Filter(posts, ByAuthor(username)), page)
        && |out.context.pageObj| <= NumberDisplayedPosts
        && Pairwise(out.context.pageObj, Newer)
        && (forall p :: p in out.context.pageObj ==> p in posts && p.author == username)
        && (out.context.following.None? <==> caller.Anonymous?)
        && (caller.Authenticated? ==>
              (out.context.following == Some(true) <==> Follow(caller.username, username) in follows))
        && (out.context.myself <==> caller == Authenticated(username))
      ensures out.NotFound? || out.Rendered?
    {
      if username !in users then NotFound
      else
        var list := Filter(posts, ByAuthor(username));
        FilterKeepsPairwise(posts, ByAuthor(username), Newer);
        PageKeepsPairwise(list, page, Newer);
        PageFromItems(list, page);
        var flags := ProfileFlags(follows, caller, username);
        Rendered(ProfileContext(GetPage(list, page), username, flags.0, flags.1))
    }

    /** `post_detail`: the post, its title and all of its comments newest first, or not found. */
    function PostDetail(postId: nat): (out: Outcome)
      reads this
      requires Valid()
      ensures out.NotFound? <==> postId !in PostIds(posts)
      ensures out.Rendered? ==>
        && out.context.DetailContext? && out.context.post in posts && out.context.post.id == postId
        && out.context.title <= out.context.post.text
        && |out.context.title| == Min(DetailTitleLength, |out.context.post.text|)
        && Pairwise(out.context.comments, NewerComment)
        && forall c :: c in out.context.comments <==> c in comments && c.post == postId
      ensures out.NotFound? || out.Rendered?
    {
      match FindPost(posts, postId)
      case None => NotFound
      case Some(p) =>
        FilterKeepsPairwise(comments, OnPost(postId), NewerComment);
        Rendered(DetailContext(p, DetailTitle(p), Filter(comments, OnPost(postId))))
    }

    /** `post_create`: saves a valid form as the caller's post; anonymous callers go to the index. */
    method CreatePost(caller: Caller, form: Form<PostFields>) returns (out: Outcome)
      requires Valid() && Known(caller)
      modifies this
      ensures Valid()
      ensures users == old(users) && groups == old(groups) && comments == old(comments) && follows == old(follows)
      ensures nextGroupId == old(nextGroupId) && nextCommentId == old(nextCommentId)
      ensures caller.Anonymous? ==> out == Redirect(IndexPage) && posts == old(posts)
      ensures caller.Authenticated? && !PostFormValid(groups, form) ==>
        out == Rendered(PostFormContext(CreatePostTitle, false)) && posts == old(posts)
      ensures caller.Authenticated? && PostFormValid(groups, form) ==>
        && out == Redirect(ProfilePage(caller.username))
        && posts == [NewPost(old(nextPostId), form.data, old(clock), caller.username)] + old(posts)
        && clock == old(clock) + 1 && nextPostId == old(nextPostId) + 1
      ensures posts == old(posts) ==> clock == old(clock) && nextPostId == old(nextPostId)
    {
      if caller.Authenticated? {
        if PostFormValid(groups, form) {
          var p := NewPost(nextPostId, form.data, clock, caller.username);
          PrependKeepsPairwise(p, posts, Newer);
          PostIdsPrepend(p, posts);
          posts := [p] + posts;
          clock := clock + 1;
          nextPostId := nextPostId + 1;
          return Redirect(ProfilePage(caller.username));
        }
        return Rendered(PostFormContext(CreatePostTitle, false));
      }
      return Redirect(IndexPage);
    }

    /**
     * `post_edit`: the author may change text, group and image; anyone else
     * is sent to the post; a missing post raises (the view uses `get`).
     */
    method EditPost(caller: Caller, postId: nat, form: Form<PostFields>) returns (out: Outcome)
      requires Valid() && Known(caller)
      modifies this
      ensures Valid()
      ensures users == old(users) && groups == old(groups) && comments == old(comments) && follows == old(follows)
      ensures clock == old(clock) && nextGroupId == old(nextGroupId)
      ensures nextPostId == old(nextPostId) && nextCommentId == old(nextCommentId)
      ensures FindPost(old(posts), postId).None? ==> out == Raised(DoesNotExist) && posts == old(posts)
      ensures FindPost(old(posts), postId).Some? && caller != Authenticated(FindPost(old(posts), postId).value.author) ==>
        out == Redirect(PostDetailPage(postId)) && posts == old(posts)
      ensures FindPost(old(posts), postId).Some? && caller == Authenticated(FindPost(old(posts), postId).value.author) ==>
        if PostFormValid(groups, form) then
          out == Redirect(PostDetailPage(postId)) && posts == EditPosts(old(posts), postId, form.data)
        else
          out == Rendered(PostFormContext(EditPostTitle, true)) && posts == old(posts)
    {
      var found := FindPost(posts, postId);
      if found.None? {
        return Raised(DoesNotExist);
      }
      if caller != Authenticated(found.value.author) {
        return Redirect(PostDetailPage(postId));
      }
      if PostFormValid(groups, form) {
        var edited := EditPosts(posts, postId, form.data);
        EditKeepsValid(posts, postId, form.data, users, groups, clock, nextPostId);
        assert CommentsValid(comments, users, edited, clock, nextCommentId);
        posts := edited;
        return Redirect(PostDetailPage(postId));
      }
      return Rendered(PostFormContext(EditPostTitle, true));
    }

    /** `add_comment`: saves a valid comment by the caller on the post; always back to the post. */
    method AddComment(caller: Caller, postId: nat, form: Form<string>) returns (out: Outcome)
      requires Valid() && Known(caller)
      modifies this
      ensures Valid()
      ensures users == old(users) && groups == old(groups) && posts == old(posts) && follows == old(follows)
      ensures nextGroupId == old(nextGroupId) && nextPostId == old(nextPostId)
      ensures caller.Anonymous? ==> out == Redirect(LoginPage(AddCommentPage(postId))) && comments == old(comments)
      ensures caller.Authenticated? && postId !in PostIds(posts) ==> out == NotFound && comments == old(comments)
      ensures caller.Authenticated? && postId in PostIds(posts) ==>
        && out == Redirect(PostDetailPage(postId))
        && comments == (if CommentFormValid(form)
                        then [Comment(old(nextCommentId), postId, caller.username, form.data, old(clock))] + old(comments)
                        else old(comments))
      ensures (clock, nextCommentId)
           == if caller.Authenticated? && postId in PostIds(posts) && CommentFormValid(form)
              then (old(clock) + 1, old(nextCommentId) + 1)
              else (old(clock), old(nextCommentId))
    {
      if caller.Anonymous? {
        return Redirect(LoginPage(AddCommentPage(postId)));
      }
      if FindPost(posts, postId).None? {
        return NotFound;
      }
      if CommentFormValid(form) {
        var c := Comment(nextCommentId, postId, caller.username, form.data, clock);
        PrependKeepsPairwise(c, comments, NewerComment);
        comments := [c] + comments;
        clock := clock + 1;
        nextCommentId := nextCommentId + 1;
        assert PostsValid(posts, users, groups, clock, nextPostId);
      }
      return Redirect(PostDetailPage(postId));
    }

    /** `follow_index`: a page of the posts by the authors the caller follows. */
    method FollowIndex(caller: Caller, page: Option<int>) returns (out: Outcome)
      ensures caller.Anonymous? ==> out == Redirect(LoginPage(FollowIndexPage))
      ensures caller.Authenticated? ==>
        out == Rendered(FeedContext(GetPage(FollowFeed(posts, follows, caller.username), page)))
    {
      if caller.Anonymous? {
        return Redirect(LoginPage(FollowIndexPage));
      }
      var user := caller.username;
      var followsList := Filter(follows, FollowsBy(user));
      var authors: set<Username> := {};
      for i := 0 to |followsList|
        invariant authors == set j | 0 <= j < i :: followsList[j].author
      {
        authors := authors + {followsList[i].author};
      }
      FollowedAuthorsOfList(follows, user, followsList, authors);
      var postsList := Filter(posts, ByAuthorIn(authors));
      out := Rendered(FeedContext(GetPage(postsList, page)));
    }

    /**
     * `profile_follow`: get-or-create of the (caller, author) edge, skipped
     * when the caller is the author; more than one existing edge makes the
     * lookup raise.
     */
    method ProfileFollow(caller: Caller, username: Username) returns (out: Outcome)
      requires Valid() && Known(caller)
      modifies this
      ensures Valid()
      ensures users == old(users) && groups == old(groups) && posts == old(posts) && comments == old(comments)
      ensures clock == old(clock) && nextGroupId == old(nextGroupId)
      ensures nextPostId == old(nextPostId) && nextCommentId == old(nextCommentId)
      ensures caller.Anonymous? ==> out == Redirect(LoginPage(ProfileFollowPage(username))) && follows == old(follows)
      ensures caller.Authenticated? && username !in users ==> out == NotFound && follows == old(follows)
      ensures caller.Authenticated? && username in users ==>
        && follows == AfterFollow(old(follows), caller.username, username)
        && (if caller.username != username && EdgeCount(old(follows), caller.username, username) > 1
            then out == Raised(MultipleObjectsReturned)
            else out == Redirect(ProfilePage(username)))
    {
      if caller.Anonymous? {
        return Redirect(LoginPage(ProfileFollowPage(username)));
      }
      if username !in users {
        return NotFound;
      }
      var user := caller.username;
      if username != user {
        var count := EdgeCount(follows, user, username);
        if count > 1 {
          return Raised(MultipleObjectsReturned);
        }
        if count == 0 {
          follows := follows + [Follow(user, username)];
        }
      }
      out := Redirect(ProfilePage(username));
    }

    /** `profile_unfollow`: deletes every (caller, author) edge, whether or not there is one. */
    method ProfileUnfollow(caller: Caller, username: Username) returns (out: Outcome)
      requires Valid() && Known(caller)
      modifies this
      ensures Valid()
      ensures users == old(users) && groups == old(groups) && posts == old(posts) && comments == old(comments)
      ensures clock == old(clock) && nextGroupId == old(nextGroupId)
      ensures nextPostId == old(nextPostId) && nextCommentId == old(nextCommentId)
      ensures caller.Anonymous? ==> out == Redirect(LoginPage(ProfileUnfollowPage(username))) && follows == old(follows)
      ensures caller.Authenticated? && username !in users ==> out == NotFound && follows == old(follows)
      ensures caller.Authenticated? && username in users ==>
        out == Redirect(ProfilePage(username)) && follows == AfterUnfollow(old(follows), caller.username, username)
    {
      if caller.Anonymous? {
        return Redirect(LoginPage(ProfileUnfollowPage(username)));
      }
      if username !in users {
        return NotFound;
      }
      follows := AfterUnfollow(follows, caller.username, username);
      out := Redirect(ProfilePage(username));
    }

    /**
     * Deleting a user cascades: their posts, their comments, the comments on
     * their posts and every follow edge from or to them go too.
     */
    method DeleteUser(u: Username)
      requires Valid()
      modifies this
      ensures Valid()
      ensures users == old(users) - {u} && groups == old(groups)
      ensures posts == Filter(old(posts), NotByAuthor(u))
      ensures comments == Filter(old(comments), CommentOutlives(u, PostIdsBy(old(posts), u)))
      ensures follows == Filter(old(follows), NotTouching(u))
      ensures clock == old(clock) && nextGroupId == old(nextGroupId)
      ensures nextPostId == old(nextPostId) && nextCommentId == old(nextCommentId)
    {
      ghost var users0, posts0, comments0, follows0 := users, posts, comments, follows;
      users, posts, comments, follows :=
        users - {u}, Filter(posts, NotByAuthor(u)),
        Filter(comments, CommentOutlives(u, PostIdsBy(posts, u))), Filter(follows, NotTouching(u));
      DeleteUserKeepsValid(users0, groups, posts0, comments0, follows0, clock, nextGroupId, nextPostId, nextCommentId, u,
                           users, posts, comments, follows);
    }

    /** Deleting a group sets `group` to null on its posts; the posts stay. */
    method DeleteGroup(gid: nat)
      requires Valid()
      modifies this
      ensures Valid()
      ensures groups == Filter(old(groups), NotGroup(gid))
      ensures posts == Unlink(old(posts), gid)
      ensures users == old(users) && comments == old(comments) && follows == old(follows)
      ensures clock == old(clock) && nextGroupId == old(nextGroupId)
      ensures nextPostId == old(nextPostId) && nextCommentId == old(nextCommentId)
    {
      var gs := Filter(groups, NotGroup(gid));
      FilterKeepsPairwise(groups, NotGroup(gid), TitleOrder);
      FilterKeepsPairwise(groups, NotGroup(gid), GroupsDiffer);
      GroupDeletionSetsNull(posts, gid);
      UnlinkKeepsValid(posts, gid, users, groups, clock, nextPostId);
      groups := gs;
      posts := Unlink(posts, gid);
    }

    /** Deleting a post deletes its comments. */
    method DeletePost(pid: nat)
      requires Valid()
      modifies this
      ensures Valid()
      ensures posts == Filter(old(posts), NotPost(pid))
      ensures comments == Filter(old(comments), NotOnPost(pid))
      ensures users == old(users) && groups == old(groups) && follows == old(follows)
      ensures clock == old(clock) && nextGroupId == old(nextGroupId)
      ensures nextPostId == old(nextPostId) && nextCommentId == old(nextCommentId)
    {
      DeletePostKeepsValid(users, groups, posts, comments, follows, clock, nextGroupId, nextPostId, nextCommentId, pid);
      posts := Filter(posts, NotPost(pid));
      comments := Filter(comments, NotOnPost(pid));
    }
  }

  // ----- Lemmas -----

  /** More groups keep every post's group reference valid. */
  lemma PostsValidMoreGroups(posts: seq<Post>, users: set<Username>, groups: seq<Group>, groups': seq<Group>, clock: nat, nextPostId: nat)
    requires PostsValid(posts, users, groups, clock, nextPostId)
    requires forall x :: x in groups ==> x in groups'
    ensures PostsValid(posts, users, groups', clock, nextPostId)
  {
    forall p | p in posts ensures PostValid(p, users, groups', clock, nextPostId) {
      assert PostValid(p, users, groups, clock, nextPostId);
      if p.group.Some? {
        var g :| g in groups && g.id == p.group.value;
        assert g in groups';
      }
    }
  }

  /** Saving a valid group with a fresh key and a fresh slug keeps the store valid. */
  lemma AddGroupKeepsValid(users: set<Username>, groups: seq<Group>, posts: seq<Post>, comments: seq<Comment>,
                           follows: seq<Follow>, clock: nat, nextGroupId: nat, nextPostId: nat, nextCommentId: nat, g: Group)
    requires StoreValid(users, groups, posts, comments, follows, clock, nextGroupId, nextPostId, nextCommentId)
    requires g.id == nextGroupId && GroupFieldsValid(g) && forall x :: x in groups ==> x.slug != g.slug
    ensures StoreValid(users, InsertByTitle(groups, g), posts, comments, follows, clock, nextGroupId + 1, nextPostId, nextCommentId)
  {
    var gs := InsertByTitle(groups, g);
    InsertKeepsRowsDistinct(groups, g);
    forall x | x in gs ensures GroupFieldsValid(x) && x.id < nextGroupId + 1 {
      assert multiset(gs)[x] > 0;
    }
    forall x | x in groups ensures x in gs {
      assert multiset(gs)[x] > 0;
    }
    PostsValidMoreGroups(posts, users, groups, gs, clock, nextPostId);
  }

  /** The user-deletion cascade keeps the store valid. */
  lemma DeleteUserKeepsValid(users: set<Username>, groups: seq<Group>, posts: seq<Post>, comments: seq<Comment>,
                             follows: seq<Follow>, clock: nat, nextGroupId: nat, nextPostId: nat, nextCommentId: nat, u: Username,
                             users': set<Username>, ps: seq<Post>, cs: seq<Comment>, fs: seq<Follow>)
    requires StoreValid(users, groups, posts, comments, follows, clock, nextGroupId, nextPostId, nextCommentId)
    requires users' == users - {u} && ps == Filter(posts, NotByAuthor(u))
    requires cs == Filter(comments, CommentOutlives(u, PostIdsBy(posts, u))) && fs == Filter(follows, NotTouching(u))
    ensures StoreValid(users', groups, ps, cs, fs, clock, nextGroupId, nextPostId, nextCommentId)
  {
    FilterKeepsPairwise(posts, NotByAuthor(u), Newer);
    FilterKeepsPairwise(comments, CommentOutlives(u, PostIdsBy(posts, u)), NewerComment);
    UserDeletionKeepsReferences(posts, comments, u);
    forall p | p in ps ensures PostValid(p, users - {u}, groups, clock, nextPostId) {
      assert PostValid(p, users, groups, clock, nextPostId);
    }
    forall c | c in cs ensures CommentValid(c, users - {u}, ps, clock, nextCommentId) {
      assert CommentValid(c, users, posts, clock, nextCommentId);
    }
  }

  /** The post-deletion cascade keeps the store valid. */
  lemma DeletePostKeepsValid(users: set<Username>, groups: seq<Group>, posts: seq<Post>, comments: seq<Comment>,
                             follows: seq<Follow>, clock: nat, nextGroupId: nat, nextPostId: nat, nextCommentId: nat, pid: nat)
    requires StoreValid(users, groups, posts, comments, follows, clock, nextGroupId, nextPostId, nextCommentId)
    ensures StoreValid(users, groups, Filter(posts, NotPost(pid)), Filter(comments, NotOnPost(pid)),
                       follows, clock, nextGroupId, nextPostId, nextCommentId)
  {
    var ps := Filter(posts, NotPost(pid));
    var cs := Filter(comments, NotOnPost(pid));
    FilterKeepsPairwise(posts, NotPost(pid), Newer);
    FilterKeepsPairwise(comments, NotOnPost(pid), NewerComment);
    PostDeletionCascade(posts, comments, pid);
    forall c | c in cs ensures CommentValid(c, users, ps, clock, nextCommentId) {
      assert CommentValid(c, users, posts, clock, nextCommentId);
    }
  }

  /** Adding a post adds its id to the post ids. */
  lemma PostIdsPrepend(p: Post, posts: seq<Post>)
    ensures PostIds([p] + posts) == PostIds(posts) + {p.id}
  {
    assert forall x :: x in [p] + posts <==> x == p || x in posts;
  }

  /** Page slices of an ordered list stay ordered. */
  lemma PageKeepsPairwise<T>(items: seq<T>, requested: Option<int>, rel: (T, T) -> bool)
    requires Pairwise(items, rel)
    ensures Pairwise(GetPage(items, requested), rel)
  {
    var k := ServedPage(|items|, requested);
    var lo := (k - 1) * NumberDisplayedPosts;
    var hi := Min(lo + NumberDisplayedPosts, |items|);
    PageSlice(items, k);
    assert GetPage(items, requested) == items[lo..hi];
    SliceKeepsPairwise(items, lo, hi, rel);
  }

  /** Every item on a page comes from the list. */
  lemma PageFromItems<T>(items: seq<T>, requested: Option<int>)
    ensures forall x :: x in GetPage(items, requested) ==> x in items
  {
    forall x | x in GetPage(items, requested) ensures x in items {
      assert multiset(GetPage(items, requested))[x] > 0;
    }
  }

  /** The authors collected from the caller's follow edges are the authors the caller follows. */
  lemma FollowedAuthorsOfList(follows: seq<Follow>, u: Username, list: seq<Follow>, authors: set<Username>)
    requires list == Filter(follows, FollowsBy(u))
    requires authors == set j | 0 <= j < |list| :: list[j].author
    ensures authors == FollowedAuthors(follows, u)
  {
    forall a | a in FollowedAuthors(follows, u) ensures a in authors {
      var f :| f in follows && f.user == u && f.author == a;
      assert FollowsBy(u)(f);
      assert f in list;
      var j :| 0 <= j < |list| && list[j] == f;
      assert list[j].author == a;
    }
    forall a | a in authors ensures a in FollowedAuthors(follows, u) {
      var j :| 0 <= j < |list| && list[j].author == a;
      assert list[j] in list;
      assert list[j] in follows && list[j].user == u;
    }
  }

  /** An edit keeps every key, date and author, and so keeps the store valid. */
  lemma EditKeepsValid(posts: seq<Post>, id: nat, data: PostFields, users: set<Username>, groups: seq<Group>, clock: nat, nextPostId: nat)
    requires PostsValid(posts, users, groups, clock, nextPostId)
    requires |data.text| > 0 && (data.group.Some? ==> data.group.value in GroupIds(groups))
    ensures PostsValid(EditPosts(posts, id, data), users, groups, clock, nextPostId)
    ensures PostIds(EditPosts(posts, id, data)) == PostIds(posts)
  {
    var r := EditPosts(posts, id, data);
    forall i, j | 0 <= i < j < |r| ensures Newer(r[i], r[j]) {
      assert Newer(posts[i], posts[j]);
    }
    forall p | p in r ensures PostValid(p, users, groups, clock, nextPostId) {
      var i :| 0 <= i < |r| && r[i] == p;
      assert PostValid(posts[i], users, groups, clock, nextPostId);
    }
    forall x | x in PostIds(posts) ensures x in PostIds(r) {
      var p :| p in posts && p.id == x;
      var i :| 0 <= i < |posts| && posts[i] == p;
      assert r[i].id == x;
    }
    forall x | x in PostIds(r) ensures x in PostIds(posts) {
      var p :| p in r && p.id == x;
      var i :| 0 <= i < |r| && r[i] == p;
      assert posts[i].id == x;
    }
  }

  /**
   * Editing post `id` changes only that post, and only its text, group and
   * image; every other field and every other post stays as it was.
   */
  lemma EditChangesOnlyTarget(posts: seq<Post>, id: nat, data: PostFields, i: nat)
    requires i < |posts|
    ensures var r := EditPosts(posts, id, data);
      && r[i].id == posts[i].id && r[i].author == posts[i].author && r[i].pubDate == posts[i].pubDate
      && (posts[i].id != id ==> r[i] == posts[i])
      && (posts[i].id == id ==> r[i].text == data.text && r[i].group == data.group
                                && r[i].image == (if data.image.Some? then data.image else posts[i].image))
  {
  }

  /** After deleting a group no post refers to it, and every post keeps everything but that reference. */
  lemma GroupDeletionSetsNull(posts: seq<Post>, gid: nat)
    ensures forall p :: p in Unlink(posts, gid) ==> p.group != Some(gid)
    ensures forall i :: 0 <= i < |posts| ==>
      Unlink(posts, gid)[i] == posts[i].(group := if posts[i].group == Some(gid) then None else posts[i].group)
  {
    var r := Unlink(posts, gid);
    forall p | p in r ensures p.group != Some(gid) {
      var i :| 0 <= i < |r| && r[i] == p;
    }
  }

  /** Clearing a deleted group's references keeps the posts valid against the remaining groups. */
  lemma UnlinkKeepsValid(posts: seq<Post>, gid: nat, users: set<Username>, groups: seq<Group>, clock: nat, nextPostId: nat)
    requires PostsValid(posts, users, groups, clock, nextPostId)
    ensures PostsValid(Unlink(posts, gid), users, Filter(groups, NotGroup(gid)), clock, nextPostId)
    ensures PostIds(Unlink(posts, gid)) == PostIds(posts)
  {
    var r := Unlink(posts, gid);
    var gs := Filter(groups, NotGroup(gid));
    forall i, j | 0 <= i < j < |r| ensures Newer(r[i], r[j]) {
      assert Newer(posts[i], posts[j]);
    }
    forall p | p in r ensures PostValid(p, users, gs, clock, nextPostId) {
      var i :| 0 <= i < |r| && r[i] == p;
      assert PostValid(posts[i], users, groups, clock, nextPostId);
      if p.group.Some? {
        var g :| g in groups && g.id == p.group.value;
        assert g in gs;
      }
    }
    forall x | x in PostIds(posts) ensures x in PostIds(r) {
      var p :| p in posts && p.id == x;
      var i :| 0 <= i < |posts| && posts[i] == p;
      assert r[i].id == x;
    }
    forall x | x in PostIds(r) ensures x in PostIds(posts) {
      var p :| p in r && p.id == x;
      var i :| 0 <= i < |r| && r[i] == p;
      assert posts[i].id == x;
    }
  }

  /**
   * Deleting a user leaves no trace of them: no post, comment or follow edge
   * of theirs, and no comment on a post that went with them; every other
   * row stays.
   */
  lemma UserDeletionKeepsReferences(posts: seq<Post>, comments: seq<Comment>, u: Username)
    ensures var ps := Filter(posts, NotByAuthor(u));
      var cs := Filter(comments, CommentOutlives(u, PostIdsBy(posts, u)));
      && (forall p :: p in ps <==> p in posts && p.author != u)
      && (forall c :: c in cs <==> c in comments && c.author != u && c.post !in PostIdsBy(posts, u))
      && (forall c :: c in cs && c.post in PostIds(posts) ==> c.post in PostIds(ps))
  {
    var ps := Filter(posts, NotByAuthor(u));
    var cs := Filter(comments, CommentOutlives(u, PostIdsBy(posts, u)));
    forall c | c in cs && c.post in PostIds(posts) ensures c.post in PostIds(ps) {
      var p :| p in posts && p.id == c.post;
      assert p.author != u;
      assert p in ps;
    }
  }

  /** Deleting a user removes every follow edge from or to them and keeps all others. */
  lemma UserDeletionFollows(follows: seq<Follow>, u: Username)
    ensures forall f :: f in Filter(follows, NotTouching(u)) <==> f in follows && f.user != u && f.author != u
    ensures FollowedAuthors(Filter(follows, NotTouching(u)), u) == {}
  {
  }

  /** Deleting a post removes exactly its comments; comments on remaining posts keep their post. */
  lemma PostDeletionCascade(posts: seq<Post>, comments: seq<Comment>, pid: nat)
    ensures forall c :: c in Filter(comments, NotOnPost(pid)) <==> c in comments && c.post != pid
    ensures PostIds(Filter(posts, NotPost(pid))) == PostIds(posts) - {pid}
  {
    var ps := Filter(posts, NotPost(pid));
    forall x | x in PostIds(posts) - {pid} ensures x in PostIds(ps) {
      var p :| p in posts && p.id == x;
      assert p in ps;
    }
  }

  /** A second follow changes nothing: get-or-create finds the edge the first made. */
  lemma FollowIdempotent(follows: seq<Follow>, u: Username, a: Username)
    ensures AfterFollow(AfterFollow(follows, u, a), u, a) == AfterFollow(follows, u, a)
  {
  }

  /**
   * A follow never creates a self-edge, leaves at most one (user, author)
   * edge when there was at most one, and touches no other edge.
   */
  lemma FollowKeepsAtMostOne(follows: seq<Follow>, u: Username, a: Username)
    requires EdgeCount(follows, u, a) <= 1
    ensures u == a ==> AfterFollow(follows, u, a) == follows
    ensures u != a ==> EdgeCount(AfterFollow(follows, u, a), u, a) == 1
    ensures forall e :: e != Follow(u, a) ==> multiset(AfterFollow(follows, u, a))[e] == multiset(follows)[e]
  {
  }

  /** `n` follows in a row. */
  function FollowTimes(follows: seq<Follow>, u: Username, a: Username, n: nat): seq<Follow>
  {
    if n == 0 then follows else AfterFollow(FollowTimes(follows, u, a, n - 1), u, a)
  }

  /** Any number of follows, at least one, has the effect of one. */
  lemma {:induction false} RepeatedFollow(follows: seq<Follow>, u: Username, a: Username, n: nat)
    requires n >= 1
    ensures FollowTimes(follows, u, a, n) == AfterFollow(follows, u, a)
  {
    if n > 1 {
      RepeatedFollow(follows, u, a, n - 1);
      FollowIdempotent(follows, u, a);
    }
  }

  /**
   * An unfollow leaves no (user, author) edge, keeps every other edge with
   * its multiplicity, and changes nothing when there was no such edge.
   */
  lemma {:induction false} UnfollowRemovesEdges(follows: seq<Follow>, u: Username, a: Username)
    ensures EdgeCount(AfterUnfollow(follows, u, a), u, a) == 0
    ensures forall e :: e != Follow(u, a) ==> multiset(AfterUnfollow(follows, u, a))[e] == multiset(follows)[e]
    ensures Follow(u, a) !in follows ==> AfterUnfollow(follows, u, a) == follows
  {
    FilterCounts(follows, NotEdge(u, a), Follow(u, a));
    forall e | e != Follow(u, a)
      ensures multiset(AfterUnfollow(follows, u, a))[e] == multiset(follows)[e]
    {
      FilterCounts(follows, NotEdge(u, a), e);
    }
    if Follow(u, a) !in follows {
      FilterKeepsAll(follows, NotEdge(u, a));
    }
  }

  /** The profile's `following` flag reflects the last follow or unfollow of the author by the caller. */
  lemma FollowShowsOnProfile(follows: seq<Follow>, u: Username, a: Username)
    ensures u != a ==> ProfileFlags(AfterFollow(follows, u, a), Authenticated(u), a).0 == Some(true)
    ensures ProfileFlags(AfterUnfollow(follows, u, a), Authenticated(u), a).0 == Some(false)
  {
  }

  /** A post is in the follow feed of `u` exactly when it is stored and `u` follows its author. */
  lemma FollowFeedMembers(posts: seq<Post>, follows: seq<Follow>, u: Username, p: Post)
    ensures p in FollowFeed(posts, follows, u) <==> p in posts && Follow(u, p.author) in follows
  {
    if Follow(u, p.author) in follows {
      assert p.author in FollowedAuthors(follows, u);
    }
  }

  /** A new post adds one item to the follow feed when its author is followed, and none otherwise. */
  lemma FollowFeedNewPost(posts: seq<Post>, follows: seq<Follow>, u: Username, p: Post)
    ensures FollowFeed([p] + posts, follows, u)
         == (if Follow(u, p.author) in follows then [p] + FollowFeed(posts, follows, u) else FollowFeed(posts, follows, u))
  {
    assert ([p] + posts)[1..] == posts;
    FollowFeedMembers([p], follows, u, p);
  }

  /** The follow feed is newest first, like every post listing. */
  lemma FollowFeedNewestFirst(posts: seq<Post>, follows: seq<Follow>, u: Username)
    requires Pairwise(posts, Newer)
    ensures Pairwise(FollowFeed(posts, follows, u), Newer)
  {
    FilterKeepsPairwise(posts, ByAuthorIn(FollowedAuthors(follows, u)), Newer);
  }

  /** A post just created is the first item of the first page of every listing it belongs to. */
  lemma CreatedPostLeadsFeed(p: Post, list: seq<Post>)
    ensures GetPage([p] + list, Some(1))[0] == p
  {
    FirstPage([p] + list);
  }
}
