/**
 * The blog's entities as values: groups, posts, comments and follow edges,
 * their field constraints, their `__str__` texts and the default orderings
 * of their listings, with the sequence filter every query is built from.
 */
module Models {
  import opened Wrappers
  import opened Text

  /** Users are the framework's; they are identified by their unique username. */
  type Username = string

  /** A group of posts; `slug` is its stable URL identifier. */
  datatype Group = Group(id: nat, title: string, slug: string, description: Option<string>)

  /** A post; `pubDate` is set once at creation, `group` is optional, `image` a stored file name. */
  datatype Post = Post(id: nat, text: string, pubDate: nat, author: Username, group: Option<nat>, image: Option<string>)

  /** A comment on a post; `created` is set once at creation. */
  datatype Comment = Comment(id: nat, post: nat, author: Username, text: string, created: nat)

  /** A follow edge from the follower `user` to the followed `author`. */
  datatype Follow = Follow(user: Username, author: Username)

  const GroupTitleMaxLength: nat := 200
  /** The default `max_length` of a SlugField. */
  const SlugMaxLength: nat := 50
  const StrLength: nat := 15

  /** A character a slug may hold: an ASCII letter or digit, a hyphen or an underscore. */
  predicate SlugChar(c: char)
  {
    ('a' <= c <= 'z') || ('A' <= c <= 'Z') || ('0' <= c <= '9') || c == '-' || c == '_'
  }

  /**
   * Group.title is required with at most 200 characters; Group.slug is a
   * required SlugField: at most 50 characters, each a slug character.
   */
  predicate GroupFieldsValid(g: Group)
  {
    && 0 < |g.title| <= GroupTitleMaxLength
    && 0 < |g.slug| <= SlugMaxLength
    && forall i :: 0 <= i < |g.slug| ==> SlugChar(g.slug[i])
  }

  /** `str(group)`: the title, so the text shown for a valid group is non-empty and at most 200 characters. */
  function GroupStr(g: Group): (r: string)
    ensures GroupFieldsValid(g) ==> 0 < |r| <= GroupTitleMaxLength
  {
    g.title
  }

  /** `str(post)`: the first 15 characters of the text. */
  function PostStr(p: Post): (r: string)
    ensures r <= p.text && |r| == Min(StrLength, |p.text|)
  {
    Prefix(p.text, StrLength)
  }

  /** `str(comment)`: the first 15 characters of the text. */
  function CommentStr(c: Comment): (r: string)
    ensures r <= c.text && |r| == Min(StrLength, |c.text|)
  {
    Prefix(c.text, StrLength)
  }

  /** Every element stands in `rel` to every element after it. */
  predicate Pairwise<T>(s: seq<T>, rel: (T, T) -> bool)
  {
    forall i, j :: 0 <= i < j < |s| ==> rel(s[i], s[j])
  }

  /**
   * Post `a` was created after post `b`: a later publication date (Meta
   * ordering ('-pub_date',)) and, as keys are issued in increasing order, a
   * larger id.
   */
  predicate Newer(a: Post, b: Post)
  {
    a.pubDate > b.pubDate && a.id > b.id
  }

  /** Comment `a` was created after comment `b` (Meta ordering ('-created',)). */
  predicate NewerComment(a: Comment, b: Comment)
  {
    a.created > b.created && a.id > b.id
  }

  /** Group `a` is listed before group `b` (Meta ordering ('title',)). */
  predicate TitleOrder(a: Group, b: Group)
  {
    TitleLeq(a.title, b.title)
  }

  /** Two group rows differ in their key and in their slug (`unique=True`). */
  predicate GroupsDiffer(a: Group, b: Group)
  {
    a.id != b.id && a.slug != b.slug
  }

  /** The elements of `s` that `keep` accepts, in their order: a `filter` query. */
  function Filter<T(!new)>(s: seq<T>, keep: T -> bool): (r: seq<T>)
    ensures |r| <= |s|
    ensures forall x :: x in r <==> x in s && keep(x)
  {
    if s == [] then []
    else (if keep(s[0]) then [s[0]] else []) + Filter(s[1..], keep)
  }

  /** Filtering keeps every accepted element as often as it occurs and drops every other. */
  lemma {:induction false} FilterCounts<T(!new)>(s: seq<T>, keep: T -> bool, x: T)
    ensures multiset(Filter(s, keep))[x] == if keep(x) then multiset(s)[x] else 0
  {
    if s != [] {
      assert s == [s[0]] + s[1..];
      FilterCounts(s[1..], keep, x);
    }
  }

  /** The head of a pairwise-related sequence is related to everything after it. */
  lemma HeadRelated<T>(s: seq<T>, rel: (T, T) -> bool)
    requires s != [] && Pairwise(s, rel)
    ensures forall y :: y in s[1..] ==> rel(s[0], y)
  {
    forall y | y in s[1..] ensures rel(s[0], y) {
      var k :| 0 <= k < |s[1..]| && s[1..][k] == y;
      assert s[k + 1] == y;
    }
  }

  /** A slice of a pairwise-related sequence is pairwise related. */
  lemma SliceKeepsPairwise<T>(s: seq<T>, lo: nat, hi: nat, rel: (T, T) -> bool)
    requires lo <= hi <= |s| && Pairwise(s, rel)
    ensures Pairwise(s[lo..hi], rel)
  {
    forall i, j | 0 <= i < j < hi - lo ensures rel(s[lo..hi][i], s[lo..hi][j]) {
      assert s[lo..hi][i] == s[lo + i] && s[lo..hi][j] == s[lo + j];
    }
  }

  /** A new element related to all others keeps the relation when put in front. */
  lemma PrependKeepsPairwise<T>(x: T, s: seq<T>, rel: (T, T) -> bool)
    requires Pairwise(s, rel) && forall y :: y in s ==> rel(x, y)
    ensures Pairwise([x] + s, rel)
  {
    var r := [x] + s;
    forall i, j | 0 <= i < j < |r| ensures rel(r[i], r[j]) {
      assert r[j] == s[j - 1];
      if i > 0 {
        assert r[i] == s[i - 1];
      } else {
        assert r[j] in s;
      }
    }
  }

  /** Filtering keeps a pairwise relation: a query result keeps the model's ordering. */
  lemma {:induction false} FilterKeepsPairwise<T(!new)>(s: seq<T>, keep: T -> bool, rel: (T, T) -> bool)
    requires Pairwise(s, rel)
    ensures Pairwise(Filter(s, keep), rel)
  {
    if s != [] {
      SliceKeepsPairwise(s, 1, |s|, rel);
      FilterKeepsPairwise(s[1..], keep, rel);
      if keep(s[0]) {
        HeadRelated(s, rel);
        PrependKeepsPairwise(s[0], Filter(s[1..], keep), rel);
      }
    }
  }

  /** A filter that accepts every element returns the sequence unchanged. */
  lemma {:induction false} FilterKeepsAll<T(!new)>(s: seq<T>, keep: T -> bool)
    requires forall x :: x in s ==> keep(x)
    ensures Filter(s, keep) == s
  {
    if s != [] {
      FilterKeepsAll(s[1..], keep);
      assert s == [s[0]] + s[1..];
    }
  }

  /**
   * The order of group titles (Meta ordering ('title',)): character by
   * character by code point, a proper prefix first.
   */
  predicate TitleLeq(a: string, b: string)
  {
    |a| == 0 || (|b| > 0 && (a[0] < b[0] || (a[0] == b[0] && TitleLeq(a[1..], b[1..]))))
  }

  /** Any two titles are ordered one way or the other. */
  lemma {:induction false} TitleLeqTotal(a: string, b: string)
    ensures TitleLeq(a, b) || TitleLeq(b, a)
  {
    if |a| > 0 && |b| > 0 && a[0] == b[0] {
      TitleLeqTotal(a[1..], b[1..]);
    }
  }

  /** The title order is transitive. */
  lemma {:induction false} TitleLeqTrans(a: string, b: string, c: string)
    requires TitleLeq(a, b) && TitleLeq(b, c)
    ensures TitleLeq(a, c)
  {
    if |a| > 0 && a[0] == b[0] && b[0] == c[0] {
      TitleLeqTrans(a[1..], b[1..], c[1..]);
    }
  }

  /** Puts a group into a title-ordered listing. */
  function InsertByTitle(groups: seq<Group>, g: Group): (r: seq<Group>)
    requires Pairwise(groups, TitleOrder)
    ensures Pairwise(r, TitleOrder)
    ensures multiset(r) == multiset(groups) + multiset{g}
  {
    if groups == [] then [g]
    else if TitleLeq(g.title, groups[0].title) then
      assert forall j :: 0 <= j < |groups| ==> TitleLeq(g.title, groups[j].title) by {
        forall j | 0 <= j < |groups| ensures TitleLeq(g.title, groups[j].title) {
          if j > 0 { TitleLeqTrans(g.title, groups[0].title, groups[j].title); }
        }
      }
      PrependKeepsPairwise(g, groups, TitleOrder);
      [g] + groups
    else
      assert groups == [groups[0]] + groups[1..];
      TitleLeqTotal(g.title, groups[0].title);
      SliceKeepsPairwise(groups, 1, |groups|, TitleOrder);
      var rest := InsertByTitle(groups[1..], g);
      HeadRelated(groups, TitleOrder);
      assert forall x :: x in rest ==> TitleOrder(groups[0], x) by {
        forall x | x in rest ensures TitleOrder(groups[0], x) {
          assert multiset(rest)[x] > 0;
          if x != g {
            assert x in groups[1..];
          }
        }
      }
      PrependKeepsPairwise(groups[0], rest, TitleOrder);
      [groups[0]] + rest
  }

  /** A group whose key and slug differ from every listed group's keeps the rows distinct. */
  lemma {:induction false} InsertKeepsRowsDistinct(groups: seq<Group>, g: Group)
    requires Pairwise(groups, TitleOrder) && Pairwise(groups, GroupsDiffer)
    requires forall x :: x in groups ==> GroupsDiffer(x, g)
    ensures Pairwise(InsertByTitle(groups, g), GroupsDiffer)
  {
    if groups == [] {
    } else if TitleLeq(g.title, groups[0].title) {
      PrependKeepsPairwise(g, groups, GroupsDiffer);
    } else {
      assert groups == [groups[0]] + groups[1..];
      SliceKeepsPairwise(groups, 1, |groups|, TitleOrder);
      SliceKeepsPairwise(groups, 1, |groups|, GroupsDiffer);
      var rest := InsertByTitle(groups[1..], g);
      InsertKeepsRowsDistinct(groups[1..], g);
      HeadRelated(groups, GroupsDiffer);
      forall x | x in rest ensures GroupsDiffer(groups[0], x) {
        assert multiset(rest)[x] > 0;
        if x != g {
          assert x in groups[1..];
        }
      }
      PrependKeepsPairwise(groups[0], rest, GroupsDiffer);
    }
  }
}
