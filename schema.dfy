/** ent/schema/blogpost.go: the BlogPost entity, its field constraints and the invariant every
    stored collection of posts keeps. */
module Schema {
  import opened Wrappers

  /** An instant, as nanoseconds since the Unix epoch. */
  type Time = int

  /** time.Time.Unix(): whole seconds since the epoch, rounded towards minus infinity. */
  function UnixSeconds(t: Time): int {
    t / 1_000_000_000
  }

  /** One row of the blog_posts table. `createTime` and `updateTime` come from the Time mixin;
      `publishedAt` and `image` are set by the service but carry no schema constraint. */
  datatype BlogPost = BlogPost(
    id: int,
    createTime: Time,
    updateTime: Time,
    title: string,
    slug: string,
    content: string,
    excerpt: string,
    publishedAt: Time,
    image: Option<string>)

  /** The constrained fields, in declaration order. */
  datatype Field = Title | Slug | Content | Excerpt {
    function Rank(): nat {
      match this
      case Title => 0
      case Slug => 1
      case Content => 2
      case Excerpt => 3
    }

    predicate IsBefore(other: Field) {
      Rank() < other.Rank()
    }

    /** The column name. */
    function Name(): string {
      match this
      case Title => "title"
      case Slug => "slug"
      case Content => "content"
      case Excerpt => "excerpt"
    }
  }

  /** The MaxLen bound on the excerpt. */
  const ExcerptMaxLen: nat := 160

  /** Bytes one character takes in UTF-8. */
  function Utf8Width(c: char): nat {
    if c as int < 0x80 then 1 else if c as int < 0x800 then 2 else if c as int < 0x1_0000 then 3 else 4
  }

  /** Go's len of a string: its length in UTF-8 bytes, which is what MaxLen measures. */
  function Utf8Len(s: string): nat {
    if s == [] then 0 else Utf8Width(s[0]) + Utf8Len(s[1..])
  }

  /** A string takes at least one and at most four bytes per character. */
  lemma {:induction false} Utf8LenBounds(s: string)
    ensures |s| <= Utf8Len(s) <= 4 * |s|
  {
    if s != [] {
      Utf8LenBounds(s[1..]);
    }
  }

  /** The validators of one field: NotEmpty on all four, MaxLen(160) on the excerpt. */
  predicate FieldHolds(p: BlogPost, f: Field) {
    match f
    case Title => p.title != ""
    case Slug => p.slug != ""
    case Content => p.content != ""
    case Excerpt => p.excerpt != "" && Utf8Len(p.excerpt) <= ExcerptMaxLen
  }

  predicate FieldsValid(p: BlogPost) {
    FieldHolds(p, Title) && FieldHolds(p, Slug) && FieldHolds(p, Content) && FieldHolds(p, Excerpt)
  }

  /** The first field, in declaration order, whose validator rejects the post. */
  function FirstViolation(p: BlogPost): (r: Option<Field>)
    ensures r.None? <==> FieldsValid(p)
    ensures r.Some? ==> !FieldHolds(p, r.value)
    ensures r.Some? ==> forall f: Field :: f.IsBefore(r.value) ==> FieldHolds(p, f)
  {
    if !FieldHolds(p, Title) then Some(Title)
    else if !FieldHolds(p, Slug) then Some(Slug)
    else if !FieldHolds(p, Content) then Some(Content)
    else if !FieldHolds(p, Excerpt) then Some(Excerpt)
    else None
  }

  predicate SlugTaken(posts: seq<BlogPost>, slug: string) {
    exists i :: 0 <= i < |posts| && posts[i].slug == slug
  }

  /** The unique index on slug. */
  predicate UniqueSlugs(posts: seq<BlogPost>) {
    forall i, j :: 0 <= i < j < |posts| ==> posts[i].slug != posts[j].slug
  }

  /** What the schema guarantees of one stored row. */
  predicate RowValid(p: BlogPost) {
    FieldsValid(p) && p.createTime <= p.updateTime
  }

  /** The store invariant: every row passes its validators and no two rows share a slug, so a
      slug identifies at most one row. */
  predicate ValidPosts(posts: seq<BlogPost>)
    ensures ValidPosts(posts) ==>
      forall i, j :: 0 <= i < |posts| && 0 <= j < |posts| && posts[i].slug == posts[j].slug ==> i == j
  {
    (forall i :: 0 <= i < |posts| ==> RowValid(posts[i])) && UniqueSlugs(posts)
  }

  /** Appending a row keeps the invariant exactly when the row is valid and its slug is new. */
  lemma ValidPostsAppend(posts: seq<BlogPost>, p: BlogPost)
    requires ValidPosts(posts)
    ensures ValidPosts(posts + [p]) <==> RowValid(p) && !SlugTaken(posts, p.slug)
  {
    var s := posts + [p];
    assert s[|posts|] == p;
    if RowValid(p) && !SlugTaken(posts, p.slug) {
      forall i, j | 0 <= i < j < |s| ensures s[i].slug != s[j].slug {
        if j == |posts| {
          assert s[i] == posts[i];
        }
      }
    }
    if SlugTaken(posts, p.slug) {
      var i :| 0 <= i < |posts| && posts[i].slug == p.slug;
      assert s[i].slug == s[|posts|].slug;
    }
  }

  /** In every stored row, title, slug, content and excerpt are non-empty and the excerpt has at
      most 160 characters (MaxLen counts bytes, and a character takes at least one byte). */
  lemma StoredRowBounds(posts: seq<BlogPost>, i: int)
    requires ValidPosts(posts) && 0 <= i < |posts|
    ensures posts[i].title != "" && posts[i].slug != "" && posts[i].content != ""
    ensures 1 <= |posts[i].excerpt| <= ExcerptMaxLen
    ensures posts[i].createTime <= posts[i].updateTime
  {
    Utf8LenBounds(posts[i].excerpt);
  }
}
