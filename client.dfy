/** The generated ent client for BlogPost, reduced to what the service observes: a sequence of
    stored rows, a unique lookup by slug, and Save, which inserts one row or fails leaving the
    rows as they were. */
module EntClient {
  import opened Wrappers
  import opened Schema

  /** The fields a BlogPostCreate builder holds when Save is called. */
  datatype Draft = Draft(
    title: string,
    slug: string,
    content: string,
    excerpt: string,
    publishedAt: Time,
    image: Option<string>)

  /** Why Save failed: a field validator, the unique index on slug, or the database itself
      (whose error text is passed in). */
  datatype SaveError = Invalid(field: Field) | DuplicateSlug | SaveUnavailable(reason: string) {
    function Text(): string {
      match this
      case Invalid(f) => "ent: validator failed for field \"BlogPost." + f.Name() + "\""
      case DuplicateSlug => "ent: constraint failed: duplicate key value violates unique constraint on slug"
      case SaveUnavailable(reason) => reason
    }
  }

  /** Why Only failed: no row, more than one row, or the database itself. */
  datatype QueryError = NotFound | NotSingular | QueryUnavailable(reason: string) {
    function Text(): string {
      match this
      case NotFound => "ent: blog_post not found"
      case NotSingular => "ent: blog_post not singular"
      case QueryUnavailable(reason) => reason
    }
  }

  /** The row Save inserts for a draft: the next id, and create_time and update_time both set to
      the clock reading by the Time mixin's defaults. */
  function NewRow(d: Draft, id: int, now: Time): (p: BlogPost)
    ensures p.createTime == p.updateTime == now && p.id == id
    ensures p.title == d.title && p.slug == d.slug && p.content == d.content && p.excerpt == d.excerpt
    ensures p.publishedAt == d.publishedAt && p.image == d.image
  {
    BlogPost(id, now, now, d.title, d.slug, d.content, d.excerpt, d.publishedAt, d.image)
  }

  /** What stops Save, in the order it is found: the field validators (which ent runs before it
      talks to the database), then a database fault, then the unique index on slug. */
  function SaveViolation(posts: seq<BlogPost>, p: BlogPost, fault: Option<string>): (r: Option<SaveError>)
    ensures r.None? <==> FieldsValid(p) && fault.None? && !SlugTaken(posts, p.slug)
    ensures r.Some? && r.value.Invalid? ==>
      !FieldHolds(p, r.value.field) && forall f: Field :: f.IsBefore(r.value.field) ==> FieldHolds(p, f)
    ensures r.Some? && r.value.SaveUnavailable? ==> FieldsValid(p) && fault == Some(r.value.reason)
    ensures r == Some(DuplicateSlug) ==> FieldsValid(p) && fault.None? && SlugTaken(posts, p.slug)
    ensures !FieldsValid(p) ==> r.Some? && r.value.Invalid?
  {
    var invalid := FirstViolation(p);
    if invalid.Some? then Some(Invalid(invalid.value))
    else if fault.Some? then Some(SaveUnavailable(fault.value))
    else if SlugTaken(posts, p.slug) then Some(DuplicateSlug)
    else None
  }

  /** Save accepts a row exactly when the database is reachable and the row keeps the store
      invariant; whenever it refuses a row, the reason names a constraint the row breaks. */
  lemma SaveAcceptsExactlyValidRows(posts: seq<BlogPost>, p: BlogPost, fault: Option<string>)
    requires ValidPosts(posts) && p.createTime <= p.updateTime
    ensures SaveViolation(posts, p, fault).None? <==> fault.None? && ValidPosts(posts + [p])
    ensures SaveViolation(posts, p, fault) == Some(DuplicateSlug) ==> FieldsValid(p) && SlugTaken(posts, p.slug)
    ensures forall f :: SaveViolation(posts, p, fault) == Some(Invalid(f)) ==> !FieldHolds(p, f)
  {
    ValidPostsAppend(posts, p);
  }

  /** The rows whose slug equals the argument, in store order. */
  function WithSlug(posts: seq<BlogPost>, slug: string): (r: seq<BlogPost>)
    ensures forall p :: p in r ==> p in posts && p.slug == slug
    ensures r == [] <==> !SlugTaken(posts, slug)
  {
    if posts == [] then []
    else if posts[0].slug == slug then [posts[0]] + WithSlug(posts[1..], slug)
    else
      var rest := WithSlug(posts[1..], slug);
      assert SlugTaken(posts, slug) ==> SlugTaken(posts[1..], slug) by {
        if SlugTaken(posts, slug) {
          var i :| 0 <= i < |posts| && posts[i].slug == slug;
          assert posts[1..][i - 1] == posts[i];
        }
      }
      rest
  }

  /** Query().Where(SlugEQ(slug)).Only(ctx): the single matching row, NotFound for none,
      NotSingular for several. */
  function Only(posts: seq<BlogPost>, slug: string, fault: Option<string>): (r: Result<BlogPost, QueryError>)
    ensures r.Success? ==> r.value in posts && r.value.slug == slug
    ensures r == Failure(NotFound) <==> fault.None? && !SlugTaken(posts, slug)
    ensures fault.Some? ==> r == Failure(QueryUnavailable(fault.value))
  {
    if fault.Some? then Failure(QueryUnavailable(fault.value))
    else
      var matches := WithSlug(posts, slug);
      if |matches| == 0 then Failure(NotFound)
      else if |matches| == 1 then Success(matches[0])
      else Failure(NotSingular)
  }

  lemma {:induction false} WithSlugAtMostOne(posts: seq<BlogPost>, slug: string)
    requires UniqueSlugs(posts)
    ensures |WithSlug(posts, slug)| <= 1
  {
    if posts != [] {
      var rest := posts[1..];
      assert UniqueSlugs(rest) by {
        assert forall i :: 0 <= i < |rest| ==> rest[i] == posts[i + 1];
      }
      if posts[0].slug == slug {
        assert !SlugTaken(rest, slug) by {
          assert forall i :: 0 <= i < |rest| ==> rest[i] == posts[i + 1];
        }
      } else {
        WithSlugAtMostOne(rest, slug);
      }
    }
  }

  /** Under the unique index, a reachable lookup never reports NotSingular: it finds a row
      exactly when the slug is taken. */
  lemma OnlyWithUniqueSlugs(posts: seq<BlogPost>, slug: string)
    requires UniqueSlugs(posts)
    ensures Only(posts, slug, None).Success? <==> SlugTaken(posts, slug)
    ensures Only(posts, slug, None) != Failure(NotSingular)
  {
    WithSlugAtMostOne(posts, slug);
  }

  /** The database reached through the ent client: the rows of blog_posts and the next value of
      the id sequence. */
  class PostStore {
    var posts: seq<BlogPost>
    var nextId: int

    /** The schema invariant, and ids that increase with insertion order and stay below nextId. */
    ghost predicate Valid()
      reads this
    {
      && ValidPosts(posts)
      && (forall i :: 0 <= i < |posts| ==> posts[i].id < nextId)
      && (forall i, j :: 0 <= i < j < |posts| ==> posts[i].id < posts[j].id)
    }

    constructor ()
      ensures Valid() && posts == [] && nextId == 1
    {
      posts := [];
      nextId := 1;
    }

    /** BlogPostCreate.Save: inserts the new row, or fails leaving the store unchanged. */
    method Save(d: Draft, now: Time, fault: Option<string>) returns (r: Result<BlogPost, SaveError>)
      requires Valid()
      modifies this
      ensures Valid()
      ensures var p := NewRow(d, old(nextId), now);
        match SaveViolation(old(posts), p, fault)
        case None => r == Success(p) && posts == old(posts) + [p] && nextId == old(nextId) + 1
        case Some(e) => r == Failure(e) && posts == old(posts) && nextId == old(nextId)
    {
      var p := NewRow(d, nextId, now);
      var violation := SaveViolation(posts, p, fault);
      if violation.Some? {
        return Failure(violation.value);
      }
      SaveAcceptsExactlyValidRows(posts, p, fault);
      posts := posts + [p];
      nextId := nextId + 1;
      return Success(p);
    }
  }
}
