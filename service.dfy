/** internal/services/blogpost_service.go: creating a post (slug choice, collision suffix,
    published_at defaulting, insert), the paginated and searchable list, and lookup by slug. */
module Service {
  import opened Wrappers
  import opened Schema
  import opened EntClient
  import Utils

  // ---------------------------------------------------------------------------
  // Inputs, outputs and errors
  // ---------------------------------------------------------------------------

  /** CreateBlogPostInput; the three optional members are nil-able pointers in Go. */
  datatype CreateBlogPostInput = CreateBlogPostInput(
    title: string,
    excerpt: string,
    content: string,
    image: Option<string>,
    publishedAt: Option<string>,
    slug: Option<string>)

  datatype PaginationMeta = PaginationMeta(total: int, page: int, limit: int, totalPages: int)

  datatype PaginatedBlogPosts = PaginatedBlogPosts(data: seq<BlogPost>, pagination: PaginationMeta)

  /** Go's time.RFC3339 layout, quoted in the published_at error. */
  const Rfc3339Layout := "2006-01-02T15:04:05Z07:00"

  /** The limit used when the caller's limit is below 1. */
  const DefaultLimit := 10

  /** The errors the service returns, each wrapping its cause as fmt.Errorf does. */
  datatype ServiceError =
    | SlugCheckFailed(lookup: QueryError)
    | InvalidPublishedAt(parseError: string)
    | CreateFailed(save: SaveError)
    | CountFailed(reason: string)
    | FetchFailed(reason: string)
    | SlugNotFound(slug: string)
    | RetrieveFailed(query: QueryError)
  {
    /** err.Error(). */
    function Text(): string {
      match this
      case SlugCheckFailed(e) => "failed to check for existing slug: " + e.Text()
      case InvalidPublishedAt(e) => "invalid published_at format: " + e + ". Use format " + Rfc3339Layout
      case CreateFailed(e) => "failed to create blog post: " + e.Text()
      case CountFailed(e) => "failed to count blog posts: " + e
      case FetchFailed(e) => "failed to fetch blog posts: " + e
      case SlugNotFound(s) => NotFoundMessage(s)
      case RetrieveFailed(e) => "failed to retrieve blog post: " + e.Text()
    }
  }

  /** The fixed text of a lookup miss. */
  function NotFoundMessage(slug: string): string {
    "blog post with slug '" + slug + "' not found"
  }

  /** Only a lookup miss for this very slug has the not-found text: the text identifies the
      error kind and the slug. */
  lemma NotFoundTextIsExact(e: ServiceError, slug: string)
    ensures e.Text() == NotFoundMessage(slug) <==> e == SlugNotFound(slug)
  {
    var m := NotFoundMessage(slug);
    assert m[0] == 'b';
    match e
    case SlugNotFound(s) =>
      var t := NotFoundMessage(s);
      if t == m {
        assert |s| == |slug|;
        assert t[21..21 + |s|] == s;
        assert m[21..21 + |slug|] == slug;
      }
    case SlugCheckFailed(x) =>
      assert e.Text()[0] == 'f';
    case InvalidPublishedAt(x) =>
      assert e.Text()[0] == 'i';
    case CreateFailed(x) =>
      assert e.Text()[0] == 'f';
    case CountFailed(x) =>
      assert e.Text()[0] == 'f';
    case FetchFailed(x) =>
      assert e.Text()[0] == 'f';
    case RetrieveFailed(x) =>
      assert e.Text()[0] == 'f';
  }

  // ---------------------------------------------------------------------------
  // Decimal formatting (fmt's %d)
  // ---------------------------------------------------------------------------

  function DigitChar(d: int): char
    requires 0 <= d < 10
  {
    ('0' as int + d) as char
  }

  /** The decimal digits of n, without leading zeros. */
  function Digits(n: nat): string
    decreases n
  {
    if n < 10 then [DigitChar(n)] else Digits(n / 10) + [DigitChar(n % 10)]
  }

  /** %d of an integer. */
  function FormatInt(n: int): string {
    if n < 0 then "-" + Digits(-n) else Digits(n)
  }

  /** Reading a string of decimal digits back as a number. */
  function DigitsValue(s: string): int {
    if s == [] then 0 else DigitsValue(s[..|s| - 1]) * 10 + (s[|s| - 1] as int - '0' as int)
  }

  /** %d of a non-negative number is a non-empty run of digits, without a leading zero unless
      it is "0", that reads back as the number. */
  lemma {:induction false} DigitsRoundTrip(n: nat)
    ensures Digits(n) != []
    ensures forall i :: 0 <= i < |Digits(n)| ==> '0' <= Digits(n)[i] <= '9'
    ensures |Digits(n)| > 1 ==> Digits(n)[0] != '0'
    ensures DigitsValue(Digits(n)) == n
    decreases n
  {
    if n >= 10 {
      DigitsRoundTrip(n / 10);
      var d := Digits(n);
      assert d[..|d| - 1] == Digits(n / 10);
      assert forall i :: 0 <= i < |d| - 1 ==> d[i] == Digits(n / 10)[i];
    }
  }

  // ---------------------------------------------------------------------------
  // CreateBlogPost
  // ---------------------------------------------------------------------------

  /** The slug before the collision check: from the explicit slug when it is given and non-empty,
      otherwise from the title. */
  function BaseSlug(input: CreateBlogPostInput): (r: string)
    ensures Utils.WellFormedSlug(r)
    ensures input.slug.Some? && input.slug.value != "" ==>
      Utils.DropHyphens(r) == Utils.AlnumOf(Utils.Lower(input.slug.value))
    ensures !(input.slug.Some? && input.slug.value != "") ==>
      Utils.DropHyphens(r) == Utils.AlnumOf(Utils.Lower(input.title))
  {
    if input.slug.Some? && input.slug.value != "" then Utils.GenerateSlug(input.slug.value)
    else Utils.GenerateSlug(input.title)
  }

  /** The slug that is saved: the base slug, or, when a row already has it, the base slug with
      "-<unix seconds>" appended once (the result is not checked again). The base slug is kept
      exactly when no stored row has it, and it always begins the saved slug. */
  function ChosenSlug(posts: seq<BlogPost>, base: string, now: Time): (r: string)
    ensures r == base <==> !SlugTaken(posts, base)
    ensures |base| <= |r| && r[..|base|] == base
  {
    if SlugTaken(posts, base) then
      var t := base + "-" + FormatInt(UnixSeconds(now));
      assert t[..|base|] == base;
      t
    else base
  }

  /** published_at: the parsed value when one is given, the clock reading otherwise; only a
      given value can fail. */
  function ResolvePublishedAt(publishedAt: Option<string>, now: Time,
                              parseRfc3339: string -> Result<Time, string>): (r: Result<Time, string>)
    ensures publishedAt.None? ==> r == Success(now)
    ensures publishedAt.Some? ==> r == parseRfc3339(publishedAt.value)
    ensures r.Failure? ==> publishedAt.Some?
  {
    if publishedAt.Some? then parseRfc3339(publishedAt.value) else Success(now)
  }

  /** What CreateBlogPost answers on a store holding `posts` whose next id is `nextId`. A failure
      names the step that failed, in the order the steps run: the slug lookup, the published_at
      parse, then the insert; a success is the row built from the input under the chosen slug. */
  function CreateOutcome(posts: seq<BlogPost>, nextId: int, input: CreateBlogPostInput, now: Time,
                         parseRfc3339: string -> Result<Time, string>,
                         lookupFault: Option<string>, saveFault: Option<string>): (r: Result<BlogPost, ServiceError>)
    ensures lookupFault.Some? ==> r == Failure(SlugCheckFailed(QueryUnavailable(lookupFault.value)))
    ensures var published := ResolvePublishedAt(input.publishedAt, now, parseRfc3339);
      lookupFault.None? && published.Failure? ==> r == Failure(InvalidPublishedAt(published.error))
    ensures var published := ResolvePublishedAt(input.publishedAt, now, parseRfc3339);
      lookupFault.None? && published.Success? && r.Failure? ==>
        r.error.CreateFailed? && (saveFault.Some? ==> r.error.save.SaveUnavailable? || r.error.save.Invalid?)
    ensures r.Success? ==>
      && lookupFault.None? && saveFault.None?
      && r.value.id == nextId && r.value.createTime == now && r.value.updateTime == now
      && r.value.slug == ChosenSlug(posts, BaseSlug(input), now)
  {
    if lookupFault.Some? then Failure(SlugCheckFailed(QueryUnavailable(lookupFault.value)))
    else
      match ResolvePublishedAt(input.publishedAt, now, parseRfc3339)
      case Failure(e) => Failure(InvalidPublishedAt(e))
      case Success(published) =>
        var slug := ChosenSlug(posts, BaseSlug(input), now);
        var row := NewRow(Draft(input.title, slug, input.content, input.excerpt, published, input.image), nextId, now);
        match SaveViolation(posts, row, saveFault)
        case Some(e) => Failure(CreateFailed(e))
        case None => Success(row)
  }

  /** CreateBlogPost. The clock reading `now` serves the collision suffix, the published_at
      default and the Time mixin; `parseRfc3339` is time.Parse(time.RFC3339, ·); the two faults
      stand for a database error on the slug lookup and on the insert. */
  method CreateBlogPost(client: PostStore, input: CreateBlogPostInput, now: Time,
                        parseRfc3339: string -> Result<Time, string>,
                        lookupFault: Option<string>, saveFault: Option<string>)
    returns (r: Result<BlogPost, ServiceError>)
    requires client.Valid()
    modifies client
    ensures client.Valid()
    ensures r == CreateOutcome(old(client.posts), old(client.nextId), input, now, parseRfc3339, lookupFault, saveFault)
    ensures r.Success? ==> client.posts == old(client.posts) + [r.value] && client.nextId == old(client.nextId) + 1
    ensures r.Failure? ==> client.posts == old(client.posts) && client.nextId == old(client.nextId)
  {
    var slug := "";
    if input.slug.Some? && input.slug.value != "" {
      slug := Utils.GenerateSlug(input.slug.value);
    } else {
      slug := Utils.GenerateSlug(input.title);
    }

    OnlyWithUniqueSlugs(client.posts, slug);
    var existing := Only(client.posts, slug, lookupFault);
    if existing.Failure? && existing.error != NotFound {
      return Failure(SlugCheckFailed(existing.error));
    }
    if existing.Success? {
      slug := slug + "-" + FormatInt(UnixSeconds(now));
    }

    var publishedAt: Time;
    if input.publishedAt.Some? {
      var parsed := parseRfc3339(input.publishedAt.value);
      if parsed.Failure? {
        return Failure(InvalidPublishedAt(parsed.error));
      }
      publishedAt := parsed.value;
    } else {
      publishedAt := now;
    }

    var draft := Draft(input.title, slug, input.content, input.excerpt, publishedAt, None);
    if input.image.Some? {
      draft := draft.(image := input.image);
    }

    var saved := client.Save(draft, now, saveFault);
    if saved.Failure? {
      return Failure(CreateFailed(saved.error));
    }
    return Success(saved.value);
  }

  /** A create succeeds exactly when both database calls go through, published_at parses, and
      the row passes its validators and has a slug no stored row has; the created row carries the
      input's fields, the next id, the clock reading as both timestamps, and published_at from
      the input or the clock; and the store stays valid after appending it. */
  lemma CreateOutcomeSpec(posts: seq<BlogPost>, nextId: int, input: CreateBlogPostInput, now: Time,
                          parseRfc3339: string -> Result<Time, string>,
                          lookupFault: Option<string>, saveFault: Option<string>)
    requires ValidPosts(posts)
    ensures var r := CreateOutcome(posts, nextId, input, now, parseRfc3339, lookupFault, saveFault);
      var published := ResolvePublishedAt(input.publishedAt, now, parseRfc3339);
      var slug := ChosenSlug(posts, BaseSlug(input), now);
      && (r.Success? <==>
            && lookupFault.None? && published.Success? && saveFault.None?
            && input.title != "" && slug != "" && input.content != "" && input.excerpt != ""
            && Utf8Len(input.excerpt) <= ExcerptMaxLen
            && !SlugTaken(posts, slug))
      && (r.Success? ==>
            && r.value.id == nextId && r.value.createTime == now && r.value.updateTime == now
            && r.value.title == input.title && r.value.slug == slug && r.value.content == input.content
            && r.value.excerpt == input.excerpt && r.value.image == input.image
            && r.value.publishedAt == (if input.publishedAt.Some? then published.value else now)
            && ValidPosts(posts + [r.value]))
  {
    var r := CreateOutcome(posts, nextId, input, now, parseRfc3339, lookupFault, saveFault);
    var published := ResolvePublishedAt(input.publishedAt, now, parseRfc3339);
    if lookupFault.None? && published.Success? {
      var slug := ChosenSlug(posts, BaseSlug(input), now);
      var row := NewRow(Draft(input.title, slug, input.content, input.excerpt, published.value, input.image), nextId, now);
      SaveAcceptsExactlyValidRows(posts, row, saveFault);
    }
  }

  /** base + "-" + digits is again a well-formed slug, and differs from base. */
  lemma SuffixedSlugIsWellFormed(base: string, n: nat)
    requires Utils.WellFormedSlug(base) && base != ""
    ensures Utils.WellFormedSlug(base + "-" + FormatInt(n))
    ensures base + "-" + FormatInt(n) != base
  {
    DigitsRoundTrip(n);
    var d := Digits(n);
    var t := base + "-" + d;
    assert forall i :: 0 <= i < |base| ==> t[i] == base[i];
    assert t[|base|] == '-';
    assert forall i :: 0 <= i < |d| ==> t[|base| + 1 + i] == d[i];
    assert forall i :: 0 <= i < |d| ==> Utils.IsSlugChar(d[i]);
    assert Utils.SlugAlphabet(t);
    assert t[|t| - 1] == d[|d| - 1];
  }

  /** Whatever the store holds, the saved slug is URL-safe, provided the clock is not before 1970:
      a taken base slug is non-empty, so the suffixed form is well formed too. */
  lemma ChosenSlugIsWellFormed(posts: seq<BlogPost>, input: CreateBlogPostInput, now: Time)
    requires ValidPosts(posts) && now >= 0
    ensures Utils.WellFormedSlug(ChosenSlug(posts, BaseSlug(input), now))
  {
    var base := BaseSlug(input);
    if input.slug.Some? && input.slug.value != "" {
      assert Utils.WellFormedSlug(Utils.GenerateSlug(input.slug.value));
    } else {
      assert Utils.WellFormedSlug(Utils.GenerateSlug(input.title));
    }
    if SlugTaken(posts, base) {
      var i :| 0 <= i < |posts| && posts[i].slug == base;
      StoredRowBounds(posts, i);
      SuffixedSlugIsWellFormed(base, UnixSeconds(now));
    }
  }

  /** The suffixed slug is not checked again: when it is taken as well, the insert fails on the
      unique index even though every field is valid. */
  lemma SuffixedSlugCanCollide(posts: seq<BlogPost>, input: CreateBlogPostInput, published: Time, id: int, now: Time)
    requires ValidPosts(posts)
    requires SlugTaken(posts, BaseSlug(input))
    requires SlugTaken(posts, BaseSlug(input) + "-" + FormatInt(UnixSeconds(now)))
    requires input.title != "" && input.content != "" && input.excerpt != "" && Utf8Len(input.excerpt) <= ExcerptMaxLen
    ensures var slug := ChosenSlug(posts, BaseSlug(input), now);
      var row := NewRow(Draft(input.title, slug, input.content, input.excerpt, published, input.image), id, now);
      SaveViolation(posts, row, None) == Some(DuplicateSlug)
  {
    var slug := BaseSlug(input) + "-" + FormatInt(UnixSeconds(now));
    assert slug != "";
  }

  /** A reachable instance: a store holding "a" and "a-0" is valid, and creating another post
      titled "A" at time 0 picks "a-0" and is refused by the unique index. */
  lemma SuffixCollisionExample()
    ensures var r1 := BlogPost(1, 0, 0, "A", "a", "c", "e", 0, None);
      var r2 := BlogPost(2, 0, 0, "A", "a-0", "c", "e", 0, None);
      var input := CreateBlogPostInput("A", "e", "c", None, None, None);
      && ValidPosts([r1, r2])
      && BaseSlug(input) == "a"
      && ChosenSlug([r1, r2], "a", 0) == "a-0"
      && SaveViolation([r1, r2], NewRow(Draft("A", "a-0", "c", "e", 0, None), 3, 0), None) == Some(DuplicateSlug)
  {
    var r1 := BlogPost(1, 0, 0, "A", "a", "c", "e", 0, None);
    var r2 := BlogPost(2, 0, 0, "A", "a-0", "c", "e", 0, None);
    assert Utils.GenerateSlug("A") == "a" by {
      assert Utils.Lower("A") == "a";
      assert Utils.ReplaceRuns("a") == "a";
    }
    assert [r1, r2][0].slug == "a";
    assert [r1, r2][1].slug == "a-0";
    assert FormatInt(UnixSeconds(0)) == "0";
    assert Utf8Len("e") == 1;
  }

  /** A title with nothing to slug (and no explicit slug) leaves an empty slug, which no stored
      row has, so no suffix is added and the insert fails on the slug validator. */
  lemma UnsluggableTitleFailsOnSlug(posts: seq<BlogPost>, input: CreateBlogPostInput, published: Time, id: int, now: Time)
    requires ValidPosts(posts)
    requires input.slug.None? && input.title != ""
    requires forall i :: 0 <= i < |input.title| ==> !Utils.IsAsciiAlnum(input.title[i])
    ensures ChosenSlug(posts, BaseSlug(input), now) == ""
    ensures var row := NewRow(Draft(input.title, "", input.content, input.excerpt, published, input.image), id, now);
      SaveViolation(posts, row, None) == Some(Invalid(Slug))
  {
    Utils.NoAlnumGivesEmptySlug(input.title);
  }

  /** Two posts with the same title on an empty store: both are created, the first under the
      title's slug and the second under that slug with the seconds suffix. */
  method SameTitleTwice(input: CreateBlogPostInput, now: Time, parseRfc3339: string -> Result<Time, string>)
    returns (first: Result<BlogPost, ServiceError>, second: Result<BlogPost, ServiceError>)
    requires input.slug.None? && input.publishedAt.None?
    requires input.title != "" && input.content != "" && input.excerpt != "" && Utf8Len(input.excerpt) <= ExcerptMaxLen
    requires Utils.GenerateSlug(input.title) != ""
    ensures first.Success? && second.Success?
    ensures first.value.slug == Utils.GenerateSlug(input.title)
    ensures second.value.slug == first.value.slug + "-" + FormatInt(UnixSeconds(now))
    ensures first.value.id != second.value.id
  {
    var client := new PostStore();
    var base := Utils.GenerateSlug(input.title);
    assert !SlugTaken([], base);
    CreateOutcomeSpec([], 1, input, now, parseRfc3339, None, None);
    first := CreateBlogPost(client, input, now, parseRfc3339, None, None);
    assert client.posts == [first.value] && first.value.slug == base;
    var suffixed := base + "-" + FormatInt(UnixSeconds(now));
    assert SlugTaken([first.value], base) && !SlugTaken([first.value], suffixed) by {
      assert [first.value][0].slug == base && |suffixed| > |base|;
    }
    CreateOutcomeSpec([first.value], client.nextId, input, now, parseRfc3339, None, None);
    second := CreateBlogPost(client, input, now, parseRfc3339, None, None);
  }

  // ---------------------------------------------------------------------------
  // GetBlogPosts
  // ---------------------------------------------------------------------------

  function NormalisePage(page: int): int {
    if page < 1 then 1 else page
  }

  function NormaliseLimit(limit: int): int {
    if limit < 1 then DefaultLimit else limit
  }

  /** needle occurs in hay as a contiguous piece. */
  function Contains(hay: string, needle: string): bool {
    needle <= hay || (hay != [] && Contains(hay[1..], needle))
  }

  /** needle occurs in hay starting at position i. */
  predicate OccursAt(hay: string, needle: string, i: int) {
    0 <= i <= |hay| - |needle| && hay[i..i + |needle|] == needle
  }

  /** Contains agrees with the positional definition of a substring. */
  lemma {:induction false} ContainsAt(hay: string, needle: string)
    ensures Contains(hay, needle) <==> exists i :: OccursAt(hay, needle, i)
  {
    if needle <= hay {
      assert OccursAt(hay, needle, 0);
    } else if hay != [] {
      ContainsAt(hay[1..], needle);
      var tail := hay[1..];
      if exists i :: OccursAt(tail, needle, i) {
        var i :| OccursAt(tail, needle, i);
        assert hay[i + 1..i + 1 + |needle|] == tail[i..i + |needle|];
        assert OccursAt(hay, needle, i + 1);
      }
      if exists i :: OccursAt(hay, needle, i) {
        var i :| OccursAt(hay, needle, i);
        if i != 0 {
          assert tail[i - 1..i - 1 + |needle|] == hay[i..i + |needle|];
          assert OccursAt(tail, needle, i - 1);
        }
      }
    } else {
      assert forall i :: OccursAt(hay, needle, i) ==> needle <= hay;
    }
  }

  /** A contiguous piece is never longer than the text it lies in. */
  lemma {:induction false} ContainsIsShorter(hay: string, needle: string)
    ensures Contains(hay, needle) ==> |needle| <= |hay|
  {
    if !(needle <= hay) && hay != [] {
      ContainsIsShorter(hay[1..], needle);
    }
  }

  /** ContainsFold, with ASCII case folding: the empty term is found in every text, and a term
      longer than the text is never found. */
  function ContainsFold(hay: string, term: string): (r: bool)
    ensures term == "" ==> r
    ensures r ==> |term| <= |hay|
  {
    ContainsIsShorter(Utils.Lower(hay), Utils.Lower(term));
    Contains(Utils.Lower(hay), Utils.Lower(term))
  }

  /** ContainsFold means that the case-folded term occurs at some position of the case-folded
      text. */
  lemma ContainsFoldAt(hay: string, term: string)
    ensures ContainsFold(hay, term) <==> exists i :: OccursAt(Utils.Lower(hay), Utils.Lower(term), i)
  {
    var h, t := Utils.Lower(hay), Utils.Lower(term);
    ContainsAt(h, t);
    if ContainsFold(hay, term) {
      var i :| OccursAt(h, t, i);
      assert OccursAt(Utils.Lower(hay), Utils.Lower(term), i);
    }
  }

  /** The search filter: everything when the term is empty, otherwise a case-insensitive match in
      the title, the content or the excerpt. */
  predicate Matches(p: BlogPost, term: string) {
    term == "" || ContainsFold(p.title, term) || ContainsFold(p.content, term) || ContainsFold(p.excerpt, term)
  }

  /** A post matches the search exactly when the term is empty or its case-folded form occurs
      at some position of the case-folded title, content or excerpt. */
  lemma MatchesMeaning(p: BlogPost, term: string)
    ensures Matches(p, term) <==>
      || term == ""
      || (exists i :: OccursAt(Utils.Lower(p.title), Utils.Lower(term), i))
      || (exists i :: OccursAt(Utils.Lower(p.content), Utils.Lower(term), i))
      || (exists i :: OccursAt(Utils.Lower(p.excerpt), Utils.Lower(term), i))
  {
    ContainsFoldAt(p.title, term);
    ContainsFoldAt(p.content, term);
    ContainsFoldAt(p.excerpt, term);
  }

  /** The rows the filtered query sees, in store order. */
  function Matching(posts: seq<BlogPost>, term: string): (r: seq<BlogPost>)
    ensures |r| <= |posts|
    ensures forall p :: p in r <==> p in posts && Matches(p, term)
  {
    if posts == [] then []
    else
      var rest := Matching(posts[1..], term);
      assert forall p :: p in posts <==> p == posts[0] || p in posts[1..];
      if Matches(posts[0], term) then [posts[0]] + rest else rest
  }

  /** The filter keeps each matching row as often as it is stored and drops every other row, so
      its length is the number of matching rows. */
  lemma {:induction false} MatchingCounts(posts: seq<BlogPost>, term: string)
    ensures forall p :: multiset(Matching(posts, term))[p] == if Matches(p, term) then multiset(posts)[p] else 0
  {
    if posts != [] {
      var rest := Matching(posts[1..], term);
      MatchingCounts(posts[1..], term);
      assert posts == [posts[0]] + posts[1..];
      assert multiset(posts) == multiset{posts[0]} + multiset(posts[1..]);
      if Matches(posts[0], term) {
        assert multiset(Matching(posts, term)) == multiset{posts[0]} + multiset(rest);
      }
    }
  }

  /** Order(ent.Desc(FieldCreateTime)): newest first; rows with equal create_time in any order. */
  predicate NewestFirst(s: seq<BlogPost>) {
    forall i, j :: 0 <= i < j < |s| ==> s[i].createTime >= s[j].createTime
  }

  /** Putting a row in front of a newest-first sequence keeps the order when the row is not
      older than the current head. */
  lemma ConsNewestFirst(x: BlogPost, s: seq<BlogPost>)
    requires NewestFirst(s)
    requires s == [] || x.createTime >= s[0].createTime
    ensures NewestFirst([x] + s)
  {
    var t := [x] + s;
    forall i, j | 0 <= i < j < |t| ensures t[i].createTime >= t[j].createTime {
      if i == 0 && j > 1 {
        assert t[j] == s[j - 1];
        assert s[0].createTime >= s[j - 1].createTime;
      }
    }
  }

  function InsertNewestFirst(p: BlogPost, s: seq<BlogPost>): (r: seq<BlogPost>)
    requires NewestFirst(s)
    ensures NewestFirst(r) && multiset(r) == multiset(s) + multiset{p}
    ensures r != [] && (r[0] == p || (s != [] && r[0] == s[0]))
  {
    if s == [] || p.createTime >= s[0].createTime then
      ConsNewestFirst(p, s);
      [p] + s
    else
      assert NewestFirst(s[1..]) by {
        assert forall i :: 0 <= i < |s| - 1 ==> s[1..][i] == s[i + 1];
      }
      var rest := InsertNewestFirst(p, s[1..]);
      assert |s| > 1 ==> s[1..][0] == s[1];
      ConsNewestFirst(s[0], rest);
      assert s == [s[0]] + s[1..];
      [s[0]] + rest
  }

  /** The rows sorted newest first (an insertion sort). */
  function SortNewestFirst(s: seq<BlogPost>): (r: seq<BlogPost>)
    ensures NewestFirst(r) && multiset(r) == multiset(s) && |r| == |s|
  {
    if s == [] then []
    else
      assert s == [s[0]] + s[1..];
      InsertNewestFirst(s[0], SortNewestFirst(s[1..]))
  }

  function Min(a: int, b: int): int {
    if a <= b then a else b
  }

  /** Offset(offset).Limit(limit): skip `offset` rows, keep at most `limit`. */
  function Window(s: seq<BlogPost>, offset: nat, limit: nat): (r: seq<BlogPost>)
    ensures |r| == if offset >= |s| then 0 else Min(limit, |s| - offset)
    ensures forall k :: 0 <= k < |r| ==> r[k] == s[offset + k]
  {
    if offset >= |s| then [] else s[offset..Min(offset + limit, |s|)]
  }

  /** The list query selects every column except content, which stays at its zero value. */
  function ListItem(p: BlogPost): BlogPost {
    p.(content := "")
  }

  /** (page - 1) * limit, computed without overflow. */
  function Offset(page: int, limit: int): nat
    requires page >= 1 && limit >= 1
  {
    NonNegativeProduct(page - 1, limit);
    (page - 1) * limit
  }

  lemma NonNegativeProduct(a: nat, b: nat)
    ensures a * b >= 0
  {
  }

  /** int(math.Ceil(float64(total) / float64(limit))), computed on integers. */
  function CeilDiv(total: nat, limit: int): nat
    requires limit >= 1
  {
    (total + limit - 1) / limit
  }

  /** Go's int: 64-bit two's complement, wrapping on overflow. */
  const TwoTo63: int := 0x8000_0000_0000_0000

  predicate IsInt64(n: int) {
    -TwoTo63 <= n < TwoTo63
  }

  function Wrap64(x: int): (r: int)
    ensures IsInt64(r) && (x - r) % (2 * TwoTo63) == 0
  {
    (x + TwoTo63) % (2 * TwoTo63) - TwoTo63
  }

  /** The offset as the code computes it, (page - 1) * limit in int arithmetic. */
  function OffsetAsWritten(page: int, limit: int): int {
    Wrap64((page - 1) * limit)
  }

  /** The as-written offset agrees with the exact one while the product fits in an int. */
  lemma OffsetAsWrittenAgreesWhenSmall(page: int, limit: int)
    requires page >= 1 && limit >= 1 && (page - 1) * limit < TwoTo63
    ensures OffsetAsWritten(page, limit) == Offset(page, limit)
  {
    NonNegativeProduct(page - 1, limit);
  }

  /** Page 2^62 + 1 at limit 4: both values are valid ints and pass normalisation, but the offset
      wraps to 0, so a page that lies far past the last row is served the rows of page 1 instead of
      an empty page. */
  lemma OffsetOverflowServesFirstPage(posts: seq<BlogPost>, term: string)
    requires |Matching(posts, term)| < TwoTo63
    ensures var page, limit := 0x4000_0000_0000_0001, 4;
      && IsInt64(page) && NormalisePage(page) == page && NormaliseLimit(limit) == limit
      && OffsetAsWritten(page, limit) == 0
      && Window(SortNewestFirst(Matching(posts, term)), OffsetAsWritten(page, limit), limit)
         == Window(SortNewestFirst(Matching(posts, term)), 0, limit)
      && (Matching(posts, term) != [] ==> Window(SortNewestFirst(Matching(posts, term)), 0, limit) != [])
      && GetBlogPosts(posts, page, limit, term, None, None).value.data == []
  {
    var page, limit := 0x4000_0000_0000_0001, 4;
    assert (page - 1) * limit == 2 * TwoTo63;
    assert OffsetAsWritten(page, limit) == 0;
    PagePastTheEndIsEmpty(posts, page, limit, term);
  }

  /** Page 2^62 + 1 at limit 2: the offset wraps to -2^63, a negative OFFSET for the fetch
      query, where the exact offset lies past every row. */
  lemma OffsetOverflowCanBeNegative()
    ensures var page, limit := 0x4000_0000_0000_0001, 2;
      && IsInt64(page) && NormalisePage(page) == page && NormaliseLimit(limit) == limit
      && OffsetAsWritten(page, limit) == -TwoTo63
      && Offset(page, limit) == TwoTo63
  {
    var page, limit := 0x4000_0000_0000_0001, 2;
    assert (page - 1) * limit == TwoTo63;
  }

  /** The data of one page: the matching rows, newest first, windowed, without content. A page
      holds at most `limit` rows, and none of them carries its content. */
  function PageData(posts: seq<BlogPost>, term: string, offset: nat, limit: nat): (r: seq<BlogPost>)
    ensures |r| <= limit
    ensures forall k :: 0 <= k < |r| ==> r[k].content == ""
  {
    ListItems(Window(SortNewestFirst(Matching(posts, term)), offset, limit))
  }

  /** The rows in the same order, each as the list query returns it. */
  function ListItems(w: seq<BlogPost>): (r: seq<BlogPost>)
    ensures |r| == |w|
    ensures forall k :: 0 <= k < |r| ==> r[k] == ListItem(w[k]) && r[k].content == ""
  {
    seq(|w|, k requires 0 <= k < |w| => ListItem(w[k]))
  }

  /** GetBlogPosts; the two faults stand for a database error on the count and on the fetch. */
  function GetBlogPosts(posts: seq<BlogPost>, page: int, limit: int, searchTerm: string,
                        countFault: Option<string>, fetchFault: Option<string>)
    : (r: Result<PaginatedBlogPosts, ServiceError>)
    ensures countFault.Some? ==> r == Failure(CountFailed(countFault.value))
    ensures countFault.None? && fetchFault.Some? ==> r == Failure(FetchFailed(fetchFault.value))
    ensures countFault.None? && fetchFault.None? <==> r.Success?
  {
    var page := NormalisePage(page);
    var limit := NormaliseLimit(limit);
    if countFault.Some? then Failure(CountFailed(countFault.value))
    else
      var total := |Matching(posts, searchTerm)|;
      var offset := Offset(page, limit);
      var totalPages := CeilDiv(total, limit);
      if fetchFault.Some? then Failure(FetchFailed(fetchFault.value))
      else Success(PaginatedBlogPosts(PageData(posts, searchTerm, offset, limit),
                                      PaginationMeta(total, page, limit, totalPages)))
  }

  /** Ceiling division: enough pages for every row, and no page beyond the one holding the last
      row; zero pages exactly when there are no rows. */
  lemma CeilDivIsCeiling(total: nat, limit: int)
    requires limit >= 1
    ensures CeilDiv(total, limit) * limit >= total
    ensures total > 0 ==> (CeilDiv(total, limit) - 1) * limit < total
    ensures CeilDiv(total, limit) == 0 <==> total == 0
  {
    var n := total + limit - 1;
    var q, m := n / limit, n % limit;
    assert n == q * limit + m && 0 <= m < limit;
    assert q * limit == n - m;
    assert (q - 1) * limit == q * limit - limit;
  }

  /** The metadata of a successful list: page below 1 becomes 1, limit below 1 becomes 10, other
      values pass through; total counts the matching rows; totalPages is the ceiling of
      total / limit (CeilDivIsCeiling). */
  lemma ListPagination(posts: seq<BlogPost>, page: int, limit: int, term: string)
    ensures GetBlogPosts(posts, page, limit, term, None, None).Success?
    ensures var m := GetBlogPosts(posts, page, limit, term, None, None).value.pagination;
      && m.page == (if page < 1 then 1 else page)
      && m.limit == (if limit < 1 then 10 else limit)
      && m.total == |Matching(posts, term)|
      && m.totalPages == CeilDiv(m.total, m.limit)
  {
    ListUnfold(posts, page, limit, term);
  }

  /** A list without database errors: the page of data at offset (page - 1) * limit and its
      metadata, both after normalisation. */
  lemma ListUnfold(posts: seq<BlogPost>, page: int, limit: int, term: string)
    ensures var p, l := NormalisePage(page), NormaliseLimit(limit);
      var total := |Matching(posts, term)|;
      GetBlogPosts(posts, page, limit, term, None, None)
        == Success(PaginatedBlogPosts(PageData(posts, term, Offset(p, l), l), PaginationMeta(total, p, l, CeilDiv(total, l))))
  {
  }

  /** A successful list's data is PageData at offset (page - 1) * limit. */
  lemma ListIsPageData(posts: seq<BlogPost>, page: int, limit: int, term: string)
    requires page >= 1 && limit >= 1
    ensures GetBlogPosts(posts, page, limit, term, None, None).value.data
         == PageData(posts, term, Offset(page, limit), limit)
  {
    ListUnfold(posts, page, limit, term);
  }

  /** The data of a successful list skips (page - 1) * limit of the matching rows taken newest
      first and holds the next `limit` of them (fewer on the last page, none past it), each with
      its content left out. */
  lemma ListWindow(posts: seq<BlogPost>, page: int, limit: int, term: string)
    requires page >= 1 && limit >= 1
    ensures var data := GetBlogPosts(posts, page, limit, term, None, None).value.data;
      var sorted := SortNewestFirst(Matching(posts, term));
      var offset := Offset(page, limit);
      && |data| <= limit
      && |data| == (if offset >= |sorted| then 0 else Min(limit, |sorted| - offset))
      && (forall k :: 0 <= k < |data| ==> data[k] == ListItem(sorted[offset + k]))
  {
    var sorted := SortNewestFirst(Matching(posts, term));
    var offset := Offset(page, limit);
    ListIsPageData(posts, page, limit, term);
    PageDataWindow(sorted, posts, term, offset, limit);
  }

  lemma PageDataWindow(sorted: seq<BlogPost>, posts: seq<BlogPost>, term: string, offset: nat, limit: nat)
    requires sorted == SortNewestFirst(Matching(posts, term))
    ensures var data := PageData(posts, term, offset, limit);
      && |data| <= limit
      && |data| == (if offset >= |sorted| then 0 else Min(limit, |sorted| - offset))
      && (forall k :: 0 <= k < |data| ==> data[k] == ListItem(sorted[offset + k]))
  {
  }

  /** Each row of the sorted matches is a stored row that matches the search. */
  lemma SortedRowIsStoredMatch(posts: seq<BlogPost>, term: string, i: int)
    requires 0 <= i < |SortNewestFirst(Matching(posts, term))|
    ensures SortNewestFirst(Matching(posts, term))[i] in posts
    ensures Matches(SortNewestFirst(Matching(posts, term))[i], term)
  {
    var m := Matching(posts, term);
    var sorted := SortNewestFirst(m);
    var p := sorted[i];
    assert p in multiset(sorted);
    assert p in multiset(m);
    assert p in m;
  }

  /** Every listed item is a stored row that matches the search, with its content left out. */
  lemma ListItemsAreStoredMatches(posts: seq<BlogPost>, page: int, limit: int, term: string)
    requires page >= 1 && limit >= 1
    ensures var data := GetBlogPosts(posts, page, limit, term, None, None).value.data;
      forall k :: 0 <= k < |data| ==> data[k].content == "" && ListedFrom(data[k], posts, term)
  {
    ListIsPageData(posts, page, limit, term);
    PageDataItems(SortNewestFirst(Matching(posts, term)), posts, term, Offset(page, limit), limit);
  }

  lemma PageDataItems(sorted: seq<BlogPost>, posts: seq<BlogPost>, term: string, offset: nat, limit: nat)
    requires sorted == SortNewestFirst(Matching(posts, term))
    ensures var data := PageData(posts, term, offset, limit);
      forall k :: 0 <= k < |data| ==> data[k].content == "" && ListedFrom(data[k], posts, term)
  {
    var data := PageData(posts, term, offset, limit);
    forall k | 0 <= k < |data| ensures data[k].content == "" && ListedFrom(data[k], posts, term) {
      PageDataItem(sorted, posts, term, offset, limit, k);
    }
  }

  lemma PageDataItem(sorted: seq<BlogPost>, posts: seq<BlogPost>, term: string, offset: nat, limit: nat, k: int)
    requires sorted == SortNewestFirst(Matching(posts, term))
    requires 0 <= k < |PageData(posts, term, offset, limit)|
    ensures PageData(posts, term, offset, limit)[k].content == ""
    ensures ListedFrom(PageData(posts, term, offset, limit)[k], posts, term)
  {
    var w := Window(sorted, offset, limit);
    assert PageData(posts, term, offset, limit)[k] == ListItem(w[k]);
    SortedRowIsStoredMatch(posts, term, offset + k);
    ListItemOfMatch(w[k], posts, term);
  }

  lemma ListItemOfMatch(p: BlogPost, posts: seq<BlogPost>, term: string)
    requires p in posts && Matches(p, term)
    ensures ListItem(p).content == "" && ListedFrom(ListItem(p), posts, term)
  {
  }

  /** q is a stored row matching the search, as the list shows it. */
  predicate ListedFrom(q: BlogPost, posts: seq<BlogPost>, term: string) {
    exists p :: p in posts && Matches(p, term) && q == ListItem(p)
  }

  /** The listed items are newest first. */
  lemma ListIsNewestFirst(posts: seq<BlogPost>, page: int, limit: int, term: string)
    requires page >= 1 && limit >= 1
    ensures NewestFirst(GetBlogPosts(posts, page, limit, term, None, None).value.data)
  {
    ListIsPageData(posts, page, limit, term);
    PageDataNewestFirst(SortNewestFirst(Matching(posts, term)), posts, term, Offset(page, limit), limit);
  }

  lemma PageDataNewestFirst(sorted: seq<BlogPost>, posts: seq<BlogPost>, term: string, offset: nat, limit: nat)
    requires sorted == SortNewestFirst(Matching(posts, term))
    ensures NewestFirst(PageData(posts, term, offset, limit))
  {
    var data := PageData(posts, term, offset, limit);
    PageDataWindow(sorted, posts, term, offset, limit);
    forall i, j | 0 <= i < j < |data| ensures data[i].createTime >= data[j].createTime {
      assert data[i].createTime == sorted[offset + i].createTime;
      assert data[j].createTime == sorted[offset + j].createTime;
    }
  }

  /** A page number for which no row is left gives an empty page. */
  lemma PagePastTheEndIsEmpty(posts: seq<BlogPost>, page: int, limit: int, term: string)
    requires limit >= 1
    requires page > CeilDiv(|Matching(posts, term)|, limit)
    ensures GetBlogPosts(posts, page, limit, term, None, None).value.data == []
  {
    var total := |Matching(posts, term)|;
    CeilDivIsCeiling(total, limit);
    var tp := CeilDiv(total, limit);
    assert Offset(page, limit) >= tp * limit by {
      MonotoneProduct(page - 1, tp, limit);
    }
    ListWindow(posts, page, limit, term);
  }

  lemma MonotoneProduct(a: int, b: int, c: nat)
    requires a >= b
    ensures a * c >= b * c
  {
    assert a * c - b * c == (a - b) * c;
  }

  /** Position m of page `page` holds the row at offset + m of the sorted matches, for every m
      below the limit that stays within the matches. */
  lemma PagePosition(posts: seq<BlogPost>, page: int, limit: int, term: string, m: nat)
    requires page >= 1 && limit >= 1 && m < limit
    requires Offset(page, limit) + m < |Matching(posts, term)|
    ensures var data := GetBlogPosts(posts, page, limit, term, None, None).value.data;
      m < |data| && data[m] == ListItem(SortNewestFirst(Matching(posts, term))[Offset(page, limit) + m])
  {
    var sorted := SortNewestFirst(Matching(posts, term));
    var offset := Offset(page, limit);
    ListIsPageData(posts, page, limit, term);
    PageDataWindow(sorted, posts, term, offset, limit);
    assert offset + m < |sorted|;
  }

  /** Every matching row is listed exactly where paging puts it: the k-th newest match is item
      k % limit of page k / limit + 1. */
  lemma EveryMatchIsOnItsPage(posts: seq<BlogPost>, limit: int, term: string, k: nat)
    requires limit >= 1 && k < |Matching(posts, term)|
    ensures var data := GetBlogPosts(posts, k / limit + 1, limit, term, None, None).value.data;
      k % limit < |data| && data[k % limit] == ListItem(SortNewestFirst(Matching(posts, term))[k])
  {
    OffsetOfPageOf(k, limit);
    PagePosition(posts, k / limit + 1, limit, term, k % limit);
  }

  /** Row k lies at position k % limit of page k / limit + 1. */
  lemma OffsetOfPageOf(k: nat, limit: int)
    requires limit >= 1
    ensures k / limit + 1 >= 1 && 0 <= k % limit < limit
    ensures Offset(k / limit + 1, limit) + k % limit == k
  {
    DivMod(k, limit);
  }

  lemma DivMod(k: nat, limit: int)
    requires limit >= 1
    ensures k / limit >= 0 && (k / limit) * limit + k % limit == k
  {
  }

  /** With an empty search term every stored row matches. */
  lemma EmptyTermMatchesAll(posts: seq<BlogPost>)
    ensures Matching(posts, "") == posts
  {
    if posts != [] {
      EmptyTermMatchesAll(posts[1..]);
      assert posts == [posts[0]] + posts[1..];
    }
  }

  /** A term that occurs only in the content still finds the post. */
  lemma ContentMatchIsFound(posts: seq<BlogPost>, term: string, p: BlogPost)
    requires p in posts && ContainsFold(p.content, term)
    requires !ContainsFold(p.title, term) && !ContainsFold(p.excerpt, term)
    ensures p in Matching(posts, term)
  {
  }

  /** The search is case-insensitive: changing the case of ASCII letters in the term does not
      change the result. */
  lemma SearchIgnoresCase(posts: seq<BlogPost>, term: string, other: string)
    requires Utils.Lower(term) == Utils.Lower(other) && (term == "" <==> other == "")
    ensures Matching(posts, term) == Matching(posts, other)
  {
    if posts != [] {
      SearchIgnoresCase(posts[1..], term, other);
    }
  }

  /** page = 0, limit = 0 behaves as page = 1, limit = 10; more generally any value below 1
      behaves as its default. */
  lemma DefaultsAreUsedBelowOne(posts: seq<BlogPost>, page: int, limit: int, term: string,
                                countFault: Option<string>, fetchFault: Option<string>)
    requires page < 1 && limit < 1
    ensures GetBlogPosts(posts, page, limit, term, countFault, fetchFault)
         == GetBlogPosts(posts, 1, 10, term, countFault, fetchFault)
  {
  }

  /** 25 matching rows at 10 per page make 3 pages, whichever page is asked for. */
  lemma TwentyFiveRowsMakeThreePages(posts: seq<BlogPost>, page: int, term: string)
    requires |Matching(posts, term)| == 25
    ensures var m := GetBlogPosts(posts, page, 10, term, None, None).value.pagination;
      m.total == 25 && m.totalPages == 3
  {
    ListPagination(posts, page, 10, term);
  }

  // ---------------------------------------------------------------------------
  // GetBlogPostBySlug
  // ---------------------------------------------------------------------------

  /** GetBlogPostBySlug; `fault` stands for a database error on the query. */
  function GetBlogPostBySlug(posts: seq<BlogPost>, slug: string, fault: Option<string>)
    : (r: Result<BlogPost, ServiceError>)
    ensures r.Success? ==> r.value in posts && r.value.slug == slug
    ensures r == Failure(SlugNotFound(slug)) <==> fault.None? && !SlugTaken(posts, slug)
    ensures fault.Some? ==> r == Failure(RetrieveFailed(QueryUnavailable(fault.value)))
  {
    match Only(posts, slug, fault)
    case Success(p) => Success(p)
    case Failure(NotFound) => Failure(SlugNotFound(slug))
    case Failure(e) => Failure(RetrieveFailed(e))
  }

  /** With unique slugs the lookup succeeds exactly when some row has the slug. */
  lemma LookupSucceedsIffSlugTaken(posts: seq<BlogPost>, slug: string)
    requires UniqueSlugs(posts)
    ensures GetBlogPostBySlug(posts, slug, None).Success? <==> SlugTaken(posts, slug)
  {
    OnlyWithUniqueSlugs(posts, slug);
  }

  /** On a valid store the lookup returns the one stored post with that slug, content included. */
  lemma LookupFindsTheStoredPost(posts: seq<BlogPost>, i: int)
    requires ValidPosts(posts) && 0 <= i < |posts|
    ensures GetBlogPostBySlug(posts, posts[i].slug, None) == Success(posts[i])
  {
    var r := GetBlogPostBySlug(posts, posts[i].slug, None);
    assert SlugTaken(posts, posts[i].slug);
    LookupSucceedsIffSlugTaken(posts, posts[i].slug);
    var j :| 0 <= j < |posts| && posts[j] == r.value;
    forall j' | 0 <= j' < |posts| && posts[j'].slug == posts[i].slug ensures j' == i {
    }
  }
}
