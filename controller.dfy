/** internal/controllers/blog_post_controller.go: the three HTTP handlers, turning requests into
    service calls and service results into status codes and error bodies. */
module Controller {
  import opened Wrappers
  import opened Schema
  import opened EntClient
  import opened Service
  import Utils

  const StatusOK := 200
  const StatusCreated := 201
  const StatusBadRequest := 400
  const StatusNotFound := 404
  const StatusInternalServerError := 500

  /** What a handler answers: an HTTPError (rendered by the error handler) or a JSON body. */
  datatype Reply =
    | ErrorReply(err: Utils.HttpError)
    | Created(post: BlogPost)
    | Listed(data: seq<BlogPost>, pagination: PaginationMeta)
    | Found(post: BlogPost)
  {
    function Status(): int {
      match this
      case ErrorReply(e) => e.code
      case Created(_) => StatusCreated
      case Listed(_, _) => StatusOK
      case Found(_) => StatusOK
    }

    /** The "message" member of a success body, or the error's message. */
    function Message(): string {
      match this
      case ErrorReply(e) => e.message
      case Created(_) => "Blog post created successfully"
      case Listed(_, _) => "Blog posts retrieved successfully"
      case Found(_) => "Blog post retrieved successfully"
    }
  }

  /** A parsed multipart form: the text values per key and the number of files under "image". */
  datatype Form = Form(values: map<string, seq<string>>, images: nat)

  /** The outcome of ParseMultipartForm followed by MultipartForm. */
  datatype FormParse =
    | ParseFailed(parseError: string)
    | FormMissing(formError: string)
    | Parsed(form: Form)

  /** form.Value[key]: a missing key reads as an empty list. */
  function FormValues(values: map<string, seq<string>>, key: string): seq<string> {
    if key in values then values[key] else []
  }

  /** getFirstValue: the first value, or nil when there is none. */
  function GetFirstValue(values: seq<string>): (r: Option<string>)
    ensures r.None? <==> values == []
    ensures r.Some? ==> r.value == values[0]
  {
    if |values| > 0 then Some(values[0]) else None
  }

  /** The keys read with [0]: a request lacking one of them makes the handler panic. */
  predicate HasRequiredKeys(form: Form) {
    && "title" in form.values && |form.values["title"]| > 0
    && "excerpt" in form.values && |form.values["excerpt"]| > 0
    && "content" in form.values && |form.values["content"]| > 0
  }

  /** The service input built from the form, before any image: the first value of each required
      key, and an optional value that is present exactly when its key has a value. */
  function InputOf(form: Form): (r: CreateBlogPostInput)
    requires HasRequiredKeys(form)
    ensures r.title == form.values["title"][0] && r.excerpt == form.values["excerpt"][0]
    ensures r.content == form.values["content"][0] && r.image.None?
    ensures r.publishedAt.Some? <==> "published_at" in form.values && form.values["published_at"] != []
    ensures r.publishedAt.Some? ==> r.publishedAt.value == form.values["published_at"][0]
    ensures r.slug.Some? <==> "slug" in form.values && form.values["slug"] != []
    ensures r.slug.Some? ==> r.slug.value == form.values["slug"][0]
  {
    CreateBlogPostInput(
      form.values["title"][0], form.values["excerpt"][0], form.values["content"][0], None,
      GetFirstValue(FormValues(form.values, "published_at")),
      GetFirstValue(FormValues(form.values, "slug")))
  }

  predicate MissingRequired(input: CreateBlogPostInput) {
    input.title == "" || input.content == "" || input.excerpt == ""
  }

  /** POST /posts. `upload` is the image service's answer for the first file under "image" (asked
      only when there is one); `uploaded` says whether it was asked and stored the image. */
  method CreateHandler(client: PostStore, request: FormParse, upload: Result<string, string>, now: Time,
                       parseRfc3339: string -> Result<Time, string>,
                       lookupFault: Option<string>, saveFault: Option<string>)
    returns (reply: Reply, uploaded: bool)
    requires client.Valid()
    requires request.Parsed? ==> HasRequiredKeys(request.form)
    modifies client
    ensures client.Valid()
    ensures reply.Created? ==> client.posts == old(client.posts) + [reply.post]
    ensures !reply.Created? ==> client.posts == old(client.posts) && client.nextId == old(client.nextId)
    ensures request.ParseFailed? ==>
      reply == ErrorReply(Utils.NewHttpError(StatusBadRequest, "Failed to parse form data", Some(request.parseError)))
    ensures request.FormMissing? ==>
      reply == ErrorReply(Utils.NewHttpError(StatusBadRequest, "Invalid form data", Some(request.formError)))
    ensures uploaded <==> request.Parsed? && request.form.images > 0 && upload.Success?
    ensures request.Parsed? ==>
      var form := request.form;
      var input := InputOf(form);
      var withImage := if form.images > 0 && upload.Success? then input.(image := Some(upload.value)) else input;
      && (form.images > 0 && upload.Failure? ==>
            reply == ErrorReply(Utils.NewHttpError(StatusInternalServerError, "Failed to upload image", Some(upload.error))))
      && (!(form.images > 0 && upload.Failure?) && MissingRequired(input) ==>
            reply == ErrorReply(Utils.NewHttpError(StatusBadRequest, "Title, Content and Excerpt are required", None)))
      && (!(form.images > 0 && upload.Failure?) && !MissingRequired(input) ==>
            var posted := CreateOutcome(old(client.posts), old(client.nextId), withImage, now, parseRfc3339, lookupFault, saveFault);
            reply == (if posted.Success? then Created(posted.value)
                      else ErrorReply(Utils.NewHttpError(StatusInternalServerError, "Failed to create blog post", Some(posted.error.Text())))))
  {
    uploaded := false;
    match request
    case ParseFailed(e) =>
      reply := ErrorReply(Utils.NewHttpError(StatusBadRequest, "Failed to parse form data", Some(e)));
    case FormMissing(e) =>
      reply := ErrorReply(Utils.NewHttpError(StatusBadRequest, "Invalid form data", Some(e)));
    case Parsed(form) =>
      var input := InputOf(form);
      if form.images > 0 {
        if upload.Failure? {
          reply := ErrorReply(Utils.NewHttpError(StatusInternalServerError, "Failed to upload image", Some(upload.error)));
          return;
        }
        uploaded := true;
        input := input.(image := Some(upload.value));
      }
      if MissingRequired(input) {
        reply := ErrorReply(Utils.NewHttpError(StatusBadRequest, "Title, Content and Excerpt are required", None));
        return;
      }
      var posted := CreateBlogPost(client, input, now, parseRfc3339, lookupFault, saveFault);
      if posted.Failure? {
        reply := ErrorReply(Utils.NewHttpError(StatusInternalServerError, "Failed to create blog post", Some(posted.error.Text())));
      } else {
        reply := Created(posted.value);
      }
  }

  /** The result of strconv.Atoi on a query parameter: None when the text is not a decimal
      integer. Atoi also fails on values outside Go's int. */
  function QueryInt(param: Option<int>, default: int): (r: int)
    ensures param.Some? && IsInt64(param.value) && param.value >= 1 ==> r == param.value
    ensures !(param.Some? && IsInt64(param.value) && param.value >= 1) ==> r == default
  {
    if param.Some? && IsInt64(param.value) && param.value >= 1 then param.value else default
  }

  /** GET /posts?page=&limit=&search=. */
  function ListHandler(posts: seq<BlogPost>, pageParam: Option<int>, limitParam: Option<int>, search: string,
                       countFault: Option<string>, fetchFault: Option<string>): (r: Reply)
    ensures r.Listed? || r.ErrorReply?
    ensures r.Status() == StatusOK <==> countFault.None? && fetchFault.None?
    ensures r.ErrorReply? ==>
      && r.err.code == StatusInternalServerError && r.err.message == "Failed to retrieve blog posts"
      && r.err.details == GetBlogPosts(posts, QueryInt(pageParam, 1), QueryInt(limitParam, DefaultLimit), search, countFault, fetchFault).error.Text()
    ensures r.Listed? ==>
      && r.pagination.page == QueryInt(pageParam, 1) && r.pagination.limit == QueryInt(limitParam, DefaultLimit)
      && r.pagination.total == |Matching(posts, search)|
      && |r.data| <= r.pagination.limit
      && NewestFirst(r.data)
  {
    var page := QueryInt(pageParam, 1);
    var limit := QueryInt(limitParam, DefaultLimit);
    ListPagination(posts, page, limit, search);
    ListWindow(posts, page, limit, search);
    ListIsNewestFirst(posts, page, limit, search);
    match GetBlogPosts(posts, page, limit, search, countFault, fetchFault)
    case Success(res) => Listed(res.data, res.pagination)
    case Failure(e) => ErrorReply(Utils.NewHttpError(StatusInternalServerError, "Failed to retrieve blog posts", Some(e.Text())))
  }

  /** A successful list answers with the service's data and metadata unchanged; with neither
      parameter usable that is page 1 of 10 rows. */
  lemma ListHandlerPassesThrough(posts: seq<BlogPost>, pageParam: Option<int>, limitParam: Option<int>, search: string)
    ensures var r := ListHandler(posts, pageParam, limitParam, search, None, None);
      var res := GetBlogPosts(posts, QueryInt(pageParam, 1), QueryInt(limitParam, DefaultLimit), search, None, None);
      r == Listed(res.value.data, res.value.pagination)
    ensures pageParam.None? && limitParam.None? ==>
      var r := ListHandler(posts, pageParam, limitParam, search, None, None);
      r.pagination.page == 1 && r.pagination.limit == 10
  {
  }

  /** GET /posts/:slug. */
  function GetBySlugHandler(posts: seq<BlogPost>, slug: string, fault: Option<string>): (r: Reply)
    ensures r.Found? || r.ErrorReply?
    ensures r.Status() == StatusBadRequest <==> slug == ""
    ensures slug == "" ==> r == ErrorReply(Utils.NewHttpError(StatusBadRequest, "Slug is required", None))
    ensures r.Status() == StatusNotFound <==> slug != "" && fault.None? && !SlugTaken(posts, slug)
    ensures r.Status() == StatusNotFound ==> r.err == Utils.HttpError(StatusNotFound, NotFoundMessage(slug), "")
    ensures slug != "" && fault.Some? ==>
      r == ErrorReply(Utils.NewHttpError(StatusInternalServerError, "Failed to retrieve blog post",
                                         Some(RetrieveFailed(QueryUnavailable(fault.value)).Text())))
    ensures r.Found? ==> r.post in posts && r.post.slug == slug
    ensures r.Status() in {StatusOK, StatusBadRequest, StatusNotFound, StatusInternalServerError}
  {
    if slug == "" then ErrorReply(Utils.NewHttpError(StatusBadRequest, "Slug is required", None))
    else
      match GetBlogPostBySlug(posts, slug, fault)
      case Success(p) => Found(p)
      case Failure(e) =>
        NotFoundTextIsExact(e, slug);
        if e.Text() == "blog post with slug '" + slug + "' not found" then
          ErrorReply(Utils.NewHttpError(StatusNotFound, e.Text(), None))
        else
          ErrorReply(Utils.NewHttpError(StatusInternalServerError, "Failed to retrieve blog post", Some(e.Text())))
  }

  /** On a valid store, a non-empty slug that some row has is answered 200 with that row. */
  lemma GetBySlugFindsStoredPost(posts: seq<BlogPost>, i: int)
    requires ValidPosts(posts) && 0 <= i < |posts|
    ensures GetBySlugHandler(posts, posts[i].slug, None) == Found(posts[i])
  {
    StoredRowBounds(posts, i);
    LookupFindsTheStoredPost(posts, i);
  }

  /** A well-formed form posted to an empty store is answered 201, and fetching the new post's
      slug then answers 200 with the same post. */
  method CreateThenFetch(form: Form, now: Time, parseRfc3339: string -> Result<Time, string>)
    returns (created: Reply, fetched: Reply)
    requires HasRequiredKeys(form) && form.images == 0
    requires "published_at" !in form.values && "slug" !in form.values
    requires !MissingRequired(InputOf(form)) && Utf8Len(InputOf(form).excerpt) <= ExcerptMaxLen
    requires Utils.GenerateSlug(InputOf(form).title) != ""
    ensures created.Created? && created.Status() == StatusCreated
    ensures created.post.slug == Utils.GenerateSlug(InputOf(form).title)
    ensures fetched == Found(created.post) && fetched.Status() == StatusOK
  {
    var client := new PostStore();
    var input := InputOf(form);
    assert input.slug.None? && input.publishedAt.None? && input.image.None?;
    assert !SlugTaken([], BaseSlug(input));
    assert ChosenSlug([], BaseSlug(input), now) == Utils.GenerateSlug(input.title);
    CreateOutcomeSpec([], 1, input, now, parseRfc3339, None, None);
    var uploaded;
    created, uploaded := CreateHandler(client, Parsed(form), Failure(""), now, parseRfc3339, None, None);
    assert client.posts == [created.post];
    GetBySlugFindsStoredPost(client.posts, 0);
    fetched := GetBySlugHandler(client.posts, created.post.slug, None);
  }

  /** The upload runs before the required-field check: a form with an empty title and an image is
      answered 400, the store is left as it was, and yet the image has been stored. */
  method UploadBeforeValidation(form: Form, imageUrl: string, now: Time, parseRfc3339: string -> Result<Time, string>)
    returns (reply: Reply, uploaded: bool, stored: seq<BlogPost>)
    requires HasRequiredKeys(form) && form.images > 0 && InputOf(form).title == ""
    ensures reply.Status() == StatusBadRequest
    ensures reply.ErrorReply? && reply.err.message == "Title, Content and Excerpt are required"
    ensures uploaded
    ensures stored == []
  {
    var client := new PostStore();
    reply, uploaded := CreateHandler(client, Parsed(form), Success(imageUrl), now, parseRfc3339, None, None);
    stored := client.posts;
  }
}
