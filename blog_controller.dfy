/**
 * createBlog: two presence checks, the thumbnail upload, and Blog.create with the
 * authenticated user as owner.
 */
module BlogController {
  import opened Wrappers
  import opened Crypto
  import opened Http
  import opened UserModel
  import opened UserController
  import opened AuthMiddleware

  /** The fields of the multipart request createBlog reads; thumbnailPath is `req.files?.thumbnail[0]?.path`. */
  datatype BlogInput = BlogInput(title: Option<string>, content: Option<string>, thumbnailPath: Option<string>)

  /** A stored blog (timestamps left out). */
  datatype Blog = Blog(title: string, content: string, thumbnail: string, owner: UserId)

  /** The outcome, the local path handed to the uploader (if the handler got that far), and the blog store after. */
  datatype BlogStep = BlogStep(outcome: Outcome<Blog>, uploaded: Option<string>, blogs: seq<Blog>)

  /** The uploader: the URL of the stored image, or None where uploadOnCloudinary resolves to null. */
  type Uploader = string -> Option<string>

  const MsgTitleContentRequired := "Please provide title and content"
  const MsgThumbnailRequired := "Please provide thumbnail"
  const MsgBlogCreated := "Blog created successfully"
  /** `thumbnail.url` when the upload resolved to null. */
  const CrashNoUpload := ReadOfNull("url")

  /** createBlog for the user verifyJWT attached (null when none was found). */
  function CreateBlogStep(blogs: seq<Blog>, input: BlogInput, user: Option<PublicUser>, upload: Uploader)
    : (r: BlogStep)
    ensures r.blogs == blogs || (r.outcome.Respond? && r.outcome.status == 201 && |r.blogs| == |blogs| + 1
                                 && r.blogs[..|blogs|] == blogs && user.Some? && r.blogs[|blogs|].owner == user.value.id)
    ensures r.uploaded.Some? ==> r.uploaded == input.thumbnailPath
    ensures r.outcome.Raise? <==> r.uploaded.None?
  {
    if !(Truthy(input.title) && Truthy(input.content)) then
      BlogStep(Raise(400, MsgTitleContentRequired), None, blogs)
    else if !Truthy(input.thumbnailPath) then
      BlogStep(Raise(400, MsgThumbnailRequired), None, blogs)
    else
      var path := input.thumbnailPath.value;
      match upload(path)
      case None => BlogStep(Crash(CrashNoUpload), Some(path), blogs)
      case Some(url) =>
        match user
        case None => BlogStep(Crash(CrashNoRequestUser), Some(path), blogs)
        case Some(u) =>
          var blog := Blog(input.title.value, input.content.value, url, u.id);
          BlogStep(Respond(201, Envelope(201, Some(blog), MsgBlogCreated)), Some(path), blogs + [blog])
  }

  /** The two checks reject exactly the requests missing a title, a content or a thumbnail path. */
  lemma RejectedIffFieldMissing(blogs: seq<Blog>, input: BlogInput, user: Option<PublicUser>, upload: Uploader)
    ensures CreateBlogStep(blogs, input, user, upload).outcome.Raise? <==>
      !(Truthy(input.title) && Truthy(input.content) && Truthy(input.thumbnailPath))
  {
  }

  /** A rejected request uploads nothing and creates no blog; every rejection is a 400. */
  lemma RejectionHasNoEffect(blogs: seq<Blog>, input: BlogInput, user: Option<PublicUser>, upload: Uploader)
    ensures var step := CreateBlogStep(blogs, input, user, upload);
      step.outcome.Raise? ==> step.outcome.status == 400 && step.uploaded.None? && step.blogs == blogs
  {
  }

  /** The title and content are checked first: without them the thumbnail does not matter. */
  lemma TitleAndContentCheckedFirst(blogs: seq<Blog>, input: BlogInput, user: Option<PublicUser>, upload: Uploader)
    requires !(Truthy(input.title) && Truthy(input.content))
    ensures forall path :: CreateBlogStep(blogs, input.(thumbnailPath := path), user, upload).outcome
                           == Raise(400, MsgTitleContentRequired)
  {
  }

  /** With title and content present, a falsy thumbnail path gives 400 "Please provide thumbnail". */
  lemma ThumbnailRequired(blogs: seq<Blog>, input: BlogInput, user: Option<PublicUser>, upload: Uploader)
    requires Truthy(input.title) && Truthy(input.content)
    ensures CreateBlogStep(blogs, input, user, upload).outcome == Raise(400, MsgThumbnailRequired)
            <==> !Truthy(input.thumbnailPath)
  {
    assert MsgThumbnailRequired != MsgTitleContentRequired by {
      assert |MsgThumbnailRequired| != |MsgTitleContentRequired|;
    }
  }

  /**
   * A created blog is appended with the title and content as supplied, the uploaded URL
   * and the caller's id as owner, and returned with status 201; nothing else is stored.
   */
  lemma CreatedBlogOwnedByCaller(blogs: seq<Blog>, input: BlogInput, user: Option<PublicUser>, upload: Uploader)
    ensures var step := CreateBlogStep(blogs, input, user, upload);
      step.outcome.Respond? ==>
        && user.Some? && input.title.Some? && input.content.Some? && input.thumbnailPath.Some?
        && upload(input.thumbnailPath.value).Some?
        && var blog := Blog(input.title.value, input.content.value, upload(input.thumbnailPath.value).value,
                            user.value.id);
           && step.blogs == blogs + [blog]
           && step.outcome == Respond(201, Envelope(201, Some(blog), MsgBlogCreated))
  {
  }

  /** A blog is created exactly when the checks pass, the upload yields a URL and a user is attached. */
  lemma CreatedIff(blogs: seq<Blog>, input: BlogInput, user: Option<PublicUser>, upload: Uploader)
    ensures var step := CreateBlogStep(blogs, input, user, upload);
      step.outcome.Respond? <==>
        && Truthy(input.title) && Truthy(input.content) && Truthy(input.thumbnailPath)
        && upload(input.thumbnailPath.value).Some? && user.Some?
    ensures var step := CreateBlogStep(blogs, input, user, upload);
      !step.outcome.Respond? ==> step.blogs == blogs
  {
  }

  /** With null as the request's user the image is still uploaded, then the handler throws and stores nothing. */
  lemma NullUserUploadsThenCrashes(blogs: seq<Blog>, input: BlogInput, upload: Uploader)
    requires Truthy(input.title) && Truthy(input.content) && Truthy(input.thumbnailPath)
    requires upload(input.thumbnailPath.value).Some?
    ensures CreateBlogStep(blogs, input, None, upload)
            == BlogStep(Crash(CrashNoRequestUser), input.thumbnailPath, blogs)
  {
  }

  /**
   * End to end through the corrected gate: a blog posted with a stored user's access
   * token is owned by that user; through the gate as written the same request throws.
   */
  lemma BlogOwnedByTokenHolder(blogs: seq<Blog>, users: Users, id: UserId, input: BlogInput,
                               p: Primitives, s: Secrets, upload: Uploader)
    requires VerifyInvertsSign(p) && id in users
    requires Truthy(input.title) && Truthy(input.content) && Truthy(input.thumbnailPath)
    requires upload(input.thumbnailPath.value).Some?
    ensures var token := GenerateAccessToken(p, s, id, users[id]);
      var intended := Authenticate(IdClaimKey, users, Some(token), None, p, s);
      var asWritten := Authenticate(AsWrittenIdClaimKey, users, Some(token), None, p, s);
      && intended.Proceed? && asWritten.Proceed?
      && CreateBlogStep(blogs, input, intended.user, upload).blogs[|blogs|].owner == id
      && CreateBlogStep(blogs, input, asWritten.user, upload).outcome == Crash(CrashNoRequestUser)
  {
    IssuedAccessTokenAuthenticates(users, id, p, s, None, false);
    AsWrittenGateDropsIdentity(users, id, p, s, false);
  }

  // ---------------------------------------------------------------- the store

  class BlogStore {
    var blogs: seq<Blog>

    constructor ()
      ensures blogs == []
    {
      blogs := [];
    }

    /** Blog.create: append one document. */
    method Create(blog: Blog)
      modifies this
      ensures blogs == old(blogs) + [blog]
    {
      blogs := blogs + [blog];
    }

    /** createBlog; `uploaded` is the path handed to the uploader, if any. */
    method CreateBlog(input: BlogInput, user: Option<PublicUser>, upload: Uploader)
      returns (out: Outcome<Blog>, uploaded: Option<string>)
      modifies this
      ensures var step := CreateBlogStep(old(blogs), input, user, upload);
        out == step.outcome && uploaded == step.uploaded && blogs == step.blogs
    {
      if !(Truthy(input.title) && Truthy(input.content)) {
        return Raise(400, MsgTitleContentRequired), None;
      }
      if !Truthy(input.thumbnailPath) {
        return Raise(400, MsgThumbnailRequired), None;
      }
      var path := input.thumbnailPath.value;
      uploaded := Some(path);
      var thumbnail := upload(path);
      if thumbnail.None? {
        return Crash(CrashNoUpload), uploaded;
      }
      if user.None? {
        return Crash(CrashNoRequestUser), uploaded;
      }
      var blog := Blog(input.title.value, input.content.value, thumbnail.value, user.value.id);
      Create(blog);
      out := Respond(201, Envelope(201, Some(blog), MsgBlogCreated));
    }
  }
}
