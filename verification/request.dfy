/**
 Talking to the hosting API: the headers of every request (`fetchGithub`,
 `github.js` lines 94-99) and how each of the three responses the page asks
 for is read — the README (lines 149-170), the recursive tree listing
 (lines 172-182) and the contents of one file (lines 229-241). A response
 is given as data (status and decoded JSON body); a failed `fetch` or a body
 that is not JSON is a value of its own, standing for the exception the
 source catches.
 */
module Request {
  import opened Wrappers
  import opened Base64

  type Headers = map<string, string>

  const AcceptV3 := "application/vnd.github.v3+json"

  /** The headers sent: `Accept` defaults to the v3 media type, the caller's
      headers override it, and a non-empty token adds a bearer
      `Authorization` that overrides the caller's. */
  function MakeHeaders(caller: Headers, token: string): (h: Headers)
    ensures forall k :: k in h <==> k in caller || k == "Accept" || (k == "Authorization" && token != "")
    ensures "Accept" in h && h["Accept"] == if "Accept" in caller then caller["Accept"] else AcceptV3
    ensures token != "" ==> "Authorization" in h && h["Authorization"] == "Bearer " + token
    ensures token == "" && "Authorization" in caller ==> h["Authorization"] == caller["Authorization"]
    ensures forall k :: k in caller && k != "Accept" && k != "Authorization" ==> h[k] == caller[k]
  {
    var merged := map["Accept" := AcceptV3] + caller;
    if token != "" then merged["Authorization" := "Bearer " + token] else merged
  }

  /** `Response.ok`: a status in 200..299. */
  predicate IsOk(status: int)
  {
    200 <= status <= 299
  }

  /** The statuses the page reads as "this needs a token". */
  predicate NeedsAuth(status: int)
  {
    status == 401 || status == 403 || status == 404
  }

  /** `fetch` either fails or yields a status and a body, which may not parse
      as JSON. */
  datatype Fetched<T> = NetworkError | Answer(status: int, body: Option<T>)

  // ----- the tree listing ---------------------------------------------------

  /** One item of `tree` in the listing (`type` and `path`). */
  datatype TreeItem = TreeItem(kind: string, path: string)

  /** The listing body; `tree` may be absent. */
  datatype TreeBody = TreeBody(tree: Option<seq<TreeItem>>)

  /** The items that are files (`type === 'blob'`), in listing order. */
  function Blobs(items: seq<TreeItem>): (r: seq<TreeItem>)
    ensures forall x :: multiset(r)[x] == if x.kind == "blob" then multiset(items)[x] else 0
    ensures forall i :: 0 <= i < |r| ==> r[i].kind == "blob"
  {
    if |items| == 0 then []
    else
      var rest := Blobs(items[1..]);
      assert items == [items[0]] + items[1..];
      if items[0].kind == "blob" then [items[0]] + rest else rest
  }

  /** What the page keeps from the listing request: the blobs to show, and
      whether to ask for a token (which reloads the page once one is saved).
      Every failure leaves the list empty. */
  datatype TreeResult = TreeResult(files: seq<TreeItem>, prompt: bool)

  function ReadTree(f: Fetched<TreeBody>): (r: TreeResult)
    ensures r.prompt <==> f.Answer? && NeedsAuth(f.status)
    ensures r.files != [] ==> f.Answer? && IsOk(f.status) && f.body.Some? && f.body.value.tree.Some?
    ensures f.Answer? && IsOk(f.status) && f.body.Some? && f.body.value.tree.Some? ==>
      r.files == Blobs(f.body.value.tree.value)
  {
    match f
    case NetworkError => TreeResult([], false)
    case Answer(status, body) =>
      if NeedsAuth(status) then TreeResult([], true)
      else if !IsOk(status) then TreeResult([], false)
      else match body
        case None => TreeResult([], false)
        case Some(TreeBody(tree)) => TreeResult(Blobs(tree.GetOr([])), false)
  }

  function Paths(items: seq<TreeItem>): (r: seq<string>)
    ensures |r| == |items| && forall i :: 0 <= i < |items| ==> r[i] == items[i].path
  {
    seq(|items|, i requires 0 <= i < |items| => items[i].path)
  }

  // ----- file contents ------------------------------------------------------

  /** The contents body: `encoding` and `content`, either possibly absent. */
  datatype ContentBody = ContentBody(encoding: Option<string>, content: Option<string>)

  /** The text of a file: base64 content is decoded (and fails when `atob`
      would throw); any other encoding is shown as it is. */
  function FileText(b: ContentBody): (r: Option<string>)
    ensures b.encoding != Some("base64") ==> r == Some(b.content.GetOr(""))
    ensures b.encoding == Some("base64") ==> r == Atob(b.content.GetOr(""))
  {
    var raw := b.content.GetOr("");
    if b.encoding == Some("base64") then Atob(raw) else Some(raw)
  }

  /** How one file request ends, before highlighting. */
  datatype FileResult = AuthRequired | LoadFailed | Text(text: string)

  function ReadFile(f: Fetched<ContentBody>): (r: FileResult)
    ensures r == AuthRequired <==> f.Answer? && NeedsAuth(f.status)
    ensures r.Text? <==> f.Answer? && IsOk(f.status) && f.body.Some? && FileText(f.body.value).Some?
    ensures r.Text? ==> Some(r.text) == FileText(f.body.value)
  {
    match f
    case NetworkError => LoadFailed
    case Answer(status, body) =>
      if NeedsAuth(status) then AuthRequired
      else if !IsOk(status) then LoadFailed
      else if body.None? then LoadFailed
      else match FileText(body.value)
        case None => LoadFailed
        case Some(t) => Text(t)
  }

  // ----- the README ---------------------------------------------------------

  const ReadmeNotFound := "README not found."
  const ReadmeFailed := "Failed to load README."

  /** What the README panel shows: a message, or the decoded Markdown source
      (which the page then turns into HTML). Unlike the other two requests,
      a 401, 403 or 404 here never asks for a token. */
  datatype ReadmeView = Message(text: string) | Markdown(source: string)

  function ReadReadme(f: Fetched<ContentBody>): (r: ReadmeView)
    ensures f.Answer? && !IsOk(f.status) ==> r == Message(ReadmeNotFound)
    ensures r.Markdown? <==>
      (f.Answer? && IsOk(f.status) && f.body.Some? && Atob(f.body.value.content.GetOr("")).Some?)
    ensures r.Markdown? ==> Some(r.source) == Atob(f.body.value.content.GetOr(""))
    ensures !r.Markdown? && !(f.Answer? && !IsOk(f.status)) ==> r == Message(ReadmeFailed)
  {
    match f
    case NetworkError => Message(ReadmeFailed)
    case Answer(status, body) =>
      if !IsOk(status) then Message(ReadmeNotFound)
      else if body.None? then Message(ReadmeFailed)
      else match Atob(body.value.content.GetOr(""))
        case None => Message(ReadmeFailed)
        case Some(md) => Markdown(md)
  }

  // ----- properties ---------------------------------------------------------

  /** A base64 file body reads back as exactly the bytes it encodes, one
      character per byte. */
  lemma ReadFileBase64(bytes: seq<Byte>, status: int)
    requires IsOk(status)
    ensures ReadFile(Answer(status, Some(ContentBody(Some("base64"), Some(Encode(bytes)))))) ==
      Text(BinaryString(bytes))
  {
    AtobEncode(bytes);
  }

  /** Filtering keeps the listing order: filtering two parts of a listing
      and concatenating gives the filtered whole. */
  lemma {:induction false} BlobsAppend(a: seq<TreeItem>, b: seq<TreeItem>)
    ensures Blobs(a + b) == Blobs(a) + Blobs(b)
    decreases |a|
  {
    if |a| > 0 {
      assert (a + b)[1..] == a[1..] + b;
      BlobsAppend(a[1..], b);
    } else {
      assert a + b == b;
    }
  }

  /** A listing item is kept exactly when it is a blob. */
  lemma BlobsMember(items: seq<TreeItem>, x: TreeItem)
    ensures x in Blobs(items) <==> x in items && x.kind == "blob"
  {
    if x in Blobs(items) {
      assert x in multiset(Blobs(items));
    }
    if x in items {
      assert x in multiset(items);
    }
  }

  /** The paths kept from a listing are exactly the paths of its blobs: every
      blob's path is kept ... */
  lemma BlobPathKept(items: seq<TreeItem>, x: TreeItem)
    requires x in items && x.kind == "blob"
    ensures x.path in Paths(Blobs(items))
  {
    var files := Blobs(items);
    BlobsMember(items, x);
    var j :| 0 <= j < |files| && files[j] == x;
    assert Paths(files)[j] == x.path;
  }

  /** ... and every kept path is some blob's. */
  lemma BlobPathSource(items: seq<TreeItem>, p: string)
    requires p in Paths(Blobs(items))
    ensures exists x :: x in items && x.kind == "blob" && x.path == p
  {
    var files := Blobs(items);
    var ps := Paths(files);
    var j :| 0 <= j < |ps| && ps[j] == p;
    assert files[j] in files;
    BlobsMember(items, files[j]);
  }

  /** The README request never leads to a token prompt, whatever its status;
      a 404 just reads "README not found." */
  lemma ReadmeMissing(body: Option<ContentBody>)
    ensures ReadReadme(Answer(404, body)) == Message(ReadmeNotFound)
  {
  }
}
