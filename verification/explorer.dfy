/**
 The page as a whole (`setupGithubIntegration`, `github.js` lines 134-262):
 start-up (configuration, token from the address, README, listing, tree)
 and the two user actions, opening a file and saving a token. Every step
 that waits on the network takes the response as a parameter; each request
 sent is logged with its headers.
 */
module Explorer {
  import opened Wrappers
  import opened Text
  import opened Tree
  import opened Render
  import opened Language
  import opened Loading
  import opened Credentials
  import opened Request
  import opened Auth
  import opened Active

  /** `window.__PROJECT_REPO__`; `branch` may be left out. */
  datatype RepoConfig = RepoConfig(owner: string, repo: string, branch: Option<string>)

  /** The branch asked for: `main` only when none is given (the default of
      a destructuring pattern applies to a missing value, not to an empty
      one). */
  function BranchOf(cfg: RepoConfig): (b: string)
    ensures cfg.branch.Some? ==> b == cfg.branch.value
    ensures cfg.branch.None? ==> b == "main"
  {
    cfg.branch.GetOr("main")
  }

  /** The endpoint of a request (its URL is built from owner, repo, branch
      and path; URL encoding is not modelled). */
  datatype Endpoint = ReadmeEndpoint | TreeEndpoint(branch: string) | ContentsEndpoint(path: string, branch: string)

  datatype Sent = Sent(endpoint: Endpoint, headers: Headers)

  /** What the code viewer shows. */
  datatype Viewer = Placeholder(text: string) | Code(text: string, cls: Option<string>)

  const LoadingText := "Loading…"
  const AuthText := "Authentication required to load file."
  const FailedText := "Failed to load file."

  /** The state of a set-up page. */
  datatype Page = Page(
    embedded: Option<string>,
    session: Session,
    branch: string,
    active: set<Loc>,
    viewer: Viewer,
    prompt: Prompt,
    loader: Loader,
    sent: seq<Sent>)

  /** What start-up leads to: nothing without a configuration; only the
      address token stored when the three mount points are missing;
      otherwise a page with its README panel and its rendered tree. */
  datatype Startup =
    | NotConfigured
    | NotMounted(session: Session)
    | Started(page: Page, readme: ReadmeView, tree: seq<Entry>)

  /** The headers of a request made now. */
  function HeadersNow(embedded: Option<string>, session: Session): (h: Headers)
    ensures "Authorization" in h <==> GetGithubToken(embedded, session) != ""
    ensures "Authorization" in h ==> h["Authorization"] == "Bearer " + GetGithubToken(embedded, session)
  {
    MakeHeaders(map[], GetGithubToken(embedded, session))
  }

  function Setup(cfg: Option<RepoConfig>, embedded: Option<string>, query: Params, fragment: Params,
                 session: Session, mounted: bool,
                 readme: Fetched<ContentBody>, listing: Fetched<TreeBody>): (r: Startup)
    ensures r == NotConfigured <==> cfg.None?
    ensures r.Started? <==> cfg.Some? && mounted
    ensures cfg.Some? && !mounted ==>
      r == NotMounted(SetGithubToken(session, ReadTokenFromLocation(query, fragment)))
    ensures r.Started? ==>
      && mounted && cfg.Some?
      && r.page.session == SetGithubToken(session, ReadTokenFromLocation(query, fragment))
      && r.page.embedded == embedded
      && r.page.branch == BranchOf(cfg.value)
      && r.page.loader == Fresh
      && r.page.sent == [Sent(ReadmeEndpoint, HeadersNow(embedded, r.page.session)),
                         Sent(TreeEndpoint(r.page.branch), HeadersNow(embedded, r.page.session))]
      && r.readme == ReadReadme(readme)
      && r.page.prompt.shown == (listing.Answer? && NeedsAuth(listing.status))
      && r.page.prompt ==
           (if listing.Answer? && NeedsAuth(listing.status) then ShowAuthPrompt(Initial, ReloadPage) else Initial)
      && r.page.viewer == Placeholder("")
      && r.page.active == {}
      && r.tree == RenderTree(Build(Paths(ReadTree(listing).files)))
  {
    if cfg.None? then NotConfigured
    else
      var s := SetGithubToken(session, ReadTokenFromLocation(query, fragment));
      if !mounted then NotMounted(s)
      else
        var branch := BranchOf(cfg.value);
        var h := HeadersNow(embedded, s);
        var listed := ReadTree(listing);
        var prompt := if listed.prompt then ShowAuthPrompt(Initial, ReloadPage) else Initial;
        var page := Page(embedded, s, branch, {}, Placeholder(""), prompt, Fresh,
                         [Sent(ReadmeEndpoint, h), Sent(TreeEndpoint(branch), h)]);
        Started(page, ReadReadme(readme), RenderTree(Build(Paths(listed.files))))
  }

  /** A click on the button of `path` at `loc`, up to the moment the viewer
      stops saying "Loading…": the marker moves, the contents request goes
      out with the current token, and its answer decides what is shown. The
      highlighter is loaded only for text that decoded, and its failure
      also ends in "Failed to load file.". */
  function OpenFile(pg: Page, loc: Loc, path: string, answer: Fetched<ContentBody>,
                    env: string -> Settled): (r: Page)
    requires |loc| >= 1
    ensures r.active == Click(pg.active, loc)
    ensures r.sent == pg.sent + [Sent(ContentsEndpoint(path, pg.branch), HeadersNow(pg.embedded, pg.session))]
    ensures r.session == pg.session && r.embedded == pg.embedded && r.branch == pg.branch
    ensures r.viewer == Placeholder(AuthText) <==> ReadFile(answer) == AuthRequired
    ensures ReadFile(answer) == AuthRequired ==> r.prompt == ShowAuthPrompt(pg.prompt, RetryFile(path))
    ensures ReadFile(answer) != AuthRequired ==> r.prompt == pg.prompt
    ensures r.viewer.Code? <==>
      ReadFile(answer).Text? && EnsureHighlightReady(pg.loader, env).1 == Resolved
    ensures r.viewer.Code? ==>
      r.viewer == Code(ReadFile(answer).text, CodeClass(InferLanguage(path)))
    ensures r.viewer == Placeholder(FailedText) <==>
      ReadFile(answer) == LoadFailed ||
      (ReadFile(answer).Text? && EnsureHighlightReady(pg.loader, env).1 == Rejected)
    ensures !ReadFile(answer).Text? ==> r.loader == pg.loader
    ensures ReadFile(answer).Text? ==> r.loader == EnsureHighlightReady(pg.loader, env).0
  {
    var h := HeadersNow(pg.embedded, pg.session);
    var started := pg.(active := Click(pg.active, loc), viewer := Placeholder(LoadingText),
                       sent := pg.sent + [Sent(ContentsEndpoint(path, pg.branch), h)]);
    match ReadFile(answer)
    case AuthRequired =>
      started.(prompt := ShowAuthPrompt(pg.prompt, RetryFile(path)), viewer := Placeholder(AuthText))
    case LoadFailed =>
      started.(viewer := Placeholder(FailedText))
    case Text(t) =>
      var (ld, ready) := EnsureHighlightReady(pg.loader, env);
      if ready == Rejected then started.(loader := ld, viewer := Placeholder(FailedText))
      else started.(loader := ld, viewer := Code(t, CodeClass(InferLanguage(path))))
  }

  /** Pressing Save on the prompt's box `i`: the token is stored and the
      box's continuation is returned for the caller to run (a reload is a
      new `Setup` with the same session; a retry is another `OpenFile`). */
  function SaveToken(pg: Page, i: nat, input: string): (r: (Page, Option<Continuation>))
    requires i < |pg.prompt.boxes|
    ensures Trim(input) == "" ==> r == (pg, None)
    ensures Trim(input) != "" ==>
      r.1 == Some(pg.prompt.boxes[i]) && r.0.session == SetGithubToken(pg.session, Trim(input))
    ensures r.0.prompt == Save(pg.prompt, pg.session, i, input).prompt
    ensures Trim(input) != "" ==> |r.0.prompt.boxes| == |pg.prompt.boxes| - 1
    ensures r.0.embedded == pg.embedded && r.0.branch == pg.branch && r.0.active == pg.active
    ensures r.0.viewer == pg.viewer && r.0.loader == pg.loader && r.0.sent == pg.sent
  {
    var saved := Save(pg.prompt, pg.session, i, input);
    (pg.(prompt := saved.prompt, session := saved.session), saved.run)
  }

  // ----- properties ---------------------------------------------------------

  /** A token in the address is stored before the page checks its mount
      points, so it survives even on a page without the explorer. */
  lemma AddressTokenKeptWithoutMounts(cfg: RepoConfig, t: string, session: Session,
                                      readme: Fetched<ContentBody>, listing: Fetched<TreeBody>)
    requires t != ""
    ensures var r := Setup(Some(cfg), None, [(TokenKey, t)], [], session, false, readme, listing);
      r.NotMounted? && r.session[TokenKey] == t
  {
  }

  /** For a repository listing, the tree shows one button per blob of the
      listing, in document order, and none for anything else. */
  lemma ListingShowsEveryBlob(items: seq<TreeItem>)
    requires PrefixFree(Paths(Blobs(items)))
    ensures var tree := RenderTree(Build(Paths(Blobs(items))));
      && InOrder(tree)
      && (forall x :: x in items && x.kind == "blob" ==> FileEntry(Segments(x.path), x.path) in tree)
      && (forall e :: e in tree && e.FileEntry? ==>
            exists x :: x in items && x.kind == "blob" && x.path == e.path)
  {
    var ps := Paths(Blobs(items));
    var tree := RenderTree(Build(ps));
    ExplorerListsEachFile(ps);
    forall x | x in items && x.kind == "blob"
      ensures FileEntry(Segments(x.path), x.path) in tree
    {
      BlobPathKept(items, x);
    }
    forall e | e in tree && e.FileEntry?
      ensures exists x :: x in items && x.kind == "blob" && x.path == e.path
    {
      BlobPathSource(items, e.path);
    }
  }

  /** A listing that arrives is shown as that tree, with no prompt. */
  lemma StartupShowsListing(cfg: RepoConfig, embedded: Option<string>, query: Params,
                            fragment: Params, session: Session,
                            readme: Fetched<ContentBody>, items: seq<TreeItem>, status: int)
    requires IsOk(status)
    ensures var r := Setup(Some(cfg), embedded, query, fragment, session, true, readme,
                           Answer(status, Some(TreeBody(Some(items)))));
      && r.Started?
      && !r.page.prompt.shown
      && r.tree == RenderTree(Build(Paths(Blobs(items))))
  {
  }

  /** Before a token exists, requests carry only the media type. */
  lemma NoTokenPlainHeaders(session: Session)
    requires TokenKey !in session
    ensures HeadersNow(None, session) == map["Accept" := AcceptV3]
  {
  }

  /** With a stored token and none embedded, every request carries it. */
  lemma StoredTokenSent(session: Session, t: string)
    requires t != ""
    ensures var h := HeadersNow(None, SetGithubToken(session, t));
      "Authorization" in h && h["Authorization"] == "Bearer " + t
  {
  }

  /** A refused listing offers to reload the page once a token is saved;
      the refused requests went out without one. */
  lemma RefusedListingOffersReload(cfg: RepoConfig, session: Session, readme: Fetched<ContentBody>)
    requires TokenKey !in session
    ensures var first := Setup(Some(cfg), None, [], [], session, true, readme, Answer(401, None));
      && first.Started?
      && first.page.session == session
      && first.page.prompt.boxes == [ReloadPage]
      && first.page.sent[0].headers == map["Accept" := AcceptV3]
  {
    assert ReadTokenFromLocation([], []) == "";
    NoTokenPlainHeaders(session);
  }

  /** A page started with a stored token (and none embedded) sends it with
      both start-up requests. */
  lemma StartupSendsStoredToken(cfg: RepoConfig, session: Session, t: string,
                                readme: Fetched<ContentBody>, listing: Fetched<TreeBody>)
    requires t != ""
    ensures var r := Setup(Some(cfg), None, [], [], SetGithubToken(session, t), true, readme, listing);
      && r.Started?
      && forall s :: s in r.page.sent ==> "Authorization" in s.headers && s.headers["Authorization"] == "Bearer " + t
  {
    var s := SetGithubToken(session, t);
    var r := Setup(Some(cfg), None, [], [], s, true, readme, listing);
    assert ReadTokenFromLocation([], []) == "";
    assert r.page.session == s;
    var h := HeadersNow(None, s);
    StoredTokenSent(session, t);
    assert r.page.sent == [Sent(ReadmeEndpoint, h), Sent(TreeEndpoint(r.page.branch), h)];
    forall x | x in r.page.sent ensures x.headers == h {
    }
  }

  /** The private-repository path: the listing is refused, the prompt offers
      to reload, the user saves a token, and after the reload both start-up
      requests carry it. */
  lemma ReloadAfterSaveAuthenticates(cfg: RepoConfig, session: Session, input: string,
                                     readme: Fetched<ContentBody>, readme2: Fetched<ContentBody>,
                                     listing2: Fetched<TreeBody>)
    requires Trim(input) != ""
    requires TokenKey !in session
    ensures var first := Setup(Some(cfg), None, [], [], session, true, readme, Answer(401, None));
      && first.Started?
      && first.page.prompt.boxes == [ReloadPage]
      && var saved := SaveToken(first.page, 0, input);
         && saved.1 == Some(ReloadPage)
         && var second := Setup(Some(cfg), None, [], [], saved.0.session, true, readme2, listing2);
            && second.Started?
            && forall s :: s in second.page.sent ==>
                 "Authorization" in s.headers && s.headers["Authorization"] == "Bearer " + Trim(input)
  {
    RefusedListingOffersReload(cfg, session, readme);
    StartupSendsStoredToken(cfg, session, Trim(input), readme2, listing2);
  }

  /** A refused file shows the token message and offers to retry it. */
  lemma RefusedFileOffersRetry(pg: Page, loc: Loc, path: string, answer: Fetched<ContentBody>,
                               env: string -> Settled)
    requires |loc| >= 1
    requires !pg.prompt.shown && Auth.Valid(pg.prompt)
    requires ReadFile(answer) == AuthRequired
    ensures var failed := OpenFile(pg, loc, path, answer, env);
      failed.viewer == Placeholder(AuthText) && failed.prompt.boxes == [RetryFile(path)]
  {
  }

  /** A click with a stored token (none embedded) sends it. */
  lemma ClickSendsStoredToken(pg: Page, loc: Loc, path: string, answer: Fetched<ContentBody>,
                              env: string -> Settled, t: string)
    requires |loc| >= 1
    requires pg.embedded.None? && t != "" && TokenKey in pg.session && pg.session[TokenKey] == t
    ensures var r := OpenFile(pg, loc, path, answer, env);
      && |r.sent| > 0
      && r.sent[|r.sent| - 1] == Sent(ContentsEndpoint(path, pg.branch), HeadersNow(None, pg.session))
      && "Authorization" in r.sent[|r.sent| - 1].headers
      && r.sent[|r.sent| - 1].headers["Authorization"] == "Bearer " + t
  {
  }

  /** A file that needed a token is retried with it: after saving, the
      repeated click sends the bearer token. */
  lemma RetryCarriesToken(pg: Page, loc: Loc, path: string, answer: Fetched<ContentBody>,
                          env: string -> Settled, input: string, answer2: Fetched<ContentBody>)
    requires |loc| >= 1
    requires pg.embedded.None? && !pg.prompt.shown && Auth.Valid(pg.prompt)
    requires ReadFile(answer) == AuthRequired
    requires Trim(input) != ""
    ensures var failed := OpenFile(pg, loc, path, answer, env);
      && failed.viewer == Placeholder(AuthText)
      && failed.prompt.boxes == [RetryFile(path)]
      && var saved := SaveToken(failed, 0, input);
         && saved.1 == Some(RetryFile(path))
         && var retried := OpenFile(saved.0, loc, path, answer2, env);
            && |retried.sent| > 0
            && var last := retried.sent[|retried.sent| - 1];
               "Authorization" in last.headers && last.headers["Authorization"] == "Bearer " + Trim(input)
  {
    RefusedFileOffersRetry(pg, loc, path, answer, env);
    var failed := OpenFile(pg, loc, path, answer, env);
    var saved := SaveToken(failed, 0, input).0;
    ClickSendsStoredToken(saved, loc, path, answer2, env, Trim(input));
  }

  /** A style sheet that failed once blocks every file from then on: the
      viewer keeps answering "Failed to load file." even for text that
      arrived, because the rejected load is never retried. */
  lemma HighlighterFailureIsSticky(pg: Page, loc: Loc, path: string, answer: Fetched<ContentBody>,
                                   env: string -> Settled)
    requires |loc| >= 1
    requires CssKey in pg.loader.registry && pg.loader.registry[CssKey] == Rejected
    requires ReadFile(answer).Text?
    ensures OpenFile(pg, loc, path, answer, env).viewer == Placeholder(FailedText)
  {
    RejectionIsFinal(pg.loader, env);
  }

  /** Opening files never loads a highlighter asset twice. */
  lemma OpenFileKeepsLoaderValid(pg: Page, loc: Loc, path: string, answer: Fetched<ContentBody>,
                                 env: string -> Settled)
    requires |loc| >= 1
    requires Loading.Valid(pg.loader)
    ensures Loading.Valid(OpenFile(pg, loc, path, answer, env).loader)
  {
    EnsureValid(pg.loader, env);
  }
}
