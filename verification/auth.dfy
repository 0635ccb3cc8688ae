/**
 The token prompt (`renderAuthBox`, `showAuthPrompt`, `github.js` lines
 101-132). A page-wide latch lets the prompt appear at most once per page
 load; the box remembers what to do once a token is saved — reload the page
 (after a failed listing) or click the file button again (after a failed
 file). Saving trims the input, ignores a blank one, stores the token, runs
 the continuation and removes the box. Nothing resets the latch.
 */
module Auth {
  import opened Wrappers
  import opened Text
  import opened Credentials

  datatype Continuation = ReloadPage | RetryFile(path: string)

  /** The latch, how many boxes were ever created, and the boxes still in
      the page with their continuations. */
  datatype Prompt = Prompt(shown: bool, created: nat, boxes: seq<Continuation>)

  const Initial := Prompt(false, 0, [])

  /** `showAuthPrompt(target, onSave)`. */
  function ShowAuthPrompt(p: Prompt, k: Continuation): (r: Prompt)
    ensures r.shown
    ensures p.shown ==> r == p
    ensures !p.shown ==> r.created == p.created + 1 && r.boxes == p.boxes + [k]
  {
    if p.shown then p else Prompt(true, p.created + 1, p.boxes + [k])
  }

  /** The outcome of pressing Save on box `i` with `input` typed in. */
  datatype Saved = Saved(prompt: Prompt, session: Session, run: Option<Continuation>)

  function Save(p: Prompt, session: Session, i: nat, input: string): (r: Saved)
    requires i < |p.boxes|
    ensures Trim(input) == "" ==> r == Saved(p, session, None)
    ensures Trim(input) != "" ==>
      && r.run == Some(p.boxes[i])
      && r.session == SetGithubToken(session, Trim(input))
      && r.prompt.shown == p.shown && r.prompt.created == p.created
      && |r.prompt.boxes| == |p.boxes| - 1
      && multiset(r.prompt.boxes) + multiset{p.boxes[i]} == multiset(p.boxes)
  {
    var tok := Trim(input);
    if tok != "" then
      assert p.boxes == p.boxes[..i] + [p.boxes[i]] + p.boxes[i + 1..];
      Saved(Prompt(p.shown, p.created, p.boxes[..i] + p.boxes[i + 1..]),
            SetGithubToken(session, tok), Some(p.boxes[i]))
    else Saved(p, session, None)
  }

  // ----- properties ---------------------------------------------------------

  /** The latch and the box count agree: at most one box was ever created,
      and only once the latch is set. */
  predicate Valid(p: Prompt)
  {
    p.created == (if p.shown then 1 else 0) && |p.boxes| <= p.created
  }

  lemma ShowValid(p: Prompt, k: Continuation)
    requires Valid(p)
    ensures Valid(ShowAuthPrompt(p, k))
  {
  }

  lemma SaveValid(p: Prompt, session: Session, i: nat, input: string)
    requires Valid(p) && i < |p.boxes|
    ensures Valid(Save(p, session, i, input).prompt)
  {
  }

  /** The first failure decides the continuation: once a prompt exists, later
      failures change nothing, so a file failing after the listing failed
      still only gets the page reloaded. */
  lemma FirstFailureWins(p: Prompt, k1: Continuation, k2: Continuation)
    ensures ShowAuthPrompt(ShowAuthPrompt(p, k1), k2) == ShowAuthPrompt(p, k1)
  {
  }

  /** After a token is saved the prompt never returns on this page, so a
      wrong token cannot be corrected without reloading. */
  lemma NoPromptAfterSave(session: Session, k: Continuation, input: string, k2: Continuation)
    requires Trim(input) != ""
    ensures var p := ShowAuthPrompt(Initial, k);
      var s := Save(p, session, 0, input);
      s.prompt.boxes == [] && ShowAuthPrompt(s.prompt, k2) == s.prompt
  {
  }

  /** Saving blank input (only white space) does nothing ... */
  lemma SaveBlank(session: Session, k: Continuation)
    ensures Save(ShowAuthPrompt(Initial, k), session, 0, "  \t") ==
      Saved(ShowAuthPrompt(Initial, k), session, None)
  {
    TrimBlank();
  }

  /** ... while anything else stores exactly the trimmed token and runs the
      continuation. */
  lemma SaveTrimmed(session: Session, k: Continuation)
    ensures var s := Save(ShowAuthPrompt(Initial, k), session, 0, " ghp_x\n");
      TokenKey in s.session && s.session[TokenKey] == "ghp_x" && s.run == Some(k)
  {
    TrimPadded();
  }

  lemma TrimBlank()
    ensures Trim("  \t") == ""
  {
    TrimStartBlank();
    assert TrimEnd("") == "";
  }

  lemma TrimStartBlank()
    ensures TrimStart("  \t") == ""
  {
    assert "  \t"[1..] == " \t" && " \t"[1..] == "\t" && "\t"[1..] == "";
    assert TrimStart("\t") == "";
    assert TrimStart(" \t") == "";
  }

  lemma TrimPadded()
    ensures Trim(" ghp_x\n") == "ghp_x"
  {
    TrimStartPadded();
    TrimEndPadded();
  }

  lemma TrimStartPadded()
    ensures TrimStart(" ghp_x\n") == "ghp_x\n"
  {
    assert " ghp_x\n"[1..] == "ghp_x\n";
    assert TrimStart("ghp_x\n") == "ghp_x\n";
  }

  lemma TrimEndPadded()
    ensures TrimEnd("ghp_x\n") == "ghp_x"
  {
    assert "ghp_x\n"[..5] == "ghp_x";
    assert TrimEnd("ghp_x") == "ghp_x";
  }
}
