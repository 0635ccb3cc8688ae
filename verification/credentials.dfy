/**
 Where the access token comes from and where it is kept
 (`readTokenFromLocation`, `getGithubToken`, `setGithubToken`,
 `github.js` lines 80-92). JavaScript truthiness decides every choice: an
 empty string counts as absent, exactly like a missing value.
 */
module Credentials {
  import opened Wrappers

  /** Decoded query or fragment parameters, in order of appearance. */
  type Params = seq<(string, string)>

  /** The session store (`sessionStorage`). */
  type Session = map<string, string>

  const TokenKey := "gh_token"

  /** `URLSearchParams.get`: the value of the first pair with that name. */
  function Get(ps: Params, name: string): (r: Option<string>)
    ensures r.None? <==> forall i :: 0 <= i < |ps| ==> ps[i].0 != name
    ensures r.Some? ==> exists i :: 0 <= i < |ps| && ps[i] == (name, r.value) &&
                                    (forall j :: 0 <= j < i ==> ps[j].0 != name)
  {
    if |ps| == 0 then None
    else if ps[0].0 == name then Some(ps[0].1)
    else
      var r := Get(ps[1..], name);
      assert forall j :: 1 <= j < |ps| ==> ps[j] == ps[1..][j - 1];
      r
  }

  /** The value, when present and truthy (a non-empty string). */
  function Truthy(o: Option<string>): Option<string>
  {
    if o.Some? && o.value != "" then o else None
  }

  /** `a || b || ''` over optional strings. */
  function Either(a: Option<string>, b: Option<string>): (r: string)
    ensures r == "" <==> Truthy(a).None? && Truthy(b).None?
    ensures Truthy(a).Some? ==> r == a.value
    ensures Truthy(a).None? && Truthy(b).Some? ==> r == b.value
  {
    if Truthy(a).Some? then a.value else if Truthy(b).Some? then b.value else ""
  }

  /** A token in the page address: the query string first, then the
      fragment (its leading `#` already removed), else none. */
  function ReadTokenFromLocation(query: Params, fragment: Params): (r: string)
    ensures r == "" || Get(query, TokenKey) == Some(r) || Get(fragment, TokenKey) == Some(r)
    ensures r == "" <==>
      (Get(query, TokenKey) == None || Get(query, TokenKey) == Some("")) &&
      (Get(fragment, TokenKey) == None || Get(fragment, TokenKey) == Some(""))
    ensures Truthy(Get(query, TokenKey)).Some? ==> r == Get(query, TokenKey).value
    ensures Truthy(Get(query, TokenKey)).None? && Truthy(Get(fragment, TokenKey)).Some? ==>
      r == Get(fragment, TokenKey).value
  {
    Either(Get(query, TokenKey), Get(fragment, TokenKey))
  }

  /** The token in use: one embedded by the page wins over the session's. */
  function GetGithubToken(embedded: Option<string>, session: Session): (r: string)
    ensures r == "" || Some(r) == embedded || (TokenKey in session && session[TokenKey] == r)
    ensures embedded.Some? && embedded.value != "" ==> r == embedded.value
    ensures Truthy(embedded).None? && TokenKey in session ==> r == session[TokenKey]
    ensures Truthy(embedded).None? && TokenKey !in session ==> r == ""
  {
    var stored := if TokenKey in session then Some(session[TokenKey]) else None;
    Either(embedded, stored)
  }

  /** Stores a truthy token; an empty one leaves the session alone. */
  function SetGithubToken(session: Session, token: string): (r: Session)
    ensures token == "" ==> r == session
    ensures token != "" ==> TokenKey in r && r[TokenKey] == token
    ensures forall k :: k != TokenKey ==> (k in r <==> k in session) && (k in r ==> r[k] == session[k])
  {
    if token != "" then session[TokenKey := token] else session
  }

  // ----- properties ---------------------------------------------------------

  /** A stored token is the one used afterwards, unless the page embeds one. */
  lemma SetThenGet(embedded: Option<string>, session: Session, token: string)
    requires token != ""
    requires embedded.None? || embedded == Some("")
    ensures GetGithubToken(embedded, SetGithubToken(session, token)) == token
  {
  }

  /** With a token embedded in the page, nothing stored in the session (for
      instance a token typed into the prompt) is ever used. */
  lemma EmbeddedWins(embedded: string, session: Session, token: string)
    requires embedded != ""
    ensures GetGithubToken(Some(embedded), SetGithubToken(session, token)) == embedded
  {
  }

  /** An empty query value does not hide a fragment token. */
  lemma EmptyQueryFallsThrough(t: string)
    requires t != ""
    ensures ReadTokenFromLocation([(TokenKey, "")], [(TokenKey, t)]) == t
  {
  }

  /** Only the first `gh_token` pair of the query counts. */
  lemma FirstPairCounts(a: string, b: string)
    requires a != ""
    ensures ReadTokenFromLocation([(TokenKey, a), (TokenKey, b)], []) == a
  {
  }

  /** The session never holds an empty token if it did not start with one:
      storing is guarded by truthiness. */
  lemma NeverStoresEmpty(session: Session, token: string)
    requires TokenKey in session ==> session[TokenKey] != ""
    ensures var r := SetGithubToken(session, token); TokenKey in r ==> r[TokenKey] != ""
  {
  }
}
