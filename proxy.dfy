/**
  The web app's request proxy: before a page under `/hub`, `/invitation` or
  `/select-organization` is served, it decides from the path, the session
  and the redirect cookie whether to let the request through or to
  redirect it, and it sets or deletes the redirect cookie on the way.
  The session and the cookie store are inputs; URLs are kept as the
  strings the proxy resolves against the request's URL.
 */
module Proxy {
  import opened Wrappers

  const RedirectCookie: string := "better-auth.redirect"
  const InvitationMaxAge: int := 3600
  const Found: int := 302
  const SignIn: string := "/sign-in"
  const SelectOrganization: string := "/select-organization"
  /** The path segment of the invitation pages. */
  const InvitationSegment: string := "invitation"
  const InvitationPrefix: string := "/" + InvitationSegment

  datatype Cookie = Cookie(value: string, maxAge: Option<int>)

  /** The session the auth library finds for the request's headers. */
  datatype Session = Session(activeOrganizationId: Option<string>)

  /** `NextResponse.next()` or a redirect to a URL resolved against the request's URL. */
  datatype Response = Next | Redirect(target: string, status: int)

  /** A JavaScript string is falsy when it is missing or empty. */
  predicate Present(s: Option<string>)
  {
    s.Some? && s.value != ""
  }

  predicate StartsWith(s: string, prefix: string)
  {
    |prefix| <= |s| && s[..|prefix|] == prefix
  }

  /* ---------------- Path segments ---------------- */

  /** `s.split("/")`. */
  function Split(s: string): (parts: seq<string>)
    ensures |parts| >= 1
    ensures forall i :: 0 <= i < |parts| ==> '/' !in parts[i]
  {
    if s == [] then [[]]
    else
      var rest := Split(s[1..]);
      if s[0] == '/' then [[]] + rest else [[s[0]] + rest[0]] + rest[1..]
  }

  /** `.filter(Boolean)`: the non-empty parts. */
  function NonEmpty(parts: seq<string>): (r: seq<string>)
    ensures forall i :: 0 <= i < |r| ==> r[i] != []
  {
    if parts == [] then []
    else if parts[0] == [] then NonEmpty(parts[1..])
    else [parts[0]] + NonEmpty(parts[1..])
  }

  function Segments(path: string): seq<string>
  {
    NonEmpty(Split(path))
  }

  /** `pathname.split("/").filter(Boolean).pop()`, as written: the last segment, whichever it is. */
  function LastSegment(path: string): (r: Option<string>)
    ensures r.Some? ==> r.value != []
  {
    var segments := Segments(path);
    if segments == [] then None else Some(segments[|segments| - 1])
  }

  /**
    The invitation id of an `/invitation/...` path: its last segment, when
    there is one after `invitation` itself.
   */
  function InvitationId(path: string): (r: Option<string>)
    ensures r.Some? ==> r.value != [] && r == LastSegment(path)
  {
    var segments := Segments(path);
    if |segments| < 2 then None else Some(segments[|segments| - 1])
  }

  /* ---------------- The decision ---------------- */

  datatype Outcome = Outcome(response: Response, cookies: map<string, Cookie>)

  /** The value of the redirect cookie when it is set and not empty. */
  function RedirectTarget(cookies: map<string, Cookie>): Option<string>
  {
    if RedirectCookie in cookies && cookies[RedirectCookie].value != "" then Some(cookies[RedirectCookie].value) else None
  }

  /**
    The decision of `proxy` once the invitation id to remember has been read
    from the path: the answer, and what the cookie store holds afterwards.
   */
  function DecideWithId(invitationId: Option<string>, pathname: string, session: Option<Session>, cookies: map<string, Cookie>): Outcome
  {
    if StartsWith(pathname, InvitationPrefix) then
      if session.None? then
        Outcome(Redirect(SignIn, Found),
                if invitationId.Some? then cookies[RedirectCookie := Cookie(InvitationPrefix + "/" + invitationId.value, Some(InvitationMaxAge))]
                else cookies)
      else Outcome(Next, cookies)
    else if session.None? then Outcome(Redirect(SignIn, Found), cookies)
    else if RedirectTarget(cookies).Some? then
      Outcome(Redirect(RedirectTarget(cookies).value, Found), cookies - {RedirectCookie})
    else if pathname == SelectOrganization then Outcome(Next, cookies)
    else if !Present(session.value.activeOrganizationId) then Outcome(Redirect(SelectOrganization, Found), cookies)
    else Outcome(Next, cookies)
  }

  /**
    What `proxy` answers and what the cookie store holds afterwards, with
    the invitation id read as written: the path's last segment. A signed-out
    request is sent to sign-in, a request let through changes no cookie, and
    no cookie but the redirect cookie is ever touched.
   */
  function Decide(pathname: string, session: Option<Session>, cookies: map<string, Cookie>): (out: Outcome)
    ensures session.None? ==> out.response == Redirect(SignIn, Found)
    ensures out.response.Next? ==> out.cookies == cookies
    ensures forall name :: name != RedirectCookie ==>
      (name in out.cookies <==> name in cookies) && (name in cookies ==> out.cookies[name] == cookies[name])
  {
    DecideWithId(LastSegment(pathname), pathname, session, cookies)
  }

  /** The decision with the invitation id read as intended: none on the bare `/invitation` path. */
  function DecideIntended(pathname: string, session: Option<Session>, cookies: map<string, Cookie>): (out: Outcome)
    ensures session.None? ==> out.response == Redirect(SignIn, Found)
    ensures out.response.Next? ==> out.cookies == cookies
    ensures forall name :: name != RedirectCookie ==>
      (name in out.cookies <==> name in cookies) && (name in cookies ==> out.cookies[name] == cookies[name])
  {
    DecideWithId(InvitationId(pathname), pathname, session, cookies)
  }

  /** The request's cookie store, changed in place by `set` and `delete`. */
  class CookieStore {
    var cookies: map<string, Cookie>

    constructor (cookies: map<string, Cookie>)
      ensures this.cookies == cookies
    {
      this.cookies := cookies;
    }

    function Get(name: string): (r: Option<Cookie>)
      reads this
      ensures r.Some? <==> name in cookies
      ensures r.Some? ==> r.value == cookies[name]
    {
      if name in cookies then Some(cookies[name]) else None
    }

    method Set(name: string, value: string, maxAge: int)
      modifies this
      ensures cookies == old(cookies)[name := Cookie(value, Some(maxAge))]
    {
      cookies := cookies[name := Cookie(value, Some(maxAge))];
    }

    method Delete(name: string)
      modifies this
      ensures cookies == old(cookies) - {name}
    {
      cookies := cookies - {name};
    }
  }

  /** `proxy`, step by step: it answers and leaves the store as `Decide` says. */
  method HandleRequest(pathname: string, session: Option<Session>, store: CookieStore) returns (response: Response)
    modifies store
    ensures Outcome(response, store.cookies) == Decide(pathname, session, old(store.cookies))
  {
    if StartsWith(pathname, InvitationPrefix) {
      if session.None? {
        var invitationId := LastSegment(pathname);
        if invitationId.Some? {
          store.Set(RedirectCookie, InvitationPrefix + "/" + invitationId.value, InvitationMaxAge);
        }
        return Redirect(SignIn, Found);
      }
      return Next;
    }
    if session.None? {
      return Redirect(SignIn, Found);
    }
    var redirectCookie := store.Get(RedirectCookie);
    if redirectCookie.Some? && redirectCookie.value.value != "" {
      store.Delete(RedirectCookie);
      return Redirect(redirectCookie.value.value, Found);
    }
    if pathname == SelectOrganization {
      return Next;
    }
    if !Present(session.value.activeOrganizationId) {
      return Redirect(SelectOrganization, Found);
    }
    return Next;
  }

  /* ---------------- The rules ---------------- */

  /** A path under `/invitation` always has a last segment. */
  lemma InvitationPathHasSegment(pathname: string)
    requires StartsWith(pathname, InvitationPrefix)
    ensures LastSegment(pathname).Some?
  {
    var rest := pathname[1..];
    assert pathname == [] + "/" + rest;
    SplitSlash([], rest);
    assert rest[0] == pathname[..|InvitationPrefix|][1] == 'i';
    assert Split(rest)[0] != [];
    NonEmptyAppend([[]], Split(rest));
  }

  /** Signed out on an invitation: off to sign-in, remembering the path's last segment as the invitation for 3600 seconds. */
  lemma InvitationSignedOut(pathname: string, cookies: map<string, Cookie>)
    requires StartsWith(pathname, InvitationPrefix)
    ensures LastSegment(pathname).Some?
    ensures Decide(pathname, None, cookies)
      == Outcome(Redirect(SignIn, Found), cookies[RedirectCookie := Cookie(InvitationPrefix + "/" + LastSegment(pathname).value, Some(InvitationMaxAge))])
  {
    InvitationPathHasSegment(pathname);
  }

  /** Signed in on an invitation: through, whatever the cookie and the organisation. */
  lemma InvitationSignedIn(pathname: string, session: Session, cookies: map<string, Cookie>)
    requires StartsWith(pathname, InvitationPrefix)
    ensures Decide(pathname, Some(session), cookies) == Outcome(Next, cookies)
  {
  }

  /** Signed out anywhere else: off to sign-in, the cookies untouched. */
  lemma SignedOut(pathname: string, cookies: map<string, Cookie>)
    requires !StartsWith(pathname, InvitationPrefix)
    ensures Decide(pathname, None, cookies) == Outcome(Redirect(SignIn, Found), cookies)
  {
  }

  /** Signed in with a pending redirect: the cookie is used up and followed, before any organisation check. */
  lemma PendingRedirect(pathname: string, session: Session, cookies: map<string, Cookie>)
    requires !StartsWith(pathname, InvitationPrefix)
    requires RedirectCookie in cookies && cookies[RedirectCookie].value != ""
    ensures var out := Decide(pathname, Some(session), cookies);
      out.response == Redirect(cookies[RedirectCookie].value, Found)
      && RedirectCookie !in out.cookies
      && forall name :: name != RedirectCookie ==>
            (name in out.cookies <==> name in cookies) && (name in cookies ==> out.cookies[name] == cookies[name])
  {
  }

  /** Signed in with no pending redirect: the organisation picker is open; anything else needs an active organisation. */
  lemma OrganizationRule(pathname: string, session: Session, cookies: map<string, Cookie>)
    requires !StartsWith(pathname, InvitationPrefix) && RedirectTarget(cookies).None?
    ensures Decide(pathname, Some(session), cookies)
      == if pathname == SelectOrganization || Present(session.activeOrganizationId) then Outcome(Next, cookies)
         else Outcome(Redirect(SelectOrganization, Found), cookies)
  {
  }

  /* ---------------- Which paths reach the proxy ---------------- */

  /** `/:path*` after `prefix`: the prefix itself or anything below it. */
  predicate Under(path: string, prefix: string)
  {
    path == prefix || StartsWith(path, prefix + "/")
  }

  /** `matcher`: `/hub/:path*`, `/invitation/:path*` and `/select-organization`. */
  predicate Matches(path: string)
  {
    Under(path, "/hub") || Under(path, InvitationPrefix) || path == SelectOrganization
  }

  /** On the paths that reach it, the proxy's invitation test picks out exactly `/invitation/:path*`. */
  lemma InvitationTestOnMatchedPaths(path: string)
    requires Matches(path)
    ensures StartsWith(path, InvitationPrefix) <==> Under(path, InvitationPrefix)
  {
    if Under(path, InvitationPrefix) && path != InvitationPrefix {
      assert path[..|InvitationPrefix|] == (InvitationPrefix + "/")[..|InvitationPrefix|];
    }
    if StartsWith(path, InvitationPrefix) {
      assert path[1] == path[..|InvitationPrefix|][1] == 'i';
    }
    if Under(path, "/hub") && path != "/hub" {
      assert path[1] == path[..5][1] == 'h';
    }
  }

  /* ---------------- The bare invitation path ---------------- */

  lemma {:induction false} SplitSlash(a: string, b: string)
    ensures Split(a + "/" + b) == Split(a) + Split(b)
  {
    if a == [] {
      assert a + "/" + b == ['/'] + b;
    } else {
      assert (a + "/" + b)[1..] == a[1..] + "/" + b;
      SplitSlash(a[1..], b);
    }
  }

  lemma {:induction false} SplitPlain(s: string)
    requires '/' !in s
    ensures Split(s) == [s]
  {
    if s != [] {
      assert s[0] != '/' && '/' !in s[1..];
      SplitPlain(s[1..]);
      assert [s[0]] + s[1..] == s;
    }
  }

  lemma NonEmptyAppend(a: seq<string>, b: seq<string>)
    ensures NonEmpty(a + b) == NonEmpty(a) + NonEmpty(b)
  {
    if a == [] {
      assert a + b == b;
    } else {
      assert (a + b)[0] == a[0] && (a + b)[1..] == a[1..] + b;
      NonEmptyAppend(a[1..], b);
    }
  }

  /** The segments of `/<w>/<id>`. */
  lemma TwoSegments(w: string, id: string)
    requires w != [] && '/' !in w && id != [] && '/' !in id
    ensures Segments("/" + w + "/" + id) == [w, id]
  {
    SplitSlash("/" + w, id);
    OneSegmentSplit(w);
    SplitPlain(id);
    NonEmptyAppend([[], w], [id]);
    NonEmptyAppend([[]], [w]);
  }

  lemma OneSegmentSplit(w: string)
    requires '/' !in w
    ensures Split("/" + w) == [[], w]
  {
    SplitSlash([], w);
    assert [] + "/" + w == "/" + w;
    SplitPlain(w);
  }

  /** The segments of `/<w>`. */
  lemma OneSegment(w: string)
    requires w != [] && '/' !in w
    ensures Segments("/" + w) == [w]
  {
    OneSegmentSplit(w);
    NonEmptyAppend([[]], [w]);
  }

  lemma BareInvitationSegments()
    ensures Segments(InvitationPrefix) == [InvitationSegment]
  {
    assert '/' !in InvitationSegment;
    OneSegment(InvitationSegment);
  }

  /**
    As written, the bare path `/invitation` passes its own name for the
    invitation id: a signed-out request for it stores `/invitation/invitation`.
   */
  lemma BareInvitationAsWritten(cookies: map<string, Cookie>)
    ensures LastSegment(InvitationPrefix) == Some(InvitationSegment)
    ensures Decide(InvitationPrefix, None, cookies)
      == Outcome(Redirect(SignIn, Found), cookies[RedirectCookie := Cookie(InvitationPrefix + InvitationPrefix, Some(InvitationMaxAge))])
  {
    BareInvitationSegments();
    InvitationSignedOut(InvitationPrefix, cookies);
    assert InvitationPrefix + "/" + InvitationSegment == InvitationPrefix + InvitationPrefix;
  }

  /** `InvitationId` finds no id on the bare path. */
  lemma BareInvitationId()
    ensures InvitationId(InvitationPrefix) == None
  {
    BareInvitationSegments();
  }

  /** As intended, a signed-out request for the bare path is sent to sign-in with the cookies untouched. */
  lemma IntendedBareInvitation(cookies: map<string, Cookie>)
    ensures DecideIntended(InvitationPrefix, None, cookies) == Outcome(Redirect(SignIn, Found), cookies)
  {
    BareInvitationId();
  }

  /** `InvitationId` finds the id of `/invitation/<id>`, as the last segment does. */
  lemma InvitationIdOfPath(id: string)
    requires id != [] && '/' !in id
    ensures InvitationId(InvitationPrefix + "/" + id) == Some(id) == LastSegment(InvitationPrefix + "/" + id)
  {
    assert '/' !in InvitationSegment;
    TwoSegments(InvitationSegment, id);
  }

  /**
    The decision as written and as intended part only on a signed-out
    request for an invitation path with a single segment, such as
    `/invitation` or `/invitation/`: as written it stores that segment as
    the invitation; as intended it stores nothing.
   */
  lemma AsWrittenDiffersOnlyOnBarePath(pathname: string, session: Option<Session>, cookies: map<string, Cookie>)
    ensures Decide(pathname, session, cookies) != DecideIntended(pathname, session, cookies) ==>
      session.None? && StartsWith(pathname, InvitationPrefix) && |Segments(pathname)| == 1
    ensures session.None? && StartsWith(pathname, InvitationPrefix) && |Segments(pathname)| == 1 ==>
      Decide(pathname, session, cookies)
        == Outcome(Redirect(SignIn, Found), cookies[RedirectCookie := Cookie(InvitationPrefix + "/" + Segments(pathname)[0], Some(InvitationMaxAge))])
      && DecideIntended(pathname, session, cookies) == Outcome(Redirect(SignIn, Found), cookies)
  {
  }
}
