/**
 The request guard run before every page (`middleware`): static assets and
 the login/registration pages always pass; any other page needs the patient's
 token cookie and otherwise redirects to the login page.
 */
module RouteGuard {
  import opened Wrappers
  import opened Text

  const LoginPath := "/auth/login"
  const RegisterPath := "/auth/register"
  const PublicPaths: seq<string> := [LoginPath, RegisterPath]

  const LogoExtensions: seq<string> := ["png", "jpg", "jpeg", "svg", "webp"]

  /** The outcome: let the request through, or redirect it to the given pathname. */
  datatype Decision = Pass | Redirect(pathname: string)

  /** `/^\/logo\.(png|jpg|jpeg|svg|webp)$/i`: the whole path, compared without letter case. */
  predicate IsLogo(pathname: string) {
    exists i :: 0 <= i < |LogoExtensions| && ToLower(pathname) == "/logo." + LogoExtensions[i]
  }

  /** The asset allow-list: anchored prefixes, exact names and the logo pattern. */
  predicate IsAsset(pathname: string) {
    || StartsWith(pathname, "/_next/")
    || pathname == "/favicon.ico"
    || pathname == "/robots.txt"
    || pathname == "/sitemap.xml"
    || IsLogo(pathname)
    || StartsWith(pathname, "/images/")
    || StartsWith(pathname, "/icons/")
    || StartsWith(pathname, "/static/")
  }

  /** Public pages, matched by prefix. */
  predicate IsPublic(pathname: string) {
    exists i :: 0 <= i < |PublicPaths| && StartsWith(pathname, PublicPaths[i])
  }

  /** A cookie that is missing or empty is no token (the source's `!token`). */
  predicate HasToken(token: Option<string>) {
    token.Some? && token.value != ""
  }

  function Middleware(pathname: string, token: Option<string>): (d: Decision)
    ensures IsAsset(pathname) || IsPublic(pathname) ==> d == Pass
    ensures HasToken(token) ==> d == Pass
    ensures d.Redirect? <==> !IsAsset(pathname) && !IsPublic(pathname) && !HasToken(token)
    ensures d.Redirect? ==> d.pathname == LoginPath
  {
    if IsAsset(pathname) then Pass
    else if IsPublic(pathname) then Pass
    else if !HasToken(token) then Redirect(LoginPath)
    else Pass
  }

  /** Following a redirect never redirects again: the login page itself is public. */
  lemma RedirectTargetPasses(pathname: string, token: Option<string>, next: Option<string>)
    requires Middleware(pathname, token).Redirect?
    ensures Middleware(Middleware(pathname, token).pathname, next) == Pass
  {
    assert StartsWith(LoginPath, PublicPaths[0]);
  }

  /** Public pages are a prefix test: anything under "/auth/login" passes without a token. */
  lemma PublicIsPrefix(suffix: string, token: Option<string>)
    ensures Middleware(LoginPath + suffix, token) == Pass
    ensures Middleware(RegisterPath + suffix, token) == Pass
  {
    assert (LoginPath + suffix)[..|LoginPath|] == LoginPath;
    assert (RegisterPath + suffix)[..|RegisterPath|] == RegisterPath;
    assert StartsWith(LoginPath + suffix, PublicPaths[0]);
    assert StartsWith(RegisterPath + suffix, PublicPaths[1]);
  }

  /** The logo pattern ignores letter case in the whole path, not only the extension. */
  lemma LogoIgnoresCase()
    ensures Middleware("/LOGO.PNG", None) == Pass
    ensures Middleware("/Logo.webp", None) == Pass
    ensures Middleware("/logo.gif", None) == Redirect(LoginPath)
  {
    LogoWritten("/LOGO.PNG", 0);
    LogoWritten("/Logo.webp", 4);
    GifIsNoAsset();
    assert !StartsWith("/logo.gif", PublicPaths[0]) && !StartsWith("/logo.gif", PublicPaths[1]);
  }

  /** A path whose lower-cased form is "/logo." and an allowed extension is a logo. */
  lemma LogoWritten(pathname: string, i: nat)
    requires i < |LogoExtensions| && ToLower(pathname) == "/logo." + LogoExtensions[i]
    ensures IsLogo(pathname)
  {
  }

  lemma GifIsNoAsset()
    ensures !IsAsset("/logo.gif")
  {
    GifIsNoLogo();
    var p := "/logo.gif";
    assert p[1] != "_next/"[1] && p[1] != "images/"[1] && p[1] != "icons/"[1] && p[1] != "static/"[1];
  }

  lemma GifIsNoLogo()
    ensures !IsLogo("/logo.gif")
  {
    var gif := ToLower("/logo.gif");
    assert gif == "/logo.gif";
    forall i | 0 <= i < |LogoExtensions|
      ensures gif != "/logo." + LogoExtensions[i]
    {
      var candidate := "/logo." + LogoExtensions[i];
      assert |candidate| != |gif| || candidate[6] != gif[6] || candidate[7] != gif[7];
    }
  }
}
