/**
 * The base authenticator of the SimpleAPI variant of the Basic-authentication API
 * (0x01-Basic_authentication/SimpleAPI/api/v1/auth/auth.py): which paths need
 * authentication, under a plain prefix policy, and where the credentials sit.
 */
module SimpleApiAuth {
  import opened Wrappers
  import opened Text

  /** The part of an HTTP request the authenticators look at. */
  datatype Request = Request(headers: map<string, string>)

  /** `path.rstrip('/') + '/'`: the path with its trailing slashes replaced by exactly one. */
  function NormalizePath(path: string): (n: string)
    ensures |n| >= 1 && n[|n| - 1] == '/'
    ensures |n| == 1 || n[|n| - 2] != '/'
    ensures StartsWith(path, n[..|n| - 1])
    ensures forall i :: |n| - 1 <= i < |path| ==> path[i] == '/'
  {
    var stripped := RStrip(path, '/');
    assert (stripped + "/")[..|stripped|] == stripped;
    stripped + "/"
  }

  /** Appending a slash does not change the normalised path. */
  lemma NormalizeIgnoresTrailingSlash(path: string)
    ensures NormalizePath(path + "/") == NormalizePath(path)
  {
    assert (path + "/")[..|path|] == path;
  }

  /** Normalising twice is normalising once. */
  lemma NormalizeIdempotent(path: string)
    ensures NormalizePath(NormalizePath(path)) == NormalizePath(path)
  {
    var n := NormalizePath(path);
    assert n == n[..|n| - 1] + "/";
    assert RStrip(n[..|n| - 1], '/') == n[..|n| - 1];
  }

  /** The for-loop of `require_auth`: is some entry a prefix of the normalised path? */
  function AnyPrefix(path: string, entries: seq<string>): (b: bool)
    ensures b <==> exists i :: 0 <= i < |entries| && StartsWith(path, entries[i])
  {
    if entries == [] then false
    else if StartsWith(path, entries[0]) then true
    else
      var b := AnyPrefix(path, entries[1..]);
      assert forall i :: 1 <= i < |entries| ==> entries[i] == entries[1..][i - 1];
      b
  }

  /**
   * `require_auth`: `None` for either argument, or an empty list, means authentication is
   * required; otherwise it is required unless some excluded entry is a prefix of the
   * normalised path.
   */
  function RequireAuth(path: Option<string>, excluded: Option<seq<string>>): (r: bool)
    ensures path.None? || excluded.None? || excluded.value == [] ==> r
    ensures !r <==> path.Some? && excluded.Some? &&
                    exists i :: 0 <= i < |excluded.value| && StartsWith(NormalizePath(path.value), excluded.value[i])
  {
    if path.None? || excluded.None? || excluded.value == [] then true
    else !AnyPrefix(NormalizePath(path.value), excluded.value)
  }

  /** A path and the same path with a trailing slash need authentication alike. */
  lemma RequireAuthIgnoresTrailingSlash(path: string, excluded: Option<seq<string>>)
    ensures RequireAuth(Some(path + "/"), excluded) == RequireAuth(Some(path), excluded)
  {
    NormalizeIgnoresTrailingSlash(path);
  }

  /**
   * Monotonicity: a path exempted by a list stays exempted by every list holding at least
   * the same entries, whatever their order or repetitions.
   */
  lemma RequireAuthMonotone(path: Option<string>, excluded: seq<string>, more: seq<string>)
    requires forall e :: e in excluded ==> e in more
    ensures !RequireAuth(path, Some(excluded)) ==> !RequireAuth(path, Some(more))
  {
    if !RequireAuth(path, Some(excluded)) {
      var i :| 0 <= i < |excluded| && StartsWith(NormalizePath(path.value), excluded[i]);
      assert excluded[i] in more;
      var j :| 0 <= j < |more| && more[j] == excluded[i];
    }
  }

  /**
   * `authorization_header`: the value of the `Authorization` header, with `None` for no
   * request, no such header, or an empty value.
   */
  function AuthorizationHeader(request: Option<Request>): (r: Option<string>)
    ensures r.Some? <==> request.Some? && "Authorization" in request.value.headers &&
                         request.value.headers["Authorization"] != ""
    ensures r.Some? ==> r.value == request.value.headers["Authorization"]
  {
    if request.None? then None
    else if "Authorization" !in request.value.headers then None
    else
      var header := request.value.headers["Authorization"];
      if header != "" then Some(header) else None
  }

  /** `current_user` of the base class: never identifies anybody. */
  function CurrentUser<U>(request: Option<Request>): (r: Option<U>)
    ensures r.None?
  {
    None
  }
}
