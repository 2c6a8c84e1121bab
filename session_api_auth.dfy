/**
 * The base authenticator of the Session-authentication API
 * (0x02-Session_authentication/api/v1/auth/auth.py): an excluded entry exempts a path
 * when it equals the normalised path, or, for an entry ending in `*`, when the text
 * before the `*` is a prefix of it. Its `authorization_header` and `current_user` are
 * the same as the SimpleAPI ones and are modelled in `SimpleApiAuth`.
 */
module SessionApiAuth {
  import opened Wrappers
  import opened Text
  import SimpleApiAuth

  /**
   * One iteration of the loop in `require_auth`: does `entry` exempt the normalised `path`?
   * An entry that exempts a path is, read as a prefix (`pre*` as `pre`), a prefix of it.
   */
  function Exempts(path: string, entry: string): (b: bool)
    ensures b ==> StartsWith(path, if EndsWith(entry, "*") then entry[..|entry| - 1] else entry)
  {
    if EndsWith(entry, "*") then StartsWith(path, entry[..|entry| - 1])
    else
      assert path == entry ==> path[..|entry|] == entry;
      path == entry
  }

  /** The for-loop of `require_auth`, returning at the first exempting entry. */
  function AnyExempts(path: string, entries: seq<string>): (b: bool)
    ensures b <==> exists i :: 0 <= i < |entries| && Exempts(path, entries[i])
  {
    if entries == [] then false
    else if EndsWith(entries[0], "*") && StartsWith(path, entries[0][..|entries[0]| - 1]) then true
    else if !EndsWith(entries[0], "*") && path == entries[0] then true
    else
      var b := AnyExempts(path, entries[1..]);
      assert forall i :: 1 <= i < |entries| ==> entries[i] == entries[1..][i - 1];
      b
  }

  /**
   * `require_auth`: `None` for either argument, or an empty list, means authentication is
   * required; otherwise it is required unless some entry exempts the normalised path.
   */
  function RequireAuth(path: Option<string>, excluded: Option<seq<string>>): (r: bool)
    ensures path.None? || excluded.None? || excluded.value == [] ==> r
    ensures !r <==> path.Some? && excluded.Some? &&
                    exists i :: 0 <= i < |excluded.value| &&
                                Exempts(SimpleApiAuth.NormalizePath(path.value), excluded.value[i])
  {
    if path.None? || excluded.None? || excluded.value == [] then true
    else !AnyExempts(SimpleApiAuth.NormalizePath(path.value), excluded.value)
  }

  /** A path and the same path with a trailing slash need authentication alike. */
  lemma RequireAuthIgnoresTrailingSlash(path: string, excluded: Option<seq<string>>)
    ensures RequireAuth(Some(path + "/"), excluded) == RequireAuth(Some(path), excluded)
  {
    SimpleApiAuth.NormalizeIgnoresTrailingSlash(path);
  }

  /** Only the set of entries matters: not their order, nor how often one is repeated. */
  lemma RequireAuthOrderIndependent(path: Option<string>, excluded: seq<string>, other: seq<string>)
    requires forall e :: e in excluded <==> e in other
    ensures RequireAuth(path, Some(excluded)) == RequireAuth(path, Some(other))
  {
    if path.Some? {
      var n := SimpleApiAuth.NormalizePath(path.value);
      if i :| 0 <= i < |excluded| && Exempts(n, excluded[i]) {
        assert excluded[i] in other;
        var j :| 0 <= j < |other| && other[j] == excluded[i];
      }
      if j :| 0 <= j < |other| && Exempts(n, other[j]) {
        assert other[j] in excluded;
        var i :| 0 <= i < |excluded| && excluded[i] == other[j];
      }
    }
  }

  /** An entry without `*` that does not end in `/` can never equal a normalised path. */
  lemma NonWildcardEntryNeedsSlash(path: string, entry: string)
    requires !EndsWith(entry, "*") && !EndsWith(entry, "/")
    ensures !Exempts(SimpleApiAuth.NormalizePath(path), entry)
  {
    var n := SimpleApiAuth.NormalizePath(path);
    assert EndsWith(n, "/");
  }

  /** The entry list read the way the SimpleAPI prefix policy reads it: `pre*` becomes `pre`. */
  function AsPrefixEntries(entries: seq<string>): (r: seq<string>)
    ensures |r| == |entries|
    ensures forall i :: 0 <= i < |r| ==>
      r[i] == if EndsWith(entries[i], "*") then entries[i][..|entries[i]| - 1] else entries[i]
  {
    if entries == [] then []
    else
      var e := entries[0];
      [if EndsWith(e, "*") then e[..|e| - 1] else e] + AsPrefixEntries(entries[1..])
  }

  /**
   * The exact-or-wildcard policy is stricter than the prefix policy it replaced: whatever it
   * exempts, the prefix policy exempts as well (with `pre*` read as the prefix `pre`).
   */
  lemma ExactPolicyStricterThanPrefix(path: Option<string>, excluded: seq<string>)
    ensures !RequireAuth(path, Some(excluded)) ==>
            !SimpleApiAuth.RequireAuth(path, Some(AsPrefixEntries(excluded)))
  {
    if !RequireAuth(path, Some(excluded)) {
      var n := SimpleApiAuth.NormalizePath(path.value);
      var i :| 0 <= i < |excluded| && Exempts(n, excluded[i]);
      assert StartsWith(n, AsPrefixEntries(excluded)[i]);
    }
  }

  /** The converse fails: below the exact entry `/api/v1/status/` only the prefix policy exempts. */
  lemma PrefixPolicyIsLooser()
    ensures RequireAuth(Some("/api/v1/status/x"), Some(["/api/v1/status/"]))
    ensures !SimpleApiAuth.RequireAuth(Some("/api/v1/status/x"), Some(["/api/v1/status/"]))
  {
    var p := "/api/v1/status/x";
    assert RStrip(p, '/') == p;
    assert SimpleApiAuth.NormalizePath(p) == p + "/";
    assert (p + "/")[..|"/api/v1/status/"|] == "/api/v1/status/";
    assert !EndsWith("/api/v1/status/", "*");
  }

  /** The status route, with or without its trailing slash, is exempted by its own entry. */
  lemma StatusRouteExempted()
    ensures !RequireAuth(Some("/api/v1/status"), Some(["/api/v1/status/"]))
    ensures !RequireAuth(Some("/api/v1/status/"), Some(["/api/v1/status/"]))
    ensures RequireAuth(Some("/api/v1/other"), Some(["/api/v1/status/"]))
  {
    var p := "/api/v1/status";
    assert RStrip(p, '/') == p;
    assert SimpleApiAuth.NormalizePath(p) == "/api/v1/status/";
    assert !EndsWith("/api/v1/status/", "*");
    RequireAuthIgnoresTrailingSlash(p, Some(["/api/v1/status/"]));
    var q := "/api/v1/other";
    assert RStrip(q, '/') == q;
    assert SimpleApiAuth.NormalizePath(q) == "/api/v1/other/";
  }
}
