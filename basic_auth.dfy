/**
 * HTTP Basic authentication (0x01-Basic_authentication/api/v1/auth/basic_auth.py):
 * take the `Basic ` header apart, decode it, split it into email and password at the
 * first colon (section 2 of RFC 7617: the user-id cannot contain a colon, the password
 * may), and look the user up.
 */
module BasicAuth {
  import opened Wrappers
  import opened Text
  import SimpleApiAuth

  /**
   * The two library decoders, both partial: `base64.b64decode` and `bytes.decode('utf-8')`.
   * `None` stands for the exception either raises.
   */
  datatype Codec = Codec(b64decode: string -> Option<seq<bv8>>, utf8decode: seq<bv8> -> Option<string>)

  /**
   * The user store as `User.search` and `User.is_valid_password` see it: the stored users in
   * search order, each user's email, and the password check.
   */
  datatype Directory<!U> = Directory(users: seq<U>, emailOf: U -> string, isValidPassword: (U, string) -> bool)

  /** `extract_base64_authorization_header`: the text after a case-sensitive `Basic ` prefix. */
  function ExtractBase64AuthorizationHeader(header: Arg): (r: Option<string>)
    ensures r.Some? <==> header.Str? && StartsWith(header.s, "Basic ")
    ensures r.Some? ==> "Basic " + r.value == header.s
  {
    if !header.Str? then None
    else if !StartsWith(header.s, "Basic ") then None
    else
      var s := header.s;
      assert s == "Basic" + " " + s[6..];
      SplitOnceUnique(s, ' ', "Basic", s[6..]);
      // `split(' ', 1)[1]`
      Some(SplitOnce(s, ' ').value.1)
  }

  /** Whatever follows `Basic `, even nothing, comes back unchanged. */
  lemma ExtractAfterScheme(s: string)
    ensures ExtractBase64AuthorizationHeader(Str("Basic " + s)) == Some(s)
  {
    assert ("Basic " + s)[..6] == "Basic ";
  }

  /** The scheme name is compared case-sensitively, unlike section 2.1 of RFC 7235 asks. */
  lemma SchemeIsCaseSensitive(s: string)
    ensures ExtractBase64AuthorizationHeader(Str("basic " + s)).None?
    ensures ExtractBase64AuthorizationHeader(Str("BASIC " + s)).None?
  {
    assert ("basic " + s)[0] == 'b';
    assert ("BASIC " + s)[1] == 'A';
  }

  /**
   * `decode_base64_authorization_header`: `None` for a missing or non-string argument and
   * whenever either decoder fails.
   */
  function DecodeBase64AuthorizationHeader(encoded: Arg, codec: Codec): (r: Option<string>)
    ensures !encoded.Str? ==> r.None?
    ensures encoded.Str? && codec.b64decode(encoded.s).None? ==> r.None?
    ensures r.Some? <==> encoded.Str? && codec.b64decode(encoded.s).Some? &&
                         codec.utf8decode(codec.b64decode(encoded.s).value).Some?
    ensures r.Some? ==> r.value == codec.utf8decode(codec.b64decode(encoded.s).value).value
  {
    if !encoded.Str? then None
    else match codec.b64decode(encoded.s)
      case None => None
      case Some(bytes) => codec.utf8decode(bytes)
  }

  /**
   * `extract_user_credentials`: `(None, None)` unless the argument is a string holding a colon;
   * otherwise the text before the first colon and everything after it.
   */
  function ExtractUserCredentials(decoded: Arg): (r: (Option<string>, Option<string>))
    ensures r.0.Some? <==> decoded.Str? && ':' in decoded.s
    ensures r.1.Some? <==> r.0.Some?
    ensures r.0.Some? ==> ':' !in r.0.value && r.0.value + ":" + r.1.value == decoded.s
  {
    if !decoded.Str? then (None, None)
    else if ':' !in decoded.s then (None, None)
    else
      var (email, password) := SplitOnce(decoded.s, ':').value;
      (Some(email), Some(password))
  }

  /** An email without a colon always comes back whole, and so does any password, colons and all. */
  lemma CredentialsRoundTrip(email: string, password: string)
    requires ':' !in email
    ensures ExtractUserCredentials(Str(email + ":" + password)) == (Some(email), Some(password))
  {
    SplitOnceUnique(email + ":" + password, ':', email, password);
  }

  /** `User.search({'email': email})`: the users with that email, in search order. */
  function Search<U>(users: seq<U>, emailOf: U -> string, email: string): (r: seq<U>)
    ensures |r| <= |users|
    ensures forall i :: 0 <= i < |r| ==> emailOf(r[i]) == email
    ensures forall i :: 0 <= i < |r| ==> r[i] in users
    ensures forall i :: 0 <= i < |users| && emailOf(users[i]) == email ==> users[i] in r
  {
    if users == [] then []
    else (if emailOf(users[0]) == email then [users[0]] else []) + Search(users[1..], emailOf, email)
  }

  /** The for-loop of `user_object_from_credentials`: the first candidate whose password validates. */
  function FirstValid<U>(candidates: seq<U>, password: string, isValidPassword: (U, string) -> bool): (r: Option<U>)
    ensures r.Some? ==> r.value in candidates && isValidPassword(r.value, password)
  {
    if candidates == [] then None
    else if isValidPassword(candidates[0], password) then Some(candidates[0])
    else FirstValid(candidates[1..], password, isValidPassword)
  }

  /** A user the credentials `email`, `password` identify. */
  predicate Accepts<U>(d: Directory<U>, email: string, password: string, u: U)
  {
    d.emailOf(u) == email && d.isValidPassword(u, password)
  }

  /** Position `i` of `users` holds the first user, in search order, that the credentials identify. */
  predicate IsFirstAccepted<U>(d: Directory<U>, users: seq<U>, email: string, password: string, i: int)
  {
    && 0 <= i < |users|
    && Accepts(d, email, password, users[i])
    && forall j :: 0 <= j < i ==> !Accepts(d, email, password, users[j])
  }

  /** Reference definition: the first of `users` that the credentials identify. */
  function FirstAccepted<U>(d: Directory<U>, users: seq<U>, email: string, password: string): (r: Option<U>)
    ensures r.None? <==> forall i :: 0 <= i < |users| ==> !Accepts(d, email, password, users[i])
    ensures r.Some? ==> exists i :: IsFirstAccepted(d, users, email, password, i) && users[i] == r.value
  {
    if users == [] then None
    else if Accepts(d, email, password, users[0]) then
      assert IsFirstAccepted(d, users, email, password, 0);
      Some(users[0])
    else
      var r := FirstAccepted(d, users[1..], email, password);
      assert forall i :: 1 <= i < |users| ==> users[i] == users[1..][i - 1];
      assert r.Some? ==> exists i :: IsFirstAccepted(d, users, email, password, i) && users[i] == r.value by {
        if r.Some? {
          var i :| IsFirstAccepted(d, users[1..], email, password, i) && users[1..][i] == r.value;
          assert IsFirstAccepted(d, users, email, password, i + 1);
        }
      }
      r
  }

  /** Searching by email and then taking the first valid password finds the first accepted user. */
  lemma {:induction false} FirstValidOfSearch<U>(d: Directory<U>, users: seq<U>, email: string, password: string)
    ensures FirstValid(Search(users, d.emailOf, email), password, d.isValidPassword)
            == FirstAccepted(d, users, email, password)
  {
    if users != [] {
      var tail := Search(users[1..], d.emailOf, email);
      FirstValidOfSearch(d, users[1..], email, password);
      if d.emailOf(users[0]) == email {
        assert Search(users, d.emailOf, email) == [users[0]] + tail;
        assert ([users[0]] + tail)[1..] == tail;
      } else {
        assert Search(users, d.emailOf, email) == tail;
      }
    }
  }

  /**
   * `user_object_from_credentials`: `None` unless both arguments are strings and some user
   * with that email accepts that password; then the first such user in search order.
   */
  function UserObjectFromCredentials<U>(email: Arg, password: Arg, d: Directory<U>): (r: Option<U>)
    ensures r.None? <==> !(email.Str? && password.Str? &&
                           exists i :: 0 <= i < |d.users| && Accepts(d, email.s, password.s, d.users[i]))
    ensures r.Some? ==> exists i :: IsFirstAccepted(d, d.users, email.s, password.s, i) && d.users[i] == r.value
  {
    if !email.Str? then None
    else if !password.Str? then None
    else
      var users := Search(d.users, d.emailOf, email.s);
      FirstValidOfSearch(d, d.users, email.s, password.s);
      if users == [] then None
      else FirstValid(users, password.s, d.isValidPassword)
  }

  /**
   * `current_user`: the chain header, `Basic ` prefix, decoding, split and lookup, giving
   * `None` as soon as one stage does.
   */
  function CurrentUser<U>(request: Option<SimpleApiAuth.Request>, codec: Codec, d: Directory<U>): (r: Option<U>)
    ensures SimpleApiAuth.AuthorizationHeader(request).None? ==> r.None?
    ensures r.Some? ==> StartsWith(SimpleApiAuth.AuthorizationHeader(request).value, "Basic ")
    ensures r.Some? ==> r.value in d.users
    ensures var h := SimpleApiAuth.AuthorizationHeader(request);
            h.Some? && !StartsWith(h.value, "Basic ") ==> r.None?
    ensures var h := SimpleApiAuth.AuthorizationHeader(request);
            h.Some? && StartsWith(h.value, "Basic ") ==>
              var dec := DecodeBase64AuthorizationHeader(Str(h.value[6..]), codec);
              r == if dec.Some? && ':' in dec.value
                   then UserObjectFromCredentials(Str(SplitOnce(dec.value, ':').value.0),
                                                  Str(SplitOnce(dec.value, ':').value.1), d)
                   else None
  {
    if request.None? then None
    else match SimpleApiAuth.AuthorizationHeader(request)
      case None => None
      case Some(header) =>
        match ExtractBase64AuthorizationHeader(Str(header))
        case None => None
        case Some(encoded) =>
          assert encoded == header[6..];
          match DecodeBase64AuthorizationHeader(Str(encoded), codec)
          case None => None
          case Some(decoded) =>
            var (email, password) := ExtractUserCredentials(Str(decoded));
            if email.None? || password.None? then None
            else UserObjectFromCredentials(Str(email.value), Str(password.value), d)
  }

  /**
   * A request carrying `Basic ` and an encoding of `email:password`, with no colon in the
   * email, is the user those credentials identify, whatever the password holds.
   */
  lemma CurrentUserRoundTrip<U>(request: Option<SimpleApiAuth.Request>, codec: Codec, d: Directory<U>,
                                encoded: string, email: string, password: string)
    requires SimpleApiAuth.AuthorizationHeader(request) == Some("Basic " + encoded)
    requires DecodeBase64AuthorizationHeader(Str(encoded), codec) == Some(email + ":" + password)
    requires ':' !in email
    ensures CurrentUser(request, codec, d) == UserObjectFromCredentials(Str(email), Str(password), d)
  {
    ExtractAfterScheme(encoded);
    CredentialsRoundTrip(email, password);
  }
}
