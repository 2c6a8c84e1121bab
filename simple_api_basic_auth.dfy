/**
 * HTTP Basic authentication in the SimpleAPI variant
 * (0x01-Basic_authentication/SimpleAPI/api/v1/auth/basic_auth.py). Its
 * `extract_base64_authorization_header` and `decode_base64_authorization_header` are the
 * same as in `BasicAuth`; `extract_user_credentials` differs: it splits at every colon,
 * so a password holding a colon yields a tuple of more than two parts.
 */
module SimpleApiBasicAuth {
  import opened Wrappers
  import opened Text
  import BasicAuth

  /** The strings in a tuple whose every element is present. */
  function Present(parts: seq<Option<string>>): (r: seq<string>)
    requires forall i :: 0 <= i < |parts| ==> parts[i].Some?
    ensures |r| == |parts| && forall i :: 0 <= i < |r| ==> parts[i] == Some(r[i])
  {
    if parts == [] then [] else [parts[0].value] + Present(parts[1..])
  }

  /**
   * `extract_user_credentials`: `(None, None)` unless the argument is a string holding a colon;
   * otherwise `split(':')`, one part more than there are colons, none holding a colon, and
   * joined again with colons they give back the argument.
   */
  function ExtractUserCredentials(decoded: Arg): (r: seq<Option<string>>)
    ensures !(decoded.Str? && ':' in decoded.s) ==> r == [None, None]
    ensures decoded.Str? && ':' in decoded.s ==>
              && |r| == Count(decoded.s, ':') + 1
              && (forall i :: 0 <= i < |r| ==> r[i].Some? && ':' !in r[i].value)
              && Join(Present(r), ':') == decoded.s
  {
    if !decoded.Str? then [None, None]
    else if ':' !in decoded.s then [None, None]
    else
      var parts := Split(decoded.s, ':');
      var r := seq(|parts|, i requires 0 <= i < |parts| => Some(parts[i]));
      assert Present(r) == parts;
      r
  }

  /**
   * The two versions agree on the email, and the first-colon version's password is the
   * rest of the parts joined back with colons.
   */
  lemma AgreesWithFirstColonSplit(decoded: string)
    requires ':' in decoded
    ensures var r := ExtractUserCredentials(Str(decoded));
            var (email, password) := BasicAuth.ExtractUserCredentials(Str(decoded));
            && r[0] == email
            && password == Some(Join(Present(r)[1..], ':'))
  {
    var parts := Present(ExtractUserCredentials(Str(decoded)));
    SplitJoin(parts, ':');
    var (email, password) := BasicAuth.ExtractUserCredentials(Str(decoded));
    SplitOnceUnique(decoded, ':', email.value, password.value);
    assert Split(decoded, ':') == [email.value] + Split(password.value, ':');
    assert parts[1..] == Split(password.value, ':');
  }

  /** With exactly one colon both versions give the same pair. */
  lemma OneColonSameAsFirstColonSplit(decoded: string)
    requires Count(decoded, ':') == 1
    ensures var (email, password) := BasicAuth.ExtractUserCredentials(Str(decoded));
            ExtractUserCredentials(Str(decoded)) == [email, password]
  {
    AgreesWithFirstColonSplit(decoded);
    var r := ExtractUserCredentials(Str(decoded));
    assert Present(r)[1..] == [Present(r)[1]];
  }

  /**
   * With two colons or more the result is not a pair, so unpacking it into email and
   * password, as a `current_user` of the api/v1 shape does, would fail.
   */
  lemma ManyColonsNotAPair(email: string, password: string)
    requires ':' !in email && ':' in password
    ensures |ExtractUserCredentials(Str(email + ":" + password))| > 2
    ensures BasicAuth.ExtractUserCredentials(Str(email + ":" + password)) == (Some(email), Some(password))
  {
    CountConcat(email + ":", password, ':');
    CountConcat(email, ":", ':');
    BasicAuth.CredentialsRoundTrip(email, password);
  }
}
