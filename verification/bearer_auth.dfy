/**
 * The `Authorization: Bearer <token>` check shared by the API routes. Token
 * verification (a JWT signature check) is an opaque oracle passed in.
 */
module BearerAuth {
  import opened Wrappers
  import opened Text

  const Prefix: string := "Bearer "
  const NotAuthenticated: string := "Not authenticated"
  const InvalidToken: string := "Invalid token"

  /** The token of a header that starts with `Bearer `: the header minus its first 7 characters. */
  function BearerToken(header: Option<string>): (r: Result<string, string>)
    ensures r.Failure? <==> header.None? || !StartsWith(header.value, Prefix)
    ensures r.Failure? ==> r.error == NotAuthenticated
    ensures r.Success? ==> header.value == Prefix + r.value && |Prefix| == 7
  {
    if header.None? || !StartsWith(header.value, Prefix) then Failure(NotAuthenticated)
    else
      assert header.value == header.value[..7] + header.value[7..];
      Success(header.value[7..])
  }

  /** The verified claims of the token, `Not authenticated` without a bearer header, `Invalid token` when verification fails. */
  function Authenticate<P>(header: Option<string>, verify: string -> Option<P>): (r: Result<P, string>)
    ensures BearerToken(header).Failure? ==> r == Failure(NotAuthenticated)
    ensures BearerToken(header).Success? && verify(BearerToken(header).value).None? ==> r == Failure(InvalidToken)
    ensures BearerToken(header).Success? && verify(BearerToken(header).value).Some? ==>
              r == Success(verify(BearerToken(header).value).value)
  {
    var token :- BearerToken(header);
    match verify(token)
    case None => Failure(InvalidToken)
    case Some(p) => Success(p)
  }

  /** The token is exactly what follows the prefix. */
  lemma BearerTokenExample()
    ensures BearerToken(Some("Bearer abc.def")) == Success("abc.def")
    ensures BearerToken(Some("bearer abc")) == Failure(NotAuthenticated)
    ensures BearerToken(Some("Bearer")) == Failure(NotAuthenticated)
  {
    assert "bearer abc"[..7] != Prefix by {
      assert "bearer abc"[0] != Prefix[0];
    }
  }
}
