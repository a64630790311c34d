/** The request authentication of `validate_signature`: an optional shared
    secret, the `X-Hub-Signature` header and an HMAC-SHA1 hex digest of the
    raw body. */
module Signature {
  import opened Strings

  datatype Option<T> = None | Some(value: T)

  /** How the check ends: it returns, or raises BadRequestError or
      UnauthorizedError. */
  datatype Verdict = Accepted | BadRequest | Unauthorized

  const SignatureHeader: string := "X-Hub-Signature"

  /** Is `value` of the shape `<algorithm>=<digest>`, i.e. does unpacking
      `value.split('=')` into two names succeed? */
  predicate WellFormed(value: string): (b: bool)
    ensures b <==> |Split(value, '=')| == 2
  {
    Count(value, '=') == 1
  }

  /** `validate_signature` with the configured secret, the request's headers
      and raw body. `hmacSha1Hex(key, message)` stands for the hex digest of
      HMAC-SHA1; `compare_digest` is string equality.
      With no secret every request passes. With a secret, a missing header or
      one that is not exactly `<algorithm>=<digest>` is a BadRequest, whatever
      the digest would be; a well-formed header passes exactly when its digest
      part is the HMAC of the body, and is Unauthorized otherwise. */
  function ValidateSignature(secret: Option<string>, headers: map<string, string>, rawBody: string,
                             hmacSha1Hex: (string, string) -> string): (v: Verdict)
    ensures secret.None? ==> v == Accepted
    ensures v == BadRequest <==>
      secret.Some? && (SignatureHeader !in headers || !WellFormed(headers[SignatureHeader]))
    ensures secret.Some? && SignatureHeader in headers && WellFormed(headers[SignatureHeader]) ==>
      (v == Accepted <==> Split(headers[SignatureHeader], '=')[1] == hmacSha1Hex(secret.value, rawBody))
  {
    if secret.None? then Accepted
    else if SignatureHeader !in headers then BadRequest
    else
      var parts := Split(headers[SignatureHeader], '=');
      if |parts| != 2 then BadRequest
      else
        var digest := hmacSha1Hex(secret.value, rawBody);
        if digest == parts[1] then Accepted else Unauthorized
  }

  /** No separator and two separators are malformed. */
  lemma HeaderShapes()
    ensures !WellFormed("whatever")
    ensures !WellFormed("a=b=c")
  {
  }

  /** An empty algorithm or digest part is accepted: the split still yields
      two pieces. */
  lemma EmptyPartsWellFormed()
    ensures WellFormed("=") && Split("=", '=') == ["", ""]
    ensures WellFormed("sha1=") && Split("sha1=", '=') == ["sha1", ""]
  {
    SplitJoin(["", ""], '=');
    assert Join(["sha1", ""], '=') == "sha1=";
    SplitJoin(["sha1", ""], '=');
  }

  /** For a header `<algorithm>=<digest>` the verdict depends on the digest
      alone: the algorithm name is thrown away, and HMAC-SHA1 is used
      whatever it says. */
  lemma WellFormedVerdict(secret: string, headers: map<string, string>, rawBody: string,
                          hmacSha1Hex: (string, string) -> string, algorithm: string, digest: string)
    requires '=' !in algorithm && '=' !in digest
    requires SignatureHeader in headers && headers[SignatureHeader] == algorithm + "=" + digest
    ensures ValidateSignature(Some(secret), headers, rawBody, hmacSha1Hex)
         == if digest == hmacSha1Hex(secret, rawBody) then Accepted else Unauthorized
  {
    var parts := [algorithm, digest];
    assert Join(parts, '=') == algorithm + "=" + digest by {
      assert Join(parts[1..], '=') == digest;
    }
    SplitJoin(parts, '=');
  }

  /** Two requests whose signature headers differ only in the algorithm
      name get the same verdict. */
  lemma AlgorithmIgnored(secret: Option<string>, headers: map<string, string>, rawBody: string,
                         hmacSha1Hex: (string, string) -> string, algorithm: string, other: string, digest: string)
    requires '=' !in algorithm && '=' !in other && '=' !in digest
    ensures ValidateSignature(secret, headers[SignatureHeader := algorithm + "=" + digest], rawBody, hmacSha1Hex)
         == ValidateSignature(secret, headers[SignatureHeader := other + "=" + digest], rawBody, hmacSha1Hex)
  {
    if secret.Some? {
      WellFormedVerdict(secret.value, headers[SignatureHeader := algorithm + "=" + digest], rawBody,
                        hmacSha1Hex, algorithm, digest);
      WellFormedVerdict(secret.value, headers[SignatureHeader := other + "=" + digest], rawBody,
                        hmacSha1Hex, other, digest);
    }
  }

  /** A signature naming a checksum such as CRC32 is not refused for its
      algorithm: it passes the format check and is judged on its digest. */
  lemma ChecksumAlgorithmNotRefused(secret: string, headers: map<string, string>, rawBody: string,
                                    hmacSha1Hex: (string, string) -> string)
    requires SignatureHeader in headers && headers[SignatureHeader] == "crc32=whatever"
    ensures ValidateSignature(Some(secret), headers, rawBody, hmacSha1Hex)
         == if hmacSha1Hex(secret, rawBody) == "whatever" then Accepted else Unauthorized
  {
    assert "crc32=whatever" == "crc32" + "=" + "whatever";
    WellFormedVerdict(secret, headers, rawBody, hmacSha1Hex, "crc32", "whatever");
  }
}
