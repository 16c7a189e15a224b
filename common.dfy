/** Values shared by every handler: optional values and the outcome of a request. */
module Common {
  import opened Text

  /** A JavaScript value that may be `undefined`/`null`. */
  datatype Option<+T> = None | Some(value: T)

  /** Why a handler refused a request; the HTTP status travels beside it in `Response.Fail`. */
  datatype Reason =
    | MissingField
    | InvalidName
    | InvalidEmail
    | DuplicateEmail
    | PasswordLength
    | PasswordCharset
    | WriteNotAcknowledged
    | MailFailed
    | UnknownEmail
    | WrongPassword
    | NoPasswordHash
    | UnverifiedAccount
    | BannedAccount
    | DeletedAccount
    | CredentialMissing
    | TokenRejected
    | FalsyPayload
    | UserNotFound
    | InvalidPostId
    | PostNotFound
    | InvalidComment
    | InvalidCommentId
    | CommentNotFound
    | NotPostOwner
    | InvalidDescription
    | UploadFailed
    | NegativeSkip
    | KeyMissing
    | TokenMissing
    | KeyExpired
    | MalformedProfile

  /** What a handler answers: a success body, an error status (as the central error
      responder sends it), or a redirect to a front-end route. */
  datatype Response<+T> = Ok(value: T) | Fail(status: nat, reason: Reason) | Redirect(path: string)

  /** JavaScript truthiness of an optional string: `undefined`, `null` and `""` are falsy. */
  predicate Present(s: Option<string>) {
    s.Some? && s.value != ""
  }

  /** `x || null` on an optional string: the empty string falls back to `null`. */
  function OrNull(s: Option<string>): (r: Option<string>)
    ensures r.Some? <==> Present(s)
    ensures r.Some? ==> r == s
  {
    if Present(s) then s else None
  }

  /** `validateString(value, label, min, max)`: the value when its JavaScript length
      (UTF-16 code units) lies in `[min, max]`, otherwise a refusal. (The helper's own
      normalisation, if any, is not part of this model.) */
  function ValidateString(s: string, min: nat, max: nat): (r: Option<string>)
    ensures r.Some? <==> min <= Utf16Length(s) <= max
    ensures r.Some? ==> r.value == s
  {
    if min <= Utf16Length(s) <= max then Some(s) else None
  }
}
