/**
 * `POST /api/admin/verify-key`: checks the format of a submitted admin key
 * (a non-empty string of 32 UTF-16 code units) and compares it with the
 * configured `ADMIN_KEY`, which is a parameter here.
 */
module VerifyKeyRoute {
  import opened Common
  import opened Js

  const KEY_LENGTH := 32
  const BAD_FORMAT := "Invalid key format"
  const WRONG_KEY := "Invalid access key"
  const FAILED := "Failed to verify key"

  /** The parsed request body; `None` stands for a body that cannot be read as JSON. */
  datatype Body = Body(key: Value)

  /** The format check: a truthy string whose `length` is 32. */
  predicate WellFormedKey(key: Value) {
    Truthy(key) && key.Str? && Utf16Length(key.s) == KEY_LENGTH
  }

  function Post(body: Option<Body>, adminKey: string): (r: Reply<bool>)
    ensures body.None? ==> r == Err(SERVER_ERROR, FAILED)
    ensures body.Some? && !WellFormedKey(body.value.key) ==> r == Err(BAD_REQUEST, BAD_FORMAT)
    ensures r.Ok? <==> body.Some? && body.value.key == Str(adminKey) && Utf16Length(adminKey) == KEY_LENGTH
    ensures r.Ok? ==> r.status == OK && r.body
    ensures body.Some? && WellFormedKey(body.value.key) && body.value.key != Str(adminKey) ==>
              r == Err(UNAUTHORIZED, WRONG_KEY)
  {
    if body.None? then Err(SERVER_ERROR, FAILED)
    else
      var key := body.value.key;
      if !Truthy(key) || !key.Str? || Utf16Length(key.s) != KEY_LENGTH then Err(BAD_REQUEST, BAD_FORMAT)
      else if key.s == adminKey then Ok(OK, true)
      else Err(UNAUTHORIZED, WRONG_KEY)
  }

  /** A configured key of any other length can never be matched. */
  lemma MisconfiguredKeyAcceptsNothing(body: Option<Body>, adminKey: string)
    requires Utf16Length(adminKey) != KEY_LENGTH
    ensures Post(body, adminKey).Err?
  {
  }

  /** A key of 32 characters from the Basic Multilingual Plane passes the format check. */
  lemma BmpKeyOfLength32IsWellFormed(k: string)
    requires |k| == KEY_LENGTH
    requires forall i | 0 <= i < |k| :: k[i] as int <= 0xFFFF
    ensures WellFormedKey(Str(k))
  {
  }

  /** A key with fewer than 16 or more than 32 characters is refused for its format. */
  lemma KeyLengthOutsideRangeIsRefused(k: string, adminKey: string)
    requires |k| < 16 || |k| > KEY_LENGTH
    ensures Post(Some(Body(Str(k))), adminKey) == Err(BAD_REQUEST, BAD_FORMAT)
  {
  }
}
