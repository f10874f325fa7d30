/** Identifiers drawn from nanoid: fixed length, over the URL-safe alphabet `A-Za-z0-9_-`. */
module NanoId {

  predicate UrlSafe(c: char) {
    ('A' <= c <= 'Z') || ('a' <= c <= 'z') || ('0' <= c <= '9') || c == '_' || c == '-'
  }

  predicate IsNanoId(s: string, size: nat) {
    |s| == size && forall i | 0 <= i < |s| :: UrlSafe(s[i])
  }

  /** `nanoid(6)`. */
  type Id6 = s: string | IsNanoId(s, 6) witness "AAAAAA"

  /** `nanoid(12)`. */
  type Id12 = s: string | IsNanoId(s, 12) witness "AAAAAAAAAAAA"

  /** `nanoid()`, whose default size is 21. */
  type Id21 = s: string | IsNanoId(s, 21) witness "AAAAAAAAAAAAAAAAAAAAA"
}
