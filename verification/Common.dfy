/** Values shared by every component. */
module Common {

  datatype Option<+T> = None | Some(value: T)

  /** Go's (value, error) pair, as one value. */
  datatype Result<+T, +E> = Ok(value: T) | Err(error: E)

  /** The pattern ^[a-z0-9_-]+$ shared by PIDs, namespace ids and usernames. */
  predicate IsSlug(s: string) {
    s != "" && forall i :: 0 <= i < |s| ==> 'a' <= s[i] <= 'z' || '0' <= s[i] <= '9' || s[i] == '_' || s[i] == '-'
  }
}
