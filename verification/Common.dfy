/** Two things that several modules need. */
module Common {
  datatype Option<T> = None | Some(value: T)

  /** memchr: the first place of a character. */
  function Find(s: string, c: char): (k: nat)
    requires c in s
    ensures k < |s| && s[k] == c && c !in s[..k]
  {
    if s[0] == c then 0 else 1 + Find(s[1..], c)
  }
}
