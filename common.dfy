/** Vocabulary shared by the role and user controllers: document ids, optional
    request fields, JSON replies and the string helpers the handlers use. */
module Common {

  /** A document id. The store generates ids; the model only needs them to be
      distinct, so they are numbers. */
  type Id = nat

  datatype Option<+T> = None | Some(value: T)

  /** What a handler sends back: the HTTP status, the message it carries
      (a message kind, with its parameters where the message text is built
      from data) and the optional `data` payload. */
  datatype Reply<M, T> = Reply(code: nat, msg: M, data: Option<T>)

  /** JavaScript truthiness of a request field that is a string when present:
      a missing field and the empty string are both falsy. */
  predicate Truthy(s: Option<string>)
  {
    s.Some? && s.value != ""
  }

  /** `p` is a prefix of `s`. */
  predicate IsPrefix(p: string, s: string)
  {
    |p| <= |s| && s[..|p|] == p
  }

  /** Lower-casing of one ASCII letter; every other character is left alone. */
  function LowerChar(c: char): (d: char)
    ensures 'A' <= c <= 'Z' ==> 'a' <= d <= 'z'
    ensures !('A' <= c <= 'Z') ==> d == c
  {
    if 'A' <= c <= 'Z' then (c as int + 32) as char else c
  }

  /** An ASCII case folding, one admissible instance of the opaque `lower`
      parameter that the access check and the user search take. */
  function AsciiLower(s: string): (r: string)
    ensures |r| == |s|
    ensures forall i :: 0 <= i < |r| ==> !('A' <= r[i] <= 'Z')
    ensures forall i :: 0 <= i < |s| && !('A' <= s[i] <= 'Z') ==> r[i] == s[i]
  {
    seq(|s|, i requires 0 <= i < |s| => LowerChar(s[i]))
  }
}
