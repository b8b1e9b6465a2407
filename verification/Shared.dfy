/** What several modules share. */
module Shared {

  /** A value, or the refusal the source reports with an error or a false. */
  datatype Option<+T> = None | Some(value: T)

  lemma JoinAssociates<T>(a: seq<T>, b: seq<T>, c: seq<T>)
    ensures (a + b) + c == a + (b + c)
  {
  }
}
