/** Types shared by the models. */
module Prelude {
  datatype Option<+T> = None | Some(value: T)

  /** A byte, written as the character with that code. */
  type Byte = c: char | c as int < 256 witness '\0'

  /** What the source keeps in a std::string. */
  type Bytes = seq<Byte>

  /** The part is the whole at those positions, in order. */
  ghost predicate Picks<T>(whole: seq<T>, part: seq<T>, at: seq<nat>) {
    && |part| == |at|
    && (forall j, k :: 0 <= j < k < |at| ==> at[j] < at[k])
    && (forall k :: 0 <= k < |at| ==> at[k] < |whole| && part[k] == whole[at[k]])
  }

  lemma PicksMore<T>(whole: seq<T>, part: seq<T>, at: seq<nat>, x: T)
    requires Picks(whole, part, at)
    ensures Picks(whole + [x], part, at) && Picks(whole + [x], part + [x], at + [|whole|])
    ensures forall i: nat :: i in at ==> i < |whole|
  {
  }
}
