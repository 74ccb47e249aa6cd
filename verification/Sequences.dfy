/** Building a list at its end while walking another from its front. */
module Sequences {
  lemma HeadAndTail<T>(done: seq<T>, list: seq<T>)
    requires list != []
    ensures (done + [list[0]]) + list[1..] == done + list
    ensures |list| == 1 ==> done + [list[0]] == done + list
  {
  }

  /** Appending the elements of a list one by one to what is done gives the whole. */
  ghost predicate Joins<T>(done: seq<T>, list: seq<T>, all: seq<T>)
    decreases |list|
  {
    if list == [] then done == all else Joins(done + [list[0]], list[1..], all)
  }

  lemma {:induction false} JoinsIsConcat<T>(done: seq<T>, list: seq<T>)
    ensures Joins(done, list, done + list)
    decreases |list|
  {
    if list == [] {
      assert done + list == done;
    } else {
      HeadAndTail(done, list);
      JoinsIsConcat(done + [list[0]], list[1..]);
    }
  }

  lemma JoinsSelf<T>(list: seq<T>)
    ensures Joins([], list, list)
  {
    JoinsIsConcat([], list);
    assert [] + list == list;
  }
}
