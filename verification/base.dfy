/** Failure-carrying wrappers and sequence helpers shared by every module of the model. */
module Base {

  datatype Option<+T> = None | Some(value: T) {
    /** The wrapped value, or `default` when there is none (Python's `dict.get(k, default)`). */
    function GetOr(default: T): T {
      match this
      case Some(v) => v
      case None => default
    }
  }

  /** The outcome of an operation that can raise: `Ok(value)` or `Err(error)`. */
  datatype Result<+T, +E> = Ok(value: T) | Err(error: E)

  /** `f` applied to every element, in order (Python's `[f(x) for x in s]`). */
  function Map<A, B>(f: A -> B, s: seq<A>): (r: seq<B>)
    ensures |r| == |s| && forall i :: 0 <= i < |s| ==> r[i] == f(s[i])
  {
    seq(|s|, i requires 0 <= i < |s| => f(s[i]))
  }

  lemma MapTwo<A, B>(f: A -> B, s: seq<A>)
    requires |s| == 2
    ensures Map(f, s) == [f(s[0]), f(s[1])]
  {
  }

  lemma MapFive<A, B>(f: A -> B, s: seq<A>)
    requires |s| == 5
    ensures Map(f, s) == [f(s[0]), f(s[1]), f(s[2]), f(s[3]), f(s[4])]
  {
  }

  lemma MapSeven<A, B>(f: A -> B, s: seq<A>)
    requires |s| == 7
    ensures Map(f, s) == [f(s[0]), f(s[1]), f(s[2]), f(s[3]), f(s[4]), f(s[5]), f(s[6])]
  {
  }
  /** The pieces of `ss` joined in order (Python's `for piece in ss: out.extend(piece)`). */
  function Flatten<T>(ss: seq<seq<T>>): seq<T> {
    if ss == [] then [] else Flatten(ss[..|ss| - 1]) + ss[|ss| - 1]
  }

  /** One more piece extends the joined prefix by that piece. */
  lemma FlattenPrefix<T>(ss: seq<seq<T>>, n: nat)
    requires n < |ss|
    ensures Flatten(ss[..n + 1]) == Flatten(ss[..n]) + ss[n]
  {
    assert ss[..n + 1][..n] == ss[..n];
  }

  /** An element is in the joined sequence iff it is in one of the pieces. */
  lemma {:induction false} FlattenMember<T>(ss: seq<seq<T>>, x: T)
    ensures x in Flatten(ss) <==> exists i :: 0 <= i < |ss| && x in ss[i]
  {
    if ss != [] {
      var m := |ss| - 1;
      FlattenMember(ss[..m], x);
      if x in Flatten(ss[..m]) {
        var i :| 0 <= i < m && x in ss[..m][i];
        assert x in ss[i];
      }
      if i :| 0 <= i < |ss| && x in ss[i] {
        if i < m { assert x in ss[..m][i]; }
      }
    }
  }

  /** The joined sequence is empty iff every piece is. */
  lemma {:induction false} FlattenEmpty<T>(ss: seq<seq<T>>)
    ensures Flatten(ss) == [] <==> forall i :: 0 <= i < |ss| ==> ss[i] == []
  {
    if ss != [] {
      var m := |ss| - 1;
      FlattenEmpty(ss[..m]);
      assert forall i :: 0 <= i < m ==> ss[..m][i] == ss[i];
    }
  }
}
