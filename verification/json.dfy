/**
 * JSON/YAML-like values as the validators see them after loading: a mapping is
 * an ordered list of members (Python dicts keep insertion order).
 */
module Json {
  import opened Base

  datatype Value =
    | Null
    | Bool(b: bool)
    | Num(n: int)
    | Str(s: string)
    | Arr(items: seq<Value>)
    | Obj(members: seq<Member>)

  datatype Member = Member(name: string, value: Value)

  function Names(ms: seq<Member>): (names: seq<string>)
    ensures |names| == |ms| && forall i :: 0 <= i < |ms| ==> names[i] == ms[i].name
  {
    seq(|ms|, i requires 0 <= i < |ms| => ms[i].name)
  }

  /** Python's `name in d` for a mapping. */
  predicate HasName(ms: seq<Member>, name: string) {
    exists i :: 0 <= i < |ms| && ms[i].name == name
  }

  /** Python's `d.get(name)`: the value of the first member called `name`. */
  function Get(ms: seq<Member>, name: string): (r: Option<Value>)
    ensures r.Some? <==> HasName(ms, name)
    ensures r.Some? ==> exists i :: 0 <= i < |ms| && ms[i] == Member(name, r.value)
  {
    if ms == [] then None
    else if ms[0].name == name then Some(ms[0].value)
    else
      var r := Get(ms[1..], name);
      assert forall i :: 1 <= i < |ms| ==> ms[i] == ms[1..][i - 1];
      r
  }

  /** Reading a mapping at the first member with that name. */
  lemma {:induction false} GetAt(ms: seq<Member>, i: nat, name: string)
    requires i < |ms| && ms[i].name == name
    requires forall j :: 0 <= j < i ==> ms[j].name != name
    ensures Get(ms, name) == Some(ms[i].value)
  {
    if i > 0 {
      GetAt(ms[1..], i - 1, name);
    }
  }

  /**
   * Python's `{**d, name: v}` on a mapping that has `name`: the member keeps its
   * place and every other member is untouched.
   */
  function Put(ms: seq<Member>, name: string, v: Value): (r: seq<Member>)
    ensures |r| == |ms|
    ensures forall i :: 0 <= i < |ms| ==> r[i] == if ms[i].name == name then Member(name, v) else ms[i]
  {
    seq(|ms|, i requires 0 <= i < |ms| => if ms[i].name == name then Member(name, v) else ms[i])
  }
  /** Replacing the value of one name leaves the names and every other lookup as they were. */
  lemma {:induction false} GetPut(ms: seq<Member>, name: string, v: Value, other: string)
    requires other != name
    ensures Names(Put(ms, name, v)) == Names(ms)
    ensures Get(Put(ms, name, v), other) == Get(ms, other)
  {
    if ms != [] {
      assert Put(ms, name, v)[1..] == Put(ms[1..], name, v);
      GetPut(ms[1..], name, v, other);
    }
  }
}
