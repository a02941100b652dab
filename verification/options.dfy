module Options {

  datatype Option<+T> = None | Some(value: T)

  function Cons<T>(x: T, xs: Option<seq<T>>): Option<seq<T>> {
    if xs.None? then None else Some([x] + xs.value)
  }

  function Append<T>(xs: seq<T>, ys: Option<seq<T>>): Option<seq<T>> {
    if ys.None? then None else Some(xs + ys.value)
  }

  lemma AppendCons<T>(xs: seq<T>, x: T, ys: Option<seq<T>>)
    ensures Append(xs, Cons(x, ys)) == Append(xs + [x], ys)
  {
    if ys.Some? {
      assert xs + ([x] + ys.value) == (xs + [x]) + ys.value;
    }
  }

  lemma AppendNothing<T>(ys: Option<seq<T>>)
    ensures Append([], ys) == ys
  {
    if ys.Some? {
      assert [] + ys.value == ys.value;
    }
  }

  lemma AppendAll<T>(xs: seq<T>)
    ensures Append(xs, Some([])) == Some(xs)
  {
    assert xs + [] == xs;
  }

  lemma AppendFails<T>(xs: seq<T>)
    ensures Append(xs, None) == None
  {
  }
}
