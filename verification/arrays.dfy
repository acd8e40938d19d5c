/** Arrays of fixed-size records: the list comprehensions that parse
    `count` records at `base + i * stride`, in order, where the first
    record that fails to parse raises and ends the comprehension.
 */
module Arrays {
  import opened Wrappers

  /** The position of element `i`. */
  function Element(base: nat, stride: nat, i: nat): nat {
    base + i * stride
  }

  /** Element `i` is the first that fails to parse, with error `e`. */
  ghost predicate FailsAt<T>(parse: nat -> Result<T>, base: nat, stride: nat, count: nat, e: Error) {
    exists i :: 0 <= i < count && parse(Element(base, stride, i)) == Err(e)
      && (forall j :: 0 <= j < i ==> parse(Element(base, stride, j)).Ok?)
  }

  /** A failure after a first element that parses is a failure of the whole array. */
  lemma {:induction false} FailsLater<T>(parse: nat -> Result<T>, base: nat, stride: nat, count: nat, e: Error)
    requires count >= 1 && parse(base).Ok?
    requires FailsAt(parse, base + stride, stride, count - 1, e)
    ensures FailsAt(parse, base, stride, count, e)
  {
    var next := base + stride;
    var i :| 0 <= i < count - 1 && parse(Element(next, stride, i)) == Err(e)
      && (forall j :: 0 <= j < i ==> parse(Element(next, stride, j)).Ok?);
    assert Element(base, stride, i + 1) == Element(next, stride, i);
    forall j | 0 <= j < i + 1
      ensures parse(Element(base, stride, j)).Ok?
    {
      if j > 0 {
        assert Element(base, stride, j) == Element(next, stride, j - 1);
      }
    }
  }

  /** `[parse(base + i * stride) for i in range(count)]`. */
  function ParseArray<T>(parse: nat -> Result<T>, base: nat, stride: nat, count: nat): (r: Result<seq<T>>)
    ensures r.Ok? ==> |r.value| == count
    ensures r.Ok? ==> forall i :: 0 <= i < count ==> parse(Element(base, stride, i)) == Ok(r.value[i])
    ensures r.Err? ==> FailsAt(parse, base, stride, count, r.error)
    decreases count
  {
    if count == 0 then Ok([])
    else
      assert Element(base, stride, 0) == base;
      assert forall i :: 1 <= i < count ==> Element(base, stride, i) == Element(base + stride, stride, i - 1);
      var first :- parse(base);
      var rest := ParseArray(parse, base + stride, stride, count - 1);
      if rest.Err? then
        FailsLater(parse, base, stride, count, rest.error);
        Err(rest.error)
      else
        Ok([first] + rest.value)
  }

  /** The array parses exactly when every element does. */
  lemma {:induction false} ParseArrayOk<T>(parse: nat -> Result<T>, base: nat, stride: nat, count: nat)
    ensures ParseArray(parse, base, stride, count).Ok?
      <==> forall i :: 0 <= i < count ==> parse(Element(base, stride, i)).Ok?
  {
  }

  /** An array whose every element parses to the matching item of `xs`
      parses to `xs`. */
  lemma {:induction false} ParseArrayIs<T>(parse: nat -> Result<T>, base: nat, stride: nat, xs: seq<T>)
    requires forall i :: 0 <= i < |xs| ==> parse(Element(base, stride, i)) == Ok(xs[i])
    ensures ParseArray(parse, base, stride, |xs|) == Ok(xs)
  {
    ParseArrayOk(parse, base, stride, |xs|);
    var r := ParseArray(parse, base, stride, |xs|).value;
    forall i | 0 <= i < |xs|
      ensures r[i] == xs[i]
    {
      assert parse(Element(base, stride, i)) == Ok(r[i]);
    }
    assert r == xs;
  }
}
