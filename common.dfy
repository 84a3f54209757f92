/** Shared datatypes: optional values, the outcome of a call into code that is not
    modelled (a library, the file system, the network), and order-keeping filtering. */
module Common {

  datatype Option<+T> = None | Some(value: T)

  /** What a foreign call did: returned a value, or raised an exception with a message. */
  datatype Outcome<+T> = Done(value: T) | Raised(message: string)

  /** The elements of `xs` that satisfy `p`, in their original order: the
      `for x in xs: if p(x): out.append(x)` pattern the converters use. */
  function Keep<T>(xs: seq<T>, p: T -> bool): seq<T>
    decreases |xs|
  {
    if xs == [] then []
    else Keep(xs[..|xs| - 1], p) + (if p(xs[|xs| - 1]) then [xs[|xs| - 1]] else [])
  }

  /** `f` applied to every element, in order. */
  function MapSeq<T, U>(xs: seq<T>, f: T -> U): (r: seq<U>)
    ensures |r| == |xs|
  {
    seq(|xs|, i requires 0 <= i < |xs| => f(xs[i]))
  }

  /** Keep selects exactly the elements that satisfy the predicate. */
  lemma {:induction false} KeepMembers<T>(xs: seq<T>, p: T -> bool, x: T)
    ensures x in Keep(xs, p) <==> x in xs && p(x)
    decreases |xs|
  {
    if xs != [] {
      var init := xs[..|xs| - 1];
      KeepMembers(init, p, x);
      assert xs == init + [xs[|xs| - 1]];
    }
  }

  /** Keep distributes over concatenation: the relative order of the kept
      elements is the order of the input. */
  lemma {:induction false} KeepAppend<T>(a: seq<T>, b: seq<T>, p: T -> bool)
    ensures Keep(a + b, p) == Keep(a, p) + Keep(b, p)
    decreases |b|
  {
    if b == [] {
      assert a + b == a;
    } else {
      var bInit := b[..|b| - 1];
      KeepAppend(a, bInit, p);
      assert (a + b)[..|a + b| - 1] == a + bInit;
    }
  }

  /** Nothing is dropped when every element satisfies the predicate. */
  lemma {:induction false} KeepAll<T>(xs: seq<T>, p: T -> bool)
    requires forall i :: 0 <= i < |xs| ==> p(xs[i])
    ensures Keep(xs, p) == xs
    decreases |xs|
  {
    if xs != [] {
      KeepAll(xs[..|xs| - 1], p);
    }
  }

  /** Keep never returns more elements than it is given. */
  lemma {:induction false} KeepLength<T>(xs: seq<T>, p: T -> bool)
    ensures |Keep(xs, p)| <= |xs|
    decreases |xs|
  {
    if xs != [] {
      KeepLength(xs[..|xs| - 1], p);
    }
  }

  /** Mapping commutes with appending one element. */
  lemma MapSnoc<T, U>(xs: seq<T>, x: T, f: T -> U)
    ensures MapSeq(xs + [x], f) == MapSeq(xs, f) + [f(x)]
  {
  }
}
