/** Positional pairing of two sequences (src/util.rs, `zip_to_end`): pair
    the i-th elements, padding the shorter side with `None`. */
module Util {
  import opened Wrappers

  function Max(a: nat, b: nat): nat {
    if a < b then b else a
  }

  /** What one call of `next()` on an iterator over `s` yields. */
  function Next<T>(s: seq<T>): Option<T> {
    if s == [] then None else Some(s[0])
  }

  /** The iterator after that call. */
  function Advance<T>(s: seq<T>): seq<T> {
    if s == [] then [] else s[1..]
  }

  /** The i-th element, if there is one. */
  function At<T>(s: seq<T>, i: nat): Option<T> {
    if i < |s| then Some(s[i]) else None
  }

  /** The pairs `zip_to_end` pushes: one per step until both iterators are
      exhausted.  Its length is the longer of the two lengths. */
  function Zip<T>(a: seq<T>, b: seq<T>): (r: seq<(Option<T>, Option<T>)>)
    ensures |r| == Max(|a|, |b|)
    decreases |a| + |b|
  {
    if a == [] && b == [] then []
    else [(Next(a), Next(b))] + Zip(Advance(a), Advance(b))
  }

  /** Pair i holds the i-th elements of both sides, `None` past a side's
      end. */
  lemma {:induction false} ZipAt<T>(a: seq<T>, b: seq<T>)
    ensures forall i :: 0 <= i < |Zip(a, b)| ==> Zip(a, b)[i] == (At(a, i), At(b, i))
    decreases |a| + |b|
  {
    if !(a == [] && b == []) {
      var z, rest := Zip(a, b), Zip(Advance(a), Advance(b));
      ZipAt(Advance(a), Advance(b));
      assert z == [(Next(a), Next(b))] + rest;
      forall i | 0 <= i < |z| ensures z[i] == (At(a, i), At(b, i)) {
        if i > 0 {
          assert z[i] == rest[i - 1];
          assert At(Advance(a), i - 1) == At(a, i) && At(Advance(b), i - 1) == At(b, i);
        }
      }
    }
  }

  /** No pair has both sides absent. */
  lemma ZipNoEmptyPair<T>(a: seq<T>, b: seq<T>, i: nat)
    requires i < |Zip(a, b)|
    ensures Zip(a, b)[i].0.Some? || Zip(a, b)[i].1.Some?
  {
    ZipAt(a, b);
  }

  /** The present values of a sequence of optional values, in order. */
  function Present<T>(os: seq<Option<T>>): seq<T> {
    if os == [] then []
    else if os[0].Some? then [os[0].value] + Present(os[1..])
    else Present(os[1..])
  }

  function Firsts<T>(ps: seq<(Option<T>, Option<T>)>): seq<Option<T>> {
    seq(|ps|, i requires 0 <= i < |ps| => ps[i].0)
  }

  function Seconds<T>(ps: seq<(Option<T>, Option<T>)>): seq<Option<T>> {
    seq(|ps|, i requires 0 <= i < |ps| => ps[i].1)
  }

  lemma PresentCons<T>(o: Option<T>, os: seq<Option<T>>)
    ensures Present([o] + os) == (if o.Some? then [o.value] else []) + Present(os)
  {
    assert ([o] + os)[1..] == os;
  }

  lemma FirstsCons<T>(p: (Option<T>, Option<T>), ps: seq<(Option<T>, Option<T>)>)
    ensures Firsts([p] + ps) == [p.0] + Firsts(ps)
    ensures Seconds([p] + ps) == [p.1] + Seconds(ps)
  {
    var l, r := Firsts([p] + ps), [p.0] + Firsts(ps);
    forall i | 0 <= i < |l| ensures l[i] == r[i] {
      if i > 0 { assert ([p] + ps)[i] == ps[i - 1]; }
    }
    var l', r' := Seconds([p] + ps), [p.1] + Seconds(ps);
    forall i | 0 <= i < |l'| ensures l'[i] == r'[i] {
      if i > 0 { assert ([p] + ps)[i] == ps[i - 1]; }
    }
  }

  lemma {:induction false} ZipFirsts<T>(a: seq<T>, b: seq<T>)
    ensures Present(Firsts(Zip(a, b))) == a
    decreases |a| + |b|
  {
    if !(a == [] && b == []) {
      var rest := Zip(Advance(a), Advance(b));
      assert Zip(a, b) == [(Next(a), Next(b))] + rest;
      FirstsCons((Next(a), Next(b)), rest);
      PresentCons(Next(a), Firsts(rest));
      ZipFirsts(Advance(a), Advance(b));
      if a != [] { assert a == [a[0]] + a[1..]; }
    }
  }

  lemma {:induction false} ZipSeconds<T>(a: seq<T>, b: seq<T>)
    ensures Present(Seconds(Zip(a, b))) == b
    decreases |a| + |b|
  {
    if !(a == [] && b == []) {
      var rest := Zip(Advance(a), Advance(b));
      assert Zip(a, b) == [(Next(a), Next(b))] + rest;
      FirstsCons((Next(a), Next(b)), rest);
      PresentCons(Next(b), Seconds(rest));
      ZipSeconds(Advance(a), Advance(b));
      if b != [] { assert b == [b[0]] + b[1..]; }
    }
  }

  /** Padding with `None` loses nothing: the present values of each side
      of the pairs give back that side's input exactly. */
  lemma ZipUnzip<T>(a: seq<T>, b: seq<T>)
    ensures Present(Firsts(Zip(a, b))) == a
    ensures Present(Seconds(Zip(a, b))) == b
  {
    ZipFirsts(a, b);
    ZipSeconds(a, b);
  }

  /** `zip_to_end` as the source writes it: a loop that takes the next
      element of both iterators, stops once both are exhausted, and pushes
      the pair otherwise. */
  method ZipToEnd<T>(a: seq<T>, b: seq<T>) returns (result: seq<(Option<T>, Option<T>)>)
    ensures result == Zip(a, b)
  {
    result := [];
    var iterA, iterB := a, b;
    while true
      invariant Zip(a, b) == result + Zip(iterA, iterB)
      decreases |iterA| + |iterB|
    {
      var nextA, nextB := Next(iterA), Next(iterB);
      iterA, iterB := Advance(iterA), Advance(iterB);
      if nextA.None? && nextB.None? {
        break;
      }
      result := result + [(nextA, nextB)];
    }
  }
}
