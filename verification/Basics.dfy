/** Vocabulary shared by every module: optional values, bytes and clamped slices. */
module Basics {
  datatype Option<+T> = None | Some(value: T)

  type Byte = b: int | 0 <= b < 256
  type Bytes = seq<Byte>

  /** A growable JavaScript array. */
  class JsArray<T> {
    var items: seq<T>

    constructor ()
      ensures items == []
    {
      items := [];
    }

    method Push(x: T)
      modifies this
      ensures items == old(items) + [x]
    {
      items := items + [x];
    }
  }

  /** The suffix that starts at `n`; empty when `n` is past the end, as for a typed array's `slice(n)`. */
  function From<T>(s: seq<T>, n: nat): seq<T> {
    if n <= |s| then s[n..] else []
  }

  /** The first `n` elements, or all of them when there are fewer. */
  function Upto<T>(s: seq<T>, n: nat): seq<T> {
    if n <= |s| then s[..n] else s
  }

  function Flatten<T>(parts: seq<seq<T>>): seq<T> {
    if parts == [] then [] else parts[0] + Flatten(parts[1..])
  }

  lemma FromStart<T>(s: seq<T>)
    ensures From(s, 0) == s
  {
  }

  lemma FromEnd<T>(s: seq<T>, n: nat)
    ensures n >= |s| ==> From(s, n) == []
  {
  }

  lemma FromFrom<T>(s: seq<T>, a: nat, b: nat)
    ensures From(From(s, a), b) == From(s, a + b)
  {
  }

  lemma Associative<T>(a: seq<T>, b: seq<T>, c: seq<T>)
    ensures a + (b + c) == (a + b) + c
    ensures a + [] == a == [] + a
  {
  }

  lemma {:induction false} FlattenAppend<T>(a: seq<seq<T>>, b: seq<seq<T>>)
    ensures Flatten(a + b) == Flatten(a) + Flatten(b)
  {
    if a == [] {
      Associative(b, [], []);
      Associative(Flatten(b), [], []);
      assert a + b == b;
    } else {
      assert a + b != [] && (a + b)[0] == a[0] && (a + b)[1..] == a[1..] + b;
      FlattenAppend(a[1..], b);
      Associative(a[0], Flatten(a[1..]), Flatten(b));
    }
  }
}
