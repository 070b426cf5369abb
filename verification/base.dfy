/** Failure-carrying wrappers shared by the whole model, named after Rust's
    `Option` and `Result`. */
module Base {

  datatype Option<+T> = None | Some(value: T)

  datatype Result<+T, +E> = Ok(value: T) | Err(error: E)

  /** Concatenation of a sequence of sequences, in order. */
  function Flatten<T>(ss: seq<seq<T>>): seq<T>
  {
    if ss == [] then [] else ss[0] + Flatten(ss[1..])
  }

  lemma {:induction false} FlattenAppend<T>(a: seq<seq<T>>, b: seq<seq<T>>)
    ensures Flatten(a + b) == Flatten(a) + Flatten(b)
    decreases |a|
  {
    if a == [] {
      assert a + b == b;
    } else {
      assert (a + b)[1..] == a[1..] + b;
      FlattenAppend(a[1..], b);
    }
  }

  /** Flattening a split sequence, with the head's flattening itself in two
      parts. */
  lemma FlattenSplit<T>(gs: seq<seq<T>>, head: seq<seq<T>>, rest: seq<seq<T>>, x: seq<T>, y: seq<T>, z: seq<T>)
    requires gs == head + rest && Flatten(head) == x + y && Flatten(rest) == z
    ensures Flatten(gs) == x + (y + z)
  {
    FlattenAppend(head, rest);
    AppendAssoc(x, y, z);
  }

  lemma AppendAssoc<T>(x: seq<T>, y: seq<T>, z: seq<T>)
    ensures (x + y) + z == x + (y + z)
  {
  }

  lemma ConsTail<T>(s: seq<T>)
    requires s != []
    ensures [s[0]] + s[1..] == s
  {
  }

  lemma SliceOfSuffix<T>(s: seq<T>, a: nat, n: nat)
    requires a + n <= |s|
    ensures s[a..][..n] == s[a..a + n] && s[a..][n..] == s[a + n..]
  {
  }

  /** A sequence is what comes before position `k` and what comes from it. */
  lemma SplitAt<T>(s: seq<T>, k: nat)
    requires k <= |s|
    ensures s[..k] + s[k..] == s
  {
  }

  /** A sequence is what comes before position `i`, the element there, and
      what comes after. */
  lemma Decompose<T>(s: seq<T>, i: nat)
    requires i < |s|
    ensures s[..i] + [s[i]] + s[i + 1..] == s
  {
  }

  lemma FlattenCons<T>(x: seq<T>, rest: seq<seq<T>>)
    ensures Flatten([x] + rest) == x + Flatten(rest)
  {
    assert ([x] + rest)[1..] == rest;
  }

  lemma DropSingle<T>(p: seq<T>, a: seq<T>, b: seq<T>)
    requires |p| == 1
    ensures (p + a + b)[1..] == a + b
  {
  }
}
