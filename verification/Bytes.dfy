/** Bytes, CAN frames and the few sequence notions the other modules share. */
module Bytes {

  type byte = b: int | 0 <= b < 256

  /** The data field of one CAN frame: always eight bytes. */
  type Frame = f: seq<byte> | |f| == 8 witness [0, 0, 0, 0, 0, 0, 0, 0]

  datatype Option<+T> = None | Some(value: T)

  /** What a Python call gives back: a value, or the exception it raises. */
  datatype Result<+T> = Ok(value: T) | Raised

  function ToSeq<T>(o: Option<T>): seq<T> {
    match o
    case None => []
    case Some(x) => [x]
  }

  function Min(a: int, b: int): int {
    if a < b then a else b
  }

  function Max(a: int, b: int): int {
    if a < b then b else a
  }

  /** `n` copies of `b`. */
  function Repeat(b: byte, n: nat): (r: seq<byte>)
    ensures |r| == n
    ensures forall i | 0 <= i < n :: r[i] == b
  {
    seq(n, _ => b)
  }

  /** The Python slice `s[lo:hi]` for 0 <= lo <= hi: both ends are clamped. */
  function Slice<T>(s: seq<T>, lo: nat, hi: nat): (r: seq<T>)
    requires lo <= hi
    ensures |r| <= hi - lo
  {
    s[Min(lo, |s|)..Min(hi, |s|)]
  }

  /** The first element and the rest of a concatenation. */
  lemma ConcatTail<T>(a: seq<T>, b: seq<T>)
    requires a != []
    ensures (a + b)[0] == a[0] && (a + b)[1..] == a[1..] + b
  {
  }

  /** The last element of a concatenation and what comes before it. */
  lemma ConcatInit<T>(a: seq<T>, b: seq<T>)
    requires b != []
    ensures (a + b)[|a + b| - 1] == b[|b| - 1] && (a + b)[..|a + b| - 1] == a + b[..|b| - 1]
  {
  }

  /** A list with one element more, taken apart. */
  lemma SnocApart<T>(a: seq<T>, x: T)
    ensures |a + [x]| == |a| + 1 && (a + [x])[..|a|] == a && (a + [x])[|a|] == x
    ensures a != [] ==> (a + [x])[|a| - 1] == a[|a| - 1]
  {
  }

  lemma Regroup<T>(a: seq<T>, b: seq<T>, c: seq<T>)
    ensures a + (b + c) == (a + b) + c
  {
  }

  /** A list with its last element apart. */
  lemma LastApart<T>(a: seq<T>)
    requires a != []
    ensures a == a[..|a| - 1] + [a[|a| - 1]]
  {
  }

  /** What is left behind position `i`, its first element apart. */
  lemma DropOne<T>(a: seq<T>, i: nat)
    requires i < |a|
    ensures a[i..] == [a[i]] + a[i + 1..] && a[i..][0] == a[i] && a[i..][1..] == a[i + 1..]
  {
  }

  /** What comes before position `i + 1`, its last element apart. */
  lemma TakeOne<T>(a: seq<T>, i: nat)
    requires i < |a|
    ensures a[..i + 1] == a[..i] + [a[i]] && a[..i + 1][..i] == a[..i]
  {
  }

  lemma SplitAt<T>(a: seq<T>, i: nat)
    requires i <= |a|
    ensures a == a[..i] + a[i..]
  {
  }

  /** Cutting `w` elements off what is left behind position `a`. */
  lemma CutOff<T>(s: seq<T>, a: nat, w: nat)
    ensures var rest := s[Min(a, |s|)..];
      && Slice(rest, 0, w) == Slice(s, a, a + w)
      && rest[|Slice(rest, 0, w)|..] == s[Min(a + w, |s|)..]
  {
  }

  lemma JoinSlice<T>(s: seq<T>, a: nat, w: nat)
    requires a <= |s|
    ensures s[..a] + Slice(s, a, a + w) == s[..Min(a + w, |s|)]
  {
  }

  /** `a` is what remains of `b` after deleting some of its elements. */
  ghost predicate Subsequence<T>(a: seq<T>, b: seq<T>) {
    if b == [] then a == []
    else
      || Subsequence(a, b[..|b| - 1])
      || (a != [] && a[|a| - 1] == b[|b| - 1] && Subsequence(a[..|a| - 1], b[..|b| - 1]))
  }

  lemma {:induction false} SubsequenceShorter<T>(a: seq<T>, b: seq<T>)
    requires Subsequence(a, b)
    ensures |a| <= |b|
    ensures |a| == |b| ==> a == b
    ensures forall x | x in a :: x in b
  {
    if b != [] {
      var b' := b[..|b| - 1];
      if Subsequence(a, b') {
        SubsequenceShorter(a, b');
      } else {
        SubsequenceShorter(a[..|a| - 1], b');
        assert a == a[..|a| - 1] + [a[|a| - 1]] && b == b' + [b[|b| - 1]];
      }
    }
  }

  /** Appending keeps the relation: `x` at the right only, or at both ends. */
  lemma {:induction false} SubsequenceAppend<T>(a: seq<T>, b: seq<T>, x: seq<T>, y: seq<T>)
    requires Subsequence(a, b)
    requires x == [] || x == y
    ensures Subsequence(a + x, b + y)
  {
    if y == [] {
      assert a + x == a && b + y == b;
    } else {
      var n := |y| - 1;
      assert (b + y)[..|b + y| - 1] == b + y[..n];
      if x == [] {
        assert a + x == a;
        SubsequenceAppend(a, b, [], y[..n]);
        assert a + [] == a;
      } else {
        assert (a + x)[..|a + x| - 1] == a + x[..n];
        SubsequenceAppend(a, b, x[..n], y[..n]);
      }
    }
  }

  lemma SubsequenceGrow<T>(a: seq<T>, b: seq<T>, y: seq<T>)
    requires Subsequence(a, b)
    ensures Subsequence(a, b + y)
  {
    SubsequenceAppend(a, b, [], y);
    assert a + [] == a;
  }

  lemma {:induction false} SubsequenceTrans<T>(a: seq<T>, b: seq<T>, c: seq<T>)
    requires Subsequence(a, b) && Subsequence(b, c)
    ensures Subsequence(a, c)
    decreases |c|
  {
    if c != [] {
      var c' := c[..|c| - 1];
      if Subsequence(b, c') {
        SubsequenceTrans(a, b, c');
      } else if Subsequence(a, b[..|b| - 1]) {
        SubsequenceTrans(a, b[..|b| - 1], c');
      } else {
        SubsequenceTrans(a[..|a| - 1], b[..|b| - 1], c');
      }
    }
  }
}
