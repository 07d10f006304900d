/**
  Unary numerals as tuples. A natural number N is written as a tuple of N
  `unknown` placeholders; the tuple's `length` reads the number back. The
  placeholders carry no information, so a tuple is modelled as `seq<()>`.
 */
module Unary {

  /** A tuple of placeholder elements; only its length means anything. */
  type Tuple = seq<()>

  datatype Option<T> = None | Some(value: T)

  /** `NewArray<N, T>`: keep appending one placeholder to T until its length is N.
      A starting tuple longer than N would never reach N, so it is excluded. */
  function NewArrayFrom(n: nat, t: Tuple): (r: Tuple)
    requires |t| <= n
    decreases n - |t|
    ensures |r| == n
    ensures t <= r
  {
    if |t| == n then t else NewArrayFrom(n, t + [()])
  }

  /** `NewArray<N>`, the encoder: the tuple that stands for N. */
  function NewArray(n: nat): (r: Tuple)
    ensures |r| == n
  {
    NewArrayFrom(n, [])
  }

  /** Two tuples of the same length are the same tuple. */
  lemma {:induction false} SameLengthSame(s: Tuple, t: Tuple)
    requires |s| == |t|
    ensures s == t
  {
    if |s| > 0 {
      SameLengthSame(s[1..], t[1..]);
      assert s[0] == () == t[0];
      assert s == [s[0]] + s[1..];
      assert t == [t[0]] + t[1..];
    }
  }

  /** Encoding the length of any tuple gives that tuple back: `NewArray` and
      `length` are mutually inverse. */
  lemma EncodeLength(t: Tuple)
    ensures NewArray(|t|) == t
  {
    SameLengthSame(NewArray(|t|), t);
  }

  /** The conditional pattern `T extends [...P, ...infer R]`: `Some(R)` when P is a
      prefix of T, `None` when the pattern fails. */
  function Split(t: Tuple, p: Tuple): (r: Option<Tuple>)
    ensures r.Some? <==> p <= t
    ensures r.Some? ==> p + r.value == t
  {
    if p <= t then Some(t[|p|..]) else None
  }

  /** Between placeholder tuples, being a prefix is just being no longer, so the
      pattern fails exactly when P is longer than T. */
  lemma PrefixByLength(p: Tuple, t: Tuple)
    ensures p <= t <==> |p| <= |t|
  {
    if |p| <= |t| {
      SameLengthSame(p, t[..|p|]);
    }
  }

  /** Whenever T can be written as P followed by R, the pattern infers exactly that R. */
  lemma SplitInfersRest(t: Tuple, p: Tuple, rest: Tuple)
    requires t == p + rest
    ensures Split(t, p) == Some(rest)
  {
    assert t[|p|..] == rest;
  }
}
