/** `DynamicUrlTestMixin.chunkify`: splitting the collected URLs into at most
    `n` contiguous, nearly equal chunks, one per generated test method. */
module Chunks {

  /** Python's `a // b` on integers: the quotient rounded towards minus
      infinity. Dafny's own `/` is Euclidean, which differs for `b < 0`. */
  function FloorDiv(a: int, b: int): (q: int)
    requires b != 0
    ensures b > 0 ==> q * b <= a < q * b + b
    ensures b < 0 ==> q * b >= a > q * b + b
  {
    if b > 0 then a / b else (-a) / (-b)
  }

  /** The chunk length `-(len(lst) // -n)`: the ceiling of `len / n`, the
      least length of which `n` chunks cover the list. */
  function ChunkLength(len: nat, n: int): (c: nat)
    requires n > 0
    ensures c * n >= len
    ensures c > 0 ==> (c - 1) * n < len
  {
    -FloorDiv(len, -n)
  }

  /** The chunks laid end to end. */
  function Flatten<T>(chunks: seq<seq<T>>): seq<T> {
    if |chunks| == 0 then [] else Flatten(chunks[..|chunks| - 1]) + chunks[|chunks| - 1]
  }

  function Min(a: int, b: int): int {
    if a <= b then a else b
  }

  lemma {:induction false} FewerThanParts(k: nat, c: nat, n: nat)
    requires c > 0 && (k - 1) * c < c * n
    ensures k <= n
  {
    if k > n {
      assert (k - 1) * c >= n * c by {
        assert k - 1 >= n;
        MulLeft(k - 1, n, c);
      }
    }
  }

  lemma {:induction false} MulSucc(k: nat, c: nat)
    ensures (k + 1) * c == k * c + c
    ensures (k + 1 - 1) * c == k * c
  {
  }

  lemma {:induction false} MulLeft(a: int, b: int, c: nat)
    requires a >= b
    ensures a * c >= b * c
  {
  }

  /** `chunkify(lst, n)`. The list comes back when the chunks are laid end to
      end; every chunk is non-empty and as long as the ceiling of `|lst| / n`,
      except that the last may be shorter; there are at most `n` chunks, and
      none for an empty list. */
  method Chunkify<T>(lst: seq<T>, n: int) returns (chunks: seq<seq<T>>)
    requires n > 0
    ensures Flatten(chunks) == lst
    ensures |chunks| <= n
    ensures |lst| == 0 <==> |chunks| == 0
    ensures forall i :: 0 <= i < |chunks| ==> 0 < |chunks[i]| <= ChunkLength(|lst|, n)
    ensures forall i :: 0 <= i < |chunks| - 1 ==> |chunks[i]| == ChunkLength(|lst|, n)
  {
    var c := ChunkLength(|lst|, n);
    chunks := [];
    var last := 0;
    while last < |lst|
      invariant c > 0 || |lst| == 0
      invariant last == |chunks| * c
      invariant Flatten(chunks) == lst[..Min(last, |lst|)]
      invariant |chunks| > 0 ==> (|chunks| - 1) * c < |lst|
      invariant forall i :: 0 <= i < |chunks| ==> 0 < |chunks[i]| <= c
      invariant forall i :: 0 <= i < |chunks| - 1 ==> |chunks[i]| == c
      invariant last <= |lst| ==> forall i :: 0 <= i < |chunks| ==> |chunks[i]| == c
      decreases |lst| - last
    {
      var piece := lst[last..Min(last + c, |lst|)];
      assert (chunks + [piece])[..|chunks|] == chunks;
      assert lst[..Min(last + c, |lst|)] == lst[..last] + piece;
      MulSucc(|chunks|, c);
      chunks := chunks + [piece];
      last := last + c;
    }
    assert lst[..Min(last, |lst|)] == lst;
    if |chunks| > 0 {
      FewerThanParts(|chunks|, c, n);
    }
  }
}
