/** The three C library calls whose results decide what the extractor does:
    `strnlen` and `strncmp` over fixed-size character fields, and `fread` of
    one object of a given size from a stream positioned at `pos`. */
module LibC {
  import opened Bytes

  datatype Option<T> = None | Some(value: T)

  /** `strnlen(s, n)`: the index of the first NUL among the first `n` bytes,
      or `n` when there is none. */
  function StrNLen(s: seq<byte>, n: nat): (r: nat)
    requires n <= |s|
    ensures r <= n
    decreases n
  {
    if n == 0 || s[0] == 0 then 0 else 1 + StrNLen(s[1..], n - 1)
  }

  /** `strnlen` stops at the first NUL: no byte before the result is NUL, and
      the byte at the result is NUL unless all `n` bytes were scanned. */
  lemma {:induction false} StrNLenFindsFirstNul(s: seq<byte>, n: nat)
    requires n <= |s|
    ensures forall j :: 0 <= j < StrNLen(s, n) ==> s[j] != 0
    ensures StrNLen(s, n) < n ==> s[StrNLen(s, n)] == 0
    decreases n
  {
    if n > 0 && s[0] != 0 {
      StrNLenFindsFirstNul(s[1..], n - 1);
    }
  }

  /** The first NUL at index `k` below `n` is what `strnlen` returns. */
  lemma StrNLenIsFirstNul(s: seq<byte>, n: nat, k: nat)
    requires k < n <= |s|
    requires forall j :: 0 <= j < k ==> s[j] != 0
    requires s[k] == 0
    ensures StrNLen(s, n) == k
  {
    StrNLenFindsFirstNul(s, n);
  }

  /** `strncmp(a, b, n) == 0`: the strings agree on their first `n`
      characters, where the comparison stops early at a NUL both share.
      Each argument is either `n` bytes long or holds a NUL, so the
      comparison never reads past its end. */
  predicate StrNEqual(a: seq<byte>, b: seq<byte>, n: nat)
    requires n <= |a| || 0 in a
    requires n <= |b| || 0 in b
    decreases n
  {
    n == 0 ||
    (a[0] == b[0] &&
     (a[0] == 0 ||
      (assert 0 !in a[..1];
       assert a == a[..1] + a[1..];
       assert b == b[..1] + b[1..];
       StrNEqual(a[1..], b[1..], n - 1))))
  }

  /** `fread(buf, size, 1, stream)` after the stream was positioned at `pos`:
      it reports one object read only when `size` is positive and `size`
      bytes remain from `pos`; reading zero bytes reports zero objects. */
  function FRead(stream: seq<byte>, pos: nat, size: nat): Option<seq<byte>>
  {
    if 0 < size && pos + size <= |stream| then Some(stream[pos..pos + size]) else None
  }
}
