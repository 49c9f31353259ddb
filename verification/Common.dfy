/** Vocabulary shared by the models: optional values, bytes and Python's sequence idioms. */
module Common {

  datatype Option<+T> = None | Some(value: T)

  type byte = x: int | 0 <= x < 256

  /** Little-endian 16-bit value of two bytes. */
  function Le16(lo: byte, hi: byte): (n: nat)
    ensures n < 0x1_0000
  {
    lo + 0x100 * hi
  }

  /** `s[lo:hi]` of Python for non-negative bounds inside `s`: empty when the bounds cross. */
  function Slice<T>(s: seq<T>, lo: nat, hi: nat): seq<T>
    requires hi <= |s|
  {
    if lo <= hi then s[lo..hi] else []
  }

  function Flatten<T>(parts: seq<seq<T>>): seq<T>
  {
    if parts == [] then [] else parts[0] + Flatten(parts[1..])
  }

  lemma Associative<T>(a: seq<T>, b: seq<T>, c: seq<T>)
    ensures (a + b) + c == a + (b + c)
  {
  }

  function Sum(bs: seq<byte>): nat
  {
    if bs == [] then 0 else bs[0] + Sum(bs[1..])
  }

  lemma {:induction false} SumConcat(a: seq<byte>, b: seq<byte>)
    ensures Sum(a + b) == Sum(a) + Sum(b)
  {
    if a == [] {
      assert a + b == b;
    } else {
      assert (a + b)[1..] == a[1..] + b;
      SumConcat(a[1..], b);
    }
  }

  lemma SumUpdate(bs: seq<byte>, i: nat, b: byte)
    requires i < |bs|
    ensures Sum(bs[i := b]) == Sum(bs) - bs[i] + b
  {
    SumConcat(bs[..i], bs[i..]);
    SumConcat(bs[..i], [b] + bs[i + 1..]);
    assert bs == bs[..i] + bs[i..];
    assert bs[i := b] == bs[..i] + ([b] + bs[i + 1..]);
    assert bs[i..][1..] == bs[i + 1..] == ([b] + bs[i + 1..])[1..];
  }
}
