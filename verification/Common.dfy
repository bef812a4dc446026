/** What several of the modelled files share. */
module Common {
  datatype Option<+T> = None | Some(value: T)

  type Bytes = seq<bv8>

  /** The number of values of a 32-bit unsigned integer. */
  const U32: nat := 0x1_0000_0000

  const NUL: char := '\0'

  function Min(a: nat, b: nat): nat {
    if a < b then a else b
  }

  function Max(a: nat, b: nat): nat {
    if a < b then b else a
  }

  /** The byte strings one after another. */
  function Flatten(parts: seq<Bytes>): Bytes
    decreases |parts|
  {
    if parts == [] then [] else parts[0] + Flatten(parts[1..])
  }

  lemma {:induction false} FlattenConcat(a: seq<Bytes>, b: seq<Bytes>)
    ensures Flatten(a + b) == Flatten(a) + Flatten(b)
    decreases |a|
  {
    if a == [] {
      assert a + b == b;
    } else {
      assert (a + b)[0] == a[0] && (a + b)[1..] == a[1..] + b;
      FlattenConcat(a[1..], b);
    }
  }

  /** Readings of a 32-bit counter that wraps differ by the true wait, less whole wraps. */
  lemma WrappedDifference(start: nat, wait: nat)
    ensures ((start + wait) % U32 - start % U32) % U32 == wait % U32
  {
  }

  lemma BelowWrap(n: nat)
    requires n < U32
    ensures n % U32 == n
  {
  }
}
