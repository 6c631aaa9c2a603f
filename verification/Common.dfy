/** Vocabulary shared by the component models: option and result values, machine-width
    naturals, and the "keep the last n" view of a bounded queue. */
module Common {

  datatype Option<+T> = None | Some(value: T)

  datatype Result<+T, +E> = Ok(value: T) | Err(error: E)

  const U32_MAX := 0xFFFF_FFFF
  const U64_MAX := 0xFFFF_FFFF_FFFF_FFFF

  type u8 = n: nat | n <= 0xFF
  type u16 = n: nat | n <= 0xFFFF
  type u32 = n: nat | n <= U32_MAX
  type u64 = n: nat | n <= U64_MAX

  function Min(a: int, b: int): int { if a <= b then a else b }

  function Max(a: int, b: int): int { if a >= b then a else b }

  /** A 64-bit counter may be reduced at every step or once at the end. */
  lemma ModAbsorbs(x: nat, y: nat)
    ensures (x % (U64_MAX + 1) + y) % (U64_MAX + 1) == (x + y) % (U64_MAX + 1)
  {
  }

  /** The entry of a Python `defaultdict`: a missing key reads as the default. */
  function GetOr<K, V>(m: map<K, V>, k: K, default: V): V { if k in m then m[k] else default }

  /** The last n elements of s, or all of s when it is shorter. */
  function LastN<T>(s: seq<T>, n: nat): seq<T> { if |s| <= n then s else s[|s| - n..] }

  /** Appending to a `deque(maxlen=n)`: the oldest element falls out when it is full. */
  function PushBounded<T>(q: seq<T>, x: T, n: nat): seq<T> { LastN(q + [x], n) }

  /** A bounded queue fed one element at a time always holds the last n elements ever fed. */
  lemma PushBoundedKeepsLastN<T>(history: seq<T>, x: T, n: nat)
    ensures PushBounded(LastN(history, n), x, n) == LastN(history + [x], n)
  {
  }

  ghost predicate NonDecreasing(ts: seq<real>) {
    forall i, j :: 0 <= i <= j < |ts| ==> ts[i] <= ts[j]
  }
}
