/**
 Octet strings and the small amount of bit-level arithmetic the rest of the model shares:
 big-endian numbers, single bits of an octet, and octet counters that wrap at 256.
 */
module Octets {

  type Octets = seq<bv8>

  datatype Option<+T> = None | Some(value: T)

  datatype Result<+T, +E> = Ok(value: T) | Err(error: E) {
    predicate IsFailure() { Err? }

    function PropagateFailure<U>(): Result<U, E>
      requires Err?
    {
      Err(error)
    }

    function Extract(): T
      requires Ok?
    {
      value
    }
  }

  /** `u16::from_be_bytes` followed by a widening to `usize`. */
  function U16(hi: bv8, lo: bv8): (n: nat)
    ensures n < 0x1_0000
  {
    hi as nat * 256 + lo as nat
  }

  /** `n as u16` followed by `to_be_bytes`. */
  function BigEndian16(n: nat): (b: Octets)
    ensures |b| == 2
  {
    [(n / 256 % 256) as bv8, (n % 256) as bv8]
  }

  function Flatten<T>(parts: seq<seq<T>>): seq<T> {
    if parts == [] then [] else parts[0] + Flatten(parts[1..])
  }

  // The eight bits of an octet; `b7` is the most significant.
  datatype BitRow = BitRow(b7: bool, b6: bool, b5: bool, b4: bool, b3: bool, b2: bool, b1: bool, b0: bool)

  function Bits(b: bv8): BitRow {
    BitRow(b & 0x80 != 0, b & 0x40 != 0, b & 0x20 != 0, b & 0x10 != 0,
           b & 0x08 != 0, b & 0x04 != 0, b & 0x02 != 0, b & 0x01 != 0)
  }

  lemma BitsInjective(a: bv8, b: bv8)
    requires Bits(a) == Bits(b)
    ensures a == b
  {
  }

  lemma {:induction false} OctetRoundTrip(n: nat)
    requires n < 256
    ensures (n as bv8) as nat == n
  {
    if n > 0 {
      OctetRoundTrip(n - 1);
      var b := (n - 1) as bv8;
      OctetSuccessor(b);
      OctetOf(n, b + 1);
    }
  }

  lemma OctetSuccessor(b: bv8)
    requires b as nat < 255
    ensures (b + 1) as nat == b as nat + 1
  {
  }

  lemma OctetOf(n: nat, b: bv8)
    requires b as nat == n
    ensures n as bv8 == b
  {
  }

  lemma OctetIdentity(a: bv8, b: bv8)
    requires a as nat == b as nat
    ensures a == b
  {
  }

  lemma BigEndian16RoundTrip(n: nat)
    requires n < 0x1_0000
    ensures U16(BigEndian16(n)[0], BigEndian16(n)[1]) == n
  {
    OctetRoundTrip(n / 256);
    OctetRoundTrip(n % 256);
  }

  lemma FlattenNone<T>()
    ensures Flatten<T>([]) == []
  {
  }

  lemma FlattenFirst<T>(parts: seq<seq<T>>)
    requires parts != []
    ensures Flatten(parts) == parts[0] + Flatten(parts[1..])
  {
  }

  lemma AppendAssociates<T>(a: seq<T>, b: seq<T>, c: seq<T>)
    ensures a + b + c == a + (b + c)
  {
  }

  lemma {:induction false} FlattenAppend<T>(a: seq<seq<T>>, b: seq<seq<T>>)
    ensures Flatten(a + b) == Flatten(a) + Flatten(b)
  {
    hide Flatten;
    if a == [] {
      assert a + b == b;
      FlattenNone<T>();
    } else {
      FlattenAppend(a[1..], b);
      assert (a + b)[1..] == a[1..] + b;
      FlattenFirst(a + b);
      FlattenFirst(a);
      AppendAssociates(a[0], Flatten(a[1..]), Flatten(b));
    }
  }

  // ---------------------------------------------------------------------------------------
  // Octet counters (`u8::wrapping_add`)
  // ---------------------------------------------------------------------------------------

  /** `wrapping_add(1)` */
  function Next(c: bv8): bv8 {
    c + 1
  }

  /** The value an octet counter shows after `k` increments from zero. */
  function CountAt(k: nat): bv8 {
    if k == 0 then 0 else Next(CountAt(k - 1))
  }

  lemma IncrementModulo256(c: bv8)
    ensures Next(c) as nat == (c as nat + 1) % 256
  {
  }

  lemma StepModulo256(k: nat)
    ensures (k % 256 + 1) % 256 == (k + 1) % 256
  {
  }

  lemma {:induction false} CountAtIsModulo(k: nat)
    ensures CountAt(k) as nat == k % 256
  {
    hide Next;
    if k > 0 {
      CountAtIsModulo(k - 1);
      IncrementModulo256(CountAt(k - 1));
      StepModulo256(k - 1);
    }
  }

  /** Two positions show the same count exactly when they are a multiple of 256 apart. */
  lemma CountAtCollides(i: nat, j: nat)
    ensures CountAt(i) == CountAt(j) <==> i % 256 == j % 256
  {
    CountAtIsModulo(i);
    CountAtIsModulo(j);
    if i % 256 == j % 256 {
      OctetIdentity(CountAt(i), CountAt(j));
    }
  }
}
