/** hash_partition_id: signed arithmetic that has to agree with PostgreSQL's unsigned 64-bit routing. */
module Partition {
  import opened Common
  import opened Keys

  /** UINT64CONST(0x49a0f4dd15e5a8e3) of PostgreSQL's hash_combine64. */
  const COMBINE := 0x49a0_f4dd_15e5_a8e3
  const TWO_64 := 0x1_0000_0000_0000_0000
  const MIN_INT64 := -0x8000_0000_0000_0000
  const MAX_INT := 0x7fff_ffff
  const TWO_30 := 0x4000_0000

  datatype ArithmeticError = DivisionByZero | IntegerOutOfRange

  /** `%` on PostgreSQL numerics and integers: the remainder takes the sign of the dividend. */
  function Rem(a: int, b: int): int
    requires b != 0
  {
    if a >= 0 then a % b else -((-a) % b)
  }

  /** hash_partition_id, as a function of the value of hashint4extended. */
  function HashPartitionId(hash: int, parts: int): Result<int, ArithmeticError> {
    if parts == 0 then Err(DivisionByZero)
    else
      var shifted := Rem(hash + COMBINE, parts) + parts;
      if -MAX_INT - 1 <= shifted <= MAX_INT then Ok(Rem(shifted, parts)) else Err(IntegerOutOfRange)
  }

  /** What the partition routing computes: the sum wraps around at 2^64 on unsigned words. */
  function Routed(hash: int, parts: int): int
    requires parts > 0
  {
    ((hash % TWO_64 + COMBINE) % TWO_64) % parts
  }

  predicate IsHash(hash: int) {
    MIN_INT64 <= hash < -MIN_INT64
  }

  lemma RemainderShift(a: int, q: int, m: int)
    requires m > 0
    ensures (a + q * m) % m == a % m
  {
    var d, r := a / m, a % m;
    assert a == d * m + r;
    Unique(a + q * m, d + q, r, m);
  }

  lemma Unique(a: int, q: int, r: int, m: int)
    requires m > 0 && 0 <= r < m && a == q * m + r
    ensures a % m == r
  {
    var q', r' := a / m, a % m;
    assert a == q' * m + r';
    assert (q - q') * m == r' - r && (q' - q) * m == r - r';
    if q > q' {
      Scale(q - q', m);
    } else if q < q' {
      Scale(q' - q, m);
    }
  }

  lemma Scale(k: int, m: int)
    requires k >= 1 && m > 0
    ensures k * m >= m
  {
  }

  /** The remainder that follows the sign of the dividend becomes the mathematical one after adding the divisor. */
  lemma RemThenShift(t: int, parts: int)
    requires parts > 0
    ensures 0 < Rem(t, parts) + parts < 2 * parts
    ensures (Rem(t, parts) + parts) % parts == t % parts
  {
    if t >= 0 {
      var r := t % parts;
      assert 0 <= r < parts;
      RemainderShift(r, 1, parts);
      Unique(r, 0, r, parts);
    } else {
      NegativeRem(t, parts);
      var r := -Rem(t, parts);
      NegateMultiple(t, (-t) / parts, r, parts);
      if r == 0 {
        Unique(parts, 1, 0, parts);
      } else {
        Unique(parts - r, 0, parts - r, parts);
      }
    }
  }

  lemma NegativeRem(t: int, parts: int)
    requires parts > 0 && t < 0
    ensures 0 <= -Rem(t, parts) < parts
    ensures -t == ((-t) / parts) * parts + -Rem(t, parts)
  {
  }

  lemma NegateMultiple(t: int, q: int, r: int, m: int)
    requires m > 0 && 0 <= r < m && -t == q * m + r
    ensures t % m == if r == 0 then 0 else m - r
  {
    if r == 0 {
      assert t == (-q) * m;
      Unique(t, -q, 0, m);
    } else {
      assert t == (-q - 1) * m + (m - r);
      Unique(t, -q - 1, m - r, m);
    }
  }

  /** For every hash and every positive number of partitions the cast allows, the result is a partition number. */
  lemma PartitionInRange(hash: int, parts: int)
    requires 0 < parts <= TWO_30
    ensures HashPartitionId(hash, parts) == Ok((hash + 5305509591434766563) % parts)
    ensures 0 <= HashPartitionId(hash, parts).value < parts
  {
    RemThenShift(hash + COMBINE, parts);
  }

  /** The int cast is safe for every hash iff there are at most 2^30 partitions. */
  lemma CastIsSafeIff(parts: int)
    requires 0 < parts <= MAX_INT
    ensures (forall hash | -0x8000_0000_0000_0000 <= hash < 0x8000_0000_0000_0000 ::
               HashPartitionId(hash, parts).Ok?) <==> parts <= 0x4000_0000
  {
    if parts <= TWO_30 {
      forall hash | IsHash(hash) ensures HashPartitionId(hash, parts).Ok? { PartitionInRange(hash, parts); }
    } else {
      var hash := parts - 1 - COMBINE;
      assert IsHash(hash);
      Unique(hash + COMBINE, 0, parts - 1, parts);
      assert HashPartitionId(hash, parts).Err?;
    }
  }

  /** Signed arithmetic routes every hash as the unsigned wraparound does iff the partitions divide 2^64. */
  lemma PartitionIsRoutingIff(parts: int)
    requires 0 < parts <= TWO_30
    ensures (forall hash | -0x8000_0000_0000_0000 <= hash < 0x8000_0000_0000_0000 ::
               HashPartitionId(hash, parts) ==
               Ok((hash % 0x1_0000_0000_0000_0000 + 5305509591434766563) % 0x1_0000_0000_0000_0000 % parts)) <==>
            0x1_0000_0000_0000_0000 % parts == 0
  {
    if TWO_64 % parts == 0 {
      forall hash | IsHash(hash) ensures HashPartitionId(hash, parts) == Ok(Routed(hash, parts)) {
        PartitionInRange(hash, parts);
        RoutedSum(hash, parts);
        AddMultiple(hash + COMBINE, TWO_64, parts);
      }
    } else {
      PartitionInRange(MIN_INT64, parts);
      RoutedSum(MIN_INT64, parts);
      AddNonMultiple(MIN_INT64 + COMBINE, TWO_64, parts);
      assert HashPartitionId(MIN_INT64, parts) != Ok(Routed(MIN_INT64, parts));
    }
  }

  /** The unsigned sum is the signed one, plus 2^64 where that is negative; it never reaches 2^64 from above. */
  lemma RoutedSum(hash: int, parts: int)
    requires IsHash(hash) && parts > 0
    ensures Routed(hash, parts) ==
            (if hash + COMBINE >= 0 then hash + COMBINE else hash + COMBINE + TWO_64) % parts
  {
  }

  lemma AddMultiple(a: int, d: int, m: int)
    requires m > 0 && d % m == 0
    ensures (a + d) % m == a % m
  {
    assert d == (d / m) * m;
    RemainderShift(a, d / m, m);
  }

  lemma AddNonMultiple(a: int, d: int, m: int)
    requires m > 0 && d % m != 0
    ensures (a + d) % m != a % m
  {
    if (a + d) % m == a % m {
      SameRemainder(a, d, m);
    }
  }

  lemma SameRemainder(a: int, d: int, m: int)
    requires m > 0 && (a + d) % m == a % m
    ensures d % m == 0
  {
    var q0, q1 := a / m, (a + d) / m;
    assert d == (q1 - q0) * m + 0;
    Unique(d, q1 - q0, 0, m);
  }

  /** Accounts sorted by (partition, id): the accounts of one partition are next to each other. */
  lemma PartitionsAreContiguous(ks: seq<AccKey>, i: int, j: int, k: int)
    requires forall a, b | 0 <= a < b < |ks| :: Before(ks[a], ks[b])
    requires 0 <= i < j < k < |ks| && ks[i].acc == ks[k].acc
    ensures ks[j].acc == ks[i].acc
  {
  }
}
