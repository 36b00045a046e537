/** Vocabulary shared by every component: optional values, results and machine integers. */
module Common {

  datatype Option<+T> = None | Some(value: T)

  datatype Result<+T> = Ok(value: T) | Err(error: string)

  const TWO_32: int := 0x1_0000_0000
  const TWO_64: int := 0x1_0000_0000_0000_0000
  const INT32_MAX: int := 0x7FFF_FFFF
  const INT64_MAX: int := 0x7FFF_FFFF_FFFF_FFFF
  const INT64_MIN: int := -0x8000_0000_0000_0000

  type UInt32 = x: int | 0 <= x < 0x1_0000_0000
  type Int64 = x: int | -0x8000_0000_0000_0000 <= x <= 0x7FFF_FFFF_FFFF_FFFF
  type SizeT = x: int | 0 <= x < 0x1_0000_0000_0000_0000

  type Byte = x: int | 0 <= x < 256

  function Min(a: int, b: int): int { if a <= b then a else b }

  lemma Regroup<T>(a: seq<T>, b: seq<T>, c: seq<T>)
    ensures (a + b) + c == a + (b + c)
  {}

  lemma {:induction false} SubsetSize<T>(a: set<T>, b: set<T>)
    requires a <= b
    ensures |a| <= |b|
  {
    assert b == a + (b - a);
  }

  lemma DropKey<K, V>(t: map<K, V>, k: K)
    ensures |t - {k}| == |t| - if k in t then 1 else 0
  {
    assert (t - {k}).Keys == t.Keys - {k};
  }

  lemma PutKey<K, V>(t: map<K, V>, k: K, v: V)
    ensures |t[k := v]| == |t| + if k in t then 0 else 1
  {
    assert t[k := v].Keys == t.Keys + {k};
  }
}
