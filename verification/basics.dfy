/** Shared vocabulary of the telemetry model: optional values, reading values,
    stored readings, listing rows, and the two Python slice forms the query uses. */
module Basics {

  datatype Option<+T> = None | Some(value: T) {
    /** `dict.get(key, default)` once the lookup has been done. */
    function GetOr(default: T): T {
      match this
      case Some(v) => v
      case None => default
    }
  }

  /** A value carried by a reading: a JSON number or a JSON boolean.
      Floating-point numbers are abstracted to integers. */
  datatype Value = Num(x: int) | Flag(b: bool)

  /** One stored entry `{"ts": ..., "value": ...}` of a field's buffer. */
  datatype Reading = Reading(ts: int, value: Value)

  /** One row `{"device", "sensor", "value", "ts"}` of the recent-readings listing. */
  datatype Row = Row(device: string, sensor: string, value: Value, ts: int)

  function Min(a: int, b: int): int {
    if a <= b then a else b
  }

  predicate Distinct<T(==)>(s: seq<T>) {
    forall i, j :: 0 <= i < j < |s| ==> s[i] != s[j]
  }

  /** In a sequence without duplicates an element occurs neither before nor after its own position. */
  lemma DistinctAround<T>(s: seq<T>, j: nat)
    requires Distinct(s) && j < |s|
    ensures s[j] !in s[0..j] && s[j] !in s[j + 1..|s|]
  {
    forall i | 0 <= i < j ensures s[i] != s[j] {
    }
    forall i | j + 1 <= i < |s| ensures s[i] != s[j] {
    }
  }

  /** Taking a prefix one element longer appends that element. */
  lemma PrefixSnoc<T>(s: seq<T>, n: nat)
    requires 0 < n <= |s|
    ensures s[..n] == s[..n - 1] + [s[n - 1]]
  {
  }

  lemma AppendAssoc<T>(a: seq<T>, b: seq<T>, c: seq<T>)
    ensures a + b + c == a + (b + c)
  {
  }

  lemma PrefixAll<T>(s: seq<T>)
    ensures s[..|s|] == s
  {
  }

  /** A Python dict: its entries, and its keys in insertion order (the order
      in which `items()` visits them). */
  datatype Dict<V> = Dict(keys: seq<string>, entries: map<string, V>) {
    /** The keys are distinct and are exactly the keys of the entries. */
    predicate Valid() {
      Distinct(keys) && Listed() && (forall k :: k in entries ==> k in keys)
    }

    /** Every listed key has an entry. */
    predicate Listed() {
      forall k :: k in keys ==> k in entries
    }

    /** `d[k] = v`: a new key goes last, an existing key keeps its place. */
    function Set(k: string, v: V): (r: Dict<V>)
      ensures r.entries == entries[k := v]
      ensures k in entries ==> r.keys == keys
      ensures k !in entries ==> r.keys == keys + [k]
      ensures Valid() ==> r.Valid()
    {
      if k in entries then Dict(keys, entries[k := v]) else Dict(keys + [k], entries[k := v])
    }
  }

  function EmptyDict<V>(): (d: Dict<V>)
    ensures d.Valid() && d.entries == map[]
  {
    Dict([], map[])
  }

  /** The sliding window of width `n` over `s`: drop the oldest element
      until at most `n` remain. */
  function LastN<T>(s: seq<T>, n: nat): seq<T>
    decreases |s|
  {
    if |s| <= n then s else LastN(s[1..], n)
  }

  /** The window is the suffix of `s` of length `min(n, |s|)`. */
  lemma {:induction false} LastNSuffix<T>(s: seq<T>, n: nat)
    ensures LastN(s, n) == s[|s| - Min(n, |s|)..]
  {
    if |s| > n {
      LastNSuffix(s[1..], n);
      assert s[1..][|s| - 1 - n..] == s[|s| - n..];
    }
  }

  /** Python's `s[start:]`, for every integer `start` (a negative start counts from the end). */
  function SliceFrom<T>(s: seq<T>, start: int): (r: seq<T>)
    ensures |r| <= |s|
    ensures start >= 0 ==> |r| == |s| - Min(start, |s|)
    ensures start < 0 ==> |r| == Min(-start, |s|)
  {
    if start >= 0 then s[Min(start, |s|)..] else s[|s| - Min(-start, |s|)..]
  }

  /** `s[start:]` is a suffix of `s`. */
  lemma SliceFromSuffix<T>(s: seq<T>, start: int)
    ensures SliceFrom(s, start) == s[|s| - |SliceFrom(s, start)|..]
  {
  }

  /** Python's `s[:stop]`, for every integer `stop` (a negative stop counts from the end). */
  function SliceTo<T>(s: seq<T>, stop: int): (r: seq<T>)
    ensures |r| <= |s|
    ensures stop >= 0 ==> |r| == Min(stop, |s|)
    ensures stop < 0 ==> |r| == |s| - Min(-stop, |s|)
  {
    if stop >= 0 then s[..Min(stop, |s|)] else s[..|s| - Min(-stop, |s|)]
  }

  /** `s[:stop]` is a prefix of `s`. */
  lemma SliceToPrefix<T>(s: seq<T>, stop: int)
    ensures SliceTo(s, stop) == s[..|SliceTo(s, stop)|]
  {
  }

  /** For a positive `n`, `s[-n:]` is the window of the last `n` elements. */
  lemma SliceFromLast<T>(s: seq<T>, n: int)
    requires n >= 1
    ensures SliceFrom(s, -n) == LastN(s, n)
  {
    LastNSuffix(s, n);
  }

  /** `s[-0:]` is `s[0:]`: a zero limit selects the whole sequence. */
  lemma SliceFromZero<T>(s: seq<T>)
    ensures SliceFrom(s, -0) == s
  {
  }
}
