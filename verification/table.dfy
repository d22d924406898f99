/** The buffer table `_buffers` and the ingest `_store`
    (app/controllers/telemetria_controller.py), as values: a dict from device id
    to a dict from field name to a bounded reading buffer. */
module TelemetryTable {
  import opened Basics
  import opened BoundedDeque
  import opened Payload

  /** One device's fields: field name -> buffer, in field insertion order. */
  type Fields = Dict<seq<Reading>>
  /** `_buffers`: device id -> fields, in device insertion order. */
  type Table = Dict<Fields>

  /** Every buffer respects the deque's capacity. */
  predicate Bounded(f: Fields) {
    forall k :: k in f.entries ==> |f.entries[k]| <= MaxItems
  }

  /** The metadata keys of a payload are never field names. */
  predicate NoMetadataFields(f: Fields) {
    "device" !in f.entries && "ts" !in f.entries
  }

  /** The invariant of one device's fields. */
  predicate FieldsValid(f: Fields) {
    f.Valid() && Bounded(f) && NoMetadataFields(f)
  }

  /** The invariant of `_buffers`. */
  predicate Valid(t: Table) {
    t.Valid() && forall d :: d in t.entries ==> FieldsValid(t.entries[d])
  }

  /** The fields of `dev`, or none when the device is unknown. */
  function FieldsOf(t: Table, dev: string): Fields {
    if dev in t.entries then t.entries[dev] else EmptyDict()
  }

  /** The buffer of `(dev, key)`, or the empty buffer when there is none. */
  function BufferOf(t: Table, dev: string, key: string): seq<Reading> {
    var f := FieldsOf(t, dev);
    if key in f.entries then f.entries[key] else []
  }

  /** `if dev not in _buffers: _buffers[dev] = {}` */
  function AddDevice(t: Table, dev: string): (r: Table)
    ensures r.entries == t.entries[dev := FieldsOf(t, dev)]
    ensures r.keys == if dev in t.entries then t.keys else t.keys + [dev]
  {
    if dev in t.entries then t else t.Set(dev, EmptyDict())
  }

  /** `if key not in _buffers[dev]: _buffers[dev][key] = deque(maxlen=_MAX_ITEMS)` */
  function AddField(t: Table, dev: string, key: string): (r: Table)
    requires dev in t.entries
    ensures dev in r.entries && r.entries == t.entries[dev := r.entries[dev]]
    ensures r.entries[dev].entries == if key in t.entries[dev].entries then t.entries[dev].entries else t.entries[dev].entries[key := []]
    ensures r.keys == t.keys
    ensures r.entries[dev].keys == if key in t.entries[dev].entries then t.entries[dev].keys else t.entries[dev].keys + [key]
  {
    var f := t.entries[dev];
    if key in f.entries then t else t.Set(dev, f.Set(key, []))
  }

  /** `_buffers[dev][key].append(r)` */
  function Append(t: Table, dev: string, key: string, r: Reading): (u: Table)
    requires dev in t.entries && key in t.entries[dev].entries
    ensures dev in u.entries && u.entries == t.entries[dev := u.entries[dev]]
    ensures u.entries[dev].entries == t.entries[dev].entries[key := Push(t.entries[dev].entries[key], r)]
    ensures u.keys == t.keys && u.entries[dev].keys == t.entries[dev].keys
  {
    var f := t.entries[dev];
    t.Set(dev, f.Set(key, Push(f.entries[key], r)))
  }

  /** One pass of the loop over `payload.items()`: skip the metadata, else
      create the field's buffer if needed and append the reading. */
  function StoreItem(t: Table, dev: string, ts: int, key: string, item: Item): (r: Table)
    requires dev in t.entries
    requires Reserved(key) || item.Val?
    ensures dev in r.entries
  {
    if Reserved(key) then t else Append(AddField(t, dev, key), dev, key, Reading(ts, item.v))
  }

  /** The loop over the first `n` items of `p`. */
  function StoreItems(t: Table, dev: string, ts: int, p: Payload, n: nat): (r: Table)
    requires dev in t.entries
    requires p.Listed() && Storable(p) && n <= |p.keys|
    ensures dev in r.entries
  {
    if n == 0 then t
    else
      var key := p.keys[n - 1];
      StoreItem(StoreItems(t, dev, ts, p, n - 1), dev, ts, key, p.entries[key])
  }

  /** `_store(payload)`: the table after ingesting `p`. */
  function Store(t: Table, p: Payload): (r: Table)
    requires WellFormed(p)
    ensures DeviceOf(p) in r.entries
  {
    var dev := DeviceOf(p);
    StoreItems(AddDevice(t, dev), dev, TsOf(p), p, |p.keys|)
  }

  /** The keys of `ks` that are not metadata and that `f` does not have yet, in
      the order of `ks`: the fields the items loop creates. */
  function NewFields(f: Fields, ks: seq<string>): (r: seq<string>)
    ensures forall k :: k in r ==> k in ks && !Reserved(k) && k !in f.entries
  {
    if ks == [] then []
    else
      var k := ks[|ks| - 1];
      NewFields(f, ks[..|ks| - 1]) + if Reserved(k) || k in f.entries then [] else [k]
  }

  /** Every non-metadata key of `ks` that `f` lacks is among the new fields. */
  lemma {:induction false} NewFieldsComplete(f: Fields, ks: seq<string>, k: string)
    requires k in ks && !Reserved(k) && k !in f.entries
    ensures k in NewFields(f, ks)
  {
    var init, last := ks[..|ks| - 1], ks[|ks| - 1];
    if k != last {
      assert ks == init + [last];
      NewFieldsComplete(f, init, k);
    }
  }

  lemma AddDeviceValid(t: Table, dev: string)
    requires Valid(t)
    ensures Valid(AddDevice(t, dev))
  {
  }

  lemma AddFieldValid(t: Table, dev: string, key: string)
    requires Valid(t) && dev in t.entries && !Reserved(key)
    ensures Valid(AddField(t, dev, key))
  {
    var r := AddField(t, dev, key);
    assert FieldsValid(r.entries[dev]);
  }

  lemma AppendValid(t: Table, dev: string, key: string, x: Reading)
    requires Valid(t) && dev in t.entries && key in t.entries[dev].entries
    ensures Valid(Append(t, dev, key, x))
  {
    var u := Append(t, dev, key, x);
    var f := t.entries[dev];
    assert |f.entries[key]| <= MaxItems;
    assert FieldsValid(u.entries[dev]);
  }

  lemma StoreItemValid(t: Table, dev: string, ts: int, key: string, item: Item)
    requires Valid(t) && dev in t.entries
    requires Reserved(key) || item.Val?
    ensures Valid(StoreItem(t, dev, ts, key, item))
  {
    if !Reserved(key) {
      AddFieldValid(t, dev, key);
      AppendValid(AddField(t, dev, key), dev, key, Reading(ts, item.v));
    }
  }

  /** The items loop keeps the table's invariant. */
  lemma {:induction false} StoreItemsValid(t: Table, dev: string, ts: int, p: Payload, n: nat)
    requires dev in t.entries
    requires p.Listed() && Storable(p) && n <= |p.keys|
    requires Valid(t)
    ensures Valid(StoreItems(t, dev, ts, p, n))
  {
    if n > 0 {
      var key := p.keys[n - 1];
      var s := StoreItems(t, dev, ts, p, n - 1);
      StoreItemsValid(t, dev, ts, p, n - 1);
      assert Valid(s);
      StoreItemValid(s, dev, ts, key, p.entries[key]);
      assert StoreItems(t, dev, ts, p, n) == StoreItem(s, dev, ts, key, p.entries[key]);
    }
  }

  /** One item touches no other device. */
  lemma StoreItemFrame(t: Table, dev: string, ts: int, key: string, item: Item, d: string)
    requires dev in t.entries
    requires Reserved(key) || item.Val?
    requires d != dev
    ensures d in StoreItem(t, dev, ts, key, item).entries <==> d in t.entries
    ensures d in t.entries ==> StoreItem(t, dev, ts, key, item).entries[d] == t.entries[d]
  {
  }

  /** The items loop touches no other device. */
  lemma {:induction false} StoreItemsFrame(t: Table, dev: string, ts: int, p: Payload, n: nat, d: string)
    requires dev in t.entries
    requires p.Listed() && Storable(p) && n <= |p.keys|
    requires d != dev
    ensures d in StoreItems(t, dev, ts, p, n).entries <==> d in t.entries
    ensures d in t.entries ==> StoreItems(t, dev, ts, p, n).entries[d] == t.entries[d]
  {
    if n > 0 {
      StoreItemsFrame(t, dev, ts, p, n - 1, d);
      var key := p.keys[n - 1];
      var s := StoreItems(t, dev, ts, p, n - 1);
      StoreItemFrame(s, dev, ts, key, p.entries[key], d);
      assert StoreItems(t, dev, ts, p, n) == StoreItem(s, dev, ts, key, p.entries[key]);
    }
  }

  /** The buffers of `(dev, k)` in `a` and `b` agree: both absent, or both present with the same readings. */
  predicate SameBuffer(a: Table, b: Table, dev: string, k: string) {
    (k in FieldsOf(a, dev).entries <==> k in FieldsOf(b, dev).entries) && BufferOf(a, dev, k) == BufferOf(b, dev, k)
  }

  /** One item leaves every buffer but its own as it was. */
  lemma StoreItemOther(t: Table, dev: string, ts: int, key: string, item: Item, k: string)
    requires dev in t.entries
    requires Reserved(key) || item.Val?
    requires k != key || Reserved(key)
    ensures SameBuffer(StoreItem(t, dev, ts, key, item), t, dev, k)
  {
  }

  /** One non-metadata item appends its reading to its own buffer, creating it if needed. */
  lemma StoreItemSame(t: Table, dev: string, ts: int, key: string, item: Item)
    requires dev in t.entries
    requires !Reserved(key) && item.Val?
    ensures key in FieldsOf(StoreItem(t, dev, ts, key, item), dev).entries
    ensures BufferOf(StoreItem(t, dev, ts, key, item), dev, key) == Push(BufferOf(t, dev, key), Reading(ts, item.v))
  {
  }

  /** Items `m` to `n - 1` leave the buffer of a key they do not carry as it was. */
  lemma {:induction false} StoreItemsUntouched(t: Table, dev: string, ts: int, p: Payload, m: nat, n: nat, k: string)
    requires dev in t.entries
    requires p.Listed() && Storable(p) && m <= n <= |p.keys|
    requires Reserved(k) || k !in p.keys[m..n]
    ensures SameBuffer(StoreItems(t, dev, ts, p, n), StoreItems(t, dev, ts, p, m), dev, k)
  {
    if n > m {
      var key := p.keys[n - 1];
      assert p.keys[m..n] == p.keys[m..n - 1] + [key];
      StoreItemsUntouched(t, dev, ts, p, m, n - 1, k);
      var s := StoreItems(t, dev, ts, p, n - 1);
      StoreItemOther(s, dev, ts, key, p.entries[key], k);
      assert StoreItems(t, dev, ts, p, n) == StoreItem(s, dev, ts, key, p.entries[key]);
    }
  }

  /** The whole items loop appends each non-metadata item's reading to its buffer
      exactly once, since the payload's keys are distinct. */
  lemma StoreItemsAppended(t: Table, dev: string, ts: int, p: Payload, k: string)
    requires dev in t.entries
    requires p.Valid() && Storable(p)
    requires k in p.entries && !Reserved(k)
    ensures var r := StoreItems(t, dev, ts, p, |p.keys|);
      && k in FieldsOf(r, dev).entries
      && BufferOf(r, dev, k) == Push(BufferOf(t, dev, k), Reading(ts, p.entries[k].v))
  {
    var j :| 0 <= j < |p.keys| && p.keys[j] == k;
    DistinctAround(p.keys, j);
    StoreItemsUntouched(t, dev, ts, p, 0, j, k);
    var s := StoreItems(t, dev, ts, p, j);
    StoreItemSame(s, dev, ts, k, p.entries[k]);
    assert StoreItems(t, dev, ts, p, j + 1) == StoreItem(s, dev, ts, k, p.entries[k]);
    StoreItemsUntouched(t, dev, ts, p, j + 1, |p.keys|, k);
  }

  /** `_store` keeps the table's invariant: every buffer holds at most
      `MaxItems` readings and no device has a "device" or "ts" field. */
  lemma StoreValid(t: Table, p: Payload)
    requires WellFormed(p) && Valid(t)
    ensures Valid(Store(t, p))
  {
    AddDeviceValid(t, DeviceOf(p));
    StoreItemsValid(AddDevice(t, DeviceOf(p)), DeviceOf(p), TsOf(p), p, |p.keys|);
  }

  /** `_store` creates the payload's device if needed and leaves every other device as it was. */
  lemma StoreOtherDevices(t: Table, p: Payload, d: string)
    requires WellFormed(p)
    ensures DeviceOf(p) in Store(t, p).entries
    ensures d != DeviceOf(p) ==> (d in Store(t, p).entries <==> d in t.entries)
    ensures d != DeviceOf(p) && d in t.entries ==> Store(t, p).entries[d] == t.entries[d]
  {
    if d != DeviceOf(p) {
      StoreItemsFrame(AddDevice(t, DeviceOf(p)), DeviceOf(p), TsOf(p), p, |p.keys|, d);
    }
  }

  /** For every payload key other than "device" and "ts", `_store` appends
      `{ts: payload["ts"], value: payload[key]}` to that field's buffer of the
      payload's device (created empty when missing), evicting the oldest reading
      when the buffer is full; the new reading is the buffer's last. */
  lemma StoreAppends(t: Table, p: Payload, k: string)
    requires WellFormed(p) && Valid(t)
    requires k in p.entries && !Reserved(k)
    ensures var buf := BufferOf(t, DeviceOf(p), k);
      var buf' := BufferOf(Store(t, p), DeviceOf(p), k);
      var r := Reading(TsOf(p), p.entries[k].v);
      && k in FieldsOf(Store(t, p), DeviceOf(p)).entries
      && buf' == Push(buf, r)
      && |buf'| == Min(|buf| + 1, MaxItems)
      && buf'[|buf'| - 1] == r
      && (|buf| == MaxItems ==> buf' == buf[1..] + [r])
  {
    var dev := DeviceOf(p);
    var t0 := AddDevice(t, dev);
    StoreItemsAppended(t0, dev, TsOf(p), p, k);
    var buf := BufferOf(t, dev, k);
    assert BufferOf(t0, dev, k) == buf;
    assert |buf| <= MaxItems;
    if |buf| == MaxItems {
      PushFull(buf, Reading(TsOf(p), p.entries[k].v));
    }
  }

  /** `_store` leaves the payload device's buffers for "device", "ts" and every
      key the payload does not carry exactly as they were. */
  lemma StoreOtherFields(t: Table, p: Payload, k: string)
    requires WellFormed(p)
    requires k !in p.entries || Reserved(k)
    ensures SameBuffer(Store(t, p), t, DeviceOf(p), k)
  {
    var dev := DeviceOf(p);
    var t0 := AddDevice(t, dev);
    assert p.keys[0..|p.keys|] == p.keys;
    StoreItemsUntouched(t0, dev, TsOf(p), p, 0, |p.keys|, k);
  }

  /** The items loop leaves the table's device order as it was. */
  lemma {:induction false} StoreItemsKeys(t: Table, dev: string, ts: int, p: Payload, n: nat)
    requires dev in t.entries
    requires p.Listed() && Storable(p) && n <= |p.keys|
    ensures StoreItems(t, dev, ts, p, n).keys == t.keys
  {
    if n > 0 {
      StoreItemsKeys(t, dev, ts, p, n - 1);
    }
  }

  /** One item adds its key after the device's fields when it is a new field. */
  lemma StoreItemFieldKeys(t: Table, dev: string, ts: int, key: string, item: Item)
    requires dev in t.entries
    requires Reserved(key) || item.Val?
    ensures StoreItem(t, dev, ts, key, item).entries[dev].keys ==
      t.entries[dev].keys + if Reserved(key) || key in t.entries[dev].entries then [] else [key]
  {
  }

  /** Extending the keys by one adds that key to the new fields when it is one. */
  lemma NewFieldsSnoc(f: Fields, ks: seq<string>, n: nat)
    requires 0 < n <= |ks|
    ensures NewFields(f, ks[..n]) ==
      NewFields(f, ks[..n - 1]) + if Reserved(ks[n - 1]) || ks[n - 1] in f.entries then [] else [ks[n - 1]]
  {
    assert ks[..n][..n - 1] == ks[..n - 1];
  }

  /** Before item `n - 1` is stored, the device has its field exactly when it had
      it at the start, since the payload's keys are distinct. */
  lemma StoreItemsFresh(t: Table, dev: string, ts: int, p: Payload, n: nat)
    requires dev in t.entries
    requires p.Valid() && Storable(p) && 0 < n <= |p.keys|
    ensures p.keys[n - 1] in StoreItems(t, dev, ts, p, n - 1).entries[dev].entries <==> p.keys[n - 1] in t.entries[dev].entries
  {
    DistinctAround(p.keys, n - 1);
    StoreItemsUntouched(t, dev, ts, p, 0, n - 1, p.keys[n - 1]);
  }

  /** The first `n` items give the device the fields it lacked, after its
      existing ones, in the order of the payload's keys. */
  lemma {:induction false} StoreItemsFieldKeys(t: Table, dev: string, ts: int, p: Payload, n: nat)
    requires dev in t.entries
    requires p.Valid() && Storable(p) && n <= |p.keys|
    ensures StoreItems(t, dev, ts, p, n).entries[dev].keys == t.entries[dev].keys + NewFields(t.entries[dev], p.keys[..n])
  {
    if n > 0 {
      var f := t.entries[dev];
      var key := p.keys[n - 1];
      var s := StoreItems(t, dev, ts, p, n - 1);
      var added := if Reserved(key) || key in f.entries then [] else [key];
      StoreItemsFieldKeys(t, dev, ts, p, n - 1);
      assert s.entries[dev].keys == f.keys + NewFields(f, p.keys[..n - 1]);
      StoreItemsFresh(t, dev, ts, p, n);
      StoreItemFieldKeys(s, dev, ts, key, p.entries[key]);
      NewFieldsSnoc(f, p.keys, n);
      assert StoreItems(t, dev, ts, p, n) == StoreItem(s, dev, ts, key, p.entries[key]);
      assert StoreItems(t, dev, ts, p, n).entries[dev].keys == s.entries[dev].keys + added;
      assert NewFields(f, p.keys[..n]) == NewFields(f, p.keys[..n - 1]) + added;
      AppendAssoc(f.keys, NewFields(f, p.keys[..n - 1]), added);
    }
  }

  /** `_store` appends a new device after the existing ones and leaves their
      order as it was; the device's new fields come after its existing ones, in
      the order of the payload's keys. */
  lemma StoreKeys(t: Table, p: Payload)
    requires WellFormed(p)
    ensures Store(t, p).keys == if DeviceOf(p) in t.entries then t.keys else t.keys + [DeviceOf(p)]
    ensures Store(t, p).entries[DeviceOf(p)].keys ==
      FieldsOf(t, DeviceOf(p)).keys + NewFields(FieldsOf(t, DeviceOf(p)), p.keys)
  {
    var dev := DeviceOf(p);
    var t0 := AddDevice(t, dev);
    StoreItemsKeys(t0, dev, TsOf(p), p, |p.keys|);
    StoreItemsFieldKeys(t0, dev, TsOf(p), p, |p.keys|);
    assert p.keys[..|p.keys|] == p.keys;
  }
}
