/** The ingest payload: the dict that `recibir` builds from the request body and
    hands to `_store` (app/controllers/telemetria_controller.py). */
module Payload {
  import opened Basics

  datatype Result<T> = Ok(value: T) | Err(error: string)

  /** A payload entry's value: a reading value, the device id under "device",
      or the ingest time under "ts". */
  datatype Item = Val(v: Value) | Dev(name: string) | Stamp(ts: int)

  type Payload = Dict<Item>

  const DefaultDevice := "esp32"
  const TempHumRequired := "temp y hum requeridos"

  /** Keys every built payload carries. */
  const RequiredKeys: set<string> := {"temp", "hum", "device", "ts"}

  /** The two keys `_store` reads as metadata and never stores as fields. */
  predicate Reserved(key: string) {
    key == "device" || key == "ts"
  }

  /** What `_store` needs of its argument: a dict whose "device" and "ts" are
      present (it indexes both), and whose other entries are reading values. */
  predicate WellFormed(p: Payload) {
    && p.Valid()
    && "device" in p.entries && p.entries["device"].Dev?
    && "ts" in p.entries && p.entries["ts"].Stamp?
    && Storable(p)
  }

  /** Every entry other than the metadata carries a reading value. */
  predicate Storable(p: Payload) {
    forall k :: k in p.entries && !Reserved(k) ==> p.entries[k].Val?
  }

  /** `payload["device"]` */
  function DeviceOf(p: Payload): string
    requires WellFormed(p)
  {
    p.entries["device"].name
  }

  /** `payload["ts"]` */
  function TsOf(p: Payload): int
    requires WellFormed(p)
  {
    p.entries["ts"].ts
  }

  /** The parsed JSON body: its "device" member, if given, and its numeric or
      boolean members. A member that is absent or JSON null is not in `members`. */
  datatype Body = Body(device: Option<string>, members: map<string, Value>)

  /** Python's `float(v)`: numbers unchanged, `True`/`False` become 1 and 0. */
  function AsNumber(v: Value): (r: Value)
    ensures r.Num?
    ensures v.Num? ==> r == v
    ensures v.Flag? ==> (r.x == 1 <==> v.b) && (r.x == 0 <==> !v.b)
  {
    match v
    case Num(x) => Num(x)
    case Flag(b) => Num(if b then 1 else 0)
  }

  /** Python's `bool(v)`: booleans unchanged, a number is true iff it is non-zero. */
  function AsFlag(v: Value): (r: Value)
    ensures r.Flag?
    ensures v.Flag? ==> r == v
    ensures v.Num? ==> (r.b <==> v.x != 0)
  {
    match v
    case Num(x) => Flag(x != 0)
    case Flag(b) => Flag(b)
  }

  /** The conversion `recibir` applies to an optional member: `float` for
      "door_angle", `bool` for the others. */
  function Coerce(key: string, v: Value): Value {
    if key == "door_angle" then AsNumber(v) else AsFlag(v)
  }

  /** `if member is not None: payload[key] = conversion(member)`. */
  function AddOptional(p: Payload, members: map<string, Value>, key: string): Payload {
    if key in members then p.Set(key, Val(Coerce(key, members[key]))) else p
  }

  /** The optional members, in the order `recibir` adds them. */
  const OptionalOrder: seq<string> := ["motion", "led1", "led2", "door_open", "door_angle"]

  /** The conditional insertions of `keys`, one after the other. */
  function AddOptionals(p: Payload, members: map<string, Value>, keys: seq<string>): Payload {
    if keys == [] then p
    else AddOptional(AddOptionals(p, members, keys[..|keys| - 1]), members, keys[|keys| - 1])
  }

  /** Adding a reading value under a non-metadata key keeps a payload acceptable to `_store`. */
  lemma AddOptionalWellFormed(p: Payload, members: map<string, Value>, key: string)
    requires WellFormed(p) && !Reserved(key)
    ensures WellFormed(AddOptional(p, members, key))
    ensures DeviceOf(AddOptional(p, members, key)) == DeviceOf(p)
    ensures TsOf(AddOptional(p, members, key)) == TsOf(p)
  {
  }

  /** Adding optional members under non-metadata keys keeps a payload acceptable
      to `_store`, with the same device and time. */
  lemma {:induction false} AddOptionalsWellFormed(p: Payload, members: map<string, Value>, keys: seq<string>)
    requires WellFormed(p) && "device" !in keys && "ts" !in keys
    ensures WellFormed(AddOptionals(p, members, keys))
    ensures DeviceOf(AddOptionals(p, members, keys)) == DeviceOf(p)
    ensures TsOf(AddOptionals(p, members, keys)) == TsOf(p)
  {
    if keys != [] {
      var init := keys[..|keys| - 1];
      assert keys == init + [keys[|keys| - 1]];
      AddOptionalsWellFormed(p, members, init);
      AddOptionalWellFormed(AddOptionals(p, members, init), members, keys[|keys| - 1]);
    }
  }

  /** What `AddOptional` does to the entry under one key. */
  lemma AddOptionalAt(p: Payload, members: map<string, Value>, key: string, k: string)
    ensures k in AddOptional(p, members, key).entries <==> k in p.entries || (k == key && key in members)
    ensures k in AddOptional(p, members, key).entries ==>
      AddOptional(p, members, key).entries[k] == if k == key && key in members then Val(Coerce(key, members[key])) else p.entries[k]
  {
  }

  /** After the insertions of `keys`, the entry under `k` is the converted member
      when `k` is one of `keys` and was given, and the entry of `p` otherwise. */
  lemma {:induction false} AddOptionalsAt(p: Payload, members: map<string, Value>, keys: seq<string>, k: string)
    ensures var r := AddOptionals(p, members, keys);
      && (k in r.entries <==> k in p.entries || (k in keys && k in members))
      && (k in r.entries ==> r.entries[k] == if k in keys && k in members then Val(Coerce(k, members[k])) else p.entries[k])
  {
    if keys != [] {
      var init, last := keys[..|keys| - 1], keys[|keys| - 1];
      assert keys == init + [last];
      AddOptionalsAt(p, members, init, k);
      AddOptionalAt(AddOptionals(p, members, init), members, last, k);
    }
  }

  /** The dict literal of `recibir`: "temp", "hum", "device" and "ts", in this order. */
  function BasePayload(body: Body, now: int): (p: Payload)
    requires "temp" in body.members && "hum" in body.members
    ensures WellFormed(p)
    ensures DeviceOf(p) == if body.device.Some? then body.device.value else DefaultDevice
    ensures TsOf(p) == now
  {
    var m := body.members;
    Dict(["temp", "hum", "device", "ts"],
      map["temp" := Val(AsNumber(m["temp"])),
          "hum" := Val(AsNumber(m["hum"])),
          "device" := Dev(body.device.GetOr(DefaultDevice)),
          "ts" := Stamp(now)])
  }

  /** The validation and payload building of `recibir`: a body without "temp"
      or "hum" is rejected; otherwise the dict literal followed by each optional
      member the body gave, converted. */
  function BuildPayload(body: Body, now: int): (r: Result<Payload>)
    ensures r.Err? <==> "temp" !in body.members || "hum" !in body.members
    ensures r.Err? ==> r.error == TempHumRequired
  {
    if "temp" !in body.members || "hum" !in body.members then
      Err(TempHumRequired)
    else
      Ok(AddOptionals(BasePayload(body, now), body.members, OptionalOrder))
  }

  /** A built payload is what `_store` accepts, with the given device (default
      "esp32") and the ingest time as its metadata. */
  lemma BuildPayloadWellFormed(body: Body, now: int)
    requires BuildPayload(body, now).Ok?
    ensures WellFormed(BuildPayload(body, now).value)
    ensures DeviceOf(BuildPayload(body, now).value) == (if body.device.Some? then body.device.value else DefaultDevice)
    ensures TsOf(BuildPayload(body, now).value) == now
  {
    AddOptionalsWellFormed(BasePayload(body, now), body.members, OptionalOrder);
  }

  /** No name is both a required and an optional payload key. */
  lemma OptionalNotRequired(key: string)
    requires key in OptionalOrder
    ensures key !in RequiredKeys
  {
  }

  /** A built payload holds each optional member exactly when the body gave it,
      converted by `float` ("door_angle") or `bool` (the others). */
  lemma BuildPayloadOptional(body: Body, now: int, key: string)
    requires BuildPayload(body, now).Ok?
    requires key in OptionalOrder
    ensures key in BuildPayload(body, now).value.entries <==> key in body.members
    ensures key in body.members ==> BuildPayload(body, now).value.entries[key] == Val(Coerce(key, body.members[key]))
  {
    OptionalNotRequired(key);
    AddOptionalsAt(BasePayload(body, now), body.members, OptionalOrder, key);
  }

  /** Besides the optional members, a built payload holds exactly "temp" and
      "hum" (as numbers), "device" (default "esp32") and "ts" (the ingest time). */
  lemma BuildPayloadRequired(body: Body, now: int, key: string)
    requires BuildPayload(body, now).Ok?
    requires key !in OptionalOrder
    ensures key in BuildPayload(body, now).value.entries <==> key in RequiredKeys
    ensures key == "temp" || key == "hum" ==> BuildPayload(body, now).value.entries[key] == Val(AsNumber(body.members[key]))
    ensures key == "device" ==> BuildPayload(body, now).value.entries[key] == Dev(if body.device.Some? then body.device.value else DefaultDevice)
    ensures key == "ts" ==> BuildPayload(body, now).value.entries[key] == Stamp(now)
  {
    AddOptionalsAt(BasePayload(body, now), body.members, OptionalOrder, key);
  }

  /** The keys among `keys` that the body gave, in the order of `keys`. */
  function GivenKeys(members: map<string, Value>, keys: seq<string>): (r: seq<string>)
    ensures forall k :: k in r <==> k in keys && k in members
  {
    if keys == [] then []
    else
      var last := keys[|keys| - 1];
      assert keys == keys[..|keys| - 1] + [last];
      GivenKeys(members, keys[..|keys| - 1]) + if last in members then [last] else []
  }

  /** Inserting distinct keys the payload does not have appends each given one
      to its key order. */
  lemma {:induction false} AddOptionalsKeys(p: Payload, members: map<string, Value>, keys: seq<string>)
    requires Distinct(keys) && forall k :: k in keys ==> k !in p.entries
    ensures AddOptionals(p, members, keys).keys == p.keys + GivenKeys(members, keys)
  {
    if keys != [] {
      var init, last := keys[..|keys| - 1], keys[|keys| - 1];
      assert keys == init + [last];
      DistinctAround(keys, |keys| - 1);
      assert keys[0..|keys| - 1] == init;
      AddOptionalsKeys(p, members, init);
      AddOptionalsAt(p, members, init, last);
    }
  }

  /** A built payload's key order: "temp", "hum", "device", "ts", then the
      optional members the body gave, in the order `recibir` adds them. */
  lemma BuildPayloadKeys(body: Body, now: int)
    requires BuildPayload(body, now).Ok?
    ensures BuildPayload(body, now).value.keys == ["temp", "hum", "device", "ts"] + GivenKeys(body.members, OptionalOrder)
  {
    forall k | k in OptionalOrder ensures k !in BasePayload(body, now).entries {
      OptionalNotRequired(k);
    }
    AddOptionalsKeys(BasePayload(body, now), body.members, OptionalOrder);
  }
}
