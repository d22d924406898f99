# Telemetry store model

This project models the in-memory telemetry store of the ESP32 monitoring back
end, `app/controllers/telemetria_controller.py`. A device posts one JSON body
of readings to `POST /api`. The handler checks the optional API token and
requires `temp` and `hum`. It then builds a payload of the known fields and
stores each field's value in that device's per-field buffer. Each buffer is a
`deque(maxlen=200)` of `{ts, value}` readings. `GET /api` lists the most recent
readings over all devices and fields, newest first.

Modules, one concern each:

- `Basics` (`basics.dfy`): `Option`, reading values (`Num | Flag`), readings,
  listing rows, Python dicts with their insertion order (`Dict`), and Python's
  `s[start:]` and `s[:stop]` slices for every integer bound.
- `BoundedDeque` (`deque.dfy`): `append` on a deque of capacity
  `MaxItems = 200`, and the sliding-window property it keeps.
- `Payload` (`payload.dfy`): the request body, the validation, and the payload
  dict `recibir` builds.
- `TelemetryTable` (`table.dfy`): the table `_buffers` and `_store`, as values.
  This module holds the invariant and the frame and append properties of an
  ingest.
- `TsOrder` (`sorting.dfy`): `list.sort(key=ts, reverse=True)` as a stable
  insertion sort. It is proved sorted, a permutation, stable, and equal to any
  stable descending sort.
- `RecentQuery` (`query.dfy`): what `listar` returns, and its properties.
- `Auth` (`auth.dfy`): `_check_token`.
- `Telemetry` (`store.dfy`): the class `TelemetryStore`. It holds `_buffers`
  as a field and has the two endpoints as methods. `Ingest` updates the table
  in a loop over the payload's items. `Recent` collects the listing with the
  nested loops of `listar`. Each method is proved equal to the function of
  the modules above.

Python dicts keep insertion order, and `listar`'s stable sort breaks
timestamp ties in that order. `Dict` therefore carries its keys in insertion
order next to its entries. The order of the listing is then determined
exactly, ties included.

## Model

| member | source | states |
|---|---|---|
| Basics.Dict.Set | app/controllers/telemetria_controller.py:24 | `d[k] = v` maps `k` to `v`. A new key goes last in iteration order and an existing key keeps its place. Distinct, fully listed keys stay so. |
| Basics.SliceFrom | app/controllers/telemetria_controller.py:75 | Python's `s[start:]` has the lengths Python gives for a non-negative or negative `start`. |
| Basics.SliceFromLast | app/controllers/telemetria_controller.py:75 | For a positive `n`, `s[-n:]` is the window of the last `n` elements of `s`, or all of `s` when it is shorter. |
| Basics.SliceFromZero | app/controllers/telemetria_controller.py:75 | With `limit == 0`, `list(readings)[-0:]` is the whole buffer. |
| Basics.LastNSuffix | app/controllers/telemetria_controller.py:29-30 | The sliding window `LastN` (drop the oldest element until at most `n` remain) is the suffix of length `min(n, len)`. This links the deque's window to Python's `[-n:]` slice. |
| Basics.SliceTo | app/controllers/telemetria_controller.py:85 | Python's `s[:stop]` has `min(stop, len)` elements, or `len - min(-stop, len)` for a negative `stop`. |
| Basics.SliceToPrefix | app/controllers/telemetria_controller.py:85 | `s[:stop]` is a prefix of `s`. |
| BoundedDeque.Push | app/controllers/telemetria_controller.py:29-30 | After `append` the new element is the newest. A buffer within capacity grows by one until it reaches 200 elements. |
| BoundedDeque.PushFull | app/controllers/telemetria_controller.py:29-30 | Appending to a full buffer drops exactly the oldest element and keeps the order of the rest: `buf[1..] + [x]`. |
| BoundedDeque.PushWindow | app/controllers/telemetria_controller.py:29-30 | One append leaves a bounded buffer holding the newest 200 elements of `buf + [x]`. |
| BoundedDeque.PushAll | app/controllers/telemetria_controller.py:29-30 | Repeated `append`. `PushAllWindow` proves that it holds the newest 200 elements appended, and `OverflowEvictsFirst` that the 201st append evicts the first. |
| BoundedDeque.PushAllWindow | app/controllers/telemetria_controller.py:29-30 | After any sequence of appends a buffer holds exactly the newest 200 elements ever appended, in arrival order. |
| BoundedDeque.OverflowEvictsFirst | app/controllers/telemetria_controller.py:29-30 | After 201 appends to a new buffer, it holds the last 200 in order, and the first one is gone. |
| Auth.Authorized | app/controllers/telemetria_controller.py:13-17 | An empty configured token admits every request. A missing header is admitted only then. Otherwise a request is admitted iff its `X-API-Key` equals the token. |
| Payload.AsNumber | app/controllers/telemetria_controller.py:48-62 | `float(v)`: a number stays unchanged, and `True`/`False` become 1/0. |
| Payload.AsFlag | app/controllers/telemetria_controller.py:54-60 | `bool(v)`: a flag stays unchanged, and a number is true iff it is non-zero. |
| Payload.Coerce | app/controllers/telemetria_controller.py:53-62 | The conversion of an optional member: `float` for `door_angle`, `bool` for the others. `BuildPayloadOptional` proves that each stored optional value is the member converted this way. |
| Payload.AddOptional | app/controllers/telemetria_controller.py:53-62 | One `if member is not None: payload[key] = conv(member)`. `AddOptionalAt` proves that it changes only `key`, and only when the member was given. `AddOptionalWellFormed` proves that it keeps the payload acceptable to `_store`. |
| Payload.AddOptionals | app/controllers/telemetria_controller.py:53-62 | The five conditional insertions in source order. `AddOptionalsAt` characterises every entry afterwards, and `AddOptionalsWellFormed` proves that the result stays acceptable to `_store`. |
| Payload.AddOptionalWellFormed | app/controllers/telemetria_controller.py:53-62 | Adding an optional member keeps the payload acceptable to `_store`, with the same device and time. |
| Payload.AddOptionalsWellFormed | app/controllers/telemetria_controller.py:53-62 | The five conditional insertions, in order, keep the payload acceptable to `_store`, with the same device and time. |
| Payload.AddOptionalAt | app/controllers/telemetria_controller.py:53-62 | `if member is not None: payload[key] = conv(member)` changes only `key`, and only when the member was given. |
| Payload.AddOptionalsAt | app/controllers/telemetria_controller.py:53-62 | After the insertions, a key holds its converted member iff it is one of the inserted keys and was given. Any other key keeps its entry from the dict literal. |
| Payload.BasePayload | app/controllers/telemetria_controller.py:47-52 | The dict literal is acceptable to `_store`. Its device is the given one or `"esp32"`, and its `ts` is `now`. |
| Payload.BuildPayload | app/controllers/telemetria_controller.py:38-46 | Validation fails iff `temp` or `hum` is missing, and then with the error `"temp y hum requeridos"`. |
| Payload.BuildPayloadWellFormed | app/controllers/telemetria_controller.py:47-62 | A built payload is acceptable to `_store`. Its device is the given one or `"esp32"`, and its `ts` is the ingest time. |
| Payload.BuildPayloadOptional | app/controllers/telemetria_controller.py:53-62 | Each of `motion`, `led1`, `led2`, `door_open` and `door_angle` is in the payload exactly when the body gave it. It is converted by `float` (`door_angle`) or `bool` (the others). |
| Payload.BuildPayloadRequired | app/controllers/telemetria_controller.py:47-52 | Every key other than the optional ones is in the payload iff it is `temp`, `hum`, `device` or `ts`, each with its value. |
| Payload.OptionalNotRequired | app/controllers/telemetria_controller.py:47-62 | No optional key overwrites a key of the dict literal. |
| Payload.AddOptionalsKeys | app/controllers/telemetria_controller.py:53-62 | Inserting distinct keys that the payload lacks appends exactly the given ones to its key order, in the order of insertion. |
| Payload.BuildPayloadKeys | app/controllers/telemetria_controller.py:47-62 | A built payload's key order is `temp`, `hum`, `device`, `ts`, followed by the given optional members in the order `motion`, `led1`, `led2`, `door_open`, `door_angle`. |
| TelemetryTable.AddDevice | app/controllers/telemetria_controller.py:23-24 | A missing device gets an empty dict and goes last in the table's key order. Every other entry, an existing device's dict, and the order of the existing devices stay as they were. |
| TelemetryTable.AddField | app/controllers/telemetria_controller.py:28-29 | A missing field gets an empty buffer and goes last in the device's field order. Every other entry, the device order and the order of the existing fields stay as they were. |
| TelemetryTable.Append | app/controllers/telemetria_controller.py:30 | Only the `(dev, key)` buffer changes, and it becomes `Push(buffer, reading)`. The device order and the device's field order stay as they were. |
| TelemetryTable.Store | app/controllers/telemetria_controller.py:20-30 | After `_store` the payload's device has an entry. `StoreValid`, `StoreOtherDevices`, `StoreAppends`, `StoreOtherFields` and `StoreKeys` characterise every buffer and the iteration order of devices and fields. |
| TelemetryTable.StoreItem | app/controllers/telemetria_controller.py:25-30 | One pass of the items loop. `StoreItemSame` proves that it appends to its own buffer, `StoreItemOther` that it leaves every other buffer alone, and `StoreItemValid` that it keeps the invariant. |
| TelemetryTable.StoreItems | app/controllers/telemetria_controller.py:25-30 | The items loop over the first `n` keys. `StoreItemsAppended`, `StoreItemsUntouched` and `StoreItemsValid` state its effect, and `Ingest`'s loop invariant is this function. |
| TelemetryTable.StoreItemValid | app/controllers/telemetria_controller.py:25-30 | One pass of the items loop keeps the table's invariant. |
| TelemetryTable.StoreItemsValid | app/controllers/telemetria_controller.py:25-30 | The items loop keeps the invariant. |
| TelemetryTable.StoreItemsUntouched | app/controllers/telemetria_controller.py:25-30 | Items that do not carry key `k` leave `k`'s buffer as it was. |
| TelemetryTable.StoreItemsAppended | app/controllers/telemetria_controller.py:25-30 | The items loop appends each non-metadata item's reading to its own buffer exactly once. |
| TelemetryTable.StoreValid | app/controllers/telemetria_controller.py:20-30 | `_store` keeps the invariant: keys are distinct, every buffer holds at most 200 readings, and no device has a `device` or `ts` field. |
| TelemetryTable.StoreOtherDevices | app/controllers/telemetria_controller.py:21-30 | `_store` creates the payload's device if needed. It leaves every other device present or absent and unchanged. |
| TelemetryTable.StoreAppends | app/controllers/telemetria_controller.py:22-30 | For every payload key other than `device`/`ts`, the buffer exists afterwards and equals `Push(old, {ts, value})`. Its length is `min(old + 1, 200)` and it ends with the new reading. A full buffer becomes `old[1..] + [new]`. |
| TelemetryTable.StoreOtherFields | app/controllers/telemetria_controller.py:25-30 | The device's buffers for `device`, `ts` and every key not in the payload are unchanged: both absent, or both present with equal readings. |
| TelemetryTable.NewFieldsComplete | app/controllers/telemetria_controller.py:25-29 | The fields the items loop creates are exactly the payload's non-metadata keys the device lacked: `NewFields` holds only such keys (its ensures), and this lemma proves that every such key is among them. |
| TelemetryTable.StoreItemsKeys | app/controllers/telemetria_controller.py:25-30 | The items loop leaves the table's device order as it was. |
| TelemetryTable.StoreItemsFieldKeys | app/controllers/telemetria_controller.py:25-30 | After the first `n` items, the device's field order is its old field order followed by the new fields among those items, in payload order. |
| TelemetryTable.StoreKeys | app/controllers/telemetria_controller.py:20-30 | `_store` leaves the existing devices in their order and appends a new device last. The device's fields are its existing ones, in their order, followed by the payload's non-metadata keys it lacked, in the payload's key order. |
| TsOrder.InsertDesc | app/controllers/telemetria_controller.py:84 | One insertion step of the sort adds exactly the new row to the multiset. |
| TsOrder.SortDesc | app/controllers/telemetria_controller.py:84 | The sort is a permutation of its input. |
| TsOrder.InsertDescSorted | app/controllers/telemetria_controller.py:84 | Inserting a row into a sequence ordered newest first keeps it ordered. |
| TsOrder.InsertDescStable | app/controllers/telemetria_controller.py:84 | An inserted row goes after every row with its own timestamp. |
| TsOrder.SortDescSorted | app/controllers/telemetria_controller.py:84 | The sort's result has non-increasing timestamps. |
| TsOrder.SortDescStable | app/controllers/telemetria_controller.py:84 | The sort is stable: at every timestamp the rows keep their input order. |
| TsOrder.SortDescIsStableSort | app/controllers/telemetria_controller.py:84 | `SortDesc` meets the specification of a stable descending sort by `ts`. |
| TsOrder.StableSortUnique | app/controllers/telemetria_controller.py:84 | Two sequences that are both stable descending sorts of the same rows are equal. |
| TsOrder.StableSortIsSortDesc | app/controllers/telemetria_controller.py:84 | Any stable descending sort of `s`, such as `out.sort(key=ts, reverse=True)`, equals `SortDesc(s)`. |
| RecentQuery.ReadingRows | app/controllers/telemetria_controller.py:75-83 | The innermost loop's rows for one tail, one per reading in order. `ReadingRowsIn` proves that a row is in it iff it is one of the tail's readings, tagged with the device and field. |
| RecentQuery.DeviceRows | app/controllers/telemetria_controller.py:74-83 | The rows of the first `n` fields of one device. `DeviceRowsIn` characterises its members, and `AppendDeviceRows` builds it in a loop. |
| RecentQuery.TableRows | app/controllers/telemetria_controller.py:73-83 | The rows of the first `n` devices. `TableRowsIn` characterises its members, and `Recent`'s loop invariant is this function. |
| RecentQuery.Candidates | app/controllers/telemetria_controller.py:72-83 | `out` before sorting. `CandidatesAreTails` proves that it holds exactly the rows of every buffer's `[-limit:]` tail. |
| RecentQuery.RecentRows | app/controllers/telemetria_controller.py:84-85 | The answer of `listar`: sort, then `out[:limit]`. For `limit >= 0` it is proved to hold `min(limit, len(out))` rows, and for a negative `limit` `len(out) - min(-limit, len(out))` rows (`RecentLength`). It is also proved to be newest first (`RecentSorted`). Each row is from its own buffer's tail (`RecentFromTails`), and no reading left out is newer (`RecentKeepsNewest`). Everything is returned when `limit` is large enough (`RecentAll`), and ties keep the loop order (`RecentKeepsTieOrder`). |
| RecentQuery.ReadingRowsIn | app/controllers/telemetria_controller.py:75-83 | The inner loop yields a row exactly for each reading of the tail, tagged with its device and field. |
| RecentQuery.DeviceRowsIn | app/controllers/telemetria_controller.py:74-83 | A row comes from the loop over a device's fields iff its field is among them and the row is among that field's rows. |
| RecentQuery.TableRowsIn | app/controllers/telemetria_controller.py:73-83 | A row comes from the loop over devices iff its device is among them and the row is among that device's rows. |
| RecentQuery.CandidatesAreTails | app/controllers/telemetria_controller.py:72-83 | `out` before sorting holds a row iff that reading is in the `[-limit:]` tail of its own (device, field) buffer. |
| RecentQuery.RecentLength | app/controllers/telemetria_controller.py:85 | For `limit >= 0` the answer has `min(limit, len(out))` rows, and none for `limit == 0`. For a negative `limit`, `out[:limit]` drops `min(-limit, len(out))` rows from the end. |
| RecentQuery.RecentSorted | app/controllers/telemetria_controller.py:84-85 | The rows are ordered newest first. |
| RecentQuery.RecentFromTails | app/controllers/telemetria_controller.py:75-85 | Every returned row comes from its own buffer's `[-limit:]` tail. For `limit >= 1` it is among that buffer's newest `limit` readings. |
| RecentQuery.RecentKeepsNewest | app/controllers/telemetria_controller.py:84-85 | The answer is a sub-multiset of the candidates. No candidate left out is newer than any row returned. |
| RecentQuery.RecentAll | app/controllers/telemetria_controller.py:84-85 | When `limit` is at least the number of candidates, every candidate is returned. |
| RecentQuery.RecentKeepsTieOrder | app/controllers/telemetria_controller.py:73-85 | At each timestamp the returned rows are a prefix, in order, of the candidates with that timestamp, in `_buffers` iteration order. |
| Telemetry.Status | app/controllers/telemetria_controller.py:33-85 | The HTTP status of each outcome, as in the tuples at lines 36, 46, 64, 70 and 85: 200 for an accepted ingest or a listing, 400 for a missing `temp`/`hum`, 401 for a bad token. |
| Telemetry.TelemetryStore.constructor | app/controllers/telemetria_controller.py:9 | The store starts with no devices and satisfies the invariant. |
| Telemetry.TelemetryStore.Ingest | app/controllers/telemetria_controller.py:20-30 | The in-place loop of `_store` leaves exactly the table `Store(old, p)` and keeps the invariant. |
| Telemetry.TelemetryStore.StoreEntry | app/controllers/telemetria_controller.py:25-30 | One pass of the loop updates the table in place to `StoreItem(old, ...)`: the metadata keys are skipped, and otherwise a missing buffer is created and the reading appended. The invariant is kept. |
| Telemetry.TelemetryStore.Receive | app/controllers/telemetria_controller.py:33-64 | An unauthorized request gets 401 and the store is unchanged. A missing `temp`/`hum` gets 400 and the store is unchanged. Otherwise the payload is well formed, the store is `Store(old, BuildPayload(body, now))`, and the answer is 200. |
| Telemetry.TelemetryStore.Recent | app/controllers/telemetria_controller.py:71-85 | The nested loops, the sort and `out[:limit]` give exactly `RecentRows(buffers, limit)`, and nothing is modified. |
| Telemetry.TelemetryStore.List | app/controllers/telemetria_controller.py:67-85 | An unauthorized request gets 401. Otherwise the answer is the listing with `limit` default 50. The store is never modified. |
| Telemetry.AppendDeviceRows | app/controllers/telemetria_controller.py:74-83 | The loop over one device's fields appends exactly `DeviceRows` to `out`. |
| Telemetry.AppendReadingRows | app/controllers/telemetria_controller.py:75-83 | The innermost loop appends one row per reading of the tail, in order. |

## Left out

- Flask plumbing is left out: the blueprint, the routes, `jsonify` and the
  status tuples. A handler's outcome is the datatype `Response`, and `Status`
  gives its HTTP code.
- The configuration is a parameter. The token `API_TOKEN` (`app/config.py:7`,
  default empty) is passed to `Authorized`, and the `X-API-Key` header is an
  `Option`. `SECRET_KEY` and `create_app` play no part in the store.
- The clock is a parameter. `time.time()` is the parameter `now` of `Receive`.
- Floating point is left out. Timestamps and numeric values are integers.
  `float(...)` and `bool(...)` are modelled on the value union
  `Num | Flag` only.
- String values are left out, and so are the exceptions `float(...)` and
  `int(limit)` raise on malformed input. The body's members are already
  numbers or booleans, and `limit` is already an integer.
- A non-empty JSON array or a truthy scalar body is left out. With such a
  body `data.get` raises an `AttributeError` at line 38. A missing or
  unparsable body, and any falsy body (`[]`, `0`, `false`, `""`, `null`),
  becomes `{}` at line 37. That is the `Body` with no members, which the
  model answers with 400.
- The device id is left out when it is present but null or not a string.
  The model's `device` is either absent (default `"esp32"`) or a string.
- Body members that are not read are left out. They never reach the
  payload, and `Body` carries only the members `recibir` reads.
- Concurrency is left out. The model handles one request at a time. The
  source has no locking, so a threaded server can lose readings. Two
  concurrent first ingests for the same device can both pass line 23, and
  the second `_buffers[dev] = {}` (line 24) drops the first one's readings.
  The same holds for a new field at lines 28-29. That loss is not modelled.
- A negative `limit` follows Python's slice semantics, as the code does.
  `[-limit:]` then drops the first `min(-limit, len)` readings of each buffer,
  and `[:limit]` drops the last `min(-limit, len(out))` rows overall. The answer is empty only when
  `-limit >= len(out)`. For `limit == 0` every buffer is taken whole and the answer is empty.
- Deque identity is left out. Every buffer is a `seq` value held in the
  store's table, and the loop replaces it, so aliasing between deques is not
  modelled. Nothing in the source shares a deque.
