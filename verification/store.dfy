/** The telemetry endpoints of app/controllers/telemetria_controller.py over the
    module-level buffer table: `recibir` (POST /api) stores one reading per
    field, `listar` (GET /api) lists the most recent readings. */
module Telemetry {
  import opened Basics
  import opened BoundedDeque
  import opened Payload
  import opened TelemetryTable
  import opened TsOrder
  import opened RecentQuery
  import opened Auth

  /** An endpoint's answer: `Accepted` is 200 `{"ok": true}`, `Listing` is 200
      with the rows, `BadRequest` is 400 with its error message, and
      `Unauthorized` is 401 with the fixed error "unauthorized". */
  datatype Response = Accepted | Listing(rows: seq<Row>) | BadRequest(error: string) | Unauthorized

  /** The HTTP status of a response. */
  function Status(r: Response): int {
    match r
    case Accepted => 200
    case Listing(_) => 200
    case BadRequest(_) => 400
    case Unauthorized => 401
  }

  /** The `limit` query parameter's default. */
  const DefaultLimit := 50

  /** The process-wide store `_buffers`, with the endpoints that use it. */
  class TelemetryStore {
    var buffers: Table

    predicate Valid()
      reads this
    {
      TelemetryTable.Valid(buffers)
    }

    /** The store at start-up: no devices. */
    constructor()
      ensures Valid() && buffers == EmptyDict()
    {
      buffers := EmptyDict();
    }

    /** `_store(payload)`: make sure the device has a dict, then run the loop
        over the payload's items. */
    method Ingest(p: Payload)
      requires Valid() && WellFormed(p)
      modifies this
      ensures Valid()
      ensures buffers == Store(old(buffers), p)
    {
      var dev := DeviceOf(p);
      var ts := TsOf(p);
      AddDeviceValid(buffers, dev);
      if dev !in buffers.entries {
        buffers := buffers.Set(dev, EmptyDict());
      }
      ghost var start := buffers;
      assert start == AddDevice(old(buffers), dev);
      for i := 0 to |p.keys|
        invariant dev in buffers.entries
        invariant Valid()
        invariant buffers == StoreItems(start, dev, ts, p, i)
      {
        var key := p.keys[i];
        StoreEntry(dev, ts, key, p.entries[key]);
      }
    }

    /** One pass of `_store`'s loop: skip "device" and "ts"; otherwise make sure
        the field has a buffer and append `{ts, value}` to it. */
    method StoreEntry(dev: string, ts: int, key: string, item: Item)
      requires Valid() && dev in buffers.entries
      requires Reserved(key) || item.Val?
      modifies this
      ensures Valid()
      ensures buffers == StoreItem(old(buffers), dev, ts, key, item)
    {
      StoreItemValid(buffers, dev, ts, key, item);
      if key == "device" || key == "ts" {
        return;
      }
      if key !in buffers.entries[dev].entries {
        buffers := buffers.Set(dev, buffers.entries[dev].Set(key, []));
      }
      var fields := buffers.entries[dev];
      buffers := buffers.Set(dev, fields.Set(key, Push(fields.entries[key], Reading(ts, item.v))));
    }

    /** `recibir`: reject an unauthorized request (401) or a body without "temp"
        or "hum" (400) and leave the store as it is; otherwise build the payload
        stamped with `now`, store it, and answer 200. */
    method Receive(apiToken: string, apiKey: Option<string>, body: Body, now: int) returns (resp: Response)
      requires Valid()
      modifies this
      ensures Valid()
      ensures !Authorized(apiToken, apiKey) ==> resp == Unauthorized && buffers == old(buffers)
      ensures Authorized(apiToken, apiKey) && ("temp" !in body.members || "hum" !in body.members) ==>
        resp == BadRequest(TempHumRequired) && buffers == old(buffers)
      ensures Authorized(apiToken, apiKey) && "temp" in body.members && "hum" in body.members ==>
        && resp == Accepted
        && BuildPayload(body, now).Ok?
        && WellFormed(BuildPayload(body, now).value)
        && buffers == Store(old(buffers), BuildPayload(body, now).value)
    {
      if !Authorized(apiToken, apiKey) {
        return Unauthorized;
      }
      var built := BuildPayload(body, now);
      if built.Err? {
        return BadRequest(built.error);
      }
      BuildPayloadWellFormed(body, now);
      Ingest(built.value);
      resp := Accepted;
    }

    /** The loops of `listar` that collect `out`, then its sort and `out[:limit]`. */
    method Recent(limit: int) returns (rows: seq<Row>)
      requires Valid()
      ensures TableListed(buffers)
      ensures rows == RecentRows(buffers, limit)
    {
      ValidListed(buffers);
      var table := buffers;
      var out: seq<Row> := [];
      for i := 0 to |table.keys|
        invariant out == TableRows(table, i, limit)
      {
        var dev := table.keys[i];
        out := AppendDeviceRows(out, dev, table.entries[dev], limit);
        TableRowsStep(table, i + 1, limit);
      }
      PrefixAll(table.keys);
      rows := SliceTo(SortDesc(out), limit);
    }

    /** `listar`: reject an unauthorized request (401); otherwise answer 200 with
        the recent rows for the given limit, 50 when none is given. Nothing changes. */
    method List(apiToken: string, apiKey: Option<string>, limit: Option<int>) returns (resp: Response)
      requires Valid()
      ensures TableListed(buffers)
      ensures !Authorized(apiToken, apiKey) ==> resp == Unauthorized
      ensures Authorized(apiToken, apiKey) ==> resp == Listing(RecentRows(buffers, limit.GetOr(DefaultLimit)))
    {
      ValidListed(buffers);
      if !Authorized(apiToken, apiKey) {
        return Unauthorized;
      }
      var rows := Recent(limit.GetOr(DefaultLimit));
      resp := Listing(rows);
    }
  }
  /** The loop over `sensors.items()` of one device: appends, field by field, the
      rows of the field's readings `list(readings)[-limit:]`. */
  method AppendDeviceRows(out: seq<Row>, dev: string, sensors: Fields, limit: int) returns (out': seq<Row>)
    requires sensors.Listed()
    ensures out' == out + DeviceRows(dev, sensors, |sensors.keys|, limit)
  {
    out' := out;
    for j := 0 to |sensors.keys|
      invariant out' == out + DeviceRows(dev, sensors, j, limit)
    {
      var name := sensors.keys[j];
      var tail := SliceFrom(sensors.entries[name], -limit);
      out' := AppendReadingRows(out', dev, name, tail);
      DeviceRowsStep(dev, sensors, j + 1, limit);
      AppendAssoc(out, DeviceRows(dev, sensors, j, limit), ReadingRows(dev, name, tail));
    }
  }

  /** The innermost loop of `listar`: one row `{device, sensor, value, ts}` per reading, in order. */
  method AppendReadingRows(out: seq<Row>, dev: string, name: string, tail: seq<Reading>) returns (out': seq<Row>)
    ensures out' == out + ReadingRows(dev, name, tail)
  {
    out' := out;
    for k := 0 to |tail|
      invariant out' == out + ReadingRows(dev, name, tail[..k])
    {
      assert ReadingRows(dev, name, tail[..k + 1]) == ReadingRows(dev, name, tail[..k]) + [Row(dev, name, tail[k].value, tail[k].ts)];
      out' := out' + [Row(dev, name, tail[k].value, tail[k].ts)];
    }
    PrefixAll(tail);
  }
}
