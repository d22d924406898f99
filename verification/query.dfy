/** The recent-readings listing `listar` (app/controllers/telemetria_controller.py):
    for every device and field, the rows of the field's last `limit` readings,
    all sorted newest first, of which the first `limit` are returned. */
module RecentQuery {
  import opened Basics
  import opened BoundedDeque
  import opened TelemetryTable
  import opened TsOrder

  /** Every key the table and its devices list has an entry: what iterating
      `_buffers.items()` and `sensors.items()` relies on. */
  predicate TableListed(t: Table) {
    t.Listed() && forall d :: d in t.entries ==> t.entries[d].Listed()
  }

  /** The rows for the readings `rs` of field `name` of device `dev`, in buffer order. */
  function ReadingRows(dev: string, name: string, rs: seq<Reading>): (r: seq<Row>)
    ensures |r| == |rs|
  {
    seq(|rs|, i requires 0 <= i < |rs| => Row(dev, name, rs[i].value, rs[i].ts))
  }

  /** The rows contributed by the first `n` fields of device `dev`: for each, the
      readings `list(readings)[-limit:]`. */
  function DeviceRows(dev: string, f: Fields, n: nat, limit: int): seq<Row>
    requires f.Listed() && n <= |f.keys|
  {
    if n == 0 then []
    else
      var name := f.keys[n - 1];
      DeviceRows(dev, f, n - 1, limit) + ReadingRows(dev, name, SliceFrom(f.entries[name], -limit))
  }

  /** The rows of the first `n` fields are those of the first `n - 1` followed by field `n - 1`'s. */
  lemma DeviceRowsStep(dev: string, f: Fields, n: nat, limit: int)
    requires f.Listed() && 0 < n <= |f.keys|
    ensures DeviceRows(dev, f, n, limit) ==
      DeviceRows(dev, f, n - 1, limit) + ReadingRows(dev, f.keys[n - 1], SliceFrom(f.entries[f.keys[n - 1]], -limit))
  {
  }

  /** The rows contributed by the first `n` devices of the table. */
  function TableRows(t: Table, n: nat, limit: int): seq<Row>
    requires TableListed(t) && n <= |t.keys|
  {
    if n == 0 then []
    else
      var dev := t.keys[n - 1];
      TableRows(t, n - 1, limit) + DeviceRows(dev, t.entries[dev], |t.entries[dev].keys|, limit)
  }

  /** The rows of the first `n` devices are those of the first `n - 1` followed by device `n - 1`'s. */
  lemma TableRowsStep(t: Table, n: nat, limit: int)
    requires TableListed(t) && 0 < n <= |t.keys|
    ensures TableRows(t, n, limit) ==
      TableRows(t, n - 1, limit) + DeviceRows(t.keys[n - 1], t.entries[t.keys[n - 1]], |t.entries[t.keys[n - 1]].keys|, limit)
  {
  }

  /** `out` before sorting: every row the nested loops of `listar` append. */
  function Candidates(t: Table, limit: int): seq<Row>
    requires TableListed(t)
  {
    TableRows(t, |t.keys|, limit)
  }

  /** The body of `listar`'s response: the candidates sorted newest first
      (stably), then `out[:limit]`. */
  function RecentRows(t: Table, limit: int): seq<Row>
    requires TableListed(t)
  {
    SliceTo(SortDesc(Candidates(t, limit)), limit)
  }

  /** The row `x` stands for a reading among the last `limit` readings (for a
      positive `limit`) of its own device's and field's buffer. */
  predicate InTail(t: Table, x: Row, limit: int) {
    && x.device in t.entries
    && x.sensor in t.entries[x.device].entries
    && Reading(x.ts, x.value) in SliceFrom(t.entries[x.device].entries[x.sensor], -limit)
  }

  lemma ValidListed(t: Table)
    requires Valid(t)
    ensures TableListed(t)
  {
    forall d | d in t.entries ensures t.entries[d].Listed() {
      assert FieldsValid(t.entries[d]);
    }
  }

  lemma ReadingRowsIn(dev: string, name: string, rs: seq<Reading>, x: Row)
    ensures x in ReadingRows(dev, name, rs) <==> x.device == dev && x.sensor == name && Reading(x.ts, x.value) in rs
  {
    var r := ReadingRows(dev, name, rs);
    if x in r {
      var i :| 0 <= i < |r| && r[i] == x;
      assert rs[i] == Reading(x.ts, x.value);
    }
    if x.device == dev && x.sensor == name && Reading(x.ts, x.value) in rs {
      var i :| 0 <= i < |rs| && rs[i] == Reading(x.ts, x.value);
      assert r[i] == x;
    }
  }

  /** A row comes from the first `n` fields of `dev` exactly when its field is
      among them and the row is among that field's rows. */
  lemma {:induction false} DeviceRowsIn(dev: string, f: Fields, n: nat, limit: int, x: Row)
    requires f.Listed() && n <= |f.keys|
    ensures x in DeviceRows(dev, f, n, limit) <==>
      x.sensor in f.keys[..n] && x in ReadingRows(dev, x.sensor, SliceFrom(f.entries[x.sensor], -limit))
  {
    if n > 0 {
      var name := f.keys[n - 1];
      DeviceRowsIn(dev, f, n - 1, limit, x);
      ReadingRowsIn(dev, name, SliceFrom(f.entries[name], -limit), x);
      DeviceRowsStep(dev, f, n, limit);
      PrefixSnoc(f.keys, n);
    }
  }

  /** A row comes from the first `n` devices exactly when its device is among
      them and the row is among that device's rows. */
  lemma {:induction false} TableRowsIn(t: Table, n: nat, limit: int, x: Row)
    requires TableListed(t) && n <= |t.keys|
    ensures x in TableRows(t, n, limit) <==>
      x.device in t.keys[..n] && x in DeviceRows(x.device, t.entries[x.device], |t.entries[x.device].keys|, limit)
  {
    if n > 0 {
      var dev := t.keys[n - 1];
      var f := t.entries[dev];
      TableRowsIn(t, n - 1, limit, x);
      DeviceRowsIn(dev, f, |f.keys|, limit, x);
      if x.sensor in f.entries {
        ReadingRowsIn(dev, x.sensor, SliceFrom(f.entries[x.sensor], -limit), x);
      }
      TableRowsStep(t, n, limit);
      PrefixSnoc(t.keys, n);
    }
  }

  /** The candidates are exactly the rows of the last `limit` readings of every
      field of every device. */
  lemma CandidatesAreTails(t: Table, limit: int, x: Row)
    requires Valid(t)
    ensures TableListed(t)
    ensures x in Candidates(t, limit) <==> InTail(t, x, limit)
  {
    ValidListed(t);
    TableRowsIn(t, |t.keys|, limit, x);
    PrefixAll(t.keys);
    if x.device in t.entries {
      var f := t.entries[x.device];
      assert FieldsValid(f);
      DeviceRowsIn(x.device, f, |f.keys|, limit, x);
      PrefixAll(f.keys);
      if x.sensor in f.entries {
        ReadingRowsIn(x.device, x.sensor, SliceFrom(f.entries[x.sensor], -limit), x);
      }
    }
  }

  /** At most `limit` rows, none for a zero limit; a negative limit drops that
      many rows from the end, as Python's `out[:limit]` does. */
  lemma RecentLength(t: Table, limit: int)
    requires TableListed(t)
    ensures limit >= 0 ==> |RecentRows(t, limit)| == Min(limit, |Candidates(t, limit)|)
    ensures limit == 0 ==> RecentRows(t, limit) == []
    ensures limit < 0 ==> |RecentRows(t, limit)| == |Candidates(t, limit)| - Min(-limit, |Candidates(t, limit)|)
  {
  }

  /** The rows are ordered newest first. */
  lemma RecentSorted(t: Table, limit: int)
    requires TableListed(t)
    ensures SortedDesc(RecentRows(t, limit))
  {
    var s := SortDesc(Candidates(t, limit));
    SortDescSorted(Candidates(t, limit));
    var r := RecentRows(t, limit);
    SliceToPrefix(s, limit);
  }

  /** Every row returned is a reading among the last `limit` of its own buffer;
      for a positive limit, among its buffer's newest `limit` readings. */
  lemma RecentFromTails(t: Table, limit: int, x: Row)
    requires Valid(t)
    ensures TableListed(t)
    ensures x in RecentRows(t, limit) ==> InTail(t, x, limit)
    ensures x in RecentRows(t, limit) && limit >= 1 ==>
      Reading(x.ts, x.value) in LastN(t.entries[x.device].entries[x.sensor], limit)
  {
    ValidListed(t);
    var c := Candidates(t, limit);
    var r := RecentRows(t, limit);
    if x in r {
      SliceToPrefix(SortDesc(c), limit);
      assert x in multiset(r);
      PrefixSubMultiset(SortDesc(c), |r|);
      assert x in multiset(c);
      CandidatesAreTails(t, limit, x);
      if limit >= 1 {
        SliceFromLast(t.entries[x.device].entries[x.sensor], limit);
      }
    }
  }

  lemma PrefixSubMultiset(s: seq<Row>, k: nat)
    requires k <= |s|
    ensures multiset(s) == multiset(s[..k]) + multiset(s[k..])
  {
    assert s == s[..k] + s[k..];
  }

  /** The rows returned are a sub-multiset of the candidates, and no candidate
      left out is newer than any row returned: the newest readings are kept. */
  lemma RecentKeepsNewest(t: Table, limit: int)
    requires TableListed(t)
    ensures multiset(RecentRows(t, limit)) <= multiset(Candidates(t, limit))
    ensures forall x: Row, i ::
      x in multiset(Candidates(t, limit)) - multiset(RecentRows(t, limit)) && 0 <= i < |RecentRows(t, limit)| ==>
        x.ts <= RecentRows(t, limit)[i].ts
  {
    var c := Candidates(t, limit);
    var s := SortDesc(c);
    var r := RecentRows(t, limit);
    var k := |r|;
    SliceToPrefix(s, limit);
    PrefixSubMultiset(s, k);
    SortDescSorted(c);
    forall x: Row, i | x in multiset(c) - multiset(r) && 0 <= i < k ensures x.ts <= r[i].ts {
      assert x in multiset(s[k..]);
      var j :| 0 <= j < |s[k..]| && s[k..][j] == x;
      assert s[k + j] == x;
    }
  }

  /** For a limit at least the number of candidates, every candidate is returned. */
  lemma RecentAll(t: Table, limit: int)
    requires TableListed(t)
    requires limit >= |Candidates(t, limit)|
    ensures multiset(RecentRows(t, limit)) == multiset(Candidates(t, limit))
  {
    var s := SortDesc(Candidates(t, limit));
    assert RecentRows(t, limit) == s;
  }

  /** Rows with equal timestamps come out in the order the loops produced them:
      at every timestamp the rows returned are a prefix of the candidates with
      that timestamp, in order. */
  lemma RecentKeepsTieOrder(t: Table, limit: int, ts: int)
    requires TableListed(t)
    ensures var w := WithTs(Candidates(t, limit), ts);
      var u := WithTs(RecentRows(t, limit), ts);
      |u| <= |w| && u == w[..|u|]
  {
    var c := Candidates(t, limit);
    var s := SortDesc(c);
    var r := RecentRows(t, limit);
    SliceToPrefix(s, limit);
    assert s == r + s[|r|..];
    WithTsConcat(r, s[|r|..], ts);
    SortDescStable(c, ts);
  }
}
