/** The order of the recent-readings listing: Python's `list.sort` with
    `key=ts` and `reverse=True`, a stable sort by timestamp, newest first. */
module TsOrder {
  import opened Basics

  /** Timestamps never increase along `s`. */
  predicate SortedDesc(s: seq<Row>) {
    forall i, j :: 0 <= i < j < |s| ==> s[i].ts >= s[j].ts
  }

  /** The rows of `s` whose timestamp is `t`, in their order in `s`. */
  function WithTs(s: seq<Row>, t: int): seq<Row> {
    if s == [] then [] else (if s[0].ts == t then [s[0]] else []) + WithTs(s[1..], t)
  }

  /** `s` sorted newest first, where rows with equal timestamps keep their
      relative order: the specification of a stable descending sort. */
  ghost predicate StableSortOf(r: seq<Row>, s: seq<Row>) {
    SortedDesc(r) && forall t :: WithTs(r, t) == WithTs(s, t)
  }

  /** Inserts `x` into the descending `s` after every row at least as new as `x`. */
  function InsertDesc(x: Row, s: seq<Row>): (r: seq<Row>)
    ensures multiset(r) == multiset(s) + multiset{x}
    ensures |r| == |s| + 1
  {
    if s == [] || s[0].ts < x.ts then [x] + s
    else
      assert s == [s[0]] + s[1..];
      [s[0]] + InsertDesc(x, s[1..])
  }

  /** `sorted(s, key=ts, reverse=True)`, by insertion of each row in turn. */
  function SortDesc(s: seq<Row>): (r: seq<Row>)
    ensures multiset(r) == multiset(s)
    ensures |r| == |s|
  {
    if s == [] then []
    else
      assert s == s[..|s| - 1] + [s[|s| - 1]];
      InsertDesc(s[|s| - 1], SortDesc(s[..|s| - 1]))
  }

  /** No row of `s` is newer than `b`. */
  predicate NoNewerThan(s: seq<Row>, b: int) {
    forall i :: 0 <= i < |s| ==> s[i].ts <= b
  }

  /** Inserting a row no newer than `b` keeps every row no newer than `b`. */
  lemma {:induction false} InsertDescNoNewer(x: Row, s: seq<Row>, b: int)
    requires NoNewerThan(s, b) && x.ts <= b
    ensures NoNewerThan(InsertDesc(x, s), b)
  {
    if s != [] && s[0].ts >= x.ts {
      InsertDescNoNewer(x, s[1..], b);
      var r := InsertDesc(x, s[1..]);
      assert InsertDesc(x, s) == [s[0]] + r;
      forall i | 0 <= i < 1 + |r| ensures ([s[0]] + r)[i].ts <= b {
        if i > 0 {
          assert ([s[0]] + r)[i] == r[i - 1];
        }
      }
    }
  }

  /** A row at least as new as every row of a descending sequence can go first. */
  lemma ConsSorted(h: Row, r: seq<Row>)
    requires SortedDesc(r) && NoNewerThan(r, h.ts)
    ensures SortedDesc([h] + r)
  {
    forall i, j | 0 <= i < j < 1 + |r| ensures ([h] + r)[i].ts >= ([h] + r)[j].ts {
      assert ([h] + r)[j] == r[j - 1];
      if i > 0 {
        assert ([h] + r)[i] == r[i - 1];
      }
    }
  }

  /** A descending sequence has no row newer than its first. */
  lemma SortedNoNewer(s: seq<Row>)
    requires SortedDesc(s) && s != []
    ensures NoNewerThan(s[1..], s[0].ts)
  {
    forall i | 0 <= i < |s[1..]| ensures s[1..][i].ts <= s[0].ts {
      assert s[1..][i] == s[i + 1];
    }
  }

  lemma {:induction false} InsertDescSorted(x: Row, s: seq<Row>)
    requires SortedDesc(s)
    ensures SortedDesc(InsertDesc(x, s))
  {
    if s == [] || s[0].ts < x.ts {
      if s != [] {
        SortedNoNewer(s);
        assert NoNewerThan(s, x.ts) by {
          forall i | 0 <= i < |s| ensures s[i].ts <= x.ts {
            if i > 0 {
              assert s[i] == s[1..][i - 1];
            }
          }
        }
      }
      ConsSorted(x, s);
    } else {
      SortedTail(s);
      SortedNoNewer(s);
      InsertDescSorted(x, s[1..]);
      InsertDescNoNewer(x, s[1..], s[0].ts);
      ConsSorted(s[0], InsertDesc(x, s[1..]));
      assert InsertDesc(x, s) == [s[0]] + InsertDesc(x, s[1..]);
    }
  }

  /** The sort's result is ordered newest first. */
  lemma {:induction false} SortDescSorted(s: seq<Row>)
    ensures SortedDesc(SortDesc(s))
  {
    if s != [] {
      SortDescSorted(s[..|s| - 1]);
      InsertDescSorted(s[|s| - 1], SortDesc(s[..|s| - 1]));
    }
  }

  lemma {:induction false} WithTsConcat(a: seq<Row>, b: seq<Row>, t: int)
    ensures WithTs(a + b, t) == WithTs(a, t) + WithTs(b, t)
  {
    if a != [] {
      assert (a + b)[1..] == a[1..] + b;
      WithTsConcat(a[1..], b, t);
    } else {
      assert a + b == b;
    }
  }

  /** No row of `s` has timestamp `t` exactly when `WithTs(s, t)` is empty. */
  lemma {:induction false} WithTsEmpty(s: seq<Row>, t: int)
    ensures WithTs(s, t) == [] <==> forall i :: 0 <= i < |s| ==> s[i].ts != t
  {
    if s != [] {
      WithTsEmpty(s[1..], t);
      if WithTs(s, t) == [] {
        forall i | 0 <= i < |s| ensures s[i].ts != t {
          if i > 0 {
            assert s[i] == s[1..][i - 1];
          }
        }
      }
    }
  }

  /** `[x] + s` keeps `x` after the rows of `s` with its timestamp, because
      there are none when every row of `s` is older than `x`. */
  lemma InsertFrontStable(x: Row, s: seq<Row>, t: int)
    requires SortedDesc(s) && s != [] && s[0].ts < x.ts
    ensures WithTs([x] + s, t) == WithTs(s, t) + WithTs([x], t)
  {
    WithTsConcat([x], s, t);
    if x.ts == t {
      WithTsEmpty(s, t);
    }
  }

  lemma SortedTail(s: seq<Row>)
    requires SortedDesc(s) && s != []
    ensures SortedDesc(s[1..])
  {
    forall i, j | 0 <= i < j < |s[1..]| ensures s[1..][i].ts >= s[1..][j].ts {
      assert s[1..][i] == s[i + 1] && s[1..][j] == s[j + 1];
    }
  }

  /** `InsertDesc` passes over a head row at least as new as `x`. */
  lemma InsertDescPast(x: Row, s: seq<Row>)
    requires s != [] && s[0].ts >= x.ts
    ensures InsertDesc(x, s) == [s[0]] + InsertDesc(x, s[1..])
  {
  }

  /** The rows of `[h] + r` with timestamp `t`: `h` if it has it, then those of `r`. */
  lemma WithTsCons(h: Row, r: seq<Row>, t: int)
    ensures WithTs([h] + r, t) == (if h.ts == t then [h] else []) + WithTs(r, t)
  {
    assert ([h] + r)[1..] == r;
  }

  /** Inserting `x` puts it after every row of `s` with its own timestamp. */
  lemma {:induction false} InsertDescStable(x: Row, s: seq<Row>, t: int)
    requires SortedDesc(s)
    ensures WithTs(InsertDesc(x, s), t) == WithTs(s, t) + WithTs([x], t)
  {
    if s == [] {
    } else if s[0].ts < x.ts {
      InsertFrontStable(x, s, t);
    } else {
      var head := if s[0].ts == t then [s[0]] else [];
      var rest := InsertDesc(x, s[1..]);
      calc {
        WithTs(InsertDesc(x, s), t);
      == { InsertDescPast(x, s); }
        WithTs([s[0]] + rest, t);
      == { WithTsCons(s[0], rest, t); }
        head + WithTs(rest, t);
      == { SortedTail(s); InsertDescStable(x, s[1..], t); }
        head + (WithTs(s[1..], t) + WithTs([x], t));
      == { AppendAssoc(head, WithTs(s[1..], t), WithTs([x], t)); }
        head + WithTs(s[1..], t) + WithTs([x], t);
      == { WithTsCons(s[0], s[1..], t); assert [s[0]] + s[1..] == s; }
        WithTs(s, t) + WithTs([x], t);
      }
    }
  }

  /** The sort inserts the last row into the sorted rest. */
  lemma SortDescStep(s: seq<Row>)
    requires s != []
    ensures SortDesc(s) == InsertDesc(s[|s| - 1], SortDesc(s[..|s| - 1]))
  {
  }

  /** The sort is stable: rows with equal timestamps keep their relative order. */
  lemma {:induction false} SortDescStable(s: seq<Row>, t: int)
    ensures WithTs(SortDesc(s), t) == WithTs(s, t)
  {
    if s != [] {
      var init, x := s[..|s| - 1], s[|s| - 1];
      calc {
        WithTs(SortDesc(s), t);
      == { SortDescStep(s); }
        WithTs(InsertDesc(x, SortDesc(init)), t);
      == { SortDescSorted(init); InsertDescStable(x, SortDesc(init), t); }
        WithTs(SortDesc(init), t) + WithTs([x], t);
      == { SortDescStable(init, t); }
        WithTs(init, t) + WithTs([x], t);
      == { WithTsConcat(init, [x], t); }
        WithTs(init + [x], t);
      == { assert init + [x] == s; }
        WithTs(s, t);
      }
    }
  }

  /** `SortDesc` meets the specification of a stable descending sort. */
  lemma SortDescIsStableSort(s: seq<Row>)
    ensures StableSortOf(SortDesc(s), s)
  {
    SortDescSorted(s);
    forall t ensures WithTs(SortDesc(s), t) == WithTs(s, t) {
      SortDescStable(s, t);
    }
  }

  /** In a sequence sorted newest first no row is newer than the first. */
  lemma FirstIsNewest(r: seq<Row>, t: int)
    requires SortedDesc(r) && r != []
    requires WithTs(r, t) != []
    ensures t <= r[0].ts
  {
    WithTsEmpty(r, t);
  }

  /** The first row of a non-empty sequence is among the rows with its timestamp. */
  lemma WithTsHead(s: seq<Row>)
    ensures s != [] ==> WithTs(s, s[0].ts) != [] && WithTs(s, s[0].ts)[0] == s[0]
  {
  }

  /** Two sequences sorted newest first with the same rows at every timestamp,
      in the same order, are equal. */
  lemma {:induction false} StableSortUnique(r: seq<Row>, r': seq<Row>)
    requires SortedDesc(r) && SortedDesc(r')
    requires forall t :: WithTs(r, t) == WithTs(r', t)
    ensures r == r'
  {
    WithTsHead(r);
    WithTsHead(r');
    if r == [] || r' == [] {
    } else {
      FirstIsNewest(r, r'[0].ts);
      FirstIsNewest(r', r[0].ts);
      assert r[0] == r'[0] by {
        assert WithTs(r, r[0].ts) == WithTs(r', r'[0].ts);
      }
      forall t ensures WithTs(r[1..], t) == WithTs(r'[1..], t) {
        var head := if r[0].ts == t then [r[0]] else [];
        assert WithTs(r, t) == head + WithTs(r[1..], t);
        assert WithTs(r', t) == head + WithTs(r'[1..], t);
        assert WithTs(r[1..], t) == WithTs(r, t)[|head|..];
        assert WithTs(r'[1..], t) == WithTs(r', t)[|head|..];
      }
      StableSortUnique(r[1..], r'[1..]);
      assert r == [r[0]] + r[1..];
      assert r' == [r'[0]] + r'[1..];
    }
  }

  /** The stable descending sort of `s` is unique, so `SortDesc` is the order
      `list.sort(key=ts, reverse=True)` produces. */
  lemma StableSortIsSortDesc(r: seq<Row>, s: seq<Row>)
    requires StableSortOf(r, s)
    ensures r == SortDesc(s)
  {
    SortDescIsStableSort(s);
    StableSortUnique(r, SortDesc(s));
  }
}
