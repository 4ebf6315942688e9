/** `DataModel` of model.py: one sensor stream loaded once and then only read,
    indexed by timestamp (an absolute minute, see `Calendar.ToMinutes`). */
module Store {
  import opened Common

  /** One row of a stream: its timestamp and the rest of its columns. */
  datatype Entry<R> = Entry(ts: int, data: R)

  /** Timestamps never decrease along the rows (several rows may share one). */
  predicate Sorted<R>(rows: seq<Entry<R>>) {
    forall i, j :: 0 <= i < j < |rows| ==> rows[i].ts <= rows[j].ts
  }

  /** Timestamps strictly increase: at most one row per timestamp. */
  predicate UniqueSorted<R>(rows: seq<Entry<R>>) {
    forall i, j :: 0 <= i < j < |rows| ==> rows[i].ts < rows[j].ts
  }

  /** The rows with `start <= ts <= end`, in stored order. */
  function Between<R>(rows: seq<Entry<R>>, start: int, end: int): (r: seq<Entry<R>>)
    ensures |r| <= |rows|
  {
    if rows == [] then []
    else (if start <= rows[0].ts <= end then [rows[0]] else []) + Between(rows[1..], start, end)
  }

  /** The filter keeps exactly the rows inside the interval; so an interval
      holding no stored timestamp gives the empty sequence. */
  lemma {:induction false} BetweenMembers<R(!new)>(rows: seq<Entry<R>>, start: int, end: int)
    ensures forall e :: e in Between(rows, start, end) <==> e in rows && start <= e.ts <= end
    ensures (forall e :: e in rows ==> !(start <= e.ts <= end)) ==> Between(rows, start, end) == []
  {
    if rows != [] {
      BetweenMembers(rows[1..], start, end);
      assert forall e :: e in rows <==> e == rows[0] || e in rows[1..];
    }
  }

  /** Number of rows with a timestamp before `t`. */
  function CountBefore<R>(rows: seq<Entry<R>>, t: int): nat {
    if rows == [] then 0 else (if rows[0].ts < t then 1 else 0) + CountBefore(rows[1..], t)
  }

  /** Number of rows with a timestamp at or before `t`. */
  function CountUpTo<R>(rows: seq<Entry<R>>, t: int): nat {
    if rows == [] then 0 else (if rows[0].ts <= t then 1 else 0) + CountUpTo(rows[1..], t)
  }

  lemma {:induction false} SortedTail<R>(rows: seq<Entry<R>>)
    requires Sorted(rows) && rows != []
    ensures Sorted(rows[1..])
    ensures forall e :: e in rows[1..] ==> rows[0].ts <= e.ts
  {
    forall e | e in rows[1..] ensures rows[0].ts <= e.ts {
      var k :| 0 <= k < |rows[1..]| && rows[1..][k] == e;
      assert rows[k + 1] == e;
    }
  }

  lemma {:induction false} NoneBefore<R>(rows: seq<Entry<R>>, t: int)
    requires forall e :: e in rows ==> t <= e.ts
    ensures CountBefore(rows, t) == 0
  {
    if rows != [] {
      assert rows[0] in rows;
      assert forall e :: e in rows[1..] ==> e in rows;
      NoneBefore(rows[1..], t);
    }
  }

  lemma {:induction false} NoneUpTo<R>(rows: seq<Entry<R>>, t: int)
    requires forall e :: e in rows ==> t < e.ts
    ensures CountUpTo(rows, t) == 0
  {
    if rows != [] {
      assert rows[0] in rows;
      assert forall e :: e in rows[1..] ==> e in rows;
      NoneUpTo(rows[1..], t);
    }
  }

  /** The block of `rows[1..]`, as the induction hypothesis of `BetweenIsBlock` gives it. */
  ghost predicate TailBlock<R>(rows: seq<Entry<R>>, start: int, end: int)
    requires rows != []
  {
    var rest := rows[1..];
    && CountBefore(rest, start) <= CountUpTo(rest, end) <= |rest|
    && Between(rest, start, end) == rest[CountBefore(rest, start)..CountUpTo(rest, end)]
  }

  lemma BlockAfterHead<R>(rows: seq<Entry<R>>, start: int, end: int)
    requires rows != [] && rows[0].ts < start && start <= end && TailBlock(rows, start, end)
    ensures CountBefore(rows, start) <= CountUpTo(rows, end) <= |rows|
    ensures Between(rows, start, end) == rows[CountBefore(rows, start)..CountUpTo(rows, end)]
  {
    var rest := rows[1..];
    var lo, hi := CountBefore(rest, start), CountUpTo(rest, end);
    assert CountBefore(rows, start) == 1 + lo && CountUpTo(rows, end) == 1 + hi;
    assert rest[lo..hi] == rows[1 + lo..1 + hi];
  }

  lemma BlockFromHead<R>(rows: seq<Entry<R>>, start: int, end: int)
    requires rows != [] && start <= rows[0].ts <= end && TailBlock(rows, start, end)
    requires CountBefore(rows[1..], start) == 0
    ensures CountBefore(rows, start) <= CountUpTo(rows, end) <= |rows|
    ensures Between(rows, start, end) == rows[CountBefore(rows, start)..CountUpTo(rows, end)]
  {
    var rest := rows[1..];
    var hi := CountUpTo(rest, end);
    assert CountBefore(rows, start) == 0 && CountUpTo(rows, end) == 1 + hi;
    assert [rows[0]] + rest[..hi] == rows[..1 + hi];
  }

  /** On sorted rows the range is one contiguous block, bounded by the number
      of rows before `start` and the number up to `end`: what a binary search
      on a sorted index (pandas' `.loc[start:end]`) cuts out. */
  lemma {:induction false} BetweenIsBlock<R(!new)>(rows: seq<Entry<R>>, start: int, end: int)
    requires Sorted(rows) && start <= end
    ensures CountBefore(rows, start) <= CountUpTo(rows, end) <= |rows|
    ensures Between(rows, start, end) == rows[CountBefore(rows, start)..CountUpTo(rows, end)]
  {
    if rows != [] {
      var rest := rows[1..];
      SortedTail(rows);
      BetweenIsBlock(rest, start, end);
      if rows[0].ts < start {
        BlockAfterHead(rows, start, end);
      } else if rows[0].ts <= end {
        NoneBefore(rest, start);
        BlockFromHead(rows, start, end);
      } else {
        NoneBefore(rest, start);
        NoneUpTo(rest, end);
      }
    }
  }

  /** Filtering keeps the stored order, so sorted rows give a sorted result. */
  lemma {:induction false} BetweenSorted<R(!new)>(rows: seq<Entry<R>>, start: int, end: int)
    requires Sorted(rows)
    ensures Sorted(Between(rows, start, end))
  {
    if rows != [] {
      var rest := rows[1..];
      SortedTail(rows);
      BetweenSorted(rest, start, end);
      BetweenMembers(rest, start, end);
      var tail := Between(rest, start, end);
      if start <= rows[0].ts <= end {
        var r := [rows[0]] + tail;
        forall i, j | 0 <= i < j < |r| ensures r[i].ts <= r[j].ts {
          assert r[j] == tail[j - 1] && tail[j - 1] in tail;
          if i > 0 {
            assert r[i] == tail[i - 1];
          }
        }
      }
    }
  }

  /** A stream table whose rows are sorted by timestamp (`set_index` on the
      parsed DATE_TIME column of a time-ordered file). */
  datatype DataModel<R(!new)> = DataModel(rows: seq<Entry<R>>) {

    predicate Valid() {
      Sorted(rows)
    }

    /** Range form of `get_slice`: every row with `start <= ts <= end`, inclusive
        at both ends, in stored order; an interval holding no timestamp gives
        an empty result, never an error. */
    function GetSlice(start: int, end: int): (r: seq<Entry<R>>)
      requires Valid()
      ensures Sorted(r)
      ensures forall e :: e in r <==> e in rows && start <= e.ts <= end
      ensures (forall e :: e in rows ==> !(start <= e.ts <= end)) ==> r == []
      ensures start <= end ==> exists lo, hi :: 0 <= lo <= hi <= |rows| && r == rows[lo..hi]
    {
      BetweenSorted(rows, start, end);
      BetweenMembers(rows, start, end);
      var r := Between(rows, start, end);
      if start <= end then
        BetweenIsBlock(rows, start, end);
        r
      else
        r
    }

    /** Point form of `get_slice` (`.loc[ts]`): the rows stamped exactly `t`,
        the same rows as the range `[t, t]`; pandas raises `KeyError` when the
        index does not hold `t` at all. */
    function GetPoint(t: int): (r: Result<seq<Entry<R>>>)
      requires Valid()
      ensures r.Err? <==> forall e :: e in rows ==> e.ts != t
      ensures r.Err? ==> r.error == KeyNotFound
      ensures r.Ok? ==> r.value == GetSlice(t, t) && r.value != []
      ensures r.Ok? ==> forall e :: e in r.value <==> e in rows && e.ts == t
    {
      var block := GetSlice(t, t);
      if block == [] then Err(KeyNotFound)
      else
        assert block[0] in block;
        Ok(block)
    }
  }

  /** With at most one row per timestamp, a point range holds at most one row. */
  lemma {:induction false} BetweenUnique<R(!new)>(rows: seq<Entry<R>>, t: int)
    requires UniqueSorted(rows)
    ensures |Between(rows, t, t)| <= 1
  {
    if rows != [] {
      var rest := rows[1..];
      assert UniqueSorted(rest) by {
        forall i, j | 0 <= i < j < |rest| ensures rest[i].ts < rest[j].ts {
          assert rest[i] == rows[i + 1] && rest[j] == rows[j + 1];
        }
      }
      if rows[0].ts == t {
        forall e | e in rest ensures e.ts != t {
          var k :| 0 <= k < |rest| && rest[k] == e;
          assert rows[k + 1] == e;
        }
        BetweenMembers(rest, t, t);
      } else {
        BetweenUnique(rest, t);
      }
    }
  }

  /** In a stream with at most one row per timestamp, a successful point lookup
      is a single row. */
  lemma UniquePoint<R(!new)>(m: DataModel<R>, t: int)
    requires UniqueSorted(m.rows)
    ensures m.Valid()
    ensures m.GetPoint(t).Ok? ==> |m.GetPoint(t).value| == 1
  {
    BetweenUnique(m.rows, t);
  }
}
