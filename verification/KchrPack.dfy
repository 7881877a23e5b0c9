// Writing a layout out as a resource; the resource then says what the layout was.
module KchrPack {
  import opened Bytes
  import opened Kchr

  ghost predicate Short(deads: seq<DeadKey>) {
    forall i | 0 <= i < |deads| :: |deads[i].pairs| < 0x1_0000
  }

  ghost predicate Packable(l: Layout) {
    Shaped(l) && |l.deads| < 0x1_0000 && Short(l.deads)
  }

  function PackPairs(pairs: seq<Completion>): (s: seq<byte>)
    ensures |s| == 2 * |pairs|
    ensures forall j | 0 <= j < |pairs| :: pairs[j] == Completion(s[2 * j], s[2 * j + 1])
  {
    if pairs == [] then []
    else
      var n := |pairs| - 1;
      PackPairs(pairs[..n]) + [pairs[n].completor, pairs[n].substitute]
  }

  function PackRecord(d: DeadKey): (s: seq<byte>)
    ensures |s| == RecordSize(d)
  {
    [d.table, d.keycode] + Put16(|d.pairs| % 0x1_0000) + PackPairs(d.pairs) + Put16(d.noMatch)
  }

  function PackRecords(deads: seq<DeadKey>): seq<byte> {
    if deads == [] then [] else PackRecords(deads[..|deads| - 1]) + PackRecord(deads[|deads| - 1])
  }

  function PackTables(tables: seq<seq<byte>>): seq<byte> {
    if tables == [] then [] else PackTables(tables[..|tables| - 1]) + tables[|tables| - 1]
  }

  ghost function Pack(l: Layout, version: uint16): seq<byte>
    requires Packable(l)
  {
    Put16(version) + l.tableOf + Put16(|l.tables|) + PackTables(l.tables) + Put16(|l.deads|) + PackRecords(l.deads)
  }

  lemma Assembled(d: DeadKey, head: seq<byte>, q: seq<byte>, last: seq<byte>, r: seq<byte>)
    requires r == head + q + last
    requires |head| == 4 && head[0] == d.table && head[1] == d.keycode && Join16(head[2], head[3]) == |d.pairs|
    requires |last| == 2 && Join16(last[0], last[1]) == d.noMatch
    requires |q| == 2 * |d.pairs| && forall j | 0 <= j < |d.pairs| :: d.pairs[j] == Completion(q[2 * j], q[2 * j + 1])
    ensures RecordAt(r, 0, d)
  {
    hide Join16;
    forall j | 0 <= j < |d.pairs|
      ensures d.pairs[j] == Completion(r[4 + 2 * j], r[5 + 2 * j])
    {
    }
  }

  lemma AlonePacked(d: DeadKey)
    requires |d.pairs| < 0x1_0000
    ensures RecordAt(PackRecord(d), 0, d)
  {
    hide RecordAt, PackPairs, Put16, Join16, RecordSize;
    var count := Put16(|d.pairs|);
    var head := [d.table, d.keycode] + count;
    JoinPut16(|d.pairs|);
    JoinPut16(d.noMatch);
    assert head[2] == count[0] && head[3] == count[1];
    Assembled(d, head, PackPairs(d.pairs), Put16(d.noMatch), PackRecord(d));
  }

  lemma Shifted(p: seq<byte>, r: seq<byte>, rest: seq<byte>, d: DeadKey)
    requires RecordAt(r, 0, d)
    ensures RecordAt(p + r + rest, |p|, d)
  {
    var s := p + r + rest;
    assert forall k | 0 <= k < |r| :: s[|p| + k] == r[k];
  }

  lemma OnePacked(p: seq<byte>, d: DeadKey, rest: seq<byte>)
    requires |d.pairs| < 0x1_0000
    ensures RecordAt(p + PackRecord(d) + rest, |p|, d)
  {
    hide RecordAt, PackRecord;
    AlonePacked(d);
    Shifted(p, PackRecord(d), rest, d);
  }

  lemma {:induction false} SameOffset(a: seq<DeadKey>, b: seq<DeadKey>, i: nat)
    requires i <= |a| && i <= |b| && a[..i] == b[..i]
    ensures Offset(a, i) == Offset(b, i)
  {
    if i > 0 {
      assert a[..i][i - 1] == b[..i][i - 1];
      assert a[..i - 1] == a[..i][..i - 1] == b[..i][..i - 1] == b[..i - 1];
      SameOffset(a, b, i - 1);
    }
  }

  lemma EmptyPacked()
    ensures PackRecords([]) == [] && Offset([], 0) == 0
  {
  }

  lemma PackRecordsSnoc(init: seq<DeadKey>, last: DeadKey)
    ensures PackRecords(init + [last]) == PackRecords(init) + PackRecord(last)
  {
    hide PackRecord;
    assert (init + [last])[..|init|] == init;
  }

  lemma OffsetSnoc(init: seq<DeadKey>, last: DeadKey)
    ensures Offset(init + [last], |init| + 1) == Offset(init, |init|) + RecordSize(last)
    ensures forall i | 0 <= i <= |init| :: Offset(init + [last], i) == Offset(init, i)
  {
    var deads := init + [last];
    forall i | 0 <= i <= |init|
      ensures Offset(deads, i) == Offset(init, i)
    {
      assert init[..i] == deads[..i];
      SameOffset(init, deads, i);
    }
  }

  lemma {:induction false} RecordsPacked(p: seq<byte>, deads: seq<DeadKey>, rest: seq<byte>)
    requires Short(deads)
    ensures |PackRecords(deads)| == Offset(deads, |deads|)
    ensures forall i | 0 <= i < |deads| :: RecordAt(p + PackRecords(deads) + rest, |p| + Offset(deads, i), deads[i])
    decreases deads
  {
    hide RecordAt, PackRecord, RecordSize, PackRecords, Offset;
    if deads == [] {
      EmptyPacked();
    } else {
      var n := |deads| - 1;
      var init, last := deads[..n], deads[n];
      assert deads == init + [last];
      PackRecordsSnoc(init, last);
      OffsetSnoc(init, last);
      RecordsPacked(p, init, PackRecord(last) + rest);
      OnePacked(p + PackRecords(init), last, rest);
      var s := p + PackRecords(deads) + rest;
      assert s == p + PackRecords(init) + (PackRecord(last) + rest);
      assert s == (p + PackRecords(init)) + PackRecord(last) + rest;
    }
  }

  lemma {:induction false} TablesPacked(tables: seq<seq<byte>>)
    requires forall t | 0 <= t < |tables| :: |tables[t]| == KEYS
    ensures |PackTables(tables)| == KEYS * |tables|
    ensures forall t, k | 0 <= t < |tables| && 0 <= k < |tables[t]| :: tables[t][k] == PackTables(tables)[KEYS * t + k]
  {
    if tables != [] {
      var init := tables[..|tables| - 1];
      TablesPacked(init);
      forall t, k | 0 <= t < |tables| && 0 <= k < |tables[t]|
        ensures tables[t][k] == PackTables(tables)[KEYS * t + k]
      {
        if t < |init| {
          assert init[t][k] == PackTables(init)[KEYS * t + k];
        }
      }
    }
  }

  // A packed layout can be read back, whatever version it carries and whatever follows it.
  lemma PackedReadsBack(l: Layout, version: uint16, rest: seq<byte>)
    requires Packable(l)
    ensures Packed(Pack(l, version) + rest, l)
  {
    hide RecordAt, Offset, PackRecords, PackTables, PackRecord;
    var s := Pack(l, version) + rest;
    TablesPacked(l.tables);
    JoinPut16(|l.tables|);
    JoinPut16(|l.deads|);
    var head := Put16(version) + l.tableOf + Put16(|l.tables|);
    var upTo := head + PackTables(l.tables) + Put16(|l.deads|);
    RecordsPacked(upTo, l.deads, rest);
    assert s == upTo + PackRecords(l.deads) + rest;
    forall t, k | 0 <= t < |l.tables| && 0 <= k < |l.tables[t]|
      ensures l.tables[t][k] == s[TableAt(t) + k]
    {
      assert l.tables[t][k] == PackTables(l.tables)[KEYS * t + k];
    }
  }

  // No resource packs two layouts.
  lemma PackedOnce(s: seq<byte>, l: Layout, m: Layout)
    requires Shaped(l) && Shaped(m) && Packed(s, l) && Packed(s, m)
    ensures l == m
  {
    hide RecordAt, Offset;
    forall t | 0 <= t < |l.tables|
      ensures l.tables[t] == m.tables[t]
    {
      forall k | 0 <= k < KEYS
        ensures l.tables[t][k] == m.tables[t][k]
      {
        assert l.tables[t][k] == s[TableAt(t) + k] == m.tables[t][k];
      }
    }
    RecordsOnce(s, RecordsStart(l), l.deads, m.deads, |l.deads|);
    assert l.deads[..|l.deads|] == l.deads && m.deads[..|m.deads|] == m.deads;
  }

  lemma {:induction false} RecordsOnce(s: seq<byte>, start: nat, a: seq<DeadKey>, b: seq<DeadKey>, n: nat)
    requires n <= |a| && n <= |b|
    requires forall i | 0 <= i < |a| :: RecordAt(s, start + Offset(a, i), a[i])
    requires forall i | 0 <= i < |b| :: RecordAt(s, start + Offset(b, i), b[i])
    ensures a[..n] == b[..n]
  {
    hide RecordAt, Offset;
    if n > 0 {
      RecordsOnce(s, start, a, b, n - 1);
      SameOffset(a, b, n - 1);
      var at := start + Offset(a, n - 1);
      assert RecordAt(s, at, a[n - 1]) && RecordAt(s, at, b[n - 1]);
      SameRecord(s, at, a[n - 1], b[n - 1]);
      assert a[..n] == a[..n - 1] + [a[n - 1]];
      assert b[..n] == b[..n - 1] + [b[n - 1]];
    }
  }

  lemma SameRecord(s: seq<byte>, at: nat, d: DeadKey, e: DeadKey)
    requires RecordAt(s, at, d) && RecordAt(s, at, e)
    ensures d == e
  {
    assert |d.pairs| == |e.pairs|;
    forall j | 0 <= j < |d.pairs|
      ensures d.pairs[j] == e.pairs[j]
    {
      assert d.pairs[j] == Completion(s[at + 4 + 2 * j], s[at + 5 + 2 * j]) == e.pairs[j];
    }
  }
}
