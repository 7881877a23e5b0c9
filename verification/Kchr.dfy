// KCHR keyboard layouts, and the tables that read them backwards.
module Kchr {
  import opened Bytes

  // A dead key types nothing by itself; it waits for the next character. `pairs` says which
  // character completes it and what is then typed instead; `noMatch` is for all other characters.
  datatype Completion = Completion(completor: byte, substitute: byte)
  datatype DeadKey = DeadKey(table: byte, keycode: byte, pairs: seq<Completion>, noMatch: uint16)

  // `tableOf` leads from a modifier value to a key table, a key table from a key code to a character.
  datatype Layout = Layout(tableOf: seq<byte>, tables: seq<seq<byte>>, deads: seq<DeadKey>)

  const KEYS := 0x80
  const NTABLES := 32
  const NO_MODIFIERS: byte := 0xff

  // The least the code asks of a layout. Its octets are signed chars, so that a table number of
  // 0x80 or more would be negative.
  ghost predicate Shaped(l: Layout) {
    && |l.tableOf| == 0x100
    && (forall m | 0 <= m < KEYS :: l.tableOf[m] < 0x80)
    && |l.tables| <= NTABLES
    && (forall t | 0 <= t < |l.tables| :: |l.tables[t]| == KEYS)
    && (forall i | 0 <= i < |l.deads| :: l.deads[i].table < NTABLES)
  }

  // ----- the packed resource -----

  function RecordSize(d: DeadKey): nat {
    6 + 2 * |d.pairs|
  }

  // How far the i-th dead key record is from the first one.
  function Offset(deads: seq<DeadKey>, i: nat): nat
    requires i <= |deads|
  {
    if i == 0 then 0 else Offset(deads, i - 1) + RecordSize(deads[i - 1])
  }

  ghost predicate RecordAt(s: seq<byte>, at: nat, d: DeadKey) {
    && at + RecordSize(d) <= |s|
    && s[at] == d.table && s[at + 1] == d.keycode
    && At16(s, at + 2) == |d.pairs|
    && (forall j | 0 <= j < |d.pairs| :: d.pairs[j] == Completion(s[at + 4 + 2 * j], s[at + 5 + 2 * j]))
    && At16(s, at + 4 + 2 * |d.pairs|) == d.noMatch
  }

  function TableAt(t: nat): nat {
    260 + KEYS * t
  }

  function RecordsStart(l: Layout): nat {
    TableAt(|l.tables|) + 2
  }

  // `s` starts with a version, the table of modifiers, the key tables and the dead key records.
  ghost predicate Packed(s: seq<byte>, l: Layout) {
    && RecordsStart(l) <= |s|
    && |l.tableOf| == 0x100 && (forall m | 0 <= m < 0x100 :: l.tableOf[m] == s[2 + m])
    && At16(s, 258) == |l.tables|
    && (forall t, k | 0 <= t < |l.tables| && 0 <= k < |l.tables[t]| ::
          |l.tables[t]| == KEYS && l.tables[t][k] == s[TableAt(t) + k])
    && At16(s, TableAt(|l.tables|)) == |l.deads|
    && (forall i | 0 <= i < |l.deads| :: RecordAt(s, RecordsStart(l) + Offset(l.deads, i), l.deads[i]))
  }

  // ----- first matches -----

  // What is known of table `t` once the modifier values below `n` have been seen.
  function LeastModifiers(tableOf: seq<byte>, n: nat, t: nat): byte
    requires n <= |tableOf| && n <= KEYS
  {
    if n == 0 then NO_MODIFIERS
    else
      var m := LeastModifiers(tableOf, n - 1, t);
      if m == NO_MODIFIERS && tableOf[n - 1] == t then n - 1 else m
  }

  lemma {:induction false} LeastModifiersAreLeast(tableOf: seq<byte>, n: nat, t: nat)
    requires n <= |tableOf| && n <= KEYS
    ensures var m := LeastModifiers(tableOf, n, t);
            || (m < n && tableOf[m] == t && forall i | 0 <= i < m :: tableOf[i] != t)
            || (m == NO_MODIFIERS && forall i | 0 <= i < n :: tableOf[i] != t)
  {
    if n != 0 {
      LeastModifiersAreLeast(tableOf, n - 1, t);
    }
  }

  // How many modifier values come before the first that asks for a table out of range.
  function Scanned(tableOf: seq<byte>, n: nat): nat
    requires n <= |tableOf| && n <= KEYS
    decreases KEYS - n
  {
    if n == KEYS || n == |tableOf| || tableOf[n] >= NTABLES then n else Scanned(tableOf, n + 1)
  }

  lemma {:induction false} ScannedIsFirst(tableOf: seq<byte>, n: nat)
    requires n <= KEYS <= |tableOf|
    ensures var m := Scanned(tableOf, n);
            && n <= m <= KEYS && (m < KEYS ==> tableOf[m] >= NTABLES)
            && (forall i | n <= i < m :: tableOf[i] < NTABLES)
    decreases KEYS - n
  {
    if n < KEYS && tableOf[n] < NTABLES {
      ScannedIsFirst(tableOf, n + 1);
    }
  }

  datatype Entry = Entry(valid: bool, table: byte, keycode: byte)
  datatype DeadSub = DeadSub(valid: bool, table: byte, deadkey: byte, compChar: byte)

  const NO_ENTRY := Entry(false, 0, 0)
  const NO_DEAD := DeadSub(false, 0, 0, 0)

  // The key that holds `c`, among the tables below `t` and the first `k` keys of table `t`.
  function FirstKey(tables: seq<seq<byte>>, t: nat, k: nat, c: byte): Entry
    requires t <= |tables| <= NTABLES && k <= KEYS
    requires forall u | 0 <= u < |tables| :: |tables[u]| == KEYS
    requires t == |tables| ==> k == 0
    decreases t, k
  {
    if k > 0 then
      var e := FirstKey(tables, t, k - 1, c);
      if !e.valid && tables[t][k - 1] == c then Entry(true, t, k - 1) else e
    else if t > 0 then FirstKey(tables, t - 1, KEYS, c)
    else NO_ENTRY
  }

  ghost predicate Earlier(t: int, k: int, u: int, v: int) {
    t < u || (t == u && k < v)
  }

  lemma {:induction false} FirstKeyIsFirst(tables: seq<seq<byte>>, t: nat, k: nat, c: byte)
    requires t <= |tables| <= NTABLES && k <= KEYS
    requires forall u | 0 <= u < |tables| :: |tables[u]| == KEYS
    requires t == |tables| ==> k == 0
    ensures var e := FirstKey(tables, t, k, c);
            if e.valid then
              && e.table < |tables| && e.keycode < KEYS && tables[e.table][e.keycode] == c
              && Earlier(e.table, e.keycode, t, k)
              && (forall u, v | 0 <= u < |tables| && 0 <= v < KEYS && Earlier(u, v, e.table, e.keycode) :: tables[u][v] != c)
            else
              && e == NO_ENTRY
              && (forall u, v | 0 <= u < |tables| && 0 <= v < KEYS && Earlier(u, v, t, k) :: tables[u][v] != c)
    decreases t, k
  {
    if k > 0 {
      FirstKeyIsFirst(tables, t, k - 1, c);
    } else if t > 0 {
      FirstKeyIsFirst(tables, t - 1, KEYS, c);
    }
  }

  // How to get `c` from a dead key, by the records below `i` and the first `j` pairs of record `i`.
  function FirstDead(deads: seq<DeadKey>, i: nat, j: nat, c: byte): DeadSub
    requires i <= |deads|
    requires if i < |deads| then j <= |deads[i].pairs| else j == 0
    decreases i, j
  {
    if j > 0 then
      var d := FirstDead(deads, i, j - 1, c);
      var pair := deads[i].pairs[j - 1];
      if !d.valid && pair.substitute == c then DeadSub(true, deads[i].table, deads[i].keycode, pair.completor) else d
    else if i > 0 then FirstDead(deads, i - 1, |deads[i - 1].pairs|, c)
    else NO_DEAD
  }

  ghost predicate IsPair(deads: seq<DeadKey>, i: int, j: int) {
    0 <= i < |deads| && 0 <= j < |deads[i].pairs|
  }

  lemma {:induction false} FirstDeadIsFirst(deads: seq<DeadKey>, i: nat, j: nat, c: byte) returns (a: nat, b: nat)
    requires i <= |deads|
    requires if i < |deads| then j <= |deads[i].pairs| else j == 0
    ensures var d := FirstDead(deads, i, j, c);
            if d.valid then
              && IsPair(deads, a, b) && Earlier(a, b, i, j)
              && d == DeadSub(true, deads[a].table, deads[a].keycode, deads[a].pairs[b].completor)
              && deads[a].pairs[b].substitute == c
              && (forall u, v | IsPair(deads, u, v) && Earlier(u, v, a, b) :: deads[u].pairs[v].substitute != c)
            else
              && d == NO_DEAD
              && (forall u, v | IsPair(deads, u, v) && Earlier(u, v, i, j) :: deads[u].pairs[v].substitute != c)
    decreases i, j
  {
    a, b := 0, 0;
    if j > 0 {
      a, b := FirstDeadIsFirst(deads, i, j - 1, c);
      if !FirstDead(deads, i, j - 1, c).valid {
        a, b := i, j - 1;
      }
    } else if i > 0 {
      a, b := FirstDeadIsFirst(deads, i - 1, |deads[i - 1].pairs|, c);
    }
  }

  // ----- the inverse of a whole layout -----

  datatype Index = Index(modifiers: seq<byte>, entries: seq<Entry>, deads: seq<DeadSub>)

  ghost predicate Whole(x: Index) {
    && |x.modifiers| == NTABLES && |x.entries| == 0x100 && |x.deads| == 0x100
    && (forall e <- x.entries :: e.table < NTABLES)
    && (forall d <- x.deads :: d.table < NTABLES)
  }

  function Modifiers(tableOf: seq<byte>, n: nat): seq<byte>
    requires n <= |tableOf| && n <= KEYS
  {
    seq(NTABLES, (t: nat) => LeastModifiers(tableOf, n, t))
  }

  lemma ModifiersStep(tableOf: seq<byte>, n: nat)
    requires n < |tableOf| && n < KEYS && tableOf[n] < NTABLES
    ensures Modifiers(tableOf, n + 1) ==
            var was := Modifiers(tableOf, n);
            if was[tableOf[n]] == NO_MODIFIERS then was[tableOf[n] := n] else was
  {
  }

  ghost function Entries(tables: seq<seq<byte>>, t: nat, k: nat): seq<Entry>
    requires t <= |tables| <= NTABLES && k <= KEYS
    requires forall u | 0 <= u < |tables| :: |tables[u]| == KEYS
    requires t == |tables| ==> k == 0
  {
    seq(0x100, c requires 0 <= c < 0x100 => FirstKey(tables, t, k, c))
  }

  ghost function Deads(deads: seq<DeadKey>, i: nat, j: nat): seq<DeadSub>
    requires i <= |deads|
    requires if i < |deads| then j <= |deads[i].pairs| else j == 0
  {
    seq(0x100, c requires 0 <= c < 0x100 => FirstDead(deads, i, j, c))
  }

  lemma EntriesStep(tables: seq<seq<byte>>, t: nat, k: nat)
    requires t < |tables| <= NTABLES && k < KEYS
    requires forall u | 0 <= u < |tables| :: |tables[u]| == KEYS
    ensures Entries(tables, t, k + 1) ==
            var was, c := Entries(tables, t, k), tables[t][k];
            if was[c].valid then was else was[c := Entry(true, t, k)]
    ensures Entries(tables, t + 1, 0) == Entries(tables, t, KEYS)
  {
  }

  lemma DeadsStep(deads: seq<DeadKey>, i: nat, j: nat)
    requires IsPair(deads, i, j)
    ensures Deads(deads, i, j + 1) ==
            var was, pair := Deads(deads, i, j), deads[i].pairs[j];
            if was[pair.substitute].valid then was
            else was[pair.substitute := DeadSub(true, deads[i].table, deads[i].keycode, pair.completor)]
  {
  }

  lemma DeadsNext(deads: seq<DeadKey>, i: nat)
    requires i < |deads|
    ensures Deads(deads, i + 1, 0) == Deads(deads, i, |deads[i].pairs|)
  {
  }

  ghost function Inverse(l: Layout): (x: Index)
    requires Shaped(l)
    ensures |x.modifiers| == NTABLES && |x.entries| == 0x100 && |x.deads| == 0x100
  {
    ScannedIsFirst(l.tableOf, 0);
    Index(Modifiers(l.tableOf, Scanned(l.tableOf, 0)), Entries(l.tables, |l.tables|, 0), Deads(l.deads, |l.deads|, 0))
  }

  lemma InverseIsWhole(l: Layout)
    requires Shaped(l)
    ensures Whole(Inverse(l))
  {
    var x := Inverse(l);
    forall c | 0 <= c < 0x100
      ensures x.entries[c].table < NTABLES && x.deads[c].table < NTABLES
    {
      FirstKeyIsFirst(l.tables, |l.tables|, 0, c);
      var a, b := FirstDeadIsFirst(l.deads, |l.deads|, 0, c);
    }
  }

  ghost predicate IsKey(tables: seq<seq<byte>>, t: int, k: int) {
    0 <= t < |tables| && 0 <= k < |tables[t]|
  }

  lemma EntryIsFirst(l: Layout, c: byte)
    requires Shaped(l)
    ensures var e := Inverse(l).entries[c];
            && (e.valid <==> exists t, k | IsKey(l.tables, t, k) :: l.tables[t][k] == c)
            && (e.valid ==>
                  && IsKey(l.tables, e.table, e.keycode) && l.tables[e.table][e.keycode] == c
                  && forall t, k | IsKey(l.tables, t, k) && l.tables[t][k] == c :: !Earlier(t, k, e.table, e.keycode))
            && (!e.valid ==> e == Entry(false, 0, 0))
  {
    FirstKeyIsFirst(l.tables, |l.tables|, 0, c);
    var e := FirstKey(l.tables, |l.tables|, 0, c);
    if e.valid {
      assert IsKey(l.tables, e.table, e.keycode);
    }
  }

  lemma DeadIsFirst(l: Layout, c: byte) returns (i: nat, j: nat)
    requires Shaped(l)
    ensures var d := Inverse(l).deads[c];
            && (d.valid <==> exists u, v | IsPair(l.deads, u, v) :: l.deads[u].pairs[v].substitute == c)
            && (d.valid ==>
                  && IsPair(l.deads, i, j) && l.deads[i].pairs[j].substitute == c
                  && d == DeadSub(true, l.deads[i].table, l.deads[i].keycode, l.deads[i].pairs[j].completor)
                  && forall u, v | IsPair(l.deads, u, v) && l.deads[u].pairs[v].substitute == c :: !Earlier(u, v, i, j))
            && (!d.valid ==> d == DeadSub(false, 0, 0, 0))
  {
    i, j := FirstDeadIsFirst(l.deads, |l.deads|, 0, c);
  }

  // The tables beyond the layout's, and those no modifier value below 0x80 leads to, get 0xff.
  lemma ModifiersLeadToTable(l: Layout, t: nat)
    requires Shaped(l) && t < 32
    requires forall m | 0 <= m < 0x80 :: l.tableOf[m] < 32
    ensures |Inverse(l).modifiers| == 32
    ensures var m := Inverse(l).modifiers[t];
            && (m == 0xff <==> forall i | 0 <= i < 0x80 :: l.tableOf[i] != t)
            && (m != 0xff ==> m < 0x80 && l.tableOf[m] == t && forall i | 0 <= i < m :: l.tableOf[i] != t)
  {
    ScannedIsFirst(l.tableOf, 0);
    LeastModifiersAreLeast(l.tableOf, KEYS, t);
  }

  // ----- the same, by the octets of the resource -----

  // Any modifier value below 0x80, at octet 2 + m, that leads to table t bounds the one that is used.
  lemma ModifiersInResource(s: seq<byte>, l: Layout, t: nat, m: nat)
    requires Shaped(l) && Packed(s, l) && m < 0x80 && s[2 + m] == t
    requires forall i | 2 <= i < 0x82 :: s[i] < 32
    ensures t < |Inverse(l).modifiers| == 32
    ensures Inverse(l).modifiers[t] <= m && s[2 + Inverse(l).modifiers[t]] == t
  {
    hide Inverse;
    forall i | 0 <= i < 0x80
      ensures l.tableOf[i] == s[2 + i] && l.tableOf[i] < 32
    {
      var j := 2 + i;
      assert s[j] < 32;
    }
    assert l.tableOf[m] == t;
    ModifiersLeadToTable(l, t);
  }

  // Any key that holds c, of the tables of 128 octets from octet 260 on, as many as octets 258 and 259
  // say, bounds the one that is used.
  lemma KeysInResource(s: seq<byte>, l: Layout, c: byte, t: nat, k: nat)
    requires Shaped(l) && Packed(s, l) && t < At16(s, 258) && k < 128 && s[260 + 128 * t + k] == c
    ensures var e := Inverse(l).entries[c];
            && e.valid && (e.table < t || (e.table == t && e.keycode <= k)) && e.keycode < 128
            && s[260 + 128 * e.table + e.keycode] == c
  {
    hide Inverse;
    EntryIsFirst(l, c);
    assert IsKey(l.tables, t, k) && l.tables[t][k] == s[TableAt(t) + k];
    var e := Inverse(l).entries[c];
    assert !Earlier(t, k, e.table, e.keycode);
    assert l.tables[e.table][e.keycode] == s[TableAt(e.table) + e.keycode];
  }

  // Where the i-th dead key record is: the first one is behind the tables and a count, and each says
  // how many pairs it has.
  function RecordPlace(s: seq<byte>, i: nat): nat {
    if i == 0 then
      if |s| < 260 then 0 else 262 + 128 * At16(s, 258)
    else
      var p := RecordPlace(s, i - 1);
      if |s| < p + 4 then p else p + 6 + 2 * At16(s, p + 2)
  }

  lemma PackedCounts(s: seq<byte>, l: Layout)
    requires Packed(s, l)
    ensures 262 + 128 * |l.tables| <= |s| && At16(s, 258) == |l.tables|
    ensures At16(s, 260 + 128 * |l.tables|) == |l.deads|
  {
    hide RecordAt, Offset;
  }

  lemma PackedRecord(s: seq<byte>, l: Layout, i: nat)
    requires Packed(s, l) && i < |l.deads|
    ensures RecordAt(s, 262 + 128 * |l.tables| + Offset(l.deads, i), l.deads[i])
  {
    hide RecordAt, Offset;
  }

  lemma {:induction false} RecordPlaced(s: seq<byte>, l: Layout, i: nat)
    requires Packed(s, l) && i < |l.deads|
    ensures RecordPlace(s, i) == 262 + 128 * |l.tables| + Offset(l.deads, i)
    ensures RecordAt(s, RecordPlace(s, i), l.deads[i])
  {
    hide RecordAt, Packed;
    PackedCounts(s, l);
    if i > 0 {
      RecordPlaced(s, l, i - 1);
      RecordHeader(s, RecordPlace(s, i - 1), l.deads[i - 1]);
    }
    PackedRecord(s, l, i);
  }

  // Any pair that types c bounds the one that is used. A record has the table, the key code, the
  // number of pairs, and then the pairs, the completing character in front.
  lemma DeadsInResource(s: seq<byte>, l: Layout, c: byte, i: nat, j: nat) returns (a: nat, b: nat)
    requires Shaped(l) && Packed(s, l)
    requires 2 <= RecordPlace(s, 0) <= |s| && i < At16(s, RecordPlace(s, 0) - 2)
    requires var p := RecordPlace(s, i); p + 6 + 2 * j <= |s| && j < At16(s, p + 2) && s[p + 5 + 2 * j] == c
    ensures a < i || (a == i && b <= j)
    ensures var p := RecordPlace(s, a);
            && p + 6 + 2 * b <= |s| && s[p + 5 + 2 * b] == c
            && Inverse(l).deads[c] == DeadSub(true, s[p], s[p + 1], s[p + 4 + 2 * b])
  {
    hide Inverse, RecordAt, Packed, Shaped;
    PackedCounts(s, l);
    RecordPlaced(s, l, i);
    RecordHeader(s, RecordPlace(s, i), l.deads[i]);
    RecordPair(s, RecordPlace(s, i), l.deads[i], j);
    assert IsPair(l.deads, i, j);
    a, b := DeadIsFirst(l, c);
    RecordPlaced(s, l, a);
    RecordHeader(s, RecordPlace(s, a), l.deads[a]);
    RecordPair(s, RecordPlace(s, a), l.deads[a], b);
  }

  // ----- building it -----

  method BuildTableTable(kchr: array<byte>, output: array<byte>, ghost l: Layout) returns (tooMany: bool)
    requires Shaped(l) && Packed(kchr[..], l) && kchr != output && output.Length == NTABLES
    modifies output
    ensures Scanned(l.tableOf, 0) <= KEYS
    ensures output[..] == Modifiers(l.tableOf, Scanned(l.tableOf, 0))
    ensures tooMany <==> exists m | 0 <= m < KEYS :: l.tableOf[m] >= NTABLES
  {
    ScannedIsFirst(l.tableOf, 0);
    ghost var tableOf := l.tableOf;
    assert forall m | 0 <= m < KEYS :: kchr[2 + m] == kchr[..][2 + m] == tableOf[m];
    assert kchr.Length >= 260;
    hide Packed, Shaped;
    var cursor := 2;
    forall t | 0 <= t < NTABLES {
      output[t] := NO_MODIFIERS;
    }
    assert output[..] == Modifiers(tableOf, 0);
    var i: nat := 0;
    while i < KEYS
      invariant 0 <= i <= KEYS
      invariant Scanned(tableOf, 0) == Scanned(tableOf, i)
      invariant output[..] == Modifiers(tableOf, i)
    {
      assert kchr[cursor + i] == tableOf[i];
      if kchr[cursor + i] >= NTABLES {
        return true;
      }
      var table := kchr[cursor + i];
      assert output[table] == output[..][table];
      ghost var was := output[..];
      if output[table] == NO_MODIFIERS {
        output[table] := i;
        assert output[..] == was[table := output[table]];
      }
      ModifiersStep(tableOf, i);
      i := i + 1;
    }
    return false;
  }

  lemma NoEntries(tables: seq<seq<byte>>)
    requires |tables| <= NTABLES
    requires forall u | 0 <= u < |tables| :: |tables[u]| == KEYS
    ensures Entries(tables, 0, 0) == seq(0x100, c => NO_ENTRY)
  {
  }

  method BuildCharTable(kchr: array<byte>, entries: array<Entry>, ghost l: Layout)
    requires Shaped(l) && Packed(kchr[..], l) && entries.Length == 0x100
    modifies entries
    ensures entries[..] == Entries(l.tables, |l.tables|, 0)
  {
    ghost var tables := l.tables;
    forall t, k | 0 <= t < |tables| && 0 <= k < KEYS
      ensures TableAt(t) + k < kchr.Length && tables[t][k] == kchr[TableAt(t) + k]
    {
      assert tables[t][k] == kchr[..][TableAt(t) + k];
    }
    assert kchr.Length >= TableAt(|tables|) && Join16(kchr[258], kchr[259]) == |tables|;
    hide Packed, FirstKey;
    forall c | 0 <= c < 0x100 {
      entries[c] := NO_ENTRY;
    }
    NoEntries(tables);
    assert entries[..] == Entries(tables, 0, 0);

    var cursor := 0;
    cursor := cursor + 2;
    cursor := cursor + 0x100;
    var tableCount := Join16(kchr[cursor], kchr[cursor + 1]);
    cursor := cursor + 2;
    var table: nat := 0;
    while table < tableCount
      invariant 0 <= table <= tableCount == |tables|
      invariant cursor == TableAt(table)
      invariant entries[..] == Entries(tables, table, 0)
    {
      var key := 0;
      while key < KEYS
        invariant 0 <= key <= KEYS
        invariant entries[..] == Entries(tables, table, key)
      {
        var character := kchr[cursor + key];
        assert character == tables[table][key];
        EntriesStep(tables, table, key);
        assert entries[character] == entries[..][character];
        if !entries[character].valid {
          entries[character] := Entry(true, table, key);
        }
        key := key + 1;
      }
      EntriesStep(tables, table, 0);
      cursor := cursor + KEYS;
      table := table + 1;
    }
  }

  lemma RecordHeader(s: seq<byte>, at: nat, d: DeadKey)
    requires RecordAt(s, at, d)
    ensures at + 4 <= |s| && s[at] == d.table && s[at + 1] == d.keycode && Join16(s[at + 2], s[at + 3]) == |d.pairs|
  {
  }

  lemma RecordPair(s: seq<byte>, at: nat, d: DeadKey, j: nat)
    requires RecordAt(s, at, d) && j < |d.pairs|
    ensures at + 6 + 2 * j <= |s| && d.pairs[j] == Completion(s[at + 4 + 2 * j], s[at + 5 + 2 * j])
  {
  }

  lemma OffsetNext(deads: seq<DeadKey>, i: nat)
    requires i < |deads|
    ensures Offset(deads, i + 1) == Offset(deads, i) + 6 + 2 * |deads[i].pairs|
  {
  }

  method Clear(entries: array<DeadSub>, ghost deads: seq<DeadKey>)
    requires entries.Length == 0x100
    modifies entries
    ensures entries[..] == Deads(deads, 0, 0)
  {
    forall c | 0 <= c < 0x100 {
      entries[c] := NO_DEAD;
    }
  }

  lemma Counts(s: seq<byte>, l: Layout)
    requires Packed(s, l)
    ensures 262 + KEYS * |l.tables| <= |s| && Offset(l.deads, 0) == 0
    ensures At16(s, 258) == |l.tables|
    ensures At16(s, 260 + KEYS * |l.tables|) == |l.deads|
  {
  }

  lemma RecordFound(s: seq<byte>, l: Layout, i: nat)
    requires Packed(s, l) && i < |l.deads|
    ensures RecordAt(s, RecordsStart(l) + Offset(l.deads, i), l.deads[i])
  {
  }

  // The cursor ends where the last record does.
  method BuildDeadTable(kchr: array<byte>, entries: array<DeadSub>, ghost l: Layout) returns (cursor: nat)
    requires Shaped(l) && Packed(kchr[..], l) && entries.Length == 0x100
    modifies entries
    ensures entries[..] == Deads(l.deads, |l.deads|, 0)
    ensures cursor == RecordsStart(l) + Offset(l.deads, |l.deads|)
  {
    hide Packed, RecordAt, Deads, Offset, Shaped, RecordSize;
    ghost var deads, start, s := l.deads, RecordsStart(l), kchr[..];
    Counts(s, l);
    Clear(entries, deads);

    cursor := 0;
    cursor := cursor + 2;
    cursor := cursor + 0x100;
    var tableCount := Join16(kchr[cursor], kchr[cursor + 1]);
    cursor := cursor + 2;
    cursor := cursor + tableCount * KEYS;
    var deadCount := Join16(kchr[cursor], kchr[cursor + 1]);
    cursor := cursor + 2;
    var i: nat := 0;
    while i < deadCount
      invariant 0 <= i <= deadCount == |deads|
      invariant cursor == start + Offset(deads, i)
      invariant entries[..] == Deads(deads, i, 0)
    {
      RecordFound(s, l, i);
      ghost var at, dead := cursor, deads[i];
      RecordHeader(s, at, dead);
      var deadTable := kchr[cursor];
      cursor := cursor + 1;
      var deadKeycode := kchr[cursor];
      cursor := cursor + 1;
      var completorCount := Join16(kchr[cursor], kchr[cursor + 1]);
      cursor := cursor + 2;
      var j: nat := 0;
      while j < completorCount
        invariant 0 <= j <= completorCount == |dead.pairs|
        invariant cursor == at + 4 + 2 * j
        invariant entries[..] == Deads(deads, i, j)
      {
        RecordPair(s, at, dead, j);
        var completor := kchr[cursor];
        cursor := cursor + 1;
        var substitute := kchr[cursor];
        cursor := cursor + 1;
        DeadsStep(deads, i, j);
        ghost var was := entries[..];
        if !entries[substitute].valid {
          entries[substitute] := DeadSub(true, deadTable, deadKeycode, completor);
          assert entries[..] == was[substitute := entries[substitute]];
        }
        j := j + 1;
      }
      DeadsNext(deads, i);
      cursor := cursor + 2;
      OffsetNext(deads, i);
      i := i + 1;
    }
  }

  // ----- the state, and reading it -----

  datatype Vkeypress = Vkeypress(valid: bool, modifiers: byte, keycode: byte)
  datatype Keypresses = Keypresses(fst: Vkeypress, snd: Vkeypress)

  const NO_KEY := Vkeypress(false, 0, 0)

  function KeysForChar(x: Index, c: byte): Keypresses
    requires Whole(x)
  {
    var e, d := x.entries[c], x.deads[c];
    if e.valid then
      Keypresses(Vkeypress(true, x.modifiers[e.table], e.keycode), NO_KEY)
    else if d.valid then
      var e2 := x.entries[d.compChar];
      Keypresses(Vkeypress(true, x.modifiers[d.table], d.deadkey), Vkeypress(true, x.modifiers[e2.table], e2.keycode))
    else
      Keypresses(NO_KEY, NO_KEY)
  }

  class KchrState {
    const modifiers: array<byte>
    const entries: array<Entry>
    const deads: array<DeadSub>

    constructor ()
      ensures Valid() && fresh(modifiers) && fresh(entries) && fresh(deads)
    {
      modifiers := new byte[NTABLES];
      entries := new Entry[0x100];
      deads := new DeadSub[0x100];
    }

    ghost predicate Valid() {
      modifiers.Length == NTABLES && entries.Length == 0x100 && deads.Length == 0x100
    }

    function Now(): Index
      reads modifiers, entries, deads
    {
      Index(modifiers[..], entries[..], deads[..])
    }

    // Inverts the layout in the kernel's buffer, fetched 96 octets at a time. The result of
    // building the first table is not looked at.
    method KchrLoad(transData: seq<byte>, ghost l: Layout)
      requires Valid() && |transData| == 3072 && Shaped(l) && Packed(transData, l)
      modifies modifiers, entries, deads
      ensures Now() == Inverse(l)
    {
      var kchr := new byte[3072];
      var dst: nat := 0;
      var i: nat := 0;
      while i < 32
        invariant i <= 32 && dst == 96 * i
        invariant kchr[..dst] == transData[..dst]
        modifies kchr
      {
        forall k | 0 <= k < 96 {
          kchr[dst + k] := transData[96 * i + k];
        }
        dst := dst + 96;
        i := i + 1;
      }
      assert kchr[..] == transData;
      var tooMany := BuildTableTable(kchr, modifiers, l);
      BuildCharTable(kchr, entries, l);
      var end := BuildDeadTable(kchr, deads, l);
    }
  }
}
