/**
  The CSV table of table.rs: the four header rows with the column indexer,
  built once from the bus database, and the grid of one chunk of decoded
  messages, one row per time bin and one column per (message, signal).
*/
module Table {
  import opened Base
  import Parse
  import Sorting

  // ---------------------------------------------------------------------------
  // Bus database, as the header builder reads it
  // ---------------------------------------------------------------------------

  /** An 11-bit identifier is stored by the database as a `u16`. */
  type u16 = x: int | 0 <= x < 0x1_0000

  datatype MessageId = Standard(std: u16) | Extended(ext: u32)

  datatype Transmitter = NodeName(node: string) | VectorXXX

  /** A message definition: its id, its name, its transmitter and its signal names in declaration order. */
  datatype MessageDef = MessageDef(id: MessageId, name: string, transmitter: Transmitter, signals: seq<string>)

  /** The sort key of the message definitions: the numeric id, a standard id widened to u32. */
  function NumericId(m: MessageDef): int {
    match m.id
    case Standard(id) => id
    case Extended(id) => id
  }

  /** The node row's entry for a message: its transmitter's name, "N/A" when there is none. */
  function NodeLabel(t: Transmitter): string {
    match t
    case NodeName(n) => n
    case VectorXXX => "N/A"
  }

  /** Every column of the header is on the one bus. */
  const BUS_ID: string := "Main"

  // ---------------------------------------------------------------------------
  // Column keys
  // ---------------------------------------------------------------------------

  /** The indexer key of a signal: `format!("{}|{}", message, signal)`. */
  function Key(message: string, signal: string): string {
    message + "|" + signal
  }

  /** Within one message, different signals have different keys. */
  lemma KeySameMessage(message: string, s1: string, s2: string)
    ensures Key(message, s1) == Key(message, s2) <==> s1 == s2
  {
    if Key(message, s1) == Key(message, s2) {
      var n := |message| + 1;
      assert s1 == Key(message, s1)[n..];
      assert s2 == Key(message, s2)[n..];
    }
  }

  /**
    The key string identifies the (message, signal) pair when message names
    hold no '|': the first '|' of a key ends its message name.
  */
  lemma KeyInjective(m1: string, s1: string, m2: string, s2: string)
    requires '|' !in m1 && '|' !in m2
    ensures Key(m1, s1) == Key(m2, s2) <==> m1 == m2 && s1 == s2
  {
    var k1, k2 := Key(m1, s1), Key(m2, s2);
    if k1 == k2 {
      FirstBar(m1, s1);
      FirstBar(m2, s2);
      assert |m1| == |m2|;
      assert m1 == k1[..|m1|] && m2 == k2[..|m2|];
      KeySameMessage(m1, s1, s2);
    }
  }

  /** In the key of a message name without '|', the first '|' follows the name. */
  lemma FirstBar(m: string, s: string)
    requires '|' !in m
    ensures Key(m, s)[|m|] == '|'
    ensures forall i :: 0 <= i < |m| ==> Key(m, s)[i] != '|'
  {
    assert forall i :: 0 <= i < |m| ==> Key(m, s)[i] == m[i];
  }

  // ---------------------------------------------------------------------------
  // Header columns
  // ---------------------------------------------------------------------------

  /** One column of the header: what the bus, node, message and signal rows hold at its index. */
  datatype Column = Column(bus: string, node: string, message: string, signal: string)

  /** Column 0: the row labels. */
  const LABELS: Column := Column("Bus", "Node", "Message", "Signal")

  function KeyOf(c: Column): string {
    Key(c.message, c.signal)
  }

  /** The columns of one message definition, one per signal in declaration order. */
  function SignalColumns(m: MessageDef): seq<Column> {
    seq(|m.signals|, j requires 0 <= j < |m.signals| => Column(BUS_ID, NodeLabel(m.transmitter), m.name, m.signals[j]))
  }

  /** Every (message, signal) pair the two loops of create_header visit, in visit order. */
  function Visits(defs: seq<MessageDef>): seq<Column> {
    if defs == [] then [] else Visits(defs[..|defs| - 1]) + SignalColumns(defs[|defs| - 1])
  }

  /** The keys of some columns. */
  function KeysOf(cs: seq<Column>): set<string> {
    set c | c in cs :: KeyOf(c)
  }

  /**
    The visited columns that receive a fresh index: a visit whose key is in
    `seen` (the indexer before the call) or already indexed by an earlier
    visit is skipped.
  */
  function Fresh(vs: seq<Column>, seen: set<string>): seq<Column>
    decreases |vs|
  {
    if vs == [] then []
    else
      var prev, c := Fresh(vs[..|vs| - 1], seen), vs[|vs| - 1];
      if KeyOf(c) in seen || KeyOf(c) in KeysOf(prev) then prev else prev + [c]
  }

  /** The indexer entries of fresh columns: the key of the `i`-th gets `i + 1`. */
  function Numbered(cs: seq<Column>): map<string, nat>
    decreases |cs|
  {
    if cs == [] then map[] else Numbered(cs[..|cs| - 1])[KeyOf(cs[|cs| - 1]) := |cs|]
  }

  // The four header rows as projections of the columns.
  function Buses(cs: seq<Column>): seq<string> { seq(|cs|, i requires 0 <= i < |cs| => cs[i].bus) }
  function Nodes(cs: seq<Column>): seq<string> { seq(|cs|, i requires 0 <= i < |cs| => cs[i].node) }
  function Messages(cs: seq<Column>): seq<string> { seq(|cs|, i requires 0 <= i < |cs| => cs[i].message) }
  function Signals(cs: seq<Column>): seq<string> { seq(|cs|, i requires 0 <= i < |cs| => cs[i].signal) }

  /**
    The header invariant: four rows of one length with the labels in column 0,
    every other column on the main bus, and an indexer that maps exactly the
    keys of columns 1.. to their own column (so no two keys share a column).
  */
  predicate ValidHeader(bus: seq<string>, node: seq<string>, message: seq<string>, signal: seq<string>,
                        indexer: map<string, nat>)
  {
    && |bus| == |node| == |message| == |signal| == |indexer| + 1
    && bus[0] == "Bus" && node[0] == "Node" && message[0] == "Message" && signal[0] == "Signal"
    && (forall c :: 1 <= c < |bus| ==> bus[c] == BUS_ID)
    && (forall c :: 1 <= c < |bus| ==> Key(message[c], signal[c]) in indexer && indexer[Key(message[c], signal[c])] == c)
    && (forall k :: k in indexer ==> 1 <= indexer[k] < |bus| && Key(message[indexer[k]], signal[indexer[k]]) == k)
  }

  // ---------------------------------------------------------------------------
  // Facts about the header specification
  // ---------------------------------------------------------------------------

  lemma FreshStep(vs: seq<Column>, c: Column, seen: set<string>)
    ensures Fresh(vs + [c], seen) ==
            if KeyOf(c) in seen || KeyOf(c) in KeysOf(Fresh(vs, seen)) then Fresh(vs, seen) else Fresh(vs, seen) + [c]
  {
    assert (vs + [c])[..|vs|] == vs;
  }

  lemma KeysOfAppend(cs: seq<Column>, c: Column)
    ensures KeysOf(cs + [c]) == KeysOf(cs) + {KeyOf(c)}
  {
    assert forall x :: x in cs + [c] <==> x in cs || x == c;
  }

  lemma NumberedStep(cs: seq<Column>, c: Column)
    ensures Numbered(cs + [c]) == Numbered(cs)[KeyOf(c) := |cs| + 1]
  {
    assert (cs + [c])[..|cs|] == cs;
  }

  /** Fresh columns have pairwise distinct keys, none of them already seen. */
  lemma {:induction false} FreshKeysDistinct(vs: seq<Column>, seen: set<string>)
    ensures forall i :: 0 <= i < |Fresh(vs, seen)| ==> KeyOf(Fresh(vs, seen)[i]) !in seen
    ensures DistinctKeys(Fresh(vs, seen))
    decreases |vs|
  {
    if vs != [] {
      var init, c := vs[..|vs| - 1], vs[|vs| - 1];
      assert vs == init + [c];
      FreshStep(init, c, seen);
      FreshKeysDistinct(init, seen);
      var prev := Fresh(init, seen);
      assert forall i :: 0 <= i < |prev| ==> KeyOf(prev[i]) in KeysOf(prev);
    }
  }

  /** Keys pairwise distinct. */
  ghost predicate DistinctKeys(cs: seq<Column>) {
    forall i, j :: 0 <= i < j < |cs| ==> KeyOf(cs[i]) != KeyOf(cs[j])
  }

  lemma DistinctKeysStep(cs: seq<Column>)
    requires cs != [] && DistinctKeys(cs)
    ensures DistinctKeys(cs[..|cs| - 1]) && KeyOf(cs[|cs| - 1]) !in KeysOf(cs[..|cs| - 1])
  {
    var init, c := cs[..|cs| - 1], cs[|cs| - 1];
    forall x | x in init ensures KeyOf(x) != KeyOf(c) {
      var i :| 0 <= i < |init| && init[i] == x;
      assert cs[i] == x;
    }
  }

  /**
    The fresh columns are numbered 1, 2, ... in order: the indexer maps the
    key of the `i`-th fresh column to `i + 1`, holds no other key, and has
    one entry per column.
  */
  lemma NumberedIsPositions(cs: seq<Column>)
    requires DistinctKeys(cs)
    ensures Numbered(cs).Keys == KeysOf(cs)
    ensures forall i :: 0 <= i < |cs| ==> Numbered(cs)[KeyOf(cs[i])] == i + 1
    ensures |Numbered(cs)| == |cs|
  {
    NumberedKeys(cs);
    NumberedSize(cs);
    forall i | 0 <= i < |cs| ensures Numbered(cs)[KeyOf(cs[i])] == i + 1 {
      NumberedAt(cs, i);
    }
  }

  /** The key of the `i`-th of columns with distinct keys gets `i + 1`. */
  lemma {:induction false} NumberedAt(cs: seq<Column>, i: nat)
    requires DistinctKeys(cs) && i < |cs|
    ensures KeyOf(cs[i]) in Numbered(cs) && Numbered(cs)[KeyOf(cs[i])] == i + 1
    decreases |cs|
  {
    var init, c := cs[..|cs| - 1], cs[|cs| - 1];
    if i < |init| {
      assert KeyOf(cs[i]) != KeyOf(c);
      DistinctKeysStep(cs);
      NumberedAt(init, i);
      assert init[i] == cs[i];
    }
  }

  /** Columns with distinct keys give one indexer entry each. */
  lemma {:induction false} NumberedSize(cs: seq<Column>)
    requires DistinctKeys(cs)
    ensures |Numbered(cs)| == |cs|
    decreases |cs|
  {
    if cs != [] {
      var init, c := cs[..|cs| - 1], cs[|cs| - 1];
      DistinctKeysStep(cs);
      NumberedSize(init);
      NumberedKeys(init);
    }
  }

  /** Every indexer entry is a column index from 1 to the number of columns. */
  lemma {:induction false} NumberedRange(cs: seq<Column>)
    ensures forall k :: k in Numbered(cs) ==> 1 <= Numbered(cs)[k] <= |cs|
    decreases |cs|
  {
    if cs != [] {
      NumberedRange(cs[..|cs| - 1]);
    }
  }

  /** A visit at position `q` is the first one with its key, and its key was not seen before. */
  ghost predicate FirstVisit(vs: seq<Column>, seen: set<string>, q: nat)
    requires q < |vs|
  {
    KeyOf(vs[q]) !in seen && forall q' :: 0 <= q' < q ==> KeyOf(vs[q']) != KeyOf(vs[q])
  }

  /** The first visits of new keys, in visit order: an independent description of Fresh. */
  ghost function FirstVisits(vs: seq<Column>, seen: set<string>): seq<Column>
    decreases |vs|
  {
    if vs == [] then []
    else FirstVisits(vs[..|vs| - 1], seen) + (if FirstVisit(vs, seen, |vs| - 1) then [vs[|vs| - 1]] else [])
  }

  /** A key is fresh exactly when it was neither seen before nor visited earlier. */
  lemma {:induction false} FreshKeys(vs: seq<Column>, seen: set<string>)
    ensures KeysOf(Fresh(vs, seen)) == KeysOf(vs) - seen
    decreases |vs|
  {
    if vs != [] {
      var init, c := vs[..|vs| - 1], vs[|vs| - 1];
      assert vs == init + [c];
      FreshStep(init, c, seen);
      FreshKeys(init, seen);
      KeysOfAppend(init, c);
      KeysOfAppend(Fresh(init, seen), c);
    }
  }

  /** The last visit is a first visit exactly when its key is new to `seen` and to the earlier visits. */
  lemma FirstVisitLast(vs: seq<Column>, seen: set<string>)
    requires vs != []
    ensures FirstVisit(vs, seen, |vs| - 1) <==>
            KeyOf(vs[|vs| - 1]) !in seen && KeyOf(vs[|vs| - 1]) !in KeysOf(vs[..|vs| - 1])
  {
    var init, c := vs[..|vs| - 1], vs[|vs| - 1];
    if KeyOf(c) in KeysOf(init) {
      var x :| x in init && KeyOf(x) == KeyOf(c);
      var q :| 0 <= q < |init| && init[q] == x;
      assert vs[q] == x;
    }
    if !FirstVisit(vs, seen, |vs| - 1) && KeyOf(c) !in seen {
      var q :| 0 <= q < |vs| - 1 && KeyOf(vs[q]) == KeyOf(c);
      assert init[q] == vs[q];
    }
  }

  /**
    Only the first occurrence of a key gets a column: the fresh columns are
    exactly the first visits of the keys not seen before, in visit order.
  */
  lemma {:induction false} FreshIsFirstVisits(vs: seq<Column>, seen: set<string>)
    ensures Fresh(vs, seen) == FirstVisits(vs, seen)
    decreases |vs|
  {
    if vs != [] {
      var init, c := vs[..|vs| - 1], vs[|vs| - 1];
      assert vs == init + [c];
      FreshStep(init, c, seen);
      FreshIsFirstVisits(init, seen);
      FreshKeys(init, seen);
      FirstVisitLast(vs, seen);
    }
  }

  lemma LabelsFirst(cs: seq<Column>)
    ensures Buses([LABELS] + cs) == ["Bus"] + Buses(cs)
    ensures Nodes([LABELS] + cs) == ["Node"] + Nodes(cs)
    ensures Messages([LABELS] + cs) == ["Message"] + Messages(cs)
    ensures Signals([LABELS] + cs) == ["Signal"] + Signals(cs)
  {
  }

  lemma ProjectionsStep(cs: seq<Column>, c: Column)
    ensures Buses(cs + [c]) == Buses(cs) + [c.bus]
    ensures Nodes(cs + [c]) == Nodes(cs) + [c.node]
    ensures Messages(cs + [c]) == Messages(cs) + [c.message]
    ensures Signals(cs + [c]) == Signals(cs) + [c.signal]
  {
  }

  lemma SignalColumnsPrefix(m: MessageDef, j: nat)
    requires j < |m.signals|
    ensures SignalColumns(m)[..j + 1] ==
            SignalColumns(m)[..j] + [Column(BUS_ID, NodeLabel(m.transmitter), m.name, m.signals[j])]
  {
  }

  lemma VisitsStep(defs: seq<MessageDef>, i: nat)
    requires i < |defs|
    ensures Visits(defs[..i + 1]) == Visits(defs[..i]) + SignalColumns(defs[i])
  {
    assert defs[..i + 1][..i] == defs[..i];
  }

  /** Every visited column is on the main bus. */
  lemma {:induction false} VisitsOnMainBus(defs: seq<MessageDef>)
    ensures forall c :: c in Visits(defs) ==> c.bus == BUS_ID
    decreases |defs|
  {
    if defs != [] {
      VisitsOnMainBus(defs[..|defs| - 1]);
    }
  }

  /** Fresh columns are visited columns. */
  lemma {:induction false} FreshAreVisits(vs: seq<Column>, seen: set<string>)
    ensures forall c :: c in Fresh(vs, seen) ==> c in vs
    decreases |vs|
  {
    if vs != [] {
      var init, c := vs[..|vs| - 1], vs[|vs| - 1];
      assert vs == init + [c];
      FreshStep(init, c, seen);
      FreshAreVisits(init, seen);
    }
  }

  /** The indexer values of columns with distinct keys are exactly 1, 2, ..., `|cs|`. */
  lemma NumberedValues(cs: seq<Column>)
    requires DistinctKeys(cs)
    ensures forall v :: v in Numbered(cs).Values <==> 1 <= v <= |cs|
  {
    var m := Numbered(cs);
    forall v | v in m.Values ensures 1 <= v <= |cs| {
      var k :| k in m && m[k] == v;
      NumberedRange(cs);
    }
    forall v | 1 <= v <= |cs| ensures v in m.Values {
      NumberedAt(cs, v - 1);
      assert m[KeyOf(cs[v - 1])] == v;
    }
  }

  /** Every signal of every definition is visited. */
  lemma {:induction false} VisitsHasSignal(defs: seq<MessageDef>, i: nat, j: nat)
    requires i < |defs| && j < |defs[i].signals|
    ensures Column(BUS_ID, NodeLabel(defs[i].transmitter), defs[i].name, defs[i].signals[j]) in Visits(defs)
    decreases |defs|
  {
    var init := defs[..|defs| - 1];
    if i == |defs| - 1 {
      assert SignalColumns(defs[i])[j] == Column(BUS_ID, NodeLabel(defs[i].transmitter), defs[i].name, defs[i].signals[j]);
    } else {
      assert init[i] == defs[i];
      VisitsHasSignal(init, i, j);
    }
  }

  /** Every visited column comes from a definition: its message, its transmitter and one of its signals. */
  lemma {:induction false} ColumnSource(defs: seq<MessageDef>, c: Column) returns (i: nat)
    requires c in Visits(defs)
    ensures i < |defs| && c.message == defs[i].name && c.node == NodeLabel(defs[i].transmitter)
    ensures c.bus == BUS_ID && c.signal in defs[i].signals
    decreases |defs|
  {
    var init, last := defs[..|defs| - 1], defs[|defs| - 1];
    if c in SignalColumns(last) {
      var j :| 0 <= j < |SignalColumns(last)| && SignalColumns(last)[j] == c;
      i := |defs| - 1;
    } else {
      i := ColumnSource(init, c);
      assert init[i] == defs[i];
    }
  }

  /**
    On an empty builder, every signal of every definition of the database
    gets a column, whatever the order of the definitions.
  */
  lemma HeaderCoversDatabase(defs: seq<MessageDef>, m: MessageDef, s: string)
    requires m in defs && s in m.signals
    ensures Key(m.name, s) in Numbered(Fresh(Visits(Sorting.SortBy(defs, NumericId)), {}))
  {
    var sorted := Sorting.SortBy(defs, NumericId);
    Sorting.SortByPermutes(defs, NumericId);
    assert m in multiset(sorted);
    var i :| 0 <= i < |sorted| && sorted[i] == m;
    var j :| 0 <= j < |m.signals| && m.signals[j] == s;
    VisitsHasSignal(sorted, i, j);
    var vs := Visits(sorted);
    var c := Column(BUS_ID, NodeLabel(m.transmitter), m.name, s);
    assert KeyOf(c) in KeysOf(vs);
    FreshKeys(vs, {});
    NumberedKeys(Fresh(vs, {}));
  }

  /** The header's columns come in ascending numeric id order of their messages. */
  lemma HeaderVisitsSortedDefs(defs: seq<MessageDef>)
    ensures Sorting.SortedBy(Sorting.SortBy(defs, NumericId), NumericId)
    ensures multiset(Sorting.SortBy(defs, NumericId)) == multiset(defs)
  {
    Sorting.SortByIsSorted(defs, NumericId);
    Sorting.SortByPermutes(defs, NumericId);
  }

  /**
    Columns with distinct keys on the main bus, behind the label column and
    numbered from 1, form a valid header.
  */
  lemma ColumnsFormValidHeader(cols: seq<Column>)
    requires DistinctKeys(cols) && forall c :: c in cols ==> c.bus == BUS_ID
    ensures var all := [LABELS] + cols;
            ValidHeader(Buses(all), Nodes(all), Messages(all), Signals(all), Numbered(cols))
  {
    var all := [LABELS] + cols;
    var idx := Numbered(cols);
    NumberedSize(cols);
    forall k | k in idx
      ensures 1 <= idx[k] < |all| && Key(Messages(all)[idx[k]], Signals(all)[idx[k]]) == k
    {
      KeyColumn(cols, k);
    }
    forall c | 1 <= c < |all|
      ensures Buses(all)[c] == BUS_ID
      ensures Key(Messages(all)[c], Signals(all)[c]) in idx && idx[Key(Messages(all)[c], Signals(all)[c])] == c
    {
      HeaderColumnAt(cols, c);
      assert cols[c - 1] in cols;
      NumberedAt(cols, c - 1);
    }
  }

  /** The column an indexed key maps to holds that key. */
  lemma KeyColumn(cols: seq<Column>, k: string)
    requires DistinctKeys(cols) && k in Numbered(cols)
    ensures var all := [LABELS] + cols;
            && 1 <= Numbered(cols)[k] <= |cols|
            && Key(Messages(all)[Numbered(cols)[k]], Signals(all)[Numbered(cols)[k]]) == k
  {
    NumberedKeys(cols);
    var x :| x in cols && KeyOf(x) == k;
    var i :| 0 <= i < |cols| && cols[i] == x;
    NumberedAt(cols, i);
    HeaderColumnAt(cols, i + 1);
  }

  /** Column `c` of the header holds the `c`-th fresh column. */
  lemma HeaderColumnAt(cols: seq<Column>, c: nat)
    requires 1 <= c <= |cols|
    ensures var all := [LABELS] + cols;
            && Buses(all)[c] == cols[c - 1].bus
            && Key(Messages(all)[c], Signals(all)[c]) == KeyOf(cols[c - 1])
  {
    var all := [LABELS] + cols;
    assert all[c] == cols[c - 1];
  }

  /**
    Indexing the signals of any sequence of definitions on an empty builder
    establishes the header invariant: the rows have length `1 + |indexer|`,
    the labels head them, every column is on the main bus, and the column
    of every key holds that key's message and signal.
  */
  lemma HeaderIsValid(messageDefs: seq<MessageDef>)
    ensures var cols := Fresh(Visits(messageDefs), {});
            var all := [LABELS] + cols;
            ValidHeader(Buses(all), Nodes(all), Messages(all), Signals(all), Numbered(cols))
  {
    var vs := Visits(messageDefs);
    var cols := Fresh(vs, {});
    FreshKeysDistinct(vs, {});
    VisitsOnMainBus(messageDefs);
    FreshAreVisits(vs, {});
    ColumnsFormValidHeader(cols);
  }

  /** The header built on an empty builder is valid. */
  lemma FirstHeaderIsValid(messageDefs: seq<MessageDef>, bus: seq<string>, node: seq<string>, message: seq<string>,
                           signal: seq<string>, indexer: map<string, nat>)
    requires var cols := Fresh(Visits(messageDefs), {});
             && bus == [] + Buses([LABELS] + cols) && node == [] + Nodes([LABELS] + cols)
             && message == [] + Messages([LABELS] + cols) && signal == [] + Signals([LABELS] + cols)
             && indexer == map[] + Numbered(cols)
    ensures ValidHeader(bus, node, message, signal, indexer)
  {
    var all := [LABELS] + Fresh(Visits(messageDefs), {});
    HeaderIsValid(messageDefs);
    EmptyAppend(Buses(all));
    EmptyAppend(Nodes(all));
    EmptyAppend(Messages(all));
    EmptyAppend(Signals(all));
    EmptyUnion(Numbered(Fresh(Visits(messageDefs), {})));
  }

  lemma EmptyAppend(s: seq<string>)
    ensures [] + s == s
  {
  }

  /** The rows after the labels and the columns were appended to `row0`. */
  lemma LabelsThenColumns(bus0: seq<string>, node0: seq<string>, message0: seq<string>, signal0: seq<string>,
                          cols: seq<Column>)
    ensures (bus0 + ["Bus"]) + Buses(cols) == bus0 + Buses([LABELS] + cols)
    ensures (node0 + ["Node"]) + Nodes(cols) == node0 + Nodes([LABELS] + cols)
    ensures (message0 + ["Message"]) + Messages(cols) == message0 + Messages([LABELS] + cols)
    ensures (signal0 + ["Signal"]) + Signals(cols) == signal0 + Signals([LABELS] + cols)
  {
    LabelsFirst(cols);
  }

  /**
    The state of create_header's loops once the columns `cols` have been
    indexed: each row is its value after the labels plus the fresh columns'
    entries, the indexer gained their keys numbered from 1, and the counter
    is the next column.
  */
  ghost predicate HeaderRows(bus: seq<string>, node: seq<string>, message: seq<string>, signal: seq<string>,
                             indexer: map<string, nat>, colIdx: int,
                             bus0: seq<string>, node0: seq<string>, message0: seq<string>, signal0: seq<string>,
                             idx0: map<string, nat>, cols: seq<Column>)
  {
    && bus == bus0 + Buses(cols) && node == node0 + Nodes(cols)
    && message == message0 + Messages(cols) && signal == signal0 + Signals(cols)
    && indexer == idx0 + Numbered(cols)
    && colIdx == |cols| + 1
  }

  /** One visit of the inner loop keeps the loop state: a new key appends its column, a known key changes nothing. */
  lemma HeaderRowsStep(bus: seq<string>, node: seq<string>, message: seq<string>, signal: seq<string>,
                       indexer: map<string, nat>, colIdx: int,
                       bus0: seq<string>, node0: seq<string>, message0: seq<string>, signal0: seq<string>,
                       idx0: map<string, nat>, visited: seq<Column>, cols: seq<Column>, c: Column)
    requires HeaderRows(bus, node, message, signal, indexer, colIdx, bus0, node0, message0, signal0, idx0, cols)
    requires cols == Fresh(visited, idx0.Keys)
    ensures KeyOf(c) in indexer ==> Fresh(visited + [c], idx0.Keys) == cols
    ensures KeyOf(c) !in indexer ==>
              && Fresh(visited + [c], idx0.Keys) == cols + [c]
              && HeaderRows(bus + [c.bus], node + [c.node], message + [c.message], signal + [c.signal],
                            indexer[KeyOf(c) := colIdx], colIdx + 1,
                            bus0, node0, message0, signal0, idx0, cols + [c])
  {
    FreshStep(visited, c, idx0.Keys);
    HeaderKeys(idx0, cols);
    if KeyOf(c) !in indexer {
      ProjectionsStep(cols, c);
      NumberedStep(cols, c);
      UnionUpdate(idx0, Numbered(cols), KeyOf(c), colIdx);
    }
  }

  // ---------------------------------------------------------------------------
  // Time bins of one chunk
  // ---------------------------------------------------------------------------

  /** `first_time`: the first message's timestamp, 0 for an empty chunk. */
  function FirstTime(chunk: seq<Parse.ParsedMessage>): u32 {
    if chunk == [] then 0 else chunk[0].timestamp
  }

  /** `last_time`: the last message's timestamp, 0 for an empty chunk. */
  function LastTime(chunk: seq<Parse.ParsedMessage>): u32 {
    if chunk == [] then 0 else chunk[|chunk| - 1].timestamp
  }

  /** `(t / B) * B`: the start of the bin holding `t`. */
  function FloorToBin(t: nat, b: nat): nat
    requires b > 0
  {
    (t / b) * b
  }

  /** `t.div_ceil(B) * B`, with `div_ceil` rounding the quotient up when the division leaves a remainder. */
  function CeilToBin(t: nat, b: nat): nat
    requires b > 0
  {
    (if t % b > 0 then t / b + 1 else t / b) * b
  }

  /** The first row time is the largest multiple of `B` not above `t`. */
  lemma FloorToBinIsBinStart(t: nat, b: nat)
    requires b > 0
    ensures FloorToBin(t, b) % b == 0 && FloorToBin(t, b) <= t < FloorToBin(t, b) + b
  {
    DivUnique(FloorToBin(t, b), b, t / b, 0);
  }

  /** The last row time is the smallest multiple of `B` not below `t`. */
  lemma CeilToBinIsBinEnd(t: nat, b: nat)
    requires b > 0
    ensures CeilToBin(t, b) % b == 0 && t <= CeilToBin(t, b) < t + b
  {
    var q := if t % b > 0 then t / b + 1 else t / b;
    DivUnique(q * b, b, q, 0);
  }

  /** `num_rows`: the bins from the first row time to the last row time, both included. */
  function NumRows(first: nat, last: nat, b: nat): (n: nat)
    requires b > 0 && FloorToBin(first, b) <= CeilToBin(last, b)
    ensures n >= 1
  {
    (CeilToBin(last, b) - FloorToBin(first, b)) / b + 1
  }

  /** The last data row stands for the last row time. */
  lemma NumRowsSpansBins(first: nat, last: nat, b: nat)
    requires b > 0 && FloorToBin(first, b) <= CeilToBin(last, b)
    ensures FloorToBin(first, b) + (NumRows(first, last, b) - 1) * b == CeilToBin(last, b)
  {
    FloorToBinIsBinStart(first, b);
    CeilToBinIsBinEnd(last, b);
    MultipleDiff(FloorToBin(first, b), CeilToBin(last, b), b);
  }

  /** Two multiples of `b` differ by a multiple of `b`. */
  lemma MultipleDiff(lo: nat, hi: nat, b: nat)
    requires b > 0 && lo <= hi && lo % b == 0 && hi % b == 0
    ensures (hi - lo) / b * b == hi - lo
  {
    var p, q := lo / b, hi / b;
    assert hi - lo == (q - p) * b;
    DivUnique(hi - lo, b, q - p, 0);
  }

  /** `first_row_time + row_idx * B`: the time data row `r` stands for. */
  function RowTime(firstRow: nat, r: nat, b: nat): nat {
    firstRow + r * b
  }

  /** `(ts - first_row_time) / B`: the data row of a timestamp. */
  function RowOf(t: nat, firstRow: nat, b: nat): nat
    requires b > 0 && firstRow <= t
  {
    (t - firstRow) / b
  }

  /** A timestamp falls in the bin its row stands for. */
  lemma RowOfIsBin(t: nat, firstRow: nat, b: nat)
    requires b > 0 && firstRow <= t
    ensures firstRow + RowOf(t, firstRow, b) * b <= t < firstRow + (RowOf(t, firstRow, b) + 1) * b
  {
  }

  /** The bins of the timestamps 120 and 340 with a width of 100: rows 100, 200, 300 and 400. */
  lemma BinExample()
    ensures FloorToBin(120, 100) == 100 && CeilToBin(340, 100) == 400 && NumRows(120, 340, 100) == 4
  {
  }

  /**
    In a chunk sorted by timestamp, every timestamp lies between the first
    and the last one, so it is not below the first row time and its row is
    one of the chunk's rows: the row guard of the fill never skips.
  */
  lemma SortedChunkRowsInRange(chunk: seq<Parse.ParsedMessage>, b: nat, i: nat)
    requires b > 0 && Sorting.SortedBy(chunk, Parse.Ts) && i < |chunk|
    ensures FloorToBin(FirstTime(chunk), b) <= CeilToBin(LastTime(chunk), b)
    ensures FloorToBin(FirstTime(chunk), b) <= chunk[i].timestamp
    ensures RowOf(chunk[i].timestamp, FloorToBin(FirstTime(chunk), b), b) <
            NumRows(FirstTime(chunk), LastTime(chunk), b)
  {
    assert Parse.Ts(chunk[0]) <= Parse.Ts(chunk[i]) <= Parse.Ts(chunk[|chunk| - 1]);
    RowInRange(FirstTime(chunk), LastTime(chunk), chunk[i].timestamp, b);
  }

  /**
    A chunk sorted by timestamp (as chunk_parsed returns them) meets the
    fill's demands: the last row time is not below the first, no timestamp
    is below the first row time, and every timestamp has one of the rows.
  */
  lemma SortedChunkFits(chunk: seq<Parse.ParsedMessage>, b: nat)
    requires b > 0 && Sorting.SortedBy(chunk, Parse.Ts)
    ensures FloorToBin(FirstTime(chunk), b) <= CeilToBin(LastTime(chunk), b)
    ensures FromRow(chunk, FloorToBin(FirstTime(chunk), b))
    ensures forall i :: 0 <= i < |chunk| ==>
              RowOf(chunk[i].timestamp, FloorToBin(FirstTime(chunk), b), b) < NumRows(FirstTime(chunk), LastTime(chunk), b)
  {
    if chunk == [] {
      FloorToBinIsBinStart(0, b);
      CeilToBinIsBinEnd(0, b);
    } else {
      SortedChunkRowsInRange(chunk, b, 0);
      forall i | 0 <= i < |chunk|
        ensures FloorToBin(FirstTime(chunk), b) <= chunk[i].timestamp
        ensures RowOf(chunk[i].timestamp, FloorToBin(FirstTime(chunk), b), b) < NumRows(FirstTime(chunk), LastTime(chunk), b)
      {
        SortedChunkRowsInRange(chunk, b, i);
      }
    }
  }

  /** A timestamp between the first and the last one has one of the rows. */
  lemma RowInRange(first: nat, last: nat, t: nat, b: nat)
    requires b > 0 && first <= t <= last
    ensures FloorToBin(first, b) <= t && FloorToBin(first, b) <= CeilToBin(last, b)
    ensures RowOf(t, FloorToBin(first, b), b) < NumRows(first, last, b)
  {
    FloorToBinIsBinStart(first, b);
    CeilToBinIsBinEnd(last, b);
    var lo, hi := FloorToBin(first, b), CeilToBin(last, b);
    var n := NumRows(first, last, b);
    NumRowsSpansBins(first, last, b);
    RowOfIsBin(t, lo, b);
    var r := RowOf(t, lo, b);
    assert (n - 1) * b + b == n * b;
    if r >= n {
      MulMono(n, r, b);
    }
  }

  lemma MulMono(x: nat, y: nat, b: nat)
    requires x <= y
    ensures x * b <= y * b
  {
  }

  // ---------------------------------------------------------------------------
  // Cells of the data rows
  // ---------------------------------------------------------------------------

  /** Signal `s` of a decoded message has a key that the indexer maps to column `col`. */
  ghost predicate WritesColumn(d: Parse.Decoded, indexer: map<string, nat>, s: string, col: nat) {
    s in d.signals && Key(d.name, s) in indexer && indexer[Key(d.name, s)] == col
  }

  /** A valid header's indexer maps its keys to distinct columns from 1 on. */
  lemma ValidHeaderInjective(bus: seq<string>, node: seq<string>, message: seq<string>, signal: seq<string>,
                             indexer: map<string, nat>)
    requires ValidHeader(bus, node, message, signal, indexer)
    ensures IndexesColumns(indexer, |bus|)
  {
  }

  /** No two keys share a column. */
  ghost predicate Injective(indexer: map<string, nat>) {
    forall k1, k2 :: k1 in indexer && k2 in indexer && indexer[k1] == indexer[k2] ==> k1 == k2
  }

  /** The indexer maps keys to distinct data columns of a table `width` cells wide, none to the label column. */
  ghost predicate IndexesColumns(indexer: map<string, nat>, width: nat) {
    Injective(indexer) && forall k :: k in indexer ==> 1 <= indexer[k] < width
  }

  /**
    The value that the signals `done` of a decoded message have written into
    column `col` of its row, if any: with an injective indexer at most one
    of them writes to it.
  */
  ghost function DoneWrite(d: Parse.Decoded, indexer: map<string, nat>, done: set<string>, col: nat): Option<string> {
    if exists s :: s in done && WritesColumn(d, indexer, s, col) then
      var s :| s in done && WritesColumn(d, indexer, s, col);
      Some(d.signals[s])
    else None
  }

  /** The one signal of a message that can write a column, when the indexer is injective. */
  lemma WriterUnique(d: Parse.Decoded, indexer: map<string, nat>, s1: string, s2: string, col: nat)
    requires Injective(indexer) && WritesColumn(d, indexer, s1, col) && WritesColumn(d, indexer, s2, col)
    ensures s1 == s2
  {
    KeySameMessage(d.name, s1, s2);
  }

  /** Writing one more signal: its own column gets its value, every other column keeps what it had. */
  lemma DoneWriteStep(d: Parse.Decoded, indexer: map<string, nat>, done: set<string>, s: string, col: nat)
    requires Injective(indexer) && s !in done
    ensures DoneWrite(d, indexer, done + {s}, col) ==
            if WritesColumn(d, indexer, s, col) then Some(d.signals[s]) else DoneWrite(d, indexer, done, col)
  {
    forall s1, s2 | WritesColumn(d, indexer, s1, col) && WritesColumn(d, indexer, s2, col) ensures s1 == s2 {
      WriterUnique(d, indexer, s1, s2, col);
    }
  }

  /**
    What message `m` writes into data cell (`row`, `col`): the value of its
    signal whose key maps to `col`, when it is decoded and its timestamp falls
    in `row`, one of the `numRows` rows.
  */
  ghost function Write(m: Parse.ParsedMessage, indexer: map<string, nat>, firstRow: nat, b: nat, numRows: nat,
                       row: nat, col: nat): Option<string>
    requires b > 0 && firstRow <= m.timestamp
  {
    match m.decoded
    case None => None
    case Some(d) =>
      if RowOf(m.timestamp, firstRow, b) == row && row < numRows then DoneWrite(d, indexer, d.signals.Keys, col)
      else None
  }

  /** Every message of the chunk is at or after the first row time. */
  ghost predicate FromRow(chunk: seq<Parse.ParsedMessage>, firstRow: nat) {
    forall i :: 0 <= i < |chunk| ==> firstRow <= chunk[i].timestamp
  }

  /**
    The contents of data cell (`row`, `col`) once the messages of `chunk`
    have been written in order: the value of the last write, "" when no
    message writes it.
  */
  ghost function CellValue(chunk: seq<Parse.ParsedMessage>, indexer: map<string, nat>, firstRow: nat, b: nat,
                           numRows: nat, row: nat, col: nat): string
    requires b > 0 && FromRow(chunk, firstRow)
    decreases |chunk|
  {
    if chunk == [] then ""
    else
      var init := chunk[..|chunk| - 1];
      assert FromRow(init, firstRow) by {
        forall i | 0 <= i < |init| ensures firstRow <= init[i].timestamp {
          assert init[i] == chunk[i];
        }
      }
      match Write(chunk[|chunk| - 1], indexer, firstRow, b, numRows, row, col)
      case Some(v) => v
      case None => CellValue(init, indexer, firstRow, b, numRows, row, col)
  }

  /** A cell holds the value of the last message that writes it. */
  lemma {:induction false} CellIsLastWrite(chunk: seq<Parse.ParsedMessage>, indexer: map<string, nat>, firstRow: nat,
                                           b: nat, numRows: nat, row: nat, col: nat, i: nat)
    requires b > 0 && FromRow(chunk, firstRow) && i < |chunk|
    requires Write(chunk[i], indexer, firstRow, b, numRows, row, col).Some?
    requires forall j :: i < j < |chunk| ==> Write(chunk[j], indexer, firstRow, b, numRows, row, col).None?
    ensures CellValue(chunk, indexer, firstRow, b, numRows, row, col) ==
            Write(chunk[i], indexer, firstRow, b, numRows, row, col).value
    decreases |chunk|
  {
    if i < |chunk| - 1 {
      var init := chunk[..|chunk| - 1];
      assert FromRow(init, firstRow) by {
        forall j | 0 <= j < |init| ensures firstRow <= init[j].timestamp {
          assert init[j] == chunk[j];
        }
      }
      assert init[i] == chunk[i];
      forall j | i < j < |init| ensures Write(init[j], indexer, firstRow, b, numRows, row, col).None? {
        assert init[j] == chunk[j];
      }
      CellIsLastWrite(init, indexer, firstRow, b, numRows, row, col, i);
    }
  }

  /** A cell that no message writes stays empty. */
  lemma {:induction false} CellUnwritten(chunk: seq<Parse.ParsedMessage>, indexer: map<string, nat>, firstRow: nat,
                                         b: nat, numRows: nat, row: nat, col: nat)
    requires b > 0 && FromRow(chunk, firstRow)
    requires forall j :: 0 <= j < |chunk| ==> Write(chunk[j], indexer, firstRow, b, numRows, row, col).None?
    ensures CellValue(chunk, indexer, firstRow, b, numRows, row, col) == ""
    decreases |chunk|
  {
    if chunk != [] {
      var init := chunk[..|chunk| - 1];
      assert FromRow(init, firstRow) by {
        forall j | 0 <= j < |init| ensures firstRow <= init[j].timestamp {
          assert init[j] == chunk[j];
        }
      }
      forall j | 0 <= j < |init| ensures Write(init[j], indexer, firstRow, b, numRows, row, col).None? {
        assert init[j] == chunk[j];
      }
      CellUnwritten(init, indexer, firstRow, b, numRows, row, col);
    }
  }

  /** A signal whose key is not in the indexer writes no cell. */
  lemma UnknownKeySkipped(m: Parse.ParsedMessage, d: Parse.Decoded, indexer: map<string, nat>, firstRow: nat, b: nat,
                          numRows: nat, row: nat, col: nat)
    requires b > 0 && firstRow <= m.timestamp && m.decoded == Some(d)
    requires forall s :: s in d.signals ==> Key(d.name, s) !in indexer
    ensures Write(m, indexer, firstRow, b, numRows, row, col) == None
  {
  }

  // ---------------------------------------------------------------------------
  // TableBuilder
  // ---------------------------------------------------------------------------

  class TableBuilder {
    var busRow: seq<string>
    var nodeRow: seq<string>
    var messageRow: seq<string>
    var signalRow: seq<string>
    /** Key `message|signal` to column index. */
    var indexer: map<string, nat>

    /**
      The builder holds a complete, well-formed header: four rows of one
      width, each column keyed once in the indexer (as after `new` and
      `create_header`). Grid building presupposes it.
    */
    predicate HasHeader()
      reads this
    {
      ValidHeader(busRow, nodeRow, messageRow, signalRow, indexer)
    }

    /** `TableBuilder::new`: four empty rows and an empty indexer. */
    constructor ()
      ensures busRow == [] && nodeRow == [] && messageRow == [] && signalRow == [] && indexer == map[]
    {
      busRow, nodeRow, messageRow, signalRow := [], [], [], [];
      indexer := map[];
    }

    /**
      `create_header`: sorts the definitions by numeric id, appends the row
      labels, then indexes the signals of the sorted definitions.
    */
    method CreateHeader(defs: seq<MessageDef>)
      modifies this
      ensures var cols := Fresh(Visits(Sorting.SortBy(defs, NumericId)), old(indexer).Keys);
              && busRow == old(busRow) + Buses([LABELS] + cols)
              && nodeRow == old(nodeRow) + Nodes([LABELS] + cols)
              && messageRow == old(messageRow) + Messages([LABELS] + cols)
              && signalRow == old(signalRow) + Signals([LABELS] + cols)
              && indexer == old(indexer) + Numbered(cols)
      ensures (&& old(busRow) == [] && old(nodeRow) == [] && old(messageRow) == [] && old(signalRow) == []
               && old(indexer) == map[]) ==> HasHeader()
    {
      var messageDefs := Sorting.SortBy(defs, NumericId);
      ghost var bus0, node0, message0, signal0 := busRow, nodeRow, messageRow, signalRow;
      busRow := busRow + ["Bus"];
      nodeRow := nodeRow + ["Node"];
      messageRow := messageRow + ["Message"];
      signalRow := signalRow + ["Signal"];
      AddColumns(messageDefs);
      ghost var cols := Fresh(Visits(messageDefs), old(indexer).Keys);
      LabelsThenColumns(bus0, node0, message0, signal0, cols);
      if bus0 == [] && node0 == [] && message0 == [] && signal0 == [] && old(indexer) == map[] {
        assert old(indexer).Keys == {};
        FirstHeaderIsValid(messageDefs, busRow, nodeRow, messageRow, signalRow, indexer);
      }
    }

    /**
      The loops of create_header: visits every signal of every message in
      order and gives each key not yet indexed the next column, counting
      from 1, appending its bus, node, message and signal to the four rows.
    */
    method AddColumns(messageDefs: seq<MessageDef>)
      modifies this
      ensures var cols := Fresh(Visits(messageDefs), old(indexer).Keys);
              && busRow == old(busRow) + Buses(cols)
              && nodeRow == old(nodeRow) + Nodes(cols)
              && messageRow == old(messageRow) + Messages(cols)
              && signalRow == old(signalRow) + Signals(cols)
              && indexer == old(indexer) + Numbered(cols)
    {
      ghost var idx0 := indexer;
      ghost var bus0, node0, message0, signal0 := busRow, nodeRow, messageRow, signalRow;
      var colIdx := 1;
      ghost var cols: seq<Column> := [];
      for i := 0 to |messageDefs|
        invariant cols == Fresh(Visits(messageDefs[..i]), idx0.Keys)
        invariant HeaderRows(busRow, nodeRow, messageRow, signalRow, indexer, colIdx,
                             bus0, node0, message0, signal0, idx0, cols)
      {
        VisitsStep(messageDefs, i);
        colIdx, cols := AddSignalColumns(messageDefs[i], colIdx, bus0, node0, message0, signal0, idx0,
                                         Visits(messageDefs[..i]), cols);
      }
      assert messageDefs[..|messageDefs|] == messageDefs;
    }

    /**
      The inner loop of create_header, over the signals of one message:
      `cols` are the fresh columns among the visits so far, and on return
      also among this message's visits.
    */
    method AddSignalColumns(msg: MessageDef, colIdx: nat,
                            ghost bus0: seq<string>, ghost node0: seq<string>, ghost message0: seq<string>,
                            ghost signal0: seq<string>, ghost idx0: map<string, nat>,
                            ghost visited: seq<Column>, ghost cols: seq<Column>)
      returns (nextIdx: nat, ghost cols': seq<Column>)
      modifies this
      requires cols == Fresh(visited, idx0.Keys)
      requires HeaderRows(busRow, nodeRow, messageRow, signalRow, indexer, colIdx,
                          bus0, node0, message0, signal0, idx0, cols)
      ensures cols' == Fresh(visited + SignalColumns(msg), idx0.Keys)
      ensures HeaderRows(busRow, nodeRow, messageRow, signalRow, indexer, nextIdx,
                         bus0, node0, message0, signal0, idx0, cols')
    {
      var busId := BUS_ID;
      var node := NodeLabel(msg.transmitter);
      var msgName := msg.name;
      nextIdx, cols' := colIdx, cols;
      ghost var seen := idx0.Keys;
      ghost var vs := visited;
      for j := 0 to |msg.signals|
        invariant vs == visited + SignalColumns(msg)[..j] && cols' == Fresh(vs, seen)
        invariant HeaderRows(busRow, nodeRow, messageRow, signalRow, indexer, nextIdx,
                             bus0, node0, message0, signal0, idx0, cols')
      {
        var sig := msg.signals[j];
        var key := Key(msgName, sig);
        ghost var c := Column(busId, node, msgName, sig);
        assert key == KeyOf(c);
        SignalColumnsPrefix(msg, j);
        HeaderRowsStep(busRow, nodeRow, messageRow, signalRow, indexer, nextIdx,
                       bus0, node0, message0, signal0, idx0, vs, cols', c);
        vs := vs + [c];
        if key !in indexer {
          indexer, nextIdx := indexer[key := nextIdx], nextIdx + 1;
          busRow, nodeRow, messageRow, signalRow := busRow + [busId], nodeRow + [node], messageRow + [msgName], signalRow + [sig];
          cols' := cols' + [c];
        }
      }
      assert SignalColumns(msg)[..|msg.signals|] == SignalColumns(msg);
    }

    /**
      The grid part of `create_and_write_tables` for one chunk: the four
      header rows, then one row per time bin labelled with its start time,
      then every decoded signal value written into the cell of its row and
      its column, the last write winning.
    */
    method CreateTable(chunk: seq<Parse.ParsedMessage>, binWidth: nat, timeLabel: nat -> string)
      returns (table: array2<string>)
      requires HasHeader() && binWidth > 0
      requires FloorToBin(FirstTime(chunk), binWidth) <= CeilToBin(LastTime(chunk), binWidth) < U32_LIMIT
      requires FromRow(chunk, FloorToBin(FirstTime(chunk), binWidth))
      ensures fresh(table)
      ensures table.Length1 == |busRow| >= 1
      ensures var firstRow := FloorToBin(FirstTime(chunk), binWidth);
              var numRows := NumRows(FirstTime(chunk), LastTime(chunk), binWidth);
              && table.Length0 == 4 + numRows && table.Length1 == |busRow|
              && (forall c :: 0 <= c < table.Length1 ==>
                    table[0, c] == busRow[c] && table[1, c] == nodeRow[c] && table[2, c] == messageRow[c] &&
                    table[3, c] == signalRow[c])
              && (forall r :: 4 <= r < table.Length0 ==> table[r, 0] == timeLabel(RowTime(firstRow, r - 4, binWidth)))
              && (forall r, c :: 4 <= r < table.Length0 && 1 <= c < table.Length1 ==>
                    table[r, c] == CellValue(chunk, indexer, firstRow, binWidth, numRows, r - 4, c))
    {
      var firstTime := if |chunk| > 0 then chunk[0].timestamp else 0;
      var lastTime := if |chunk| > 0 then chunk[|chunk| - 1].timestamp else 0;
      var firstRow := (firstTime / binWidth) * binWidth;
      var lastRow := (if lastTime % binWidth > 0 then lastTime / binWidth + 1 else lastTime / binWidth) * binWidth;
      var numRows := (lastRow - firstRow) / binWidth + 1;
      assert firstRow == FloorToBin(FirstTime(chunk), binWidth);
      assert numRows == NumRows(FirstTime(chunk), LastTime(chunk), binWidth);
      table := NewTable(busRow, nodeRow, messageRow, signalRow, numRows, firstRow, binWidth, timeLabel);
      ValidHeaderInjective(busRow, nodeRow, messageRow, signalRow, indexer);
      FillTable(table, indexer, chunk, firstRow, binWidth, numRows);
    }

    /** The header rows followed by `numRows` rows of empty cells, each labelled with its time in column 0. */
    static method NewTable(busRow: seq<string>, nodeRow: seq<string>, messageRow: seq<string>, signalRow: seq<string>,
                           numRows: nat, firstRow: nat, binWidth: nat, timeLabel: nat -> string)
      returns (table: array2<string>)
      requires |nodeRow| == |messageRow| == |signalRow| == |busRow| >= 1
      ensures fresh(table)
      ensures table.Length0 == 4 + numRows && table.Length1 == |busRow|
      ensures forall c :: 0 <= c < table.Length1 ==>
                table[0, c] == busRow[c] && table[1, c] == nodeRow[c] && table[2, c] == messageRow[c] &&
                table[3, c] == signalRow[c]
      ensures forall r :: 4 <= r < table.Length0 ==> table[r, 0] == timeLabel(RowTime(firstRow, r - 4, binWidth))
      ensures forall r, c :: 4 <= r < table.Length0 && 1 <= c < table.Length1 ==> table[r, c] == ""
    {
      var width := |busRow|;
      table := new string[4 + numRows, width]((_, _) => "");
      for c := 0 to width
        invariant forall c' :: 0 <= c' < c ==>
                    table[0, c'] == busRow[c'] && table[1, c'] == nodeRow[c'] && table[2, c'] == messageRow[c'] &&
                    table[3, c'] == signalRow[c']
        invariant forall r, c' :: 4 <= r < table.Length0 && 0 <= c' < width ==> table[r, c'] == ""
      {
        table[0, c] := busRow[c];
        table[1, c] := nodeRow[c];
        table[2, c] := messageRow[c];
        table[3, c] := signalRow[c];
      }
      for r := 4 to 4 + numRows
        invariant forall c :: 0 <= c < width ==>
                    table[0, c] == busRow[c] && table[1, c] == nodeRow[c] && table[2, c] == messageRow[c] &&
                    table[3, c] == signalRow[c]
        invariant forall r' :: 4 <= r' < r ==> table[r', 0] == timeLabel(RowTime(firstRow, r' - 4, binWidth))
        invariant forall r', c :: 4 <= r' < table.Length0 && 1 <= c < width ==> table[r', c] == ""
      {
        var rowTime := RowTime(firstRow, r - 4, binWidth);
        table[r, 0] := timeLabel(rowTime);
      }
    }

    /** The fill loop: writes the messages of the chunk in order into the empty data cells. */
    static method FillTable(table: array2<string>, indexer: map<string, nat>, chunk: seq<Parse.ParsedMessage>,
                            firstRow: nat, binWidth: nat, numRows: nat)
      requires IndexesColumns(indexer, table.Length1) && binWidth > 0 && FromRow(chunk, firstRow)
      requires table.Length0 == 4 + numRows
      requires forall r, c :: 4 <= r < table.Length0 && 1 <= c < table.Length1 ==> table[r, c] == ""
      modifies table
      ensures forall r, c :: 0 <= r < table.Length0 && 0 <= c < table.Length1 && (r < 4 || c == 0) ==>
                table[r, c] == old(table[r, c])
      ensures forall r, c :: 4 <= r < table.Length0 && 1 <= c < table.Length1 ==>
                table[r, c] == CellValue(chunk, indexer, firstRow, binWidth, numRows, r - 4, c)
    {
      for i := 0 to |chunk|
        invariant FromRow(chunk[..i], firstRow)
        invariant forall r, c :: 0 <= r < table.Length0 && 0 <= c < table.Length1 && (r < 4 || c == 0) ==>
                    table[r, c] == old(table[r, c])
        invariant forall r, c :: 4 <= r < table.Length0 && 1 <= c < table.Length1 ==>
                    table[r, c] == CellValue(chunk[..i], indexer, firstRow, binWidth, numRows, r - 4, c)
      {
        var msg := chunk[i];
        assert chunk[..i + 1][..i] == chunk[..i];
        if msg.decoded.Some? {
          WriteSignals(table, indexer, msg, msg.decoded.value, firstRow, binWidth, numRows);
        }
      }
      assert chunk[..|chunk|] == chunk;
    }

    /**
      The loop over the signal map of one decoded message, in whatever order
      the map yields its entries: a signal whose key is indexed writes its
      value into its column of the message's row, unless the row or the
      column is past the table.
    */
    static method WriteSignals(table: array2<string>, indexer: map<string, nat>, msg: Parse.ParsedMessage,
                               d: Parse.Decoded, firstRow: nat, binWidth: nat, numRows: nat)
      requires IndexesColumns(indexer, table.Length1) && binWidth > 0 && firstRow <= msg.timestamp
      requires msg.decoded == Some(d) && table.Length0 == 4 + numRows
      modifies table
      ensures forall r, c :: 0 <= r < table.Length0 && 0 <= c < table.Length1 ==>
                table[r, c] == if 4 <= r && Write(msg, indexer, firstRow, binWidth, numRows, r - 4, c).Some?
                               then Write(msg, indexer, firstRow, binWidth, numRows, r - 4, c).value
                               else old(table[r, c])
    {
      ghost var row := RowOf(msg.timestamp, firstRow, binWidth);
      var remaining := d.signals.Keys;
      ghost var done: set<string> := {};
      while remaining != {}
        invariant remaining !! done && remaining + done == d.signals.Keys
        invariant forall r, c :: 0 <= r < table.Length0 && 0 <= c < table.Length1 ==>
                    table[r, c] == if r == 4 + row && DoneWrite(d, indexer, done, c).Some?
                                   then DoneWrite(d, indexer, done, c).value
                                   else old(table[r, c])
        decreases remaining
      {
        var sigName :| sigName in remaining;
        var sigValue := d.signals[sigName];
        var key := Key(d.name, sigName);
        forall c: nat
          ensures DoneWrite(d, indexer, done + {sigName}, c) ==
                  if key in indexer && indexer[key] == c then Some(sigValue) else DoneWrite(d, indexer, done, c)
        {
          DoneWriteStep(d, indexer, done, sigName, c);
        }
        if key in indexer {
          var colIdx := indexer[key];
          var rowIdx := (msg.timestamp - firstRow) / binWidth;
          if rowIdx + 4 < table.Length0 && colIdx < table.Length1 {
            table[rowIdx + 4, colIdx] := sigValue;
          }
        }
        remaining, done := remaining - {sigName}, done + {sigName};
      }
    }
  }

  /** A key is indexed exactly when it was seen before the call or belongs to a fresh column. */
  lemma HeaderKeys(idx0: map<string, nat>, cols: seq<Column>)
    ensures (idx0 + Numbered(cols)).Keys == idx0.Keys + KeysOf(cols)
  {
    NumberedKeys(cols);
  }

  lemma EmptyUnion(m: map<string, nat>)
    ensures map[] + m == m
  {
  }

  lemma UnionUpdate(a: map<string, nat>, b: map<string, nat>, k: string, v: nat)
    ensures a + b[k := v] == (a + b)[k := v]
  {
  }

  lemma {:induction false} NumberedKeys(cs: seq<Column>)
    ensures Numbered(cs).Keys == KeysOf(cs)
    decreases |cs|
  {
    if cs != [] {
      var init, c := cs[..|cs| - 1], cs[|cs| - 1];
      assert cs == init + [c];
      NumberedKeys(init);
      KeysOfAppend(init, c);
    }
  }
}
