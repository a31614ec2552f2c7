/** The consumer that adds generated components to the spreadsheet: it skips the rows the sheet has,
    collects the others and sends them in batches. */
module SheetUpdate {

  import opened Sequences

  /** A component as generated for a model; only its kind decides whether the sheet has it. */
  datatype Component = Component(kind: string, payload: string)

  datatype Data = Data(registrant: string, model: string, components: seq<Component>)

  /** A row of the components sheet. */
  datatype Row = Row(registrant: string, model: string, kind: string, payload: string)

  datatype Key = Key(registrant: string, model: string, kind: string)

  type Known = map<string, map<string, map<string, bool>>>

  function KeyOf(row: Row): Key {
    Key(row.registrant, row.model, row.kind)
  }

  function RowOf(data: Data, c: Component): Row {
    Row(data.registrant, data.model, c.kind, c.payload)
  }

  function RowsOf(data: Data, components: seq<Component>): (rows: seq<Row>)
    ensures |rows| == |components|
    ensures forall i :: 0 <= i < |rows| ==> rows[i] == RowOf(data, components[i])
  {
    seq(|components|, i requires 0 <= i < |components| => RowOf(data, components[i]))
  }

  /** All rows of a run, in order of arrival. */
  function Arrivals(messages: seq<Data>): seq<Row> {
    if messages == [] then [] else RowsOf(messages[0], messages[0].components) + Arrivals(messages[1..])
  }

  /** The first row for each key that is not among `seen`. */
  function FirstOccurrences(seen: set<Key>, rows: seq<Row>): seq<Row>
    decreases |rows|
  {
    if rows == [] then []
    else if KeyOf(rows[0]) in seen then FirstOccurrences(seen, rows[1..])
    else [rows[0]] + FirstOccurrences(seen + {KeyOf(rows[0])}, rows[1..])
  }

  function Keys(rows: seq<Row>): set<Key> {
    if rows == [] then {} else {KeyOf(rows[0])} + Keys(rows[1..])
  }

  lemma {:induction false} KeyAmong(rows: seq<Row>, i: nat)
    requires i < |rows|
    ensures KeyOf(rows[i]) in Keys(rows)
  {
    if i > 0 {
      KeyAmong(rows[1..], i - 1);
    }
  }

  function FirstWith(rows: seq<Row>, key: Key): (i: nat)
    ensures i <= |rows|
    ensures i < |rows| ==> KeyOf(rows[i]) == key
    ensures forall j :: 0 <= j < i ==> KeyOf(rows[j]) != key
  {
    if rows == [] || KeyOf(rows[0]) == key then 0 else 1 + FirstWith(rows[1..], key)
  }

  lemma {:induction false} KeysOfFirst(seen: set<Key>, rows: seq<Row>)
    ensures Keys(FirstOccurrences(seen, rows)) == Keys(rows) - seen
    decreases |rows|
  {
    if rows != [] {
      var key, rest := KeyOf(rows[0]), rows[1..];
      if key in seen {
        KeysOfFirst(seen, rest);
      } else {
        KeysOfFirst(seen + {key}, rest);
        assert FirstOccurrences(seen, rows)[1..] == FirstOccurrences(seen + {key}, rest);
      }
    }
  }

  /** Row `i` of `out` is the first row of `rows` with its key, and the rows of `out` keep the order of `rows`. */
  ghost predicate FirstInOrder(out: seq<Row>, rows: seq<Row>) {
    && (forall i :: 0 <= i < |out| ==>
          FirstWith(rows, KeyOf(out[i])) < |rows| && rows[FirstWith(rows, KeyOf(out[i]))] == out[i])
    && (forall i, j :: 0 <= i < j < |out| ==> FirstWith(rows, KeyOf(out[i])) < FirstWith(rows, KeyOf(out[j])))
  }

  lemma FirstWithCons(row: Row, rest: seq<Row>, key: Key)
    ensures FirstWith([row] + rest, key) == if KeyOf(row) == key then 0 else 1 + FirstWith(rest, key)
  {
    assert ([row] + rest)[1..] == rest;
  }

  lemma FirstInOrderShift(out: seq<Row>, row: Row, rest: seq<Row>)
    requires FirstInOrder(out, rest) && KeyOf(row) !in Keys(out)
    ensures FirstInOrder(out, [row] + rest)
  {
    forall i | 0 <= i < |out|
      ensures FirstWith([row] + rest, KeyOf(out[i])) == 1 + FirstWith(rest, KeyOf(out[i]))
    {
      KeyAmong(out, i);
      FirstWithCons(row, rest, KeyOf(out[i]));
    }
  }

  lemma FirstInOrderHead(out: seq<Row>, row: Row, rows: seq<Row>)
    requires FirstInOrder(out, rows) && KeyOf(row) !in Keys(out) && |rows| > 0 && rows[0] == row
    ensures FirstInOrder([row] + out, rows)
  {
    var out' := [row] + out;
    assert FirstWith(rows, KeyOf(row)) == 0;
    forall i | 0 < i < |out'|
      ensures out'[i] == out[i - 1] && FirstWith(rows, KeyOf(out'[i])) > 0
    {
      KeyAmong(out, i - 1);
    }
  }

  lemma {:induction false} FirstOccurrencesInOrder(seen: set<Key>, rows: seq<Row>)
    ensures FirstInOrder(FirstOccurrences(seen, rows), rows)
    decreases |rows|
  {
    if rows != [] {
      var key, rest := KeyOf(rows[0]), rows[1..];
      var seen' := seen + {key};
      assert key in seen ==> seen' == seen;
      FirstOccurrencesInOrder(seen', rest);
      KeysOfFirst(seen', rest);
      assert rows == [rows[0]] + rest;
      FirstInOrderShift(FirstOccurrences(seen', rest), rows[0], rest);
      FirstInOrderHead(FirstOccurrences(seen', rest), rows[0], rows);
    }
  }

  /** Nothing is sent twice, nothing the sheet has is sent, and nothing is lost: the result is a
      subsequence that holds, for each new key, its first row. */
  lemma FirstOccurrencesExact(seen: set<Key>, rows: seq<Row>)
    ensures var out := FirstOccurrences(seen, rows);
            && Keys(out) == Keys(rows) - seen
            && FirstInOrder(out, rows)
            && forall i, j :: 0 <= i < j < |out| ==> KeyOf(out[i]) != KeyOf(out[j])
  {
    KeysOfFirst(seen, rows);
    FirstOccurrencesInOrder(seen, rows);
  }

  lemma {:induction false} FirstOccurrencesConcat(seen: set<Key>, a: seq<Row>, b: seq<Row>)
    ensures FirstOccurrences(seen, a + b)
         == FirstOccurrences(seen, a) + FirstOccurrences(seen + Keys(a), b)
    decreases |a|
  {
    if a == [] {
      assert a + b == b && seen + Keys(a) == seen;
    } else {
      var key := KeyOf(a[0]);
      assert (a + b)[0] == a[0] && (a + b)[1..] == a[1..] + b;
      if key in seen {
        FirstOccurrencesConcat(seen, a[1..], b);
        assert seen + Keys(a) == seen + Keys(a[1..]);
      } else {
        FirstOccurrencesConcat(seen + {key}, a[1..], b);
        assert seen + Keys(a) == seen + {key} + Keys(a[1..]);
      }
    }
  }

  // ---------- the nested map of known rows ----------

  function ExistingKeys(existing: map<string, map<string, seq<string>>>): set<Key> {
    set r, m, k | r in existing && m in existing[r] && k in existing[r][m] :: Key(r, m, k)
  }

  predicate Has(known: Known, key: Key) {
    && key.registrant in known && key.model in known[key.registrant]
    && key.kind in known[key.registrant][key.model] && known[key.registrant][key.model][key.kind]
  }

  /** The rows a map stands for. */
  function KnownKeys(known: Known): set<Key> {
    set r, m, k | r in known && m in known[r] && k in known[r][m] && known[r][m][k] :: Key(r, m, k)
  }

  function Mark(known: Known, registrant: string, model: string, kind: string): Known
    requires registrant in known && model in known[registrant]
  {
    known[registrant := known[registrant][model := known[registrant][model][kind := true]]]
  }

  lemma KnownHas(known: Known)
    ensures forall key :: key in KnownKeys(known) <==> Has(known, key)
  {
  }

  lemma MarkAdds(known: Known, registrant: string, model: string, kind: string)
    requires registrant in known && model in known[registrant]
    ensures KnownKeys(Mark(known, registrant, model, kind)) == KnownKeys(known) + {Key(registrant, model, kind)}
  {
    var known' := Mark(known, registrant, model, kind);
    KnownHas(known);
    KnownHas(known');
    assert forall key :: Has(known', key) <==> Has(known, key) || key == Key(registrant, model, kind);
  }

  lemma OpenRegistrant(known: Known, registrant: string)
    requires registrant !in known
    ensures KnownKeys(known[registrant := map[]]) == KnownKeys(known)
  {
    KnownHas(known);
    KnownHas(known[registrant := map[]]);
    assert forall key :: Has(known[registrant := map[]], key) <==> Has(known, key);
  }

  lemma OpenModel(known: Known, registrant: string, model: string)
    requires registrant in known && model !in known[registrant]
    ensures KnownKeys(known[registrant := known[registrant][model := map[]]]) == KnownKeys(known)
  {
    var known' := known[registrant := known[registrant][model := map[]]];
    KnownHas(known);
    KnownHas(known');
    assert forall key :: Has(known', key) <==> Has(known, key);
  }

  function Concat(batches: seq<seq<Row>>): seq<Row> {
    if batches == [] then [] else Concat(batches[..|batches| - 1]) + batches[|batches| - 1]
  }

  lemma ConcatSnoc(batches: seq<seq<Row>>, batch: seq<Row>)
    ensures Concat(batches + [batch]) == Concat(batches) + batch
  {
    assert (batches + [batch])[..|batches|] == batches;
  }

  /** Taking `rows` one after the other, from a map of `seen` rows. */
  ghost predicate Taken(seen: set<Key>, rows: seq<Row>, known: Known, pending0: seq<Row>, pending: seq<Row>, size0: int,
                        size: int)
  {
    && KnownKeys(known) == seen + Keys(rows)
    && pending == pending0 + FirstOccurrences(seen, rows)
    && size == size0 - |FirstOccurrences(seen, rows)|
  }

  lemma TakenNone(seen: set<Key>, known: Known, pending: seq<Row>, size: int)
    requires KnownKeys(known) == seen
    ensures Taken(seen, [], known, pending, pending, size, size)
  {
    assert seen + Keys([]) == seen;
    assert pending + [] == pending;
  }

  lemma FirstOccurrencesSnoc(seen: set<Key>, rows: seq<Row>, row: Row)
    ensures FirstOccurrences(seen, rows + [row])
         == FirstOccurrences(seen, rows) + (if KeyOf(row) in seen + Keys(rows) then [] else [row])
    ensures seen + Keys(rows + [row]) == seen + Keys(rows) + {KeyOf(row)}
  {
    FirstOccurrencesConcat(seen, rows, [row]);
    assert [row][1..] == [];
    KeysConcat(rows, [row]);
  }

  lemma TakenOne(seen: set<Key>, rows: seq<Row>, row: Row, known: Known, known': Known,
                 pending0: seq<Row>, pending: seq<Row>, size0: int, size: int)
    requires Taken(seen, rows, known, pending0, pending, size0, size)
    requires KnownKeys(known') == seen + Keys(rows) + {KeyOf(row)}
    ensures var added := if KeyOf(row) in seen + Keys(rows) then [] else [row];
            Taken(seen, rows + [row], known', pending0, pending + added, size0, size - |added|)
  {
    FirstOccurrencesSnoc(seen, rows, row);
    var added := if KeyOf(row) in seen + Keys(rows) then [] else [row];
    assert pending0 + FirstOccurrences(seen, rows) + added == pending0 + (FirstOccurrences(seen, rows) + added);
  }

  /** A row whose key was taken before adds nothing. */
  lemma TakenAgain(seen: set<Key>, rows: seq<Row>, row: Row, known: Known, pending0: seq<Row>, pending: seq<Row>,
                   size0: int, size: int)
    requires Taken(seen, rows + [row], known, pending0, pending, size0, size)
    requires KeyOf(row) in Keys(rows)
    ensures Taken(seen, rows, known, pending0, pending, size0, size)
  {
    FirstOccurrencesSnoc(seen, rows, row);
    assert FirstOccurrences(seen, rows) + [] == FirstOccurrences(seen, rows);
    assert seen + Keys(rows) + {KeyOf(row)} == seen + Keys(rows);
  }

  // ---------- the rows of the sheet, registrant by registrant ----------

  /** The keys of the registrants not in `registrants`, and of one more registrant without `models`. */
  function KeysDone(existing: map<string, map<string, seq<string>>>, registrant: string, registrants: set<string>,
                    models: set<string>): set<Key>
  {
    set key | key in ExistingKeys(existing)
              && (key.registrant !in registrants || (key.registrant == registrant && key.model !in models))
  }

  lemma NoneDone(existing: map<string, map<string, seq<string>>>, registrant: string, registrants: set<string>)
    requires registrant in registrants && registrant in existing
    ensures KeysDone(existing, registrant, registrants, existing[registrant].Keys)
         == set key | key in ExistingKeys(existing) && key.registrant !in registrants
  {
  }

  lemma OneDone(existing: map<string, map<string, seq<string>>>, registrant: string, registrants: set<string>,
                models: set<string>, model: string)
    requires registrant in registrants && registrant in existing && model in models
             && models <= existing[registrant].Keys
    ensures KeysDone(existing, registrant, registrants, models - {model})
         == KeysDone(existing, registrant, registrants, models)
             + KindKeys(registrant, model, existing[registrant][model])
  {
  }

  lemma AllDone(existing: map<string, map<string, seq<string>>>, registrant: string, registrants: set<string>)
    requires registrant in registrants
    ensures KeysDone(existing, registrant, registrants, {})
         == set key | key in ExistingKeys(existing) && key.registrant !in registrants - {registrant}
  {
  }

  // ---------- a whole run, as a specification ----------

  function ArrivedBefore(messages: seq<Data>, m: nat): seq<Row>
    requires m <= |messages|
  {
    Arrivals(messages[..m])
  }

  /** The rows of the first `m` messages that the sheet does not have. */
  function NewBefore(seen: set<Key>, messages: seq<Data>, m: nat): seq<Row>
    requires m <= |messages|
  {
    FirstOccurrences(seen, ArrivedBefore(messages, m))
  }

  /** The new rows of message `m`. */
  function NewRows(seen: set<Key>, messages: seq<Data>, m: nat): seq<Row>
    requires m < |messages|
  {
    FirstOccurrences(seen + Keys(ArrivedBefore(messages, m)), RowsOf(messages[m], messages[m].components))
  }

  /** The first `m` messages use up the batch size. */
  predicate Full(seen: set<Key>, messages: seq<Data>, size: int, m: nat)
    requires m <= |messages|
  {
    m > 0 && |NewBefore(seen, messages, m)| >= size
  }

  function Batch(rows: seq<Row>): seq<seq<Row>> {
    if rows == [] then [] else [rows]
  }

  /** What was sent after `m` messages: the first batch ends with the message that uses up the size, and
      from then on every batch holds the new rows of one message. */
  function SentAfter(seen: set<Key>, messages: seq<Data>, size: int, m: nat): seq<seq<Row>>
    requires m <= |messages|
  {
    if !Full(seen, messages, size, m) then []
    else if !Full(seen, messages, size, m - 1) then Batch(NewBefore(seen, messages, m))
    else SentAfter(seen, messages, size, m - 1) + Batch(NewRows(seen, messages, m - 1))
  }

  /** What waits after `m` messages: everything until the size is used up, and nothing from then on. */
  function PendingAfter(seen: set<Key>, messages: seq<Data>, size: int, m: nat): seq<Row>
    requires m <= |messages|
  {
    if Full(seen, messages, size, m) then [] else NewBefore(seen, messages, m)
  }

  function Registrants(messages: seq<Data>): set<string> {
    set m | m in messages :: m.registrant
  }

  /** The number of registrants of the first `m` messages that were not known before. */
  function NewRegistrants(registrants: set<string>, messages: seq<Data>, m: nat): nat
    requires m <= |messages|
  {
    |Registrants(messages[..m]) - registrants|
  }

  /** The first `m` messages use up the batch size of the models. The first message by which they do is the one
      at which the models sheet is updated, which the process does not survive. */
  predicate ModelsFull(registrants: set<string>, messages: seq<Data>, size: int, m: nat)
    requires m <= |messages|
  {
    m > 0 && NewRegistrants(registrants, messages, m) >= size
  }

  lemma {:induction false} ArrivalsSnoc(messages: seq<Data>, data: Data)
    ensures Arrivals(messages + [data]) == Arrivals(messages) + RowsOf(data, data.components)
  {
    if messages == [] {
      assert (messages + [data])[1..] == [];
      assert RowsOf(data, data.components) + [] == RowsOf(data, data.components);
    } else {
      ArrivalsSnoc(messages[1..], data);
      assert (messages + [data])[1..] == messages[1..] + [data];
      Regroup(RowsOf(messages[0], messages[0].components), Arrivals(messages[1..]), RowsOf(data, data.components));
    }
  }

  lemma ArrivedNext(messages: seq<Data>, m: nat)
    requires m < |messages|
    ensures ArrivedBefore(messages, m + 1) == ArrivedBefore(messages, m) + RowsOf(messages[m], messages[m].components)
  {
    assert messages[..m + 1] == messages[..m] + [messages[m]];
    ArrivalsSnoc(messages[..m], messages[m]);
  }

  lemma NewNext(seen: set<Key>, messages: seq<Data>, m: nat)
    requires m < |messages|
    ensures NewBefore(seen, messages, m + 1) == NewBefore(seen, messages, m) + NewRows(seen, messages, m)
    ensures seen + Keys(ArrivedBefore(messages, m + 1))
         == seen + Keys(ArrivedBefore(messages, m)) + Keys(RowsOf(messages[m], messages[m].components))
  {
    var rows := RowsOf(messages[m], messages[m].components);
    ArrivedNext(messages, m);
    FirstOccurrencesConcat(seen, ArrivedBefore(messages, m), rows);
    KeysConcat(ArrivedBefore(messages, m), rows);
    UnionAssociative(seen, Keys(ArrivedBefore(messages, m)), Keys(rows));
  }

  /** Once used up, the size stays used up. */
  lemma FullStays(seen: set<Key>, messages: seq<Data>, size: int, m: nat)
    requires m < |messages| && Full(seen, messages, size, m)
    ensures Full(seen, messages, size, m + 1)
  {
    NewNext(seen, messages, m);
  }

  /** One message more. */
  lemma SentNext(seen: set<Key>, messages: seq<Data>, size: int, m: nat)
    requires m < |messages|
    ensures var pending := PendingAfter(seen, messages, size, m) + NewRows(seen, messages, m);
            if Full(seen, messages, size, m + 1)
            then SentAfter(seen, messages, size, m + 1) == SentAfter(seen, messages, size, m) + Batch(pending)
                 && PendingAfter(seen, messages, size, m + 1) == []
            else SentAfter(seen, messages, size, m + 1) == SentAfter(seen, messages, size, m)
                 && PendingAfter(seen, messages, size, m + 1) == pending
  {
    NewNext(seen, messages, m);
    if Full(seen, messages, size, m) {
      FullStays(seen, messages, size, m);
      assert [] + NewRows(seen, messages, m) == NewRows(seen, messages, m);
    } else {
      assert SentAfter(seen, messages, size, m) == [];
      assert [] + Batch(NewBefore(seen, messages, m + 1)) == Batch(NewBefore(seen, messages, m + 1));
    }
  }

  lemma ConcatBatch(batches: seq<seq<Row>>, rows: seq<Row>)
    ensures Concat(batches + Batch(rows)) == Concat(batches) + rows
  {
    if rows == [] {
      assert batches + [] == batches && Concat(batches) + [] == Concat(batches);
    } else {
      ConcatSnoc(batches, rows);
    }
  }

  lemma Joined(sent: seq<seq<Row>>, pending: seq<Row>, added: seq<Row>, before: seq<Row>, after: seq<Row>)
    requires Concat(sent) + pending == before && before + added == after
    ensures Concat(sent) + (pending + added) == after
    ensures Concat(sent + Batch(pending + added)) + [] == after
  {
    Regroup(Concat(sent), pending, added);
    ConcatBatch(sent, pending + added);
    assert after + [] == after;
  }

  /** Batches that hold, with the rows that wait, these rows. */
  ghost predicate Accounted(sent: seq<seq<Row>>, pending: seq<Row>, rows: seq<Row>) {
    Concat(sent) + pending == rows && forall b :: b in sent ==> b != []
  }

  /** The rows of one message more: the list is sent with them, or waits. */
  ghost predicate OneMore(sent: seq<seq<Row>>, pending: seq<Row>, added: seq<Row>, sent': seq<seq<Row>>,
                          pending': seq<Row>)
  {
    (sent' == sent + Batch(pending + added) && pending' == []) || (sent' == sent && pending' == pending + added)
  }

  lemma AccountedNext(sent: seq<seq<Row>>, pending: seq<Row>, added: seq<Row>, before: seq<Row>, sent': seq<seq<Row>>,
                      pending': seq<Row>)
    requires Accounted(sent, pending, before) && OneMore(sent, pending, added, sent', pending')
    ensures Accounted(sent', pending', before + added)
  {
    Joined(sent, pending, added, before, before + added);
  }

  lemma SentOneMore(seen: set<Key>, messages: seq<Data>, size: int, m: nat)
    requires m < |messages|
    ensures OneMore(SentAfter(seen, messages, size, m), PendingAfter(seen, messages, size, m),
                    NewRows(seen, messages, m),
                    SentAfter(seen, messages, size, m + 1), PendingAfter(seen, messages, size, m + 1))
  {
    SentNext(seen, messages, size, m);
  }

  lemma SentAndPendingNext(seen: set<Key>, messages: seq<Data>, size: int, m: nat)
    requires m < |messages|
    requires Accounted(SentAfter(seen, messages, size, m), PendingAfter(seen, messages, size, m),
                       NewBefore(seen, messages, m))
    ensures Accounted(SentAfter(seen, messages, size, m + 1), PendingAfter(seen, messages, size, m + 1),
                      NewBefore(seen, messages, m + 1))
  {
    SentOneMore(seen, messages, size, m);
    assert NewBefore(seen, messages, m + 1) == NewBefore(seen, messages, m) + NewRows(seen, messages, m) by {
      NewNext(seen, messages, m);
    }
    AccountedNext(SentAfter(seen, messages, size, m), PendingAfter(seen, messages, size, m), NewRows(seen, messages, m),
                  NewBefore(seen, messages, m), SentAfter(seen, messages, size, m + 1),
                  PendingAfter(seen, messages, size, m + 1));
  }

  /** What was sent and what waits are, together, the new rows so far; no batch is empty. */
  lemma {:induction false} SentAndPending(seen: set<Key>, messages: seq<Data>, size: int, m: nat)
    requires m <= |messages|
    ensures Accounted(SentAfter(seen, messages, size, m), PendingAfter(seen, messages, size, m),
                      NewBefore(seen, messages, m))
  {
    if m == 0 {
      assert Concat([]) + NewBefore(seen, messages, 0) == NewBefore(seen, messages, 0);
    } else {
      SentAndPending(seen, messages, size, m - 1);
      SentAndPendingNext(seen, messages, size, m - 1);
    }
  }

  /** The new rows of messages `from` to `m`, one batch for each message that has any. */
  function Singles(seen: set<Key>, messages: seq<Data>, from: nat, m: nat): seq<seq<Row>>
    requires from <= m <= |messages|
  {
    if from == m then [] else Singles(seen, messages, from, m - 1) + Batch(NewRows(seen, messages, m - 1))
  }

  lemma SentOnceFull(seen: set<Key>, messages: seq<Data>, size: int, m: nat)
    requires m < |messages| && Full(seen, messages, size, m)
    ensures Full(seen, messages, size, m + 1)
    ensures SentAfter(seen, messages, size, m + 1)
            == SentAfter(seen, messages, size, m) + Batch(NewRows(seen, messages, m))
  {
    FullStays(seen, messages, size, m);
  }

  lemma SinglesNext(seen: set<Key>, messages: seq<Data>, n: nat, k: nat)
    requires n <= k < |messages|
    ensures Singles(seen, messages, n, k + 1) == Singles(seen, messages, n, k) + Batch(NewRows(seen, messages, k))
  {
  }

  lemma FirstBatch(seen: set<Key>, messages: seq<Data>, size: int, n: nat)
    requires 0 < n <= |messages| && Full(seen, messages, size, n) && !Full(seen, messages, size, n - 1)
    ensures SentAfter(seen, messages, size, n) == Batch(NewBefore(seen, messages, n)) + Singles(seen, messages, n, n)
  {
    var first := Batch(NewBefore(seen, messages, n));
    assert first + [] == first;
  }

  lemma LaterBatch(seen: set<Key>, messages: seq<Data>, size: int, first: seq<seq<Row>>, n: nat, k: nat)
    requires n <= k < |messages| && Full(seen, messages, size, k)
    requires SentAfter(seen, messages, size, k) == first + Singles(seen, messages, n, k)
    ensures SentAfter(seen, messages, size, k + 1) == first + Singles(seen, messages, n, k + 1)
  {
    SentOnceFull(seen, messages, size, k);
    SinglesNext(seen, messages, n, k);
    Regroup(first, Singles(seen, messages, n, k), Batch(NewRows(seen, messages, k)));
  }

  lemma {:induction false} LaterBatches(seen: set<Key>, messages: seq<Data>, size: int, first: seq<seq<Row>>,
                                        n: nat, k: nat, m: nat)
    requires n <= k <= m <= |messages| && Full(seen, messages, size, k)
    requires SentAfter(seen, messages, size, k) == first + Singles(seen, messages, n, k)
    ensures Full(seen, messages, size, m)
    ensures SentAfter(seen, messages, size, m) == first + Singles(seen, messages, n, m)
    decreases m - k
  {
    if k < m {
      FullStays(seen, messages, size, k);
      LaterBatch(seen, messages, size, first, n, k);
      LaterBatches(seen, messages, size, first, n, k + 1, m);
    }
  }

  lemma NonePending(seen: set<Key>, messages: seq<Data>, size: int, m: nat)
    requires m <= |messages| && Full(seen, messages, size, m)
    ensures PendingAfter(seen, messages, size, m) == []
  {
  }

  /** The boundaries of the batches: with `n` the number of messages by which the size is used up, the
      first batch holds all new rows of these and each later batch the new rows of one message. */
  lemma BatchBoundaries(seen: set<Key>, messages: seq<Data>, size: int, n: nat, m: nat)
    requires 0 < n <= m <= |messages| && Full(seen, messages, size, n) && !Full(seen, messages, size, n - 1)
    ensures SentAfter(seen, messages, size, m) == Batch(NewBefore(seen, messages, n)) + Singles(seen, messages, n, m)
    ensures PendingAfter(seen, messages, size, m) == []
  {
    FirstBatch(seen, messages, size, n);
    LaterBatches(seen, messages, size, Batch(NewBefore(seen, messages, n)), n, n, m);
    NonePending(seen, messages, size, m);
  }

  /** In numbers: the message with which as many new rows have come as the size asks for sends all of them, and
      before it nothing is sent. */
  lemma {:induction false} FirstBatchIs(seen: set<Key>, messages: seq<Data>, size: int, n: nat)
    requires 0 < n <= |messages|
    requires |FirstOccurrences(seen, Arrivals(messages[..n]))| >= size
             > |FirstOccurrences(seen, Arrivals(messages[..n - 1]))|
    ensures SentAfter(seen, messages, size, n) == [FirstOccurrences(seen, Arrivals(messages[..n]))]
    ensures SentAfter(seen, messages, size, n - 1) == []
    ensures PendingAfter(seen, messages, size, n) == []
    ensures PendingAfter(seen, messages, size, n - 1) == FirstOccurrences(seen, Arrivals(messages[..n - 1]))
  {
    assert NewBefore(seen, messages, n) != [];
  }

  /** The batches after `m` messages, once rows are sent: the first holds the rows of the messages by which the size
      is used up, and each later one the new rows of one message; without a size each message is a batch. */
  ghost predicate InBatches(seen: set<Key>, messages: seq<Data>, size: int, m: nat, sent: seq<seq<Row>>)
    requires m <= |messages|
  {
    && (size <= 0 ==> sent == Singles(seen, messages, 0, m))
    && forall n :: 0 < n <= m && |FirstOccurrences(seen, Arrivals(messages[..n]))| >= size
                   > |FirstOccurrences(seen, Arrivals(messages[..n - 1]))| ==>
         sent == [FirstOccurrences(seen, Arrivals(messages[..n]))] + Singles(seen, messages, n, m)
  }

  /** A size that is used up is used up with one of the messages. */
  lemma {:induction false} UsedUpWith(seen: set<Key>, messages: seq<Data>, size: int, m: nat) returns (n: nat)
    requires m <= |messages| && 0 < size <= |FirstOccurrences(seen, Arrivals(messages[..m]))|
    ensures 0 < n <= m && |FirstOccurrences(seen, Arrivals(messages[..n]))| >= size
            > |FirstOccurrences(seen, Arrivals(messages[..n - 1]))|
    decreases m
  {
    assert Arrivals(messages[..0]) == [];
    if |FirstOccurrences(seen, Arrivals(messages[..m - 1]))| < size {
      n := m;
    } else {
      n := UsedUpWith(seen, messages, size, m - 1);
    }
  }

  lemma {:induction false} SentEach(seen: set<Key>, messages: seq<Data>, size: int, m: nat)
    requires m <= |messages| && size <= 0
    ensures SentAfter(seen, messages, size, m) == Singles(seen, messages, 0, m)
    ensures PendingAfter(seen, messages, size, m) == []
  {
    if m == 0 {
      assert messages[..0] == [];
    } else {
      SentEach(seen, messages, size, m - 1);
      SentNext(seen, messages, size, m - 1);
      assert [] + NewRows(seen, messages, m - 1) == NewRows(seen, messages, m - 1);
    }
  }

  lemma {:induction false} SentFrom(seen: set<Key>, messages: seq<Data>, size: int, n: nat, m: nat)
    requires 0 < n <= m <= |messages|
    requires |FirstOccurrences(seen, Arrivals(messages[..n]))| >= size
             > |FirstOccurrences(seen, Arrivals(messages[..n - 1]))|
    ensures SentAfter(seen, messages, size, m)
            == [FirstOccurrences(seen, Arrivals(messages[..n]))] + Singles(seen, messages, n, m)
    ensures PendingAfter(seen, messages, size, m) == []
  {
    FirstBatchIs(seen, messages, size, n);
    BatchBoundaries(seen, messages, size, n, m);
  }

  /** What was sent after `m` messages and what waits, in numbers. */
  lemma {:induction false} SentInBatches(seen: set<Key>, messages: seq<Data>, size: int, m: nat)
    requires m <= |messages|
    ensures InBatches(seen, messages, size, m, SentAfter(seen, messages, size, m))
    ensures size > |FirstOccurrences(seen, Arrivals(messages[..m]))| ==>
              SentAfter(seen, messages, size, m) == []
              && PendingAfter(seen, messages, size, m) == FirstOccurrences(seen, Arrivals(messages[..m]))
    ensures size <= |FirstOccurrences(seen, Arrivals(messages[..m]))| ==> PendingAfter(seen, messages, size, m) == []
  {
    if size <= 0 {
      SentEach(seen, messages, size, m);
    }
    forall n | 0 < n <= m && |FirstOccurrences(seen, Arrivals(messages[..n]))| >= size
               > |FirstOccurrences(seen, Arrivals(messages[..n - 1]))|
      ensures SentAfter(seen, messages, size, m)
              == [FirstOccurrences(seen, Arrivals(messages[..n]))] + Singles(seen, messages, n, m)
    {
      SentFrom(seen, messages, size, n, m);
    }
    if m == 0 {
      assert Arrivals(messages[..0]) == [];
    }
  }

  // ---------- when a run completes ----------

  lemma {:induction false} RegistrantsGrow(messages: seq<Data>, i: nat, j: nat)
    requires i <= j <= |messages|
    ensures Registrants(messages[..i]) <= Registrants(messages[..j])
  {
    forall r | r in Registrants(messages[..i])
      ensures r in Registrants(messages[..j])
    {
      var d :| d in messages[..i] && d.registrant == r;
      var k :| 0 <= k < i && messages[k] == d;
      assert messages[..j][k] == d;
    }
  }

  lemma SmallerSet<T>(a: set<T>, b: set<T>)
    requires a <= b
    ensures |a| <= |b|
  {
    assert b == a + (b - a) && a !! (b - a);
  }

  lemma NewRegistrantsGrow(registrants: set<string>, messages: seq<Data>, i: nat, j: nat)
    requires i <= j <= |messages|
    ensures NewRegistrants(registrants, messages, i) <= NewRegistrants(registrants, messages, j)
  {
    RegistrantsGrow(messages, i, j);
    SmallerSet(Registrants(messages[..i]) - registrants, Registrants(messages[..j]) - registrants);
  }

  /** Message `at` is the one the process does not survive. */
  predicate CrashesAt(registrants: set<string>, messages: seq<Data>, size: int, at: nat) {
    && at < |messages| && NewRegistrants(registrants, messages, at + 1) >= size
    && (at > 0 ==> NewRegistrants(registrants, messages, at) < size)
  }

  lemma ModelsFullStays(registrants: set<string>, messages: seq<Data>, size: int, i: nat, j: nat)
    requires i <= j <= |messages| && ModelsFull(registrants, messages, size, i)
    ensures ModelsFull(registrants, messages, size, j)
  {
    NewRegistrantsGrow(registrants, messages, i, j);
  }

  lemma {:induction false} NoLonger(seen: set<Key>, rows: seq<Row>)
    ensures |FirstOccurrences(seen, rows)| <= |rows|
    decreases |rows|
  {
    if rows != [] {
      NoLonger(seen + {KeyOf(rows[0])}, rows[1..]);
      NoLonger(seen, rows[1..]);
    }
  }

  lemma {:induction false} OneEach(messages: seq<Data>)
    requires forall d :: d in messages ==> |d.components| == 1
    ensures |Arrivals(messages)| == |messages|
  {
    if messages != [] {
      OneEach(messages[1..]);
    }
  }

  /** The registrants of the messages are new, and no two messages have the same. */
  predicate AllNew(registrants: set<string>, messages: seq<Data>) {
    && (forall i, j :: 0 <= i < j < |messages| ==> messages[i].registrant != messages[j].registrant)
    && forall d :: d in messages ==> d.registrant !in registrants
  }

  lemma NotKnown(registrants: set<string>, messages: seq<Data>, m: nat)
    requires m < |messages| && AllNew(registrants, messages)
    ensures messages[m].registrant !in registrants + Registrants(messages[..m])
  {
    assert messages[m] in messages;
  }

  lemma NoneYet(registrants: set<string>, messages: seq<Data>)
    ensures NewRegistrants(registrants, messages, 0) == 0
  {
    assert messages[..0] == [] && Registrants([]) - registrants == {};
  }

  lemma OneMoreRegistrant(registrants: set<string>, messages: seq<Data>, m: nat)
    requires m < |messages| && messages[m].registrant !in registrants + Registrants(messages[..m])
    ensures NewRegistrants(registrants, messages, m + 1) == NewRegistrants(registrants, messages, m) + 1
  {
    RegistrantsNext(messages, m, registrants);
  }

  lemma {:induction false} DistinctRegistrants(registrants: set<string>, messages: seq<Data>, m: nat)
    requires m <= |messages| && AllNew(registrants, messages)
    ensures NewRegistrants(registrants, messages, m) == m
  {
    if m == 0 {
      NoneYet(registrants, messages);
    } else {
      var k: nat := m - 1;
      assert NewRegistrants(registrants, messages, k) == k by {
        DistinctRegistrants(registrants, messages, k);
      }
      assert NewRegistrants(registrants, messages, k + 1) == NewRegistrants(registrants, messages, k) + 1 by {
        NotKnown(registrants, messages, k);
        OneMoreRegistrant(registrants, messages, k);
      }
    }
  }

  /** With as many messages as the batch size, each of one component, a run that dies at the last has sent nothing:
      all new rows are lost. */
  lemma {:induction false} AllRowsLost(seen: set<Key>, messages: seq<Data>, size: nat, at: nat, sent: seq<seq<Row>>,
                                       lost: seq<Row>)
    requires |messages| == size == at + 1 && forall d :: d in messages ==> |d.components| == 1
    ensures RestLost(seen, messages, size, at, sent, lost) ==>
              sent == [] && lost == FirstOccurrences(seen, Arrivals(messages))
  {
    var before := messages[..at];
    assert messages[..at + 1] == messages;
    assert forall d :: d in before ==> d in messages;
    FewRows(seen, before);
    assert [] + lost == lost;
  }

  /** With as many messages as the models' batch size, each of a new registrant, the process dies at the last. */
  lemma {:induction false} DiesAtLast(registrants: set<string>, messages: seq<Data>, size: nat, at: nat)
    requires |messages| == size == at + 1 && AllNew(registrants, messages)
    ensures CrashesAt(registrants, messages, size, at)
  {
    DistinctRegistrants(registrants, messages, at);
    DistinctRegistrants(registrants, messages, size);
  }

  lemma FewRows(seen: set<Key>, messages: seq<Data>)
    requires forall d :: d in messages ==> |d.components| == 1
    ensures |FirstOccurrences(seen, Arrivals(messages))| <= |messages|
  {
    OneEach(messages);
    NoLonger(seen, Arrivals(messages));
  }

  datatype Outcome = Completed | Crashed(at: nat)

  class Updater {
    var known: Known
    var registrantToModels: map<string, map<string, bool>>
    var compBatchSize: int
    var modelBatchSize: int
    var pending: seq<Row>
    var sent: seq<seq<Row>>

    constructor (compBatchSize: int, modelBatchSize: int)
      ensures known == map[] && registrantToModels == map[] && pending == [] && sent == []
      ensures this.compBatchSize == compBatchSize && this.modelBatchSize == modelBatchSize
    {
      known, registrantToModels, pending, sent := map[], map[], [], [];
      this.compBatchSize, this.modelBatchSize := compBatchSize, modelBatchSize;
    }

    /** The rows the sheet already has: the map is rebuilt from them. */
    method ProcessModelToComponentsMap(existing: map<string, map<string, seq<string>>>)
      modifies this`known
      ensures KnownKeys(known) == ExistingKeys(existing)
    {
      known := map[];
      var registrants := existing.Keys;
      while registrants != {}
        invariant registrants <= existing.Keys
        invariant KnownKeys(known) == (set key | key in ExistingKeys(existing) && key.registrant !in registrants)
        decreases registrants
      {
        var registrant :| registrant in registrants;
        ProcessRegistrant(existing, registrant, registrants);
        registrants := registrants - {registrant};
      }
      assert (set key | key in ExistingKeys(existing) && key.registrant !in registrants) == ExistingKeys(existing);
    }

    method ProcessRegistrant(existing: map<string, map<string, seq<string>>>, registrant: string,
                             ghost registrants: set<string>)
      requires registrant in registrants && registrants <= existing.Keys
      requires KnownKeys(known) == (set key | key in ExistingKeys(existing) && key.registrant !in registrants)
      modifies this`known
      ensures KnownKeys(known)
           == (set key | key in ExistingKeys(existing) && key.registrant !in registrants - {registrant})
    {
      var models := existing[registrant].Keys;
      NoneDone(existing, registrant, registrants);
      while models != {}
        invariant models <= existing[registrant].Keys
        invariant KnownKeys(known) == KeysDone(existing, registrant, registrants, models)
        decreases models
      {
        var model :| model in models;
        if registrant !in known {
          OpenRegistrant(known, registrant);
          known := known[registrant := map[]];
        }
        OneDone(existing, registrant, registrants, models, model);
        ProcessKinds(registrant, model, existing[registrant][model],
                     KeysDone(existing, registrant, registrants, models));
        models := models - {model};
      }
      AllDone(existing, registrant, registrants);
    }

    method ProcessKinds(registrant: string, model: string, kinds: seq<string>, ghost seen: set<Key>)
      requires registrant in known && KnownKeys(known) == seen
      modifies this`known
      ensures KnownKeys(known) == seen + KindKeys(registrant, model, kinds)
    {
      assert seen + KindKeys(registrant, model, kinds[..0]) == seen;
      for i := 0 to |kinds|
        invariant registrant in known && KnownKeys(known) == seen + KindKeys(registrant, model, kinds[..i])
      {
        if model !in known[registrant] {
          OpenModel(known, registrant, model);
          known := known[registrant := known[registrant][model := map[]]];
        }
        MarkAdds(known, registrant, model, kinds[i]);
        known := Mark(known, registrant, model, kinds[i]);
        assert KindKeys(registrant, model, kinds[..i + 1])
            == KindKeys(registrant, model, kinds[..i]) + {Key(registrant, model, kinds[i])};
      }
      assert kinds[..|kinds|] == kinds;
    }

    /** One component whose model is in the map. */
    method AddOne(data: Data, c: Component, ghost seen: set<Key>)
      requires data.registrant in known && data.model in known[data.registrant] && KnownKeys(known) == seen
      modifies this`known, this`pending, this`compBatchSize
      ensures data.registrant in known && data.model in known[data.registrant]
      ensures KnownKeys(known) == seen + {KeyOf(RowOf(data, c))}
      ensures var added := if KeyOf(RowOf(data, c)) in seen then [] else [RowOf(data, c)];
              pending == old(pending) + added && compBatchSize == old(compBatchSize) - |added|
    {
      var row := RowOf(data, c);
      KnownHas(known);
      if !(c.kind in known[data.registrant][data.model] && known[data.registrant][data.model][c.kind]) {
        assert !Has(known, KeyOf(row));
        MarkAdds(known, data.registrant, data.model, c.kind);
        known := Mark(known, data.registrant, data.model, c.kind);
        pending := pending + [row];
        compBatchSize := compBatchSize - 1;
      } else {
        assert Has(known, KeyOf(row));
        assert seen + {KeyOf(row)} == seen;
      }
    }

    /** One more component after the rows `taken`. */
    method TakeOne(data: Data, c: Component, ghost seen: set<Key>, ghost taken: seq<Row>, ghost pending0: seq<Row>,
                   ghost size0: int)
      requires data.registrant in known && data.model in known[data.registrant]
      requires Taken(seen, taken, known, pending0, pending, size0, compBatchSize)
      modifies this`known, this`pending, this`compBatchSize
      ensures data.registrant in known && data.model in known[data.registrant]
      ensures Taken(seen, taken + [RowOf(data, c)], known, pending0, pending, size0, compBatchSize)
    {
      AddOne(data, c, seen + Keys(taken));
      TakenOne(seen, taken, RowOf(data, c), old(known), known, pending0, old(pending), size0, old(compBatchSize));
    }

    /** Makes room for a model. */
    method EnsureModel(data: Data)
      requires data.registrant in known
      modifies this`known
      ensures data.registrant in known && data.model in known[data.registrant]
      ensures KnownKeys(known) == KnownKeys(old(known))
    {
      if data.model !in known[data.registrant] {
        OpenModel(known, data.registrant, data.model);
        known := known[data.registrant := known[data.registrant][data.model := map[]]];
      }
    }

    /** The components of one message, when their model is new to the map. */
    method AddEntriesInCompUpdateList(data: Data, ghost seen: set<Key>)
      requires data.registrant in known && KnownKeys(known) == seen
      modifies this`known, this`pending, this`compBatchSize
      ensures data.registrant in known && data.model in known[data.registrant]
      ensures Taken(seen, RowsOf(data, data.components), known, old(pending), pending, old(compBatchSize),
                    compBatchSize)
    {
      EnsureModel(data);
      ghost var rows := RowsOf(data, data.components);
      TakenNone(seen, known, pending, compBatchSize);
      for i := 0 to |data.components|
        invariant data.registrant in known && data.model in known[data.registrant]
        invariant Taken(seen, rows[..i], known, old(pending), pending, old(compBatchSize), compBatchSize)
      {
        TakeNth(data, i, seen, rows, old(pending), old(compBatchSize));
      }
      assert rows[..|rows|] == rows;
    }

    /** Component `i` of a message, after the components before it. */
    method TakeNth(data: Data, i: nat, ghost seen: set<Key>, ghost rows: seq<Row>, ghost pending0: seq<Row>,
                   ghost size0: int)
      requires i < |data.components| && rows == RowsOf(data, data.components)
      requires data.registrant in known && data.model in known[data.registrant]
      requires Taken(seen, rows[..i], known, pending0, pending, size0, compBatchSize)
      modifies this`known, this`pending, this`compBatchSize
      ensures data.registrant in known && data.model in known[data.registrant]
      ensures Taken(seen, rows[..i + 1], known, pending0, pending, size0, compBatchSize)
    {
      assert rows[..i + 1] == rows[..i] + [RowOf(data, data.components[i])];
      TakeOne(data, data.components[i], seen, rows[..i], pending0, size0);
    }

    /** All components of a message whose registrant or model is not in the map. */
    method AddFirst(data: Data, ghost seen: set<Key>)
      requires !(data.registrant in known && data.model in known[data.registrant]) && KnownKeys(known) == seen
      modifies this`known, this`pending, this`compBatchSize
      ensures data.registrant in known && data.model in known[data.registrant]
      ensures Taken(seen, RowsOf(data, data.components), known, old(pending), pending, old(compBatchSize),
                    compBatchSize)
    {
      if data.registrant !in known {
        OpenRegistrant(known, data.registrant);
        known := known[data.registrant := map[]];
      }
      AddEntriesInCompUpdateList(data, seen);
    }

    /** Component `j` of a message whose model is in the map, after the rows `taken`: either it is the
        next row, or all the rows were taken when the model was added. */
    method AddNext(data: Data, j: nat, ghost seen: set<Key>, ghost taken: seq<Row>, ghost pending0: seq<Row>,
                   ghost size0: int)
      requires j < |data.components|
      requires taken == RowsOf(data, data.components)[..j] || taken == RowsOf(data, data.components)
      requires data.registrant in known && data.model in known[data.registrant]
      requires Taken(seen, taken, known, pending0, pending, size0, compBatchSize)
      modifies this`known, this`pending, this`compBatchSize
      ensures data.registrant in known && data.model in known[data.registrant]
      ensures Taken(seen, if |taken| == j then taken + [RowOf(data, data.components[j])] else taken, known,
                    pending0, pending, size0, compBatchSize)
    {
      TakeOne(data, data.components[j], seen, taken, pending0, size0);
      if |taken| > j {
        assert taken[j] == RowOf(data, data.components[j]);
        KeyAmong(taken, j);
        TakenAgain(seen, taken, RowOf(data, data.components[j]), known, pending0, pending, size0, compBatchSize);
      }
    }

    /** The components of one message: the three ways a component may be met add the same rows. */
    method AddMessage(data: Data, ghost seen: set<Key>)
      requires KnownKeys(known) == seen
      modifies this`known, this`pending, this`compBatchSize
      ensures Taken(seen, RowsOf(data, data.components), known, old(pending), pending, old(compBatchSize),
                    compBatchSize)
    {
      ghost var rows := RowsOf(data, data.components);
      ghost var taken: seq<Row> := [];
      TakenNone(seen, known, pending, compBatchSize);
      for j := 0 to |data.components|
        invariant taken == rows[..j] || taken == rows
        invariant j == 0 ==> taken == [] && KnownKeys(known) == seen
        invariant j == 0 ==> pending == old(pending) && compBatchSize == old(compBatchSize)
        invariant j > 0 ==> data.registrant in known && data.model in known[data.registrant]
        invariant Taken(seen, taken, known, old(pending), pending, old(compBatchSize), compBatchSize)
      {
        if data.registrant in known && data.model in known[data.registrant] {
          AddNext(data, j, seen, taken, old(pending), old(compBatchSize));
          taken := if |taken| == j then taken + [rows[j]] else taken;
        } else {
          AddFirst(data, seen);
          taken := rows;
        }
      }
      assert rows[..|rows|] == rows;
    }

    /** A registrant that has not been seen uses up one unit of the models' batch; the list of models to be
        added never gets an entry. */
    method AddEntriesInModelUpdateList(data: Data)
      requires data.registrant !in registrantToModels
      modifies this`registrantToModels, this`modelBatchSize
      ensures registrantToModels.Keys == old(registrantToModels.Keys) + {data.registrant}
      ensures modelBatchSize == old(modelBatchSize) - 1
    {
      if data.registrant !in registrantToModels {
        registrantToModels := registrantToModels[data.registrant := map[]];
      }
      var models := registrantToModels[data.registrant];
      registrantToModels := registrantToModels[data.registrant := models[data.model := true]];
      modelBatchSize := modelBatchSize - 1;
    }

    /** The list handed to the sheet; an empty list is not sent. */
    method UpdateComponentsSheet()
      modifies this`sent, this`pending
      ensures pending == [] && sent == old(sent) + Batch(old(pending))
    {
      if |pending| != 0 {
        sent := sent + [pending];
      } else {
        assert sent + [] == sent;
      }
      pending := [];
    }

    /** The state after `m` messages of a run that began with these rows, registrants and sizes. */
    ghost predicate At(m: nat, messages: seq<Data>, seen: set<Key>, registrants: set<string>, comps: int, models: int)
      requires m <= |messages|
      reads this
    {
      && Noted(m, messages, registrants, models)
      && Marked(m, messages, seen, comps)
      && sent == SentAfter(seen, messages, comps, m) && pending == PendingAfter(seen, messages, comps, m)
    }

    ghost predicate Marked(m: nat, messages: seq<Data>, seen: set<Key>, comps: int)
      requires m <= |messages|
      reads this`known, this`compBatchSize
    {
      && KnownKeys(known) == seen + Keys(ArrivedBefore(messages, m))
      && compBatchSize == comps - |NewBefore(seen, messages, m)|
    }

    ghost predicate Noted(m: nat, messages: seq<Data>, registrants: set<string>, models: int)
      requires m <= |messages|
      reads this`registrantToModels, this`modelBatchSize
    {
      && registrantToModels.Keys == registrants + Registrants(messages[..m])
      && modelBatchSize == models - NewRegistrants(registrants, messages, m)
    }

    /** The registrant of message `m`. */
    method NoteRegistrant(data: Data, ghost m: nat, ghost messages: seq<Data>, ghost registrants: set<string>,
                          ghost models: int)
      requires m < |messages| && messages[m] == data && Noted(m, messages, registrants, models)
      modifies this`registrantToModels, this`modelBatchSize
      ensures Noted(m + 1, messages, registrants, models)
    {
      RegistrantsNext(messages, m, registrants);
      if data.registrant !in registrantToModels {
        AddEntriesInModelUpdateList(data);
      }
    }

    /** The rows of message `m`. */
    method TakeMessage(data: Data, ghost m: nat, ghost messages: seq<Data>, ghost seen: set<Key>, ghost comps: int)
      requires m < |messages| && messages[m] == data && Marked(m, messages, seen, comps)
      modifies this`known, this`pending, this`compBatchSize
      ensures Marked(m + 1, messages, seen, comps)
      ensures pending == old(pending) + NewRows(seen, messages, m)
    {
      AddMessage(data, seen + Keys(ArrivedBefore(messages, m)));
      NewNext(seen, messages, m);
    }

    /** Both, in the order of the loop. */
    method NoteAndTake(data: Data, ghost m: nat, ghost messages: seq<Data>, ghost seen: set<Key>,
                       ghost registrants: set<string>, ghost comps: int, ghost models: int)
      requires m < |messages| && messages[m] == data
      requires Noted(m, messages, registrants, models) && Marked(m, messages, seen, comps)
      modifies this`known, this`registrantToModels, this`compBatchSize, this`modelBatchSize, this`pending
      ensures Noted(m + 1, messages, registrants, models) && Marked(m + 1, messages, seen, comps)
      ensures modelBatchSize <= 0 <==> ModelsFull(registrants, messages, models, m + 1)
      ensures pending == old(pending) + NewRows(seen, messages, m)
    {
      NoteRegistrant(data, m, messages, registrants, models);
      assert modelBatchSize <= 0 <==> ModelsFull(registrants, messages, models, m + 1);
      TakeMessage(data, m, messages, seen, comps);
    }

    /** Message `m`: its rows are taken; when the models' batch is used up the process dies in the update of the
        models sheet, before the components are looked at; otherwise the list is sent when its batch is full. */
    method ProcessMessage(data: Data, ghost m: nat, ghost messages: seq<Data>, ghost seen: set<Key>,
                          ghost registrants: set<string>, ghost comps: int, ghost models: int)
      returns (crashed: bool)
      requires m < |messages| && messages[m] == data && At(m, messages, seen, registrants, comps, models)
      modifies this
      ensures crashed <==> ModelsFull(registrants, messages, models, m + 1)
      ensures !crashed ==> At(m + 1, messages, seen, registrants, comps, models)
      ensures crashed ==> sent == old(sent) && pending == old(pending) + NewRows(seen, messages, m)
    {
      NoteAndTake(data, m, messages, seen, registrants, comps, models);
      if modelBatchSize <= 0 {
        return true;
      }
      SendWhenFull(m, messages, seen, comps);
      return false;
    }

    /** The list, with the rows of message `m`, is sent when its batch is full. */
    method SendWhenFull(ghost m: nat, ghost messages: seq<Data>, ghost seen: set<Key>, ghost comps: int)
      requires m < |messages| && Marked(m + 1, messages, seen, comps)
      requires sent == SentAfter(seen, messages, comps, m)
      requires pending == PendingAfter(seen, messages, comps, m) + NewRows(seen, messages, m)
      modifies this`sent, this`pending
      ensures sent == SentAfter(seen, messages, comps, m + 1) && pending == PendingAfter(seen, messages, comps, m + 1)
    {
      SentNext(seen, messages, comps, m);
      if compBatchSize <= 0 {
        UpdateComponentsSheet();
      }
    }

    /** The messages of the channel, up to the end or to the one the process does not survive. */
    method Consume(messages: seq<Data>, ghost seen: set<Key>, ghost registrants: set<string>, ghost comps: int,
                   ghost models: int)
      returns (outcome: Outcome)
      requires At(0, messages, seen, registrants, comps, models)
      modifies this
      ensures outcome.Completed? ==> !ModelsFull(registrants, messages, models, |messages|)
      ensures outcome.Crashed? ==> CrashesAt(registrants, messages, models, outcome.at)
      ensures outcome.Completed? ==>
                && KnownKeys(known) == seen + Keys(ArrivedBefore(messages, |messages|))
                && sent == SentAfter(seen, messages, comps, |messages|)
                   && pending == PendingAfter(seen, messages, comps, |messages|)
      ensures outcome.Crashed? ==>
                && sent == SentAfter(seen, messages, comps, outcome.at)
                && pending == PendingAfter(seen, messages, comps, outcome.at) + NewRows(seen, messages, outcome.at)
    {
      for m := 0 to |messages|
        invariant At(m, messages, seen, registrants, comps, models)
        invariant !ModelsFull(registrants, messages, models, m)
      {
        var crashed := ProcessMessage(messages[m], m, messages, seen, registrants, comps, models);
        if crashed {
          return Crashed(m);
        }
      }
      return Completed;
    }

    method Run(messages: seq<Data>, ghost seen: set<Key>, ghost registrants: set<string>, ghost comps: int,
               ghost models: int)
      returns (outcome: Outcome)
      requires At(0, messages, seen, registrants, comps, models)
      modifies this
      ensures outcome.Completed? <==> !ModelsFull(registrants, messages, models, |messages|)
      ensures outcome.Completed? ==>
                AllSent(seen, messages, comps, sent) && pending == []
                    && KnownKeys(known) == seen + Keys(Arrivals(messages))
      ensures outcome.Crashed? ==>
                CrashesAt(registrants, messages, models, outcome.at)
                    && RestLost(seen, messages, comps, outcome.at, sent, pending)
    {
      outcome := Consume(messages, seen, registrants, comps, models);
      if outcome.Crashed? {
        CrashedRun(seen, messages, comps, registrants, models, outcome.at, sent, pending);
        return;
      }
      AllArrived(messages);
      SendRest(seen, messages, comps);
    }

    /** A whole run; the registrants and the sizes are those the runs before it left. It completes exactly
        when there is no message or fewer new registrants than the models' batch size; then the batches, put
        together, are the first occurrences of the keys the sheet does not have. Otherwise it dies at the message
        that brings in the last registrant: what was sent are the batches of the messages before it, and the rows
        that waited are lost with its own. */
    method VerifyAndUpdateSpreadsheet(messages: seq<Data>) returns (outcome: Outcome)
      modifies this
      ensures outcome.Completed? <==>
                messages == []
                || NewRegistrants(old(registrantToModels.Keys), messages, |messages|) < old(modelBatchSize)
      ensures outcome.Completed? ==>
                AllSent(old(KnownKeys(known)), messages, old(compBatchSize), sent)
                && pending == [] && KnownKeys(known) == old(KnownKeys(known)) + Keys(Arrivals(messages))
      ensures outcome.Crashed? ==>
                CrashesAt(old(registrantToModels.Keys), messages, old(modelBatchSize), outcome.at)
                && RestLost(old(KnownKeys(known)), messages, old(compBatchSize), outcome.at, sent, pending)
    {
      pending, sent := [], [];
      ghost var seen, registrants := KnownKeys(known), registrantToModels.Keys;
      ghost var comps, models := compBatchSize, modelBatchSize;
      assert At(0, messages, seen, registrants, comps, models) by {
        Start(seen, messages, registrants);
      }
      outcome := Run(messages, seen, registrants, comps, models);
    }

    /** The goroutine of a generation run: the rows of the sheet are read first. */
    method UpdateSheet(existing: map<string, map<string, seq<string>>>, messages: seq<Data>) returns (outcome: Outcome)
      modifies this
      ensures outcome.Completed? <==>
                messages == []
                || NewRegistrants(old(registrantToModels.Keys), messages, |messages|) < old(modelBatchSize)
      ensures outcome.Completed? ==>
                AllSent(ExistingKeys(existing), messages, old(compBatchSize), sent)
                && KnownKeys(known) == ExistingKeys(existing) + Keys(Arrivals(messages))
      ensures outcome.Crashed? ==>
                CrashesAt(old(registrantToModels.Keys), messages, old(modelBatchSize), outcome.at)
                && RestLost(ExistingKeys(existing), messages, old(compBatchSize), outcome.at, sent, pending)
    {
      ProcessModelToComponentsMap(existing);
      outcome := VerifyAndUpdateSpreadsheet(messages);
    }

    /** What waits when the channel is closed. */
    method SendRest(ghost seen: set<Key>, ghost messages: seq<Data>, ghost comps: int)
      requires sent == SentAfter(seen, messages, comps, |messages|)
               && pending == PendingAfter(seen, messages, comps, |messages|)
      modifies this`sent, this`pending
      ensures AllSent(seen, messages, comps, sent) && pending == []
    {
      CompletedSplit(seen, messages, comps);
      if |pending| > 0 {
        UpdateComponentsSheet();
      } else {
        assert sent + [] == sent;
      }
    }
  }

  /** A completed run: one batch when there are fewer new rows than the size asks for, and else the batches of the
      messages, with nothing left. */
  ghost predicate AllSent(seen: set<Key>, messages: seq<Data>, size: int, sent: seq<seq<Row>>) {
    && (if size > |FirstOccurrences(seen, Arrivals(messages))|
        then sent == Batch(FirstOccurrences(seen, Arrivals(messages)))
        else InBatches(seen, messages, size, |messages|, sent))
    && Concat(sent) == FirstOccurrences(seen, Arrivals(messages))
    && forall b :: b in sent ==> b != []
  }

  /** A run that died at message `at`: the batches of the messages before it, and the lost rows. */
  ghost predicate RestLost(seen: set<Key>, messages: seq<Data>, size: int, at: nat, sent: seq<seq<Row>>, lost: seq<Row>)
  {
    && at < |messages|
    && (if size > |FirstOccurrences(seen, Arrivals(messages[..at]))|
        then sent == []
        else InBatches(seen, messages, size, at, sent) && lost == NewRows(seen, messages, at))
    && Concat(sent) + lost == FirstOccurrences(seen, Arrivals(messages[..at + 1]))
  }

  lemma Start(seen: set<Key>, messages: seq<Data>, registrants: set<string>)
    ensures seen + Keys(ArrivedBefore(messages, 0)) == seen && NewBefore(seen, messages, 0) == []
    ensures registrants + Registrants(messages[..0]) == registrants && NewRegistrants(registrants, messages, 0) == 0
  {
    NoneYet(registrants, messages);
  }

  lemma RegistrantsNext(messages: seq<Data>, m: nat, registrants: set<string>)
    requires m < |messages|
    ensures var before, r := Registrants(messages[..m]), messages[m].registrant;
            && Registrants(messages[..m + 1]) == before + {r}
            && NewRegistrants(registrants, messages, m + 1)
               == |before - registrants| + if r in registrants + before then 0 else 1
  {
    var before, r := Registrants(messages[..m]), messages[m].registrant;
    assert messages[..m + 1] == messages[..m] + [messages[m]];
    assert Registrants(messages[..m + 1]) == before + {r};
    if r in registrants + before {
      assert before + {r} - registrants == before - registrants;
    } else {
      assert before + {r} - registrants == (before - registrants) + {r};
    }
  }

  lemma {:induction false} CrashedRun(seen: set<Key>, messages: seq<Data>, comps: int, registrants: set<string>,
                                      models: int, at: nat, sent: seq<seq<Row>>, lost: seq<Row>)
    requires CrashesAt(registrants, messages, models, at)
    requires sent == SentAfter(seen, messages, comps, at)
    requires lost == PendingAfter(seen, messages, comps, at) + NewRows(seen, messages, at)
    ensures ModelsFull(registrants, messages, models, |messages|) && RestLost(seen, messages, comps, at, sent, lost)
  {
    ModelsFullStays(registrants, messages, models, at + 1, |messages|);
    CrashedSplit(seen, messages, comps, at);
  }

  lemma CrashedSplit(seen: set<Key>, messages: seq<Data>, size: int, m: nat)
    requires m < |messages|
    ensures RestLost(seen, messages, size, m, SentAfter(seen, messages, size, m),
                     PendingAfter(seen, messages, size, m) + NewRows(seen, messages, m))
  {
    SentAndPending(seen, messages, size, m);
    SentInBatches(seen, messages, size, m);
    NewNext(seen, messages, m);
    assert [] + NewRows(seen, messages, m) == NewRows(seen, messages, m);
    Joined(SentAfter(seen, messages, size, m), PendingAfter(seen, messages, size, m), NewRows(seen, messages, m),
           NewBefore(seen, messages, m), NewBefore(seen, messages, m + 1));
  }

  lemma AllArrived(messages: seq<Data>)
    ensures ArrivedBefore(messages, |messages|) == Arrivals(messages)
  {
    assert messages[..|messages|] == messages;
  }

  lemma CompletedSplit(seen: set<Key>, messages: seq<Data>, size: int)
    ensures AllSent(seen, messages, size,
                    SentAfter(seen, messages, size, |messages|) + Batch(PendingAfter(seen, messages, size, |messages|)))
  {
    assert messages[..|messages|] == messages;
    SentAndPending(seen, messages, size, |messages|);
    SentInBatches(seen, messages, size, |messages|);
    var sent := SentAfter(seen, messages, size, |messages|);
    var last := Batch(PendingAfter(seen, messages, size, |messages|));
    assert sent + [] == sent && [] + last == last;
    ConcatBatch(SentAfter(seen, messages, size, |messages|), PendingAfter(seen, messages, size, |messages|));
  }

  lemma UnionAssociative<T>(a: set<T>, b: set<T>, c: set<T>)
    ensures a + b + c == a + (b + c)
  {
  }

  function KindKeys(registrant: string, model: string, kinds: seq<string>): set<Key> {
    set i | 0 <= i < |kinds| :: Key(registrant, model, kinds[i])
  }

  lemma {:induction false} KeysConcat(a: seq<Row>, b: seq<Row>)
    ensures Keys(a + b) == Keys(a) + Keys(b)
    decreases |a|
  {
    if a == [] {
      assert a + b == b;
    } else {
      assert (a + b)[0] == a[0] && (a + b)[1..] == a[1..] + b;
      KeysConcat(a[1..], b);
    }
  }
}
