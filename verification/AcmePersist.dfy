/** The ACME key-value table (src/acme.rs): SQL rows without a unique key that serve as a map.
    Statements run one after the other. */
module AcmePersist {
  import opened Util

  datatype Kind = Certificate | PrivateKey | AccountPrivateKey

  datatype Key = Key(key: string, realm: u64, kind: Kind)

  datatype Row = Row(key: string, realm: i64, kind: string, value: seq<byte>)

  function PersistKind(kind: Kind): string {
    match kind
    case Certificate => "crt"
    case PrivateKey => "priv_key"
    case AccountPrivateKey => "acc_priv_key"
  }

  /** `WHERE key = $1 AND realm = $2 AND kind = $3` */
  predicate Matches(row: Row, k: Key) {
    row.key == k.key && row.realm == ToI64(k.realm) && row.kind == PersistKind(k.kind)
  }

  predicate Exists(rows: seq<Row>, k: Key) {
    exists i :: 0 <= i < |rows| && Matches(rows[i], k)
  }

  /** `UPDATE acme SET value = $4 WHERE ...` */
  function Updated(rows: seq<Row>, k: Key, value: seq<byte>): seq<Row> {
    seq(|rows|, i requires 0 <= i < |rows| => if Matches(rows[i], k) then rows[i].(value := value) else rows[i])
  }

  function AfterPut(rows: seq<Row>, k: Key, value: seq<byte>): seq<Row> {
    if Exists(rows, k) then Updated(rows, k, value)
    else rows + [Row(k.key, ToI64(k.realm), PersistKind(k.kind), value)]
  }

  /** A possible answer of `SELECT value ... LIMIT 1`, which may take any matching row. */
  ghost predicate IsAnswer(rows: seq<Row>, k: Key, answer: Option<seq<byte>>) {
    match answer
    case None => !Exists(rows, k)
    case Some(v) => exists i :: 0 <= i < |rows| && Matches(rows[i], k) && rows[i].value == v
  }

  class AcmeTable {
    var rows: seq<Row>

    constructor ()
      ensures rows == []
    {
      rows := [];
    }

    method Put(k: Key, value: seq<byte>)
      modifies this
      ensures rows == AfterPut(old(rows), k, value)
    {
      if Exists(rows, k) {
        rows := Updated(rows, k, value);
      } else {
        rows := rows + [Row(k.key, ToI64(k.realm), PersistKind(k.kind), value)];
      }
    }

    method Get(k: Key) returns (answer: Option<seq<byte>>)
      ensures IsAnswer(rows, k, answer)
    {
      if Exists(rows, k) {
        var i :| 0 <= i < |rows| && Matches(rows[i], k);
        answer := Some(rows[i].value);
      } else {
        answer := None;
      }
    }
  }

  /** Distinct keys never meet in a row: the realm cast and the kind names are injective. */
  lemma {:induction false} RowHasOneKey(row: Row, k: Key, k': Key)
    requires Matches(row, k) && Matches(row, k')
    ensures k == k'
  {
  }

  ghost predicate AtMostOneRow(rows: seq<Row>) {
    forall i, j, k :: 0 <= i < |rows| && 0 <= j < |rows| && Matches(rows[i], k) && Matches(rows[j], k) ==> i == j
  }

  /** Even when a key has several rows, a put decides every later get of that key,
      and no get of another key is affected. */
  lemma {:induction false} PutThenGet(rows: seq<Row>, k: Key, value: seq<byte>, k': Key, answer: Option<seq<byte>>)
    ensures IsAnswer(AfterPut(rows, k, value), k, answer) <==> answer == Some(value)
    ensures k' != k ==> (IsAnswer(AfterPut(rows, k, value), k', answer) <==> IsAnswer(rows, k', answer))
  {
    var rows' := AfterPut(rows, k, value);
    PutHasRow(rows, k, value);
    if k' != k {
      forall i | 0 <= i < |rows'| && Matches(rows'[i], k')
        ensures i < |rows| && rows'[i] == rows[i]
      {
        if i == |rows| || Matches(rows[i], k) { RowHasOneKey(rows'[i], k, k'); }
      }
      forall i | 0 <= i < |rows| && Matches(rows[i], k')
        ensures rows'[i] == rows[i]
      {
        if Matches(rows[i], k) { RowHasOneKey(rows[i], k, k'); }
      }
      assert Exists(rows, k') <==> Exists(rows', k');
      if IsAnswer(rows, k', answer) { AnswerTransfers(rows, rows', k', answer); }
      if IsAnswer(rows', k', answer) { AnswerTransfers(rows', rows, k', answer); }
    }
  }

  lemma {:induction false} PutHasRow(rows: seq<Row>, k: Key, value: seq<byte>)
    ensures Exists(AfterPut(rows, k, value), k)
    ensures forall i :: 0 <= i < |AfterPut(rows, k, value)| && Matches(AfterPut(rows, k, value)[i], k) ==>
              AfterPut(rows, k, value)[i].value == value
  {
    var rows' := AfterPut(rows, k, value);
    if Exists(rows, k) {
      var i :| 0 <= i < |rows| && Matches(rows[i], k);
      assert Matches(rows'[i], k);
    } else {
      assert Matches(rows'[|rows|], k);
    }
  }

  lemma {:induction false} AnswerTransfers(rows: seq<Row>, rows': seq<Row>, k: Key, answer: Option<seq<byte>>)
    requires Exists(rows, k) <==> Exists(rows', k)
    requires forall i :: 0 <= i < |rows| && Matches(rows[i], k) ==> i < |rows'| && rows'[i] == rows[i]
    requires IsAnswer(rows, k, answer)
    ensures IsAnswer(rows', k, answer)
  {
  }

  /** A serial history of puts; gets change nothing. */
  function PutAll(puts: seq<(Key, seq<byte>)>): seq<Row>
    decreases |puts|
  {
    if puts == [] then []
    else AfterPut(PutAll(puts[..|puts| - 1]), puts[|puts| - 1].0, puts[|puts| - 1].1)
  }

  /** The map the callers think of. */
  function MapAll(puts: seq<(Key, seq<byte>)>): map<Key, seq<byte>>
    decreases |puts|
  {
    if puts == [] then map[]
    else MapAll(puts[..|puts| - 1])[puts[|puts| - 1].0 := puts[|puts| - 1].1]
  }

  /** The table is that map: each get has exactly one possible answer, the map's, and no key
      ever gets a second row. */
  lemma {:induction false} TableRefinesMap(puts: seq<(Key, seq<byte>)>, k: Key, answer: Option<seq<byte>>)
    ensures IsAnswer(PutAll(puts), k, answer) <==>
            answer == if k in MapAll(puts) then Some(MapAll(puts)[k]) else None
    ensures AtMostOneRow(PutAll(puts))
    decreases |puts|
  {
    if puts != [] {
      var before := puts[..|puts| - 1];
      var (k', v) := puts[|puts| - 1];
      TableRefinesMap(before, k, answer);
      PutThenGet(PutAll(before), k', v, k, answer);
      PutKeepsOneRow(PutAll(before), k', v);
    }
  }

  lemma {:induction false} PutKeepsOneRow(rows: seq<Row>, k: Key, value: seq<byte>)
    requires AtMostOneRow(rows)
    ensures AtMostOneRow(AfterPut(rows, k, value))
  {
  }

  /** The columns a first put fills, as the existing rows of a database have them. */
  lemma {:induction false} ColumnsOfPut(key: string, realm: u64, value: seq<byte>)
    ensures AfterPut([], Key(key, realm, Certificate), value) == [Row(key, ToI64(realm), "crt", value)]
    ensures AfterPut([], Key(key, realm, PrivateKey), value) == [Row(key, ToI64(realm), "priv_key", value)]
    ensures AfterPut([], Key(key, realm, AccountPrivateKey), value) == [Row(key, ToI64(realm), "acc_priv_key", value)]
  {
  }
}
