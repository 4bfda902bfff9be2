/**
 Feature encoding for the fraud classifier. Sender and receiver names are
 replaced by first-seen ordinals from two tables built over the same
 transactions; the type becomes a one-hot block over the five known types.
 Each transaction yields a 14-column row and its `isFraud` label, in input
 order.
 */
module FeatureEncoding {
  import opened Transactions
  import opened FirstSeen

  /** Width of a feature row. */
  const FeatureCount: nat := 14

  /**
   The one-hot block of a type: slot `k` stands for `TransactionTypes[k]`.
   A known type sets its own slot and no other; an unlisted type sets none.
   */
  function OneHot(txType: string): (v: seq<real>)
    ensures |v| == |TransactionTypes|
    ensures forall k | 0 <= k < |v| :: v[k] == 0.0 || v[k] == 1.0
    ensures forall k | 0 <= k < |v| :: v[k] == 1.0 ==> TransactionTypes[k] == txType
    ensures forall k, l | 0 <= k < l < |v| :: v[k] == 0.0 || v[l] == 0.0
    ensures 1.0 in v <==> IsKnownType(txType)
  {
    TransactionTypesDistinct();
    var v := seq(|TransactionTypes|, k requires 0 <= k < |TransactionTypes| =>
      if txType == TransactionTypes[k] then 1.0 else 0.0);
    assert IsKnownType(txType) ==> exists k | 0 <= k < |v| :: TransactionTypes[k] == txType && v[k] == 1.0;
    v
  }

  /** The type whose slot is the first set slot among the first five, if any. */
  function HotType(slots: seq<real>, k: nat): Option<string>
    decreases |TransactionTypes| - k
  {
    if k >= |TransactionTypes| || k >= |slots| then None
    else if slots[k] == 1.0 then Some(TransactionTypes[k])
    else HotType(slots, k + 1)
  }

  /** Reading a one-hot block back gives the encoded type, or nothing for an unlisted type. */
  lemma OneHotRoundTrip(txType: string)
    ensures HotType(OneHot(txType), 0) == if IsKnownType(txType) then Some(txType) else None
  {
    var v := OneHot(txType);
    if IsKnownType(txType) {
      var k :| 0 <= k < 5 && TransactionTypes[k] == txType;
      assert v[k] == 1.0;
      HotTypeFinds(v, 0, k);
    } else {
      HotTypeNone(v, 0);
    }
  }

  lemma {:induction false} HotTypeFinds(v: seq<real>, j: nat, k: nat)
    requires |v| == |TransactionTypes| && j <= k < |v| && v[k] == 1.0
    requires forall l | j <= l < |v| && l != k :: v[l] != 1.0
    ensures HotType(v, j) == Some(TransactionTypes[k])
    decreases k - j
  {
    if j < k {
      HotTypeFinds(v, j + 1, k);
    }
  }

  lemma {:induction false} HotTypeNone(v: seq<real>, j: nat)
    requires forall l | j <= l < |v| :: v[l] != 1.0
    ensures HotType(v, j) == None
    decreases |TransactionTypes| - j
  {
    if j < |TransactionTypes| && j < |v| {
      HotTypeNone(v, j + 1);
    }
  }

  /** The two name-to-ordinal tables, one for senders and one for receivers. */
  datatype EncodingTables = EncodingTables(origs: Interner<string>, dests: Interner<string>)

  /** A name's ordinal in `m`, or 0 for a name the table does not hold. */
  function Ordinal(m: map<string, nat>, name: string): (r: real)
    ensures r >= 0.0 && r.Floor as real == r
    // a missing name reads the same as the name holding ordinal 0
    ensures r == 0.0 <==> name !in m || m[name] == 0
  {
    if name in m then m[name] as real else 0.0
  }

  /**
   The feature row of one transaction: step, the five type slots, amount,
   sender ordinal, the sender's two balances, receiver ordinal, the
   receiver's two balances, and the flagged-fraud column.
   */
  function EncodeRow(t: Transaction, tables: EncodingTables): (row: seq<real>)
    ensures |row| == FeatureCount
  {
    [t.step as real] + OneHot(t.txType)
    + [t.amount, Ordinal(tables.origs.index, t.nameOrig), t.oldBalanceOrig, t.newBalanceOrig,
       Ordinal(tables.dests.index, t.nameDest), t.oldBalanceDest, t.newBalanceDest,
       t.isFlaggedFraud as real]
  }

  /** Where each field of `t` lands in its row. */
  lemma EncodeRowColumns(t: Transaction, tables: EncodingTables)
    ensures var row := EncodeRow(t, tables);
      && row[0] == t.step as real
      && row[1..6] == OneHot(t.txType)
      && row[6] == t.amount
      && row[7] == Ordinal(tables.origs.index, t.nameOrig)
      && row[8] == t.oldBalanceOrig && row[9] == t.newBalanceOrig
      && row[10] == Ordinal(tables.dests.index, t.nameDest)
      && row[11] == t.oldBalanceDest && row[12] == t.newBalanceDest
      && row[13] == t.isFlaggedFraud as real
  {
    var head := [t.step as real] + OneHot(t.txType);
    var tail := [t.amount, Ordinal(tables.origs.index, t.nameOrig), t.oldBalanceOrig, t.newBalanceOrig,
       Ordinal(tables.dests.index, t.nameDest), t.oldBalanceDest, t.newBalanceDest,
       t.isFlaggedFraud as real];
    var row := EncodeRow(t, tables);
    assert row == head + tail;
    assert |head| == 6;
    assert forall k | 0 <= k < |tail| :: row[6 + k] == tail[k];
    assert row[1..6] == head[1..6];
  }

  /**
   The transaction a feature row and its label stand for, recovered through
   the tables; nothing when a column holds a value no transaction encodes to.
   */
  function DecodeRow(row: seq<real>, isFraud: nat, tables: EncodingTables): Option<Transaction>
    requires |row| == FeatureCount
  {
    var step, o, d, flag := row[0].Floor, row[7].Floor, row[10].Floor, row[13].Floor;
    var ty := HotType(row[1..6], 0);
    if 0 <= step < 0x1_0000_0000 && ty.Some?
      && 0 <= o < |tables.origs.order| && 0 <= d < |tables.dests.order|
      && 0 <= flag < 0x100 && isFraud < 0x100
    then
      Some(Transaction(step, ty.value, row[6], tables.origs.order[o], row[8], row[9],
        tables.dests.order[d], row[11], row[12], isFraud, flag))
    else
      None
  }

  /** The sender column of `rs`. */
  function Origs(rs: seq<Transaction>): (ns: seq<string>)
    ensures |ns| == |rs| && forall i | 0 <= i < |rs| :: ns[i] == rs[i].nameOrig
  {
    seq(|rs|, i requires 0 <= i < |rs| => rs[i].nameOrig)
  }

  /** The receiver column of `rs`. */
  function Dests(rs: seq<Transaction>): (ns: seq<string>)
    ensures |ns| == |rs| && forall i | 0 <= i < |rs| :: ns[i] == rs[i].nameDest
  {
    seq(|rs|, i requires 0 <= i < |rs| => rs[i].nameDest)
  }

  /**
   The tables for `rs`: each name gets the number of distinct names seen
   before its first occurrence in its column.
   */
  function BuildTables(rs: seq<Transaction>): (tables: EncodingTables)
    ensures tables.origs.Valid() && tables.dests.Valid()
    ensures tables.origs.index.Keys == Elements(Origs(rs))
    ensures tables.dests.index.Keys == Elements(Dests(rs))
  {
    EncodingTables(InternAll(Origs(rs)), InternAll(Dests(rs)))
  }

  /** The encoded training data: one feature row and one label per transaction. */
  datatype Dataset = Dataset(features: seq<seq<real>>, labels: seq<nat>)

  /**
   Encode every transaction against tables built from the same transactions.
   Rows and labels keep the input order; the label is `isFraud`.
   */
  function EncodeDataset(rs: seq<Transaction>): (d: Dataset)
    ensures |d.features| == |rs| && |d.labels| == |rs|
    ensures forall i | 0 <= i < |rs| :: |d.features[i]| == FeatureCount
    ensures forall i | 0 <= i < |rs| :: d.labels[i] == rs[i].isFraud
    ensures forall i | 0 <= i < |rs| :: d.features[i] == EncodeRow(rs[i], BuildTables(rs))
  {
    Dataset(EncodeRows(rs, BuildTables(rs)), Labels(rs))
  }

  function EncodeRows(rs: seq<Transaction>, tables: EncodingTables): (rows: seq<seq<real>>)
    ensures |rows| == |rs|
    ensures forall i | 0 <= i < |rs| :: rows[i] == EncodeRow(rs[i], tables)
  {
    seq(|rs|, i requires 0 <= i < |rs| => EncodeRow(rs[i], tables))
  }

  function Labels(rs: seq<Transaction>): (ys: seq<nat>)
    ensures |ys| == |rs|
    ensures forall i | 0 <= i < |rs| :: ys[i] == rs[i].isFraud
  {
    seq(|rs|, i requires 0 <= i < |rs| => rs[i].isFraud as nat)
  }

  /**
   Every name the encoder looks up is in its table, so the fallback ordinal
   0 is never used; each table maps its names onto `0..k-1` without
   collisions, `k` being the number of distinct names in its column.
   */
  lemma TablesCoverAndAreDense(rs: seq<Transaction>)
    ensures var tables := BuildTables(rs);
      && (forall i | 0 <= i < |rs| :: rs[i].nameOrig in tables.origs.index && rs[i].nameDest in tables.dests.index)
      && |tables.origs.index| == |Elements(Origs(rs))| && |tables.dests.index| == |Elements(Dests(rs))|
      && (forall x | x in tables.origs.index :: tables.origs.index[x] < |tables.origs.index|)
      && (forall x | x in tables.dests.index :: tables.dests.index[x] < |tables.dests.index|)
      && (forall x, y | x in tables.origs.index && y in tables.origs.index && x != y ::
            tables.origs.index[x] != tables.origs.index[y])
      && (forall x, y | x in tables.dests.index && y in tables.dests.index && x != y ::
            tables.dests.index[x] != tables.dests.index[y])
  {
    var tables := BuildTables(rs);
    forall i | 0 <= i < |rs|
      ensures rs[i].nameOrig in tables.origs.index && rs[i].nameDest in tables.dests.index
    {
      assert Origs(rs)[i] == rs[i].nameOrig && Dests(rs)[i] == rs[i].nameDest;
    }
    assert |tables.origs.index.Keys| == |tables.origs.index|;
    assert |tables.dests.index.Keys| == |tables.dests.index|;
  }

  /**
   The column layout of row `i`: step, the one-hot block of the type,
   amount, the sender's first-seen ordinal, the sender's balances, the
   receiver's first-seen ordinal, the receiver's balances, the flag.
   */
  lemma EncodeDatasetColumns(rs: seq<Transaction>, i: nat)
    requires i < |rs|
    ensures var row, t := EncodeDataset(rs).features[i], rs[i];
      && row[0] == t.step as real
      && row[1..6] == OneHot(t.txType)
      && row[6] == t.amount
      && row[7] == |Elements(Origs(rs)[..FirstIndex(Origs(rs), t.nameOrig)])| as real
      && row[8] == t.oldBalanceOrig && row[9] == t.newBalanceOrig
      && row[10] == |Elements(Dests(rs)[..FirstIndex(Dests(rs), t.nameDest)])| as real
      && row[11] == t.oldBalanceDest && row[12] == t.newBalanceDest
      && row[13] == t.isFlaggedFraud as real
  {
    var t := rs[i];
    TablesCoverAndAreDense(rs);
    assert Origs(rs)[i] == t.nameOrig && Dests(rs)[i] == t.nameDest;
    InternAllOrdinal(Origs(rs), t.nameOrig);
    InternAllOrdinal(Dests(rs), t.nameDest);
    EncodeRowColumns(t, BuildTables(rs));
  }

  /**
   Against consistent tables that hold both of its names, a transaction's
   row decodes back to it, or to nothing when its type is unlisted.
   */
  lemma DecodeEncodeRow(t: Transaction, tables: EncodingTables)
    requires tables.origs.Valid() && tables.dests.Valid()
    requires t.nameOrig in tables.origs.index && t.nameDest in tables.dests.index
    ensures DecodeRow(EncodeRow(t, tables), t.isFraud, tables)
      == if IsKnownType(t.txType) then Some(t) else None
  {
    EncodeRowColumns(t, tables);
    OneHotRoundTrip(t.txType);
    assert (t.step as real).Floor == t.step;
    assert (t.isFlaggedFraud as real).Floor == t.isFlaggedFraud;
    var o := tables.origs.index[t.nameOrig];
    var d := tables.dests.index[t.nameDest];
    assert (o as real).Floor == o && tables.origs.order[o] == t.nameOrig;
    assert (d as real).Floor == d && tables.dests.order[d] == t.nameDest;
  }

  /**
   The encoding loses nothing but an unlisted type: a row of a transaction
   with a known type decodes, with its label, back to that transaction, and
   a row of an unlisted type does not decode.
   */
  lemma EncodeDecodeRoundTrip(rs: seq<Transaction>, i: nat)
    requires i < |rs|
    ensures var d := EncodeDataset(rs);
      DecodeRow(d.features[i], d.labels[i], BuildTables(rs))
        == if IsKnownType(rs[i].txType) then Some(rs[i]) else None
  {
    var tables := BuildTables(rs);
    assert Origs(rs)[i] == rs[i].nameOrig && Dests(rs)[i] == rs[i].nameDest;
    DecodeEncodeRow(rs[i], tables);
  }
}
