/**
 The transaction record shared by the cleaning step and the analysis step,
 as it stands once a CSV row has been deserialised. Amounts and balances are
 modelled as exact reals; the integer columns keep their unsigned widths.
 */
module Transactions {

  /** A Rust `u8`. */
  type U8 = x: int | 0 <= x < 0x100

  /** A Rust `u32`. */
  type U32 = x: int | 0 <= x < 0x1_0000_0000

  datatype Option<+T> = None | Some(value: T)

  /** One ledger row; the field order is the CSV column order. */
  datatype Transaction = Transaction(
    step: U32,
    txType: string,
    amount: real,
    nameOrig: string,
    oldBalanceOrig: real,
    newBalanceOrig: real,
    nameDest: string,
    oldBalanceDest: real,
    newBalanceDest: real,
    isFraud: U8,
    isFlaggedFraud: U8
  )

  /**
   The five transaction types the pipeline recognises, in the fixed order
   that is also the order of the one-hot feature columns. Note the hyphens.
   */
  const TransactionTypes: seq<string> := ["CASH-IN", "CASH-OUT", "DEBIT", "PAYMENT", "TRANSFER"]

  predicate IsKnownType(t: string) {
    t in TransactionTypes
  }

  /** The five type strings are pairwise different, so a type has at most one slot. */
  lemma TransactionTypesDistinct()
    ensures |TransactionTypes| == 5
    ensures forall k, l | 0 <= k < l < |TransactionTypes| :: TransactionTypes[k] != TransactionTypes[l]
  {
    assert TransactionTypes[0][5] == 'I' && TransactionTypes[1][5] == 'O';
    assert TransactionTypes[2][0] == 'D' && TransactionTypes[3][0] == 'P' && TransactionTypes[4][0] == 'T';
  }

  /** The underscore spellings of the cash types are not among the recognised types. */
  lemma UnderscoreSpellingsUnlisted()
    ensures !IsKnownType("CASH_IN") && !IsKnownType("CASH_OUT")
  {
    assert "CASH_IN"[4] == '_' && "CASH_OUT"[4] == '_';
    assert forall k | 0 <= k < |TransactionTypes| :: |TransactionTypes[k]| < 5 || TransactionTypes[k][4] != '_';
  }

  /**
   The records a reader yields: the rows that deserialised, in file order;
   a row that failed to deserialise is skipped and reading goes on.
   */
  function Parsed(rows: seq<Option<Transaction>>): (rs: seq<Transaction>)
    ensures |rs| <= |rows|
    // nothing is lost exactly when every row deserialised
    ensures |rs| == |rows| <==> forall i | 0 <= i < |rows| :: rows[i].Some?
    // every record comes from a row, and every deserialised row yields a record
    ensures forall k | 0 <= k < |rs| :: Some(rs[k]) in rows
    ensures forall i | 0 <= i < |rows| && rows[i].Some? :: rows[i].value in rs
    decreases |rows|
  {
    if |rows| == 0 then
      []
    else
      var p := rows[..|rows| - 1];
      var prev := Parsed(p);
      assert forall i | 0 <= i < |p| :: p[i] == rows[i];
      match rows[|rows| - 1]
      case None => prev
      case Some(t) => prev + [t]
  }

  /**
   Reading is row by row: the records of two consecutive stretches of rows
   are the records of the first followed by those of the second.
   */
  lemma {:induction false} ParsedAppend(a: seq<Option<Transaction>>, b: seq<Option<Transaction>>)
    ensures Parsed(a + b) == Parsed(a) + Parsed(b)
    decreases |b|
  {
    if |b| == 0 {
      assert a + b == a;
    } else {
      var b' := b[..|b| - 1];
      assert (a + b)[..|a + b| - 1] == a + b';
      assert (a + b)[|a + b| - 1] == b[|b| - 1];
      ParsedAppend(a, b');
    }
  }

  /** A row that failed to deserialise yields no record; one that did yields exactly its record. */
  lemma ParsedRow(t: Transaction)
    ensures Parsed([None]) == []
    ensures Parsed([Some(t)]) == [t]
  {
    var skipped: seq<Option<Transaction>> := [None];
    var read: seq<Option<Transaction>> := [Some(t)];
    assert skipped[..0] == [] && read[..0] == [];
  }

  /**
   Reading one more row appends its record, if it has one, after the
   records read so far; with `ParsedRow` and `ParsedAppend` this pins
   `Parsed` down: the deserialised rows, each once, in file order.
   */
  lemma ParsedSnoc(rows: seq<Option<Transaction>>, row: Option<Transaction>)
    ensures Parsed(rows + [row]) == Parsed(rows) + (if row.Some? then [row.value] else [])
  {
    ParsedAppend(rows, [row]);
    assert [row][..0] == [];
  }
}
