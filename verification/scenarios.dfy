/**
 A single payment from a customer to a merchant, followed through the
 cleaning rule, the graph construction and the feature encoding.
 */
module Scenarios {
  import opened Transactions
  import opened FirstSeen
  import opened Cleaning
  import opened TransactionGraph
  import opened FeatureEncoding

  /** A payment of 100 from `C1` to `M2` at step 1, neither fraudulent nor flagged. */
  function Payment(): Transaction
  {
    Transaction(1, "PAYMENT", 100.0, "C1", 500.0, 400.0, "M2", 0.0, 0.0, 0, 0)
  }

  /** The payment is a known type between a customer and a merchant, so cleaning keeps it as it is. */
  lemma PaymentIsKept()
    ensures CleanRow(Payment()) == Some(Payment())
  {
    assert TransactionTypes[3] == Payment().txType;
  }

  /** The construction loop's state after the payment: nodes `C1` then `M2`, one edge of weight 100. */
  lemma PaymentState()
    ensures BuildState([Payment()]).graph == Graph(["C1", "M2"], [Edge(0, 1, 100.0)])
  {
    var t := Payment();
    assert "C1" != "M2" by {
      assert "C1"[0] != "M2"[0];
    }
    assert [t][..0] == [];
    var b0 := EmptyBuilder();
    var (b1, s) := NodeFor(b0, "C1");
    assert b1.graph.nodes == ["C1"] && s == 0 && b1.nodeIndices.Keys == {"C1"};
    var (b2, d) := NodeFor(b1, "M2");
    assert b2.graph.nodes == ["C1", "M2"] && d == 1;
    assert BuildState([t]) == AddTransaction(b0, t);
  }

  /** The payment yields the two nodes `C1` then `M2` and one edge between them of weight 100. */
  lemma PaymentGraph()
    ensures BuildGraph([Payment()]) == Graph(["C1", "M2"], [Edge(0, 1, 100.0)])
  {
    PaymentState();
  }

  /** PAYMENT is the fourth type, so its one-hot block sets the fourth slot only. */
  lemma PaymentOneHot()
    ensures OneHot("PAYMENT") == [0.0, 0.0, 0.0, 1.0, 0.0]
  {
    var v := OneHot("PAYMENT");
    assert TransactionTypes[3] == "PAYMENT";
    assert v[3] == 1.0;
    assert v[0] == 0.0 && v[1] == 0.0 && v[2] == 0.0 && v[4] == 0.0;
  }

  /** Both names are the first in their columns, so both ordinals are 0. */
  lemma PaymentTables()
    ensures BuildTables([Payment()]).origs.index == map["C1" := 0]
    ensures BuildTables([Payment()]).dests.index == map["M2" := 0]
  {
    var t := Payment();
    assert Origs([t]) == ["C1"] && Dests([t]) == ["M2"];
    assert ["C1"][..0] == [] && ["M2"][..0] == [];
  }

  /** The payment's feature row, given tables that give both of its names ordinal 0. */
  lemma PaymentRow(tables: EncodingTables)
    requires Ordinal(tables.origs.index, "C1") == 0.0 && Ordinal(tables.dests.index, "M2") == 0.0
    ensures EncodeRow(Payment(), tables)
      == [1.0, 0.0, 0.0, 0.0, 1.0, 0.0, 100.0, 0.0, 500.0, 400.0, 0.0, 0.0, 0.0, 0.0]
  {
    PaymentOneHot();
    assert EncodeRow(Payment(), tables)
      == [1.0] + [0.0, 0.0, 0.0, 1.0, 0.0] + [100.0, 0.0, 500.0, 400.0, 0.0, 0.0, 0.0, 0.0];
  }

  /**
   The payment encodes with the PAYMENT slot (column 4) set, both ordinals
   0, and label 0.
   */
  lemma PaymentEncoding()
    ensures EncodeDataset([Payment()]).features
      == [[1.0, 0.0, 0.0, 0.0, 1.0, 0.0, 100.0, 0.0, 500.0, 400.0, 0.0, 0.0, 0.0, 0.0]]
    ensures EncodeDataset([Payment()]).labels == [0]
  {
    var t := Payment();
    var tables := BuildTables([t]);
    PaymentTables();
    PaymentRow(tables);
    var d := EncodeDataset([t]);
    assert |d.features| == 1 && d.features[0] == EncodeRow(t, tables);
    assert |d.labels| == 1 && d.labels[0] == 0;
  }
}
