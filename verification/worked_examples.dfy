/** Worked examples of the page's behaviour on small concrete inputs. */
module WorkedExamples {
  import Dashboard
  import Csv

  /** The age bar for ages 52 and 48 is 50. */
  lemma MeanExample()
    ensures Dashboard.Mean([52, 48]) == 50
  {
  }

  /** A comma inside a name stays inside its quoted field, and a quote inside a field is doubled. */
  lemma QuoteExample()
    ensures Csv.Quote("A,B") == "\"A,B\""
    ensures Csv.Quote("a\"b") == "\"a\"\"b\""
  {
    Csv.DoubleQuotesPlain("A,B");
    var t := "a\"b";
    assert t[1..] == "\"b" && t[1..][1..] == "b" && t[1..][1..][1..] == [];
    assert Csv.DoubleQuotes("b") == "b";
    assert Csv.DoubleQuotes("\"b") == "\"\"b";
    assert Csv.DoubleQuotes(t) == "a\"\"b";
  }
}
