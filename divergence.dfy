/** The two diff parsers of the repository side by side: `extract_transfer_value` in
    data/preprocessing.py and `extract_value` in visualization/financial_charts.py. */
module ParserDivergence {
  import opened Wrappers
  import opened PyStr
  import opened Cells
  import Preprocessing
  import FinancialCharts

  /** On a transfer payload whose first `|`-token is the `valor=` pair (and that has a `|`), both
      parsers hand the same text to `float()`. */
  lemma AgreeOnLeadingValor(s: string, parse: FloatParser)
    requires '|' in s
    requires StartsWith(TakeUntil(s, '|'), Preprocessing.ValorKey)
    ensures Preprocessing.ExtractTransferValue(Cells.Text(Preprocessing.TransferTable), Cells.Text(s), parse)
         == FinancialCharts.ExtractValue(Cells.Text(s), parse)
  {
    var head := TakeUntil(s, '|');
    assert head[..6] == Preprocessing.ValorKey;
    assert forall j :: 0 <= j < 5 ==> head[j] == Preprocessing.ValorKey[j];
    IndexOfIs(head, '=', 5);
    var text := TakeUntil(head[6..], '=');
    assert '=' in head;
    FinancialCharts.ExtractValueSpec(s, parse);
    assert FinancialCharts.ExtractValue(Cells.Text(s), parse) == parse(text);
    SplitHead(s, '|');
    Preprocessing.ValorFoundAt(s, parse, 0);
  }

  /** A lone `valor=` pair without any `|` is read by the preprocessing parser and rejected by the
      chart parser, whose candidate token is then the empty string. */
  lemma DisagreeWithoutPipe(s: string, parse: FloatParser)
    requires '|' !in s
    requires StartsWith(s, Preprocessing.ValorKey)
    ensures Preprocessing.ExtractTransferValue(Cells.Text(Preprocessing.TransferTable), Cells.Text(s), parse)
         == parse(TakeUntil(s[|Preprocessing.ValorKey|..], '='))
    ensures FinancialCharts.ExtractValue(Cells.Text(s), parse) == None
  {
    SplitNoSep(s, '|');
    Preprocessing.LoneValorToken(s, parse);
  }

  /** `"valor=5"`: 5 for the preprocessing parser, `None` for the chart parser. */
  lemma LoneValorPair(s: string, parse: FloatParser)
    requires s == "valor=5"
    ensures Preprocessing.ExtractTransferValue(Cells.Text(Preprocessing.TransferTable), Cells.Text(s), parse)
         == parse("5")
    ensures FinancialCharts.ExtractValue(Cells.Text(s), parse) == None
  {
    assert s[..6] == Preprocessing.ValorKey && s[6..] == "5";
    assert TakeUntil("5", '=') == "5";
    DisagreeWithoutPipe(s, parse);
  }

  /** A first token with another key, as in `"tipo=x|valor=5"`: the preprocessing parser skips to
      the `valor=` token and parses its number, the chart parser parses the other key's value. */
  lemma OtherKeyFirst(key: string, num: string, v: string, parse: FloatParser)
    requires '=' !in key && '|' !in key && '|' !in num && '|' !in v
    requires key != "valor"
    ensures var s := key + "=" + num + "|" + Preprocessing.ValorKey + v;
      && Preprocessing.ExtractTransferValue(Cells.Text(Preprocessing.TransferTable), Cells.Text(s), parse)
         == parse(TakeUntil(v, '='))
      && FinancialCharts.ExtractValue(Cells.Text(s), parse) == parse(TakeUntil(num, '='))
  {
    var first, second := key + "=" + num, Preprocessing.ValorKey + v;
    var s := key + "=" + num + "|" + Preprocessing.ValorKey + v;
    assert s == key + "=" + num + "|" + second;
    FinancialCharts.FirstTokenKeyIgnored(key, num, second, parse);

    assert s == first + ['|'] + second;
    ValorTokenKey(key, num);
    Preprocessing.SkipNonValorToken(first, second, parse);
    assert second[..6] == Preprocessing.ValorKey && second[6..] == v;
    Preprocessing.LoneValorToken(second, parse);
  }

  /** A token `key=num` with a `=`-free key starts with `valor=` only when the key is `valor`. */
  lemma ValorTokenKey(key: string, num: string)
    requires '=' !in key
    ensures StartsWith(key + "=" + num, Preprocessing.ValorKey) ==> key == "valor"
  {
    var t := key + "=" + num;
    if StartsWith(t, Preprocessing.ValorKey) {
      assert t[..6] == Preprocessing.ValorKey;
      assert forall j :: 0 <= j < 5 ==> t[j] == Preprocessing.ValorKey[j];
      IndexOfIs(t, '=', 5);
      assert forall j :: 0 <= j < |key| ==> t[j] == key[j];
      IndexOfIs(t, '=', |key|);
      assert key == t[..5];
    }
  }
}
