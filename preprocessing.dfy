/** data/preprocessing.py: the lenient transfer-amount parser and the derived `valor_transferencia`
    column that `preprocess` adds to a copy of the log table. */
module Preprocessing {
  import opened Wrappers
  import opened PyStr
  import opened Cells

  const TransferTable: string := "transferencia"
  const ValorKey: string := "valor="
  const TabelaColumn: string := "tabela"
  const DadosNovosColumn: string := "dados_novos"
  const TransferValueColumn: string := "valor_transferencia"

  /** Index of the first token that starts with `valor=`: the `for` loop with its early `return`. */
  function FirstValorToken(parts: seq<string>): (r: Option<nat>)
    ensures r.Some? ==> r.value < |parts| && StartsWith(parts[r.value], ValorKey)
    ensures r.Some? ==> forall j :: 0 <= j < r.value ==> !StartsWith(parts[j], ValorKey)
    ensures r.None? ==> forall j :: 0 <= j < |parts| ==> !StartsWith(parts[j], ValorKey)
    decreases |parts|
  {
    if parts == [] then None
    else if StartsWith(parts[0], ValorKey) then Some(0)
    else match FirstValorToken(parts[1..])
      case None => None
      case Some(i) => Some(i + 1)
  }

  /** `part.split('=')[1]` on a token that starts with `valor=`: the index 1 always exists (so the
      `IndexError` handler is dead code), and it is the text after `valor=` up to the next `=` or the end. */
  function ValorNumberText(part: string): (t: string)
    requires StartsWith(part, ValorKey)
    ensures t == TakeUntil(part[|ValorKey|..], '=')
  {
    assert part[..6] == ValorKey;
    assert forall j :: 0 <= j < 5 ==> part[j] == ValorKey[j];
    IndexOfIs(part, '=', 5);
    SplitSecond(part, '=');
    Split(part, '=')[1]
  }

  /** `extract_transfer_value(row)`: the transfer amount of a log row, or `None`. It is total: no
      input makes it raise. */
  function ExtractTransferValue(tabela: Cell, dadosNovos: Cell, parse: FloatParser): (r: Option<real>)
    ensures tabela != Text(TransferTable) ==> r == None
    ensures !dadosNovos.Text? ==> r == None
  {
    if tabela == Text(TransferTable) && dadosNovos.Text? then
      var parts := Split(dadosNovos.s, '|');
      match FirstValorToken(parts)
      case None => None
      case Some(i) => parse(ValorNumberText(parts[i]))
    else None
  }

  /** The search stops at the first token that starts with `valor=`. */
  lemma {:induction false} FirstValorTokenIs(parts: seq<string>, i: nat)
    requires i < |parts| && StartsWith(parts[i], ValorKey)
    requires forall j :: 0 <= j < i ==> !StartsWith(parts[j], ValorKey)
    ensures FirstValorToken(parts) == Some(i)
    decreases i
  {
    if i > 0 {
      FirstValorTokenIs(parts[1..], i - 1);
    }
  }

  /** The search finds nothing when no token starts with `valor=`. */
  lemma {:induction false} FirstValorTokenNone(parts: seq<string>)
    requires forall j :: 0 <= j < |parts| ==> !StartsWith(parts[j], ValorKey)
    ensures FirstValorToken(parts) == None
    decreases |parts|
  {
    if parts != [] {
      FirstValorTokenNone(parts[1..]);
    }
  }

  /** On a transfer row with a string payload, the result is the parse of the number text of the
      first `|`-token that starts with `valor=`; a later token is never consulted, even when the
      first one fails to parse. */
  lemma ValorFoundAt(s: string, parse: FloatParser, i: nat)
    requires i < |Split(s, '|')| && StartsWith(Split(s, '|')[i], ValorKey)
    requires forall j :: 0 <= j < i ==> !StartsWith(Split(s, '|')[j], ValorKey)
    ensures ExtractTransferValue(Text(TransferTable), Text(s), parse)
         == parse(TakeUntil(Split(s, '|')[i][|ValorKey|..], '='))
  {
    FirstValorTokenIs(Split(s, '|'), i);
  }

  /** A payload without `|` that starts with `valor=` is read as that single token. */
  lemma LoneValorToken(s: string, parse: FloatParser)
    requires StartsWith(s, ValorKey) && '|' !in s
    ensures ExtractTransferValue(Text(TransferTable), Text(s), parse)
         == parse(TakeUntil(s[|ValorKey|..], '='))
  {
    SplitNoSep(s, '|');
    ValorFoundAt(s, parse, 0);
  }

  /** A payload whose first token is a `valor=` token is read from that token alone, whatever
      follows the `|`. */
  lemma LeadingValorToken(first: string, rest: string, parse: FloatParser)
    requires StartsWith(first, ValorKey) && '|' !in first
    ensures ExtractTransferValue(Text(TransferTable), Text(first + ['|'] + rest), parse)
         == parse(TakeUntil(first[|ValorKey|..], '='))
  {
    SplitCons(first, '|', rest);
    ValorFoundAt(first + ['|'] + rest, parse, 0);
  }

  /** A leading token that does not start with `valor=` is skipped: the payload reads as what
      follows its `|`. */
  lemma SkipNonValorToken(first: string, rest: string, parse: FloatParser)
    requires !StartsWith(first, ValorKey) && '|' !in first
    ensures ExtractTransferValue(Text(TransferTable), Text(first + ['|'] + rest), parse)
         == ExtractTransferValue(Text(TransferTable), Text(rest), parse)
  {
    var whole, tail := first + ['|'] + rest, Split(rest, '|');
    SplitCons(first, '|', rest);
    var parts := Split(whole, '|');
    assert forall j :: 0 < j < |parts| ==> parts[j] == tail[j - 1];
    match FirstValorToken(tail)
    case Some(i) =>
      ValorFoundAt(rest, parse, i);
      ValorFoundAt(whole, parse, i + 1);
    case None =>
      NoValorToken(rest, parse);
      NoValorToken(whole, parse);
  }

  /** A payload none of whose `|`-tokens starts with `valor=` (case-sensitive, no trimming) yields `None`. */
  lemma NoValorToken(s: string, parse: FloatParser)
    requires forall j :: 0 <= j < |Split(s, '|')| ==> !StartsWith(Split(s, '|')[j], ValorKey)
    ensures ExtractTransferValue(Text(TransferTable), Text(s), parse) == None
  {
    FirstValorTokenNone(Split(s, '|'));
  }

  /** Reference reading of a payload without splitting it: find the first place where a token begins
      with `valor=` (the start of the string, or right after a `|`), and take what follows it up to the
      next `|`, then up to the next `=`. */
  function RawValorText(s: string): Option<string>
    decreases |s|
  {
    if StartsWith(s, ValorKey) then Some(TakeUntil(TakeUntil(s[|ValorKey|..], '|'), '='))
    else if '|' in s then RawValorText(s[IndexOf(s, '|') + 1..])
    else None
  }

  /** A payload that itself starts with `valor=`: both readings take its first token. */
  lemma RawValorTextAtStart(s: string)
    requires StartsWith(s, ValorKey)
    ensures FirstValorToken(Split(s, '|')) == Some(0)
    ensures RawValorText(s) == Some(ValorNumberText(Split(s, '|')[0]))
  {
    var k := IndexOf(s, '|');
    SplitHead(s, '|');
    IndexOfPastPrefix(s, '|', ValorKey);
    assert s[..k][..|ValorKey|] == s[..|ValorKey|];
    assert StartsWith(Split(s, '|')[0], ValorKey);
    TakeUntilSuffix(s, '|', |ValorKey|);
  }

  /** The split-based parser finds exactly the number text that the raw reading locates. */
  lemma {:induction false} RawValorTextAgrees(s: string)
    ensures RawValorText(s) == match FirstValorToken(Split(s, '|'))
      case None => None
      case Some(i) => Some(ValorNumberText(Split(s, '|')[i]))
    decreases |s|
  {
    if StartsWith(s, ValorKey) {
      RawValorTextAtStart(s);
    } else {
      var parts := Split(s, '|');
      var k := IndexOf(s, '|');
      SplitHead(s, '|');
      if StartsWith(parts[0], ValorKey) { PrefixStartsWith(s, k, ValorKey); }
      if '|' in s {
        SplitTail(s, '|');
        RawValorTextAgrees(s[k + 1..]);
        assert parts[1..] == Split(s[k + 1..], '|');
      } else {
        SplitNoSep(s, '|');
      }
    }
  }

  /** The transfer amount of a transfer row is the parse of the raw reading's number text. */
  lemma TransferValueFromRawPayload(s: string, parse: FloatParser)
    ensures ExtractTransferValue(Text(TransferTable), Text(s), parse)
         == match RawValorText(s)
            case None => None
            case Some(t) => parse(t)
  {
    RawValorTextAgrees(s);
  }

  /** The log table: named columns and one map per row from column name to cell. */
  class Frame {
    var columns: seq<string>
    var rows: seq<map<string, Cell>>

    /** Column names are distinct and every row has a cell in exactly those columns. */
    ghost predicate Valid()
      reads this
    {
      WellFormed(columns, rows)
    }

    constructor (columns: seq<string>, rows: seq<map<string, Cell>>)
      requires WellFormed(columns, rows)
      ensures this.columns == columns && this.rows == rows
      ensures Valid()
    {
      this.columns := columns;
      this.rows := rows;
    }

    /** `df.copy()`: a new table with the same columns and rows. */
    method Copy() returns (f: Frame)
      requires Valid()
      ensures fresh(f) && f.Valid()
      ensures f.columns == columns && f.rows == rows
    {
      f := new Frame(columns, rows);
    }

    /** `df[name] = values`: overwrite the column when it exists, append it otherwise. */
    method AssignColumn(name: string, values: seq<Cell>)
      requires Valid()
      requires |values| == |rows|
      modifies this
      ensures Valid()
      ensures columns == if name in old(columns) then old(columns) else old(columns) + [name]
      ensures |rows| == |old(rows)|
      ensures forall i :: 0 <= i < |rows| ==> rows[i] == old(rows)[i][name := values[i]]
    {
      var oldRows, oldColumns := rows, columns;
      var newRows := seq(|oldRows|, i requires 0 <= i < |oldRows| => oldRows[i][name := values[i]]);
      if name !in columns {
        columns := columns + [name];
      }
      rows := newRows;
      assert (set c | c in columns) == (set c | c in oldColumns) + {name};
      forall r | r in rows
        ensures r.Keys == set c | c in columns
      {
        var i :| 0 <= i < |rows| && rows[i] == r;
        assert oldRows[i] in oldRows;
      }
    }
  }

  /** Distinct column names, and every row keyed by exactly those names. */
  ghost predicate WellFormed(columns: seq<string>, rows: seq<map<string, Cell>>) {
    && (forall i, j :: 0 <= i < j < |columns| ==> columns[i] != columns[j])
    && (forall r :: r in rows ==> r.Keys == set c | c in columns)
  }

  /** Every row has the two columns `extract_transfer_value` reads. */
  predicate HasSourceColumns(rows: seq<map<string, Cell>>) {
    forall k :: 0 <= k < |rows| ==> TabelaColumn in rows[k] && DadosNovosColumn in rows[k]
  }

  /** In a well-formed table with `tabela` and `dados_novos` columns, every row has both cells. */
  lemma RowsHaveSourceColumns(columns: seq<string>, rows: seq<map<string, Cell>>)
    requires WellFormed(columns, rows)
    requires TabelaColumn in columns && DadosNovosColumn in columns
    ensures HasSourceColumns(rows)
  {
    forall k | 0 <= k < |rows| ensures TabelaColumn in rows[k] && DadosNovosColumn in rows[k] {
      assert rows[k] in rows;
      assert TabelaColumn in set c | c in columns;
      assert DadosNovosColumn in set c | c in columns;
    }
  }

  /** The cell `extract_transfer_value` gives one row; pandas stores `None` as a missing value. */
  function TransferCell(row: map<string, Cell>, parse: FloatParser): Cell
    requires TabelaColumn in row && DadosNovosColumn in row
  {
    match ExtractTransferValue(row[TabelaColumn], row[DadosNovosColumn], parse)
    case None => Missing
    case Some(v) => Number(v)
  }

  /** `df.apply(extract_transfer_value, axis=1)`: one cell per row, in row order. */
  function TransferColumn(rows: seq<map<string, Cell>>, parse: FloatParser): (col: seq<Cell>)
    requires HasSourceColumns(rows)
    ensures |col| == |rows|
    decreases |rows|
  {
    if rows == [] then []
    else [TransferCell(rows[0], parse)] + TransferColumn(rows[1..], parse)
  }

  /** Cell `i` of the derived column is what `extract_transfer_value` gives row `i`. */
  lemma {:induction false} TransferColumnAt(rows: seq<map<string, Cell>>, parse: FloatParser, i: nat)
    requires HasSourceColumns(rows) && i < |rows|
    ensures TransferColumn(rows, parse)[i] == TransferCell(rows[i], parse)
    decreases i
  {
    if i > 0 {
      TransferColumnAt(rows[1..], parse, i - 1);
      assert rows[1..][i - 1] == rows[i];
    }
  }

  /** Appending a row appends that row's cell to the derived column. */
  lemma {:induction false} TransferColumnAppend(rows: seq<map<string, Cell>>, row: map<string, Cell>, parse: FloatParser)
    requires HasSourceColumns(rows) && TabelaColumn in row && DadosNovosColumn in row
    ensures HasSourceColumns(rows + [row])
    ensures TransferColumn(rows + [row], parse) == TransferColumn(rows, parse) + [TransferCell(row, parse)]
    decreases |rows|
  {
    var ext := rows + [row];
    assert forall k :: 0 <= k < |ext| ==> ext[k] == if k < |rows| then rows[k] else row;
    if rows == [] {
      assert ext == [row];
    } else {
      assert ext[1..] == rows[1..] + [row];
      TransferColumnAppend(rows[1..], row, parse);
    }
  }

  /** The derived column of the first `i + 1` rows extends that of the first `i` rows by row `i`'s cell. */
  lemma TransferColumnPrefix(rows: seq<map<string, Cell>>, i: nat, parse: FloatParser)
    requires HasSourceColumns(rows) && i < |rows|
    ensures TransferColumn(rows[..i + 1], parse) == TransferColumn(rows[..i], parse) + [TransferCell(rows[i], parse)]
  {
    assert rows[..i + 1] == rows[..i] + [rows[i]];
    TransferColumnAppend(rows[..i], rows[i], parse);
  }

  /** The row-by-row application itself: the cell of each row is computed in turn. */
  method ApplyTransferExtraction(df: Frame, parse: FloatParser) returns (col: seq<Cell>)
    requires df.Valid()
    requires TabelaColumn in df.columns && DadosNovosColumn in df.columns
    ensures col == TransferColumn(df.rows, parse)
  {
    var rows := df.rows;
    RowsHaveSourceColumns(df.columns, rows);
    col := [];
    var i := 0;
    while i < |rows|
      invariant 0 <= i <= |rows|
      invariant col == TransferColumn(rows[..i], parse)
    {
      TransferColumnPrefix(rows, i, parse);
      col := col + [TransferCell(rows[i], parse)];
      i := i + 1;
    }
    assert rows[..i] == rows;
  }

  /** Step 1 of `preprocess`: on a copy of the table, add `valor_transferencia` when both `tabela`
      and `dados_novos` are columns; the caller's table is not modified. */
  method DeriveTransferValue(df: Frame, parse: FloatParser) returns (out: Frame)
    requires df.Valid()
    ensures fresh(out) && out.Valid()
    ensures |out.rows| == |df.rows|
    ensures TabelaColumn in df.columns && DadosNovosColumn in df.columns ==>
      && out.columns == (if TransferValueColumn in df.columns then df.columns
                         else df.columns + [TransferValueColumn])
      && forall i :: 0 <= i < |df.rows| ==>
           out.rows[i] == df.rows[i][TransferValueColumn := TransferColumn(df.rows, parse)[i]]
    ensures !(TabelaColumn in df.columns && DadosNovosColumn in df.columns) ==>
      out.columns == df.columns && out.rows == df.rows
  {
    out := df.Copy();
    if TabelaColumn in out.columns && DadosNovosColumn in out.columns {
      var col := ApplyTransferExtraction(out, parse);
      out.AssignColumn(TransferValueColumn, col);
    }
  }
}

module PreprocessingExamples {
  import opened Wrappers
  import opened PyStr
  import opened Cells
  import opened Preprocessing

  /** Only the text between the first and the second `=` of the token is parsed. */
  lemma TrailingEqualsIgnored(s: string, parse: FloatParser)
    requires s == "valor=10=3"
    ensures ExtractTransferValue(Text(TransferTable), Text(s), parse) == parse("10")
  {
    assert s[..6] == ValorKey;
    var t := s[6..];
    assert t[0] != '=' && t[1] != '=' && t[2] == '=';
    IndexOfIs(t, '=', 2);
    assert t[..2] == "10";
    LoneValorToken(s, parse);
  }

  /** Only the first `valor=` token is consulted: when its number does not parse, a valid later one
      does not rescue the row, because the `try` encloses the whole loop. */
  lemma FirstValorFailureIsFinal(s: string, parse: FloatParser)
    requires s == "valor=abc|valor=5"
    requires parse("abc") == None
    ensures ExtractTransferValue(Text(TransferTable), Text(s), parse) == None
  {
    var first, second := s[..9], s[10..];
    assert first == "valor=abc";
    assert s == first + ['|'] + second;
    assert first[..6] == ValorKey && first[6..] == "abc";
    assert TakeUntil("abc", '=') == "abc";
    LeadingValorToken(first, second, parse);
  }

  /** Payloads without any `valor=` token: empty, free text, another key. */
  lemma PayloadWithoutValorKey(s: string, parse: FloatParser)
    requires s == "" || s == "garbage" || s == "tipo=x"
    ensures ExtractTransferValue(Text(TransferTable), Text(s), parse) == None
  {
    SplitNoSep(s, '|');
    assert !StartsWith(s, ValorKey) by {
      assert s == [] || s[0] != 'v';
    }
    NoValorToken(s, parse);
  }

  /** `"valor="` hands the empty string to `float()`, which raises, so the row gets `None`. */
  lemma EmptyNumberText(s: string, parse: FloatParser)
    requires s == "valor="
    requires parse("") == None
    ensures ExtractTransferValue(Text(TransferTable), Text(s), parse) == None
  {
    assert s[..6] == ValorKey && s[6..] == "";
    LoneValorToken(s, parse);
  }

  /** The key test is a case-sensitive prefix test on the raw token: no case folding, no trimming. */
  lemma KeyMatchIsExact(s: string, parse: FloatParser)
    requires s == "Valor=5" || s == " valor=5"
    ensures ExtractTransferValue(Text(TransferTable), Text(s), parse) == None
  {
    SplitNoSep(s, '|');
    assert !StartsWith(s, ValorKey) by {
      assert s[0] != 'v';
    }
    NoValorToken(s, parse);
  }
}
