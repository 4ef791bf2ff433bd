/** visualization/financial_charts.py: the rules behind the chart helpers (which rows are counted,
    classified, highlighted or looked up), without the drawing. */
module FinancialCharts {
  import opened Wrappers
  import opened PyStr
  import opened Cells

  // ---------------------------------------------------------------------------------------------
  // plot_transfer_anomalies: the second diff parser and the score lookup

  /** `extract_value(data_str)`: `None` for a missing payload; otherwise only the first `|`-token is
      read (an empty one when there is no `|` at all), its key is ignored, and the text between its
      first and second `=` goes to `float()`. A numeric payload makes `'|' in x` raise `TypeError`,
      which the bare `except` turns into `None`. */
  function ExtractValue(data: Cell, parse: FloatParser): (r: Option<real>)
    ensures !data.Text? ==> r == None
    ensures data.Text? && '|' !in data.s ==> r == None
  {
    match data
    case Missing => None
    case Number(_) => None
    case Text(s) =>
      var head := if '|' in s then Split(s, '|')[0] else "";
      if '=' in head then
        SplitSecond(head, '=');
        parse(Split(head, '=')[1])
      else None
  }

  /** Reading of `extract_value` on the raw payload: with `head` the text before the first `|`, the
      result is the parse of what lies between the first and the second `=` of `head`, and `None`
      when there is no `|` or `head` has no `=`. */
  lemma ExtractValueSpec(s: string, parse: FloatParser)
    ensures var head := TakeUntil(s, '|');
      ExtractValue(Text(s), parse)
        == if '|' in s && '=' in head then parse(TakeUntil(head[IndexOf(head, '=') + 1..], '='))
           else None
  {
    if '|' in s {
      SplitHead(s, '|');
      var head := TakeUntil(s, '|');
      if '=' in head {
        SplitSecond(head, '=');
      }
    }
  }

  /** Whatever the key of the first token, its number text is what gets parsed: a payload
      `key=num|rest` yields `float(num up to any further '=')`. */
  lemma FirstTokenKeyIgnored(key: string, num: string, rest: string, parse: FloatParser)
    requires '=' !in key && '|' !in key && '|' !in num
    ensures ExtractValue(Text(key + "=" + num + "|" + rest), parse) == parse(TakeUntil(num, '='))
  {
    var s := key + "=" + num + "|" + rest;
    var head := key + "=" + num;
    assert s == head + ['|'] + rest;
    SplitCons(head, '|', rest);
    assert head == key + ['='] + num;
    SplitCons(key, '=', num);
    SplitHead(num, '=');
  }

  /** `anomaly_scores[idx] if idx < len(anomaly_scores) else 0`. */
  function ScoreAt(scores: seq<real>, idx: nat): real {
    if idx < |scores| then scores[idx] else 0.0
  }

  /** `transfer_logs.index.map(...)`: one score per index label, in label order; a label past the end
      of the score array gets 0. */
  function ScoreColumn(labels: seq<nat>, scores: seq<real>): (col: seq<real>)
    ensures |col| == |labels|
    ensures forall i :: 0 <= i < |labels| ==>
      col[i] == if labels[i] < |scores| then scores[labels[i]] else 0.0
    decreases |labels|
  {
    if labels == [] then [] else [ScoreAt(scores, labels[0])] + ScoreColumn(labels[1..], scores)
  }

  /** When the score array covers every row label (the scorer returns one score per row of the
      table), the default 0 is never used: each row gets its own score. */
  lemma ScoresCoverLabels(labels: seq<nat>, scores: seq<real>, i: nat)
    requires forall k :: 0 <= k < |labels| ==> labels[k] < |scores|
    requires i < |labels|
    ensures ScoreColumn(labels, scores)[i] == scores[labels[i]]
  {
  }

  // ---------------------------------------------------------------------------------------------
  // plot_login_patterns: login outcome, error rate, highlighted users

  datatype LoginResult = Sucesso | Erro

  /** The Python exceptions the chart code lets escape. */
  datatype PyError = TypeError | KeyError(key: string) | ValueError

  const SuccessMarker: string := "SUCESSO"
  const ErrorRateThreshold: real := 0.5

  /** The `resultado` lambda: `'Sucesso'` iff the description contains `SUCESSO` (case-sensitive);
      a non-string description makes `in` raise `TypeError`. */
  function ClassifyLogin(descricao: Cell): (r: Result<LoginResult, PyError>)
    ensures r.Ok? <==> descricao.Text?
    ensures r.Ok? ==> (r.value == Sucesso <==> exists i :: OccursAt(descricao.s, SuccessMarker, i))
    ensures r.Err? ==> r.error == TypeError
  {
    match descricao
    case Text(s) =>
      ContainsIff(s, SuccessMarker);
      if Contains(s, SuccessMarker) then Ok(Sucesso) else Ok(Erro)
    case _ => Err(TypeError)
  }

  /** `login_logs['descricao'].apply(...)`: the whole column, or the first exception raised. */
  function ClassifyLogins(descricoes: seq<Cell>): (r: Result<seq<LoginResult>, PyError>)
    ensures r.Ok? <==> forall i :: 0 <= i < |descricoes| ==> descricoes[i].Text?
    ensures r.Ok? ==> |r.value| == |descricoes|
    ensures r.Ok? ==> forall i :: 0 <= i < |descricoes| ==> Ok(r.value[i]) == ClassifyLogin(descricoes[i])
    decreases |descricoes|
  {
    if descricoes == [] then Ok([])
    else match ClassifyLogin(descricoes[0])
      case Err(e) => Err(e)
      case Ok(first) =>
        match ClassifyLogins(descricoes[1..])
        case Err(e) => Err(e)
        case Ok(rest) => Ok([first] + rest)
  }

  /** One classified login attempt. */
  datatype Login = Login(user: int, result: LoginResult)

  /** One row of `groupby(['user_id', 'resultado']).size().unstack(fill_value=0)`. */
  datatype UserTally = UserTally(user: int, sucesso: nat, erro: nat)

  function CountOutcome(logins: seq<Login>, user: int, outcome: LoginResult): nat
    decreases |logins|
  {
    if logins == [] then 0
    else (if logins[0] == Login(user, outcome) then 1 else 0) + CountOutcome(logins[1..], user, outcome)
  }

  function Users(logins: seq<Login>): set<int> {
    set l | l in logins :: l.user
  }

  predicate StrictlyIncreasing(xs: seq<int>) {
    forall i, j :: 0 <= i < j < |xs| ==> xs[i] < xs[j]
  }

  /** Insert `x` into a strictly increasing sequence, keeping it strictly increasing. */
  function InsertSorted(xs: seq<int>, x: int): (r: seq<int>)
    requires StrictlyIncreasing(xs)
    ensures StrictlyIncreasing(r)
    ensures forall y :: y in r <==> y in xs || y == x
    decreases |xs|
  {
    if xs == [] then [x]
    else if x < xs[0] then [x] + xs
    else if x == xs[0] then xs
    else
      var rest := InsertSorted(xs[1..], x);
      assert forall j :: 0 <= j < |rest| ==> xs[0] < rest[j] by {
        forall j | 0 <= j < |rest| ensures xs[0] < rest[j] {
          assert rest[j] in rest;
          if rest[j] in xs[1..] {
            var k :| 0 <= k < |xs[1..]| && xs[1..][k] == rest[j];
            assert xs[k + 1] == rest[j];
          }
        }
      }
      [xs[0]] + rest
  }

  /** The group keys of `groupby('user_id')`: every user once, in ascending order. */
  function UserKeys(logins: seq<Login>): (keys: seq<int>)
    ensures StrictlyIncreasing(keys)
    ensures forall u :: u in keys <==> u in Users(logins)
    decreases |logins|
  {
    if logins == [] then []
    else
      assert Users(logins) == Users(logins[1..]) + {logins[0].user} by {
        assert forall l :: l in logins <==> l in logins[1..] || l == logins[0];
      }
      InsertSorted(UserKeys(logins[1..]), logins[0].user)
  }

  /** A user with at least one attempt has a non-empty row. */
  lemma {:induction false} TallyNonEmpty(logins: seq<Login>, user: int)
    requires user in Users(logins)
    ensures CountOutcome(logins, user, Sucesso) + CountOutcome(logins, user, Erro) >= 1
    decreases |logins|
  {
    if logins[0].user != user {
      assert user in Users(logins[1..]) by {
        var l :| l in logins && l.user == user;
        assert l in logins[1..];
      }
      TallyNonEmpty(logins[1..], user);
    } else if logins[0].result == Sucesso {
      assert logins[0] == Login(user, Sucesso);
      assert CountOutcome(logins, user, Sucesso) >= 1;
    } else {
      assert logins[0] == Login(user, Erro);
      assert CountOutcome(logins, user, Erro) >= 1;
    }
  }

  /** An outcome that no login has counts 0 for every user. */
  lemma {:induction false} CountAbsentOutcome(logins: seq<Login>, user: int, outcome: LoginResult)
    requires !HasOutcome(logins, outcome)
    ensures CountOutcome(logins, user, outcome) == 0
    decreases |logins|
  {
    if logins != [] {
      assert !HasOutcome(logins[1..], outcome) by {
        forall l | l in logins[1..] ensures l.result != outcome { assert l in logins; }
      }
      CountAbsentOutcome(logins[1..], user, outcome);
    }
  }

  /** The table of attempts per user: one row per user in ascending order, none of them empty. */
  function TallyByUser(logins: seq<Login>): (t: seq<UserTally>)
    ensures |t| == |UserKeys(logins)|
    ensures forall i :: 0 <= i < |t| ==> t[i].user == UserKeys(logins)[i]
    ensures forall i :: 0 <= i < |t| ==>
      && t[i].sucesso == CountOutcome(logins, t[i].user, Sucesso)
      && t[i].erro == CountOutcome(logins, t[i].user, Erro)
      && t[i].sucesso + t[i].erro >= 1
  {
    var keys := UserKeys(logins);
    assert forall i :: 0 <= i < |keys| ==>
      CountOutcome(logins, keys[i], Sucesso) + CountOutcome(logins, keys[i], Erro) >= 1 by {
      forall i | 0 <= i < |keys|
        ensures CountOutcome(logins, keys[i], Sucesso) + CountOutcome(logins, keys[i], Erro) >= 1
      {
        assert keys[i] in keys;
        TallyNonEmpty(logins, keys[i]);
      }
    }
    seq(|keys|, i requires 0 <= i < |keys| =>
      UserTally(keys[i], CountOutcome(logins, keys[i], Sucesso), CountOutcome(logins, keys[i], Erro)))
  }

  /** Whether the unstacked table has a column for `outcome`: some attempt had it. */
  predicate HasOutcome(logins: seq<Login>, outcome: LoginResult) {
    exists l :: l in logins && l.result == outcome
  }

  /** `Erro / (Erro + Sucesso)` for one user. */
  function Rate(t: UserTally): (r: real)
    requires t.sucesso + t.erro >= 1
    ensures 0.0 <= r <= 1.0
    ensures r > ErrorRateThreshold <==> t.erro > t.sucesso
  {
    var n := (t.sucesso + t.erro) as real;
    var e := t.erro as real;
    assert e <= n;
    RatioBounds(e, n);
    e / n
  }

  lemma RatioBounds(e: real, n: real)
    requires 0.0 <= e <= n && n > 0.0
    ensures 0.0 <= e / n <= 1.0
    ensures e / n > 0.5 <==> e > n - e
  {
    var q := e / n;
    assert q * n == e;
  }

  /** The `taxa_erro` column as written: an `Erro` column without a `Sucesso` column makes
      `user_login_counts['Sucesso']` raise `KeyError`; without an `Erro` column every rate is 0. */
  function ErrorRates(logins: seq<Login>): (r: Result<seq<real>, PyError>)
    ensures r.Err? <==> HasOutcome(logins, Erro) && !HasOutcome(logins, Sucesso)
    ensures r.Err? ==> r.error == KeyError("Sucesso")
    ensures r.Ok? ==> |r.value| == |UserKeys(logins)|
  {
    var t := TallyByUser(logins);
    if HasOutcome(logins, Erro) then
      if HasOutcome(logins, Sucesso) then Ok(seq(|t|, i requires 0 <= i < |t| => Rate(t[i])))
      else Err(KeyError("Sucesso"))
    else Ok(seq(|t|, i => 0.0))
  }

  /** The intended `taxa_erro`: the share of failed attempts of each user, in every case. */
  function ErrorRatesFixed(logins: seq<Login>): (r: seq<real>)
    ensures |r| == |UserKeys(logins)|
    ensures forall i :: 0 <= i < |r| ==> 0.0 <= r[i] <= 1.0
    ensures forall i :: 0 <= i < |r| ==>
      (r[i] > ErrorRateThreshold <==> CountOutcome(logins, UserKeys(logins)[i], Erro)
                                       > CountOutcome(logins, UserKeys(logins)[i], Sucesso))
  {
    var t := TallyByUser(logins);
    seq(|t|, i requires 0 <= i < |t| => Rate(t[i]))
  }

  /** Outside the all-failures case the code as written computes the intended rates. */
  lemma ErrorRatesAgree(logins: seq<Login>)
    requires HasOutcome(logins, Sucesso) || !HasOutcome(logins, Erro)
    ensures ErrorRates(logins) == Ok(ErrorRatesFixed(logins))
  {
    var t := TallyByUser(logins);
    if !HasOutcome(logins, Erro) {
      forall i | 0 <= i < |t| ensures Rate(t[i]) == 0.0 {
        CountAbsentOutcome(logins, t[i].user, Erro);
      }
      assert ErrorRatesFixed(logins) == seq(|t|, i => 0.0);
    }
  }

  /** A log in which some attempt failed and none succeeded makes the chart raise, where the intended
      rate of every user is 1.0. */
  lemma AllFailuresRaise(logins: seq<Login>)
    requires HasOutcome(logins, Erro) && !HasOutcome(logins, Sucesso)
    ensures ErrorRates(logins) == Err(KeyError("Sucesso"))
    ensures forall i :: 0 <= i < |ErrorRatesFixed(logins)| ==> ErrorRatesFixed(logins)[i] == 1.0
  {
    var t := TallyByUser(logins);
    forall i | 0 <= i < |t| ensures Rate(t[i]) == 1.0 {
      CountAbsentOutcome(logins, t[i].user, Sucesso);
      var e := t[i].erro as real;
      assert e / e == 1.0;
    }
  }

  /** The smallest such log: one failed login by user 7. */
  lemma SingleFailedLogin(logins: seq<Login>)
    requires logins == [Login(7, Erro)]
    ensures ErrorRates(logins) == Err(KeyError("Sucesso"))
    ensures ErrorRatesFixed(logins) == [1.0]
  {
    assert logins[0] in logins;
    assert Users(logins) == {7};
    assert UserKeys(logins) == [7];
    assert logins[1..] == [];
    assert CountOutcome(logins, 7, Sucesso) == 0;
    assert CountOutcome(logins, 7, Erro) == 1;
    assert TallyByUser(logins)[0] == UserTally(7, 0, 1);
    assert ErrorRatesFixed(logins)[0] == 1.0;
  }

  /** The highlight loop: the positions (in table order) whose error rate is strictly above 0.5. */
  method HighlightedUsers(rates: seq<real>) returns (marked: seq<nat>)
    ensures forall k :: 0 <= k < |marked| ==> marked[k] < |rates| && rates[marked[k]] > ErrorRateThreshold
    ensures forall i :: 0 <= i < |rates| && rates[i] > ErrorRateThreshold ==> i in marked
    ensures forall k, l :: 0 <= k < l < |marked| ==> marked[k] < marked[l]
  {
    marked := [];
    var i := 0;
    while i < |rates|
      invariant 0 <= i <= |rates|
      invariant forall k :: 0 <= k < |marked| ==> marked[k] < i && rates[marked[k]] > ErrorRateThreshold
      invariant forall j :: 0 <= j < i && rates[j] > ErrorRateThreshold ==> j in marked
      invariant forall k, l :: 0 <= k < l < |marked| ==> marked[k] < marked[l]
    {
      if rates[i] > ErrorRateThreshold {
        marked := marked + [i];
      }
      i := i + 1;
    }
  }

  /** The users whose tick label the chart turns red, computed from the intended error rates: exactly
      the users (by position in the ascending user table) with more failed than successful logins. */
  method HighlightedUsersOf(logins: seq<Login>) returns (marked: seq<nat>)
    ensures forall i :: 0 <= i < |UserKeys(logins)| ==>
      (i in marked <==> CountOutcome(logins, UserKeys(logins)[i], Erro)
                        > CountOutcome(logins, UserKeys(logins)[i], Sucesso))
    ensures forall k :: 0 <= k < |marked| ==> marked[k] < |UserKeys(logins)|
  {
    marked := HighlightedUsers(ErrorRatesFixed(logins));
  }

  // ---------------------------------------------------------------------------------------------
  // plot_login_time_patterns: logins per hour of the day

  /** An hour of the day as `dt.hour` gives it. */
  type Hour = h: int | 0 <= h < 24

  /** `groupby('hora').size().reindex(range(24)).fillna(0)`: a count for each of the 24 hours, 0 where
      no login fell; a login without a timestamp (`NaT`, here `None`) is in no group. */
  function HourCounts(hours: seq<Option<Hour>>): (c: seq<nat>)
    ensures |c| == 24
    ensures forall h: Hour :: c[h] == multiset(hours)[Some(h)]
    decreases |hours|
  {
    if hours == [] then seq(24, h => 0)
    else
      var prefix := hours[..|hours| - 1];
      assert hours == prefix + [hours[|hours| - 1]];
      var c := HourCounts(prefix);
      match hours[|hours| - 1]
      case None => c
      case Some(h) => c[h := c[h] + 1]
  }

  function Sum(xs: seq<nat>): nat
    decreases |xs|
  {
    if xs == [] then 0 else xs[0] + Sum(xs[1..])
  }

  lemma {:induction false} SumUpdate(xs: seq<nat>, k: nat, v: nat)
    requires k < |xs|
    ensures Sum(xs[k := v]) == Sum(xs) - xs[k] + v
    decreases |xs|
  {
    if k > 0 {
      assert xs[k := v][1..] == xs[1..][k - 1 := v];
      SumUpdate(xs[1..], k - 1, v);
    }
  }

  lemma SumZeros(n: nat)
    ensures Sum(seq(n, h => 0)) == 0
  {
    if n > 0 {
      assert seq(n, h => 0)[1..] == seq(n - 1, h => 0);
      SumZeros(n - 1);
    }
  }

  /** No login is lost or counted twice: the 24 counts add up to the logins that have an hour. */
  lemma {:induction false} HourCountsTotal(hours: seq<Option<Hour>>)
    ensures Sum(HourCounts(hours)) == |hours| - multiset(hours)[None]
    decreases |hours|
  {
    if hours == [] {
      SumZeros(24);
    } else {
      var prefix := hours[..|hours| - 1];
      assert hours == prefix + [hours[|hours| - 1]];
      HourCountsTotal(prefix);
      match hours[|hours| - 1]
      case None =>
      case Some(h) =>
        var c := HourCounts(prefix);
        SumUpdate(c, h, c[h] + 1);
    }
  }

  datatype HourType = HorarioComercial | ForaDoHorarioComercial

  /** `set(range(8, 19))`: 8h to 18h inclusive. */
  const ComercialHours: set<int> := set h | 8 <= h < 19

  /** The `tipo` of one hour. */
  function HourTypeOf(h: Hour): HourType {
    if h !in ComercialHours then ForaDoHorarioComercial else HorarioComercial
  }

  /** One row of `login_hour_counts_df`. */
  datatype HourBucket = HourBucket(hora: Hour, contagem: nat, tipo: HourType)

  /** The table behind the chart: all 24 hours in order, each with its login count and its type. */
  function LoginHourTable(hours: seq<Option<Hour>>): (t: seq<HourBucket>)
    ensures |t| == 24
    ensures forall h: Hour :: t[h].hora == h && t[h].contagem == multiset(hours)[Some(h)]
    ensures forall h: Hour :: t[h].tipo == HorarioComercial <==> 8 <= h <= 18
  {
    var c := HourCounts(hours);
    seq(24, h requires 0 <= h < 24 => HourBucket(h, c[h], HourTypeOf(h)))
  }

  // ---------------------------------------------------------------------------------------------
  // plot_anomaly_summary: anomalies per operation type

  /** The label `fit_predict` gives an anomalous row. */
  const AnomalyLabel: int := -1

  /** One row of `anomaly_by_operation`. */
  datatype OpSummary = OpSummary(tipo: string, total: nat, anomalias: nat, porcentagem: real)

  function Count(tipos: seq<string>, k: string): nat
    decreases |tipos|
  {
    if tipos == [] then 0 else (if tipos[0] == k then 1 else 0) + Count(tipos[1..], k)
  }

  /** `(x == -1).sum()` over the group of `k`: at most the size of the group. */
  function CountAnomalies(tipos: seq<string>, preds: seq<int>, k: string): (n: nat)
    requires |preds| == |tipos|
    ensures n <= Count(tipos, k)
    decreases |tipos|
  {
    if tipos == [] then 0
    else (if tipos[0] == k && preds[0] == AnomalyLabel then 1 else 0)
         + CountAnomalies(tipos[1..], preds[1..], k)
  }

  lemma {:induction false} CountPositive(tipos: seq<string>, k: string)
    requires k in tipos
    ensures Count(tipos, k) >= 1
    decreases |tipos|
  {
    if tipos[0] != k {
      CountPositive(tipos[1..], k);
    }
  }

  predicate Distinct(xs: seq<string>) {
    forall i, j :: 0 <= i < j < |xs| ==> xs[i] != xs[j]
  }

  /** The operation types, each once, in order of first appearance. */
  function Keys(tipos: seq<string>): (keys: seq<string>)
    ensures Distinct(keys)
    ensures forall k :: k in keys <==> k in tipos
    decreases |tipos|
  {
    if tipos == [] then []
    else
      var prefix := tipos[..|tipos| - 1];
      var last := tipos[|tipos| - 1];
      assert tipos == prefix + [last];
      var keys := Keys(prefix);
      if last in keys then keys else keys + [last]
  }

  /** `anomalias / total * 100`. */
  function Percent(anomalias: nat, total: nat): (p: real)
    requires 1 <= total && anomalias <= total
    ensures 0.0 <= p <= 100.0
  {
    RatioBounds(anomalias as real, total as real);
    anomalias as real / total as real * 100.0
  }

  /** What every row of the summary satisfies. */
  predicate WellFormedSummary(g: OpSummary) {
    && 1 <= g.total
    && g.anomalias <= g.total
    && 0.0 <= g.porcentagem <= 100.0
    && g.porcentagem == Percent(g.anomalias, g.total)
  }

  /** The `groupby('tipo_operacao').agg(...)` table with its `porcentagem` column, before sorting. */
  function GroupByOperation(tipos: seq<string>, preds: seq<int>): (g: seq<OpSummary>)
    requires |preds| == |tipos|
    ensures |g| == |Keys(tipos)|
    ensures forall i :: 0 <= i < |g| ==>
      && g[i].tipo == Keys(tipos)[i]
      && g[i].total == Count(tipos, g[i].tipo)
      && g[i].anomalias == CountAnomalies(tipos, preds, g[i].tipo)
      && WellFormedSummary(g[i])
  {
    var keys := Keys(tipos);
    assert forall i :: 0 <= i < |keys| ==> Count(tipos, keys[i]) >= 1 by {
      forall i | 0 <= i < |keys| ensures Count(tipos, keys[i]) >= 1 {
        assert keys[i] in keys;
        CountPositive(tipos, keys[i]);
      }
    }
    seq(|keys|, i requires 0 <= i < |keys| =>
      var total := Count(tipos, keys[i]);
      var anomalias := CountAnomalies(tipos, preds, keys[i]);
      OpSummary(keys[i], total, anomalias, Percent(anomalias, total)))
  }

  predicate NonIncreasing(s: seq<OpSummary>) {
    forall i, j :: 0 <= i < j < |s| ==> s[i].porcentagem >= s[j].porcentagem
  }

  /** A row whose percentage bounds `x` and every row of `t` bounds every row of a permutation of
      `t` plus `x`. */
  lemma BoundedByHead(h: OpSummary, x: OpSummary, t: seq<OpSummary>, rest: seq<OpSummary>)
    requires forall j :: 0 <= j < |t| ==> h.porcentagem >= t[j].porcentagem
    requires h.porcentagem >= x.porcentagem
    requires multiset(rest) == multiset(t) + multiset{x}
    ensures forall j :: 0 <= j < |rest| ==> h.porcentagem >= rest[j].porcentagem
  {
    forall j | 0 <= j < |rest| ensures h.porcentagem >= rest[j].porcentagem {
      assert rest[j] in multiset(rest);
      if rest[j] != x {
        assert rest[j] in multiset(t);
        var k :| 0 <= k < |t| && t[k] == rest[j];
      }
    }
  }

  /** The tail of a non-increasing sequence is non-increasing and bounded by the head. */
  lemma NonIncreasingTail(s: seq<OpSummary>)
    requires s != [] && NonIncreasing(s)
    ensures NonIncreasing(s[1..])
    ensures forall j :: 0 <= j < |s[1..]| ==> s[0].porcentagem >= s[1..][j].porcentagem
  {
    assert forall j :: 0 <= j < |s[1..]| ==> s[1..][j] == s[j + 1];
  }

  /** A head that bounds a non-increasing sequence extends it. */
  lemma NonIncreasingCons(h: OpSummary, s: seq<OpSummary>)
    requires NonIncreasing(s)
    requires forall j :: 0 <= j < |s| ==> h.porcentagem >= s[j].porcentagem
    ensures NonIncreasing([h] + s)
  {
    assert forall j :: 0 < j < |[h] + s| ==> ([h] + s)[j] == s[j - 1];
  }

  function InsertByPercent(x: OpSummary, s: seq<OpSummary>): (r: seq<OpSummary>)
    requires NonIncreasing(s)
    ensures NonIncreasing(r)
    ensures multiset(r) == multiset(s) + multiset{x}
    decreases |s|
  {
    if s == [] then [x]
    else if x.porcentagem >= s[0].porcentagem then
      NonIncreasingCons(x, s);
      [x] + s
    else
      NonIncreasingTail(s);
      var rest := InsertByPercent(x, s[1..]);
      assert s == [s[0]] + s[1..];
      BoundedByHead(s[0], x, s[1..], rest);
      NonIncreasingCons(s[0], rest);
      [s[0]] + rest
  }

  /** `sort_values('porcentagem', ascending=False)`: a permutation, by non-increasing percentage. */
  function SortByPercent(s: seq<OpSummary>): (r: seq<OpSummary>)
    ensures NonIncreasing(r)
    ensures multiset(r) == multiset(s)
    decreases |s|
  {
    if s == [] then []
    else
      assert s == [s[0]] + s[1..];
      InsertByPercent(s[0], SortByPercent(s[1..]))
  }

  /** What `plot_anomaly_summary` draws: an empty figure, or the bar chart of the summary rows. */
  datatype AnomalyChart = EmptyFigure | Summary(rows: seq<OpSummary>)

  /** The summary behind the bar chart. Without exactly one prediction per row the figure is empty.
      Otherwise the predictions and then the scores become columns, and assigning a score array of
      another length raises `ValueError`. Otherwise there is one row per operation type, ordered by
      anomaly percentage. */
  function AnomalySummary(tipos: seq<string>, preds: seq<int>, scores: seq<real>): (r: Result<AnomalyChart, PyError>)
    ensures r == Ok(EmptyFigure) <==> |preds| != |tipos|
    ensures r.Err? <==> |preds| == |tipos| && |scores| != |tipos|
    ensures r.Err? ==> r.error == ValueError
    ensures r.Ok? && r.value.Summary? ==> NonIncreasing(r.value.rows)
    ensures r.Ok? && r.value.Summary? ==> multiset(r.value.rows) == multiset(GroupByOperation(tipos, preds))
  {
    if |preds| != |tipos| then Ok(EmptyFigure)
    else if |scores| != |tipos| then Err(ValueError)
    else Ok(Summary(SortByPercent(GroupByOperation(tipos, preds))))
  }

  /** Every summary row is well formed and counts its own group; every operation type of the log has
      exactly one row. */
  lemma AnomalySummaryRows(tipos: seq<string>, preds: seq<int>, scores: seq<real>)
    requires |preds| == |tipos| && |scores| == |tipos|
    ensures var rows := AnomalySummary(tipos, preds, scores).value.rows;
      && (forall g :: g in rows ==>
            && WellFormedSummary(g)
            && g.total == Count(tipos, g.tipo)
            && g.anomalias == CountAnomalies(tipos, preds, g.tipo))
      && (forall k :: k in tipos <==> exists g :: g in rows && g.tipo == k)
      && (forall i, j :: 0 <= i < j < |rows| ==> rows[i].tipo != rows[j].tipo)
  {
    PermutedGroups(tipos, preds, AnomalySummary(tipos, preds, scores).value.rows);
  }

  /** The same facts for any reordering of the groups. */
  lemma PermutedGroups(tipos: seq<string>, preds: seq<int>, rows: seq<OpSummary>)
    requires |preds| == |tipos|
    requires multiset(rows) == multiset(GroupByOperation(tipos, preds))
    ensures forall g :: g in rows ==>
      && WellFormedSummary(g)
      && g.total == Count(tipos, g.tipo)
      && g.anomalias == CountAnomalies(tipos, preds, g.tipo)
    ensures forall k :: k in tipos <==> exists g :: g in rows && g.tipo == k
    ensures forall i, j :: 0 <= i < j < |rows| ==> rows[i].tipo != rows[j].tipo
  {
    var groups := GroupByOperation(tipos, preds);
    var keys := Keys(tipos);
    forall g | g in rows
      ensures exists i :: 0 <= i < |groups| && groups[i] == g
    {
      assert g in multiset(rows);
      assert g in multiset(groups);
    }
    forall k | k in tipos
      ensures exists g :: g in rows && g.tipo == k
    {
      var i :| 0 <= i < |keys| && keys[i] == k;
      assert groups[i] in multiset(groups);
      assert groups[i] in rows;
    }
    forall i, j | 0 <= i < j < |rows|
      ensures rows[i].tipo != rows[j].tipo
    {
      DistinctTipos(groups, rows, i, j, keys);
    }
  }

  /** Two different rows of a permutation of the groups come from different keys. */
  lemma DistinctTipos(groups: seq<OpSummary>, rows: seq<OpSummary>, i: nat, j: nat, keys: seq<string>)
    requires |groups| == |keys| && Distinct(keys)
    requires forall k :: 0 <= k < |groups| ==> groups[k].tipo == keys[k]
    requires multiset(rows) == multiset(groups)
    requires i < j < |rows|
    ensures rows[i].tipo != rows[j].tipo
  {
    assert rows[i] in multiset(groups);
    assert rows[j] in multiset(groups);
    var a :| 0 <= a < |groups| && groups[a] == rows[i];
    var b :| 0 <= b < |groups| && groups[b] == rows[j];
    if a == b {
      TwoOccurrences(rows, i, j);
      OnlyOnce(groups, keys, a);
      assert false;
    }
  }

  /** An element at two positions occurs at least twice in the multiset. */
  lemma TwoOccurrences(rows: seq<OpSummary>, i: nat, j: nat)
    requires i < j < |rows| && rows[i] == rows[j]
    ensures multiset(rows)[rows[i]] >= 2
  {
    assert rows == rows[..i] + [rows[i]] + rows[i + 1..j] + [rows[j]] + rows[j + 1..];
  }

  lemma {:induction false} OnlyOnce(groups: seq<OpSummary>, keys: seq<string>, a: nat)
    requires |groups| == |keys| && Distinct(keys)
    requires forall k :: 0 <= k < |groups| ==> groups[k].tipo == keys[k]
    requires a < |groups|
    ensures multiset(groups)[groups[a]] == 1
    decreases |groups|
  {
    var last := |groups| - 1;
    assert groups == groups[..last] + [groups[last]];
    if a == last {
      assert groups[a] !in groups[..last] by {
        forall k | 0 <= k < last ensures groups[k] != groups[a] {
          assert keys[k] != keys[a];
        }
      }
    } else {
      OnlyOnce(groups[..last], keys[..last], a);
      assert groups[last] != groups[a] by {
        assert keys[last] != keys[a];
      }
    }
  }
}
