/** The decision logic of the table picker provider: which table a picker
    context names, which back end modules manage that table, which module
    and URL parameters the picker opens, which attributes the data container
    receives, and how the parent table and id of the picked record are found.
    `$GLOBALS['BE_MOD']`, the loaded data container arrays, the database
    lookup and the router are inputs; the router returns its parameter map. */
module TablePicker {
  import opened Wrappers
  import opened Php

  /** The picker configuration: context, the current menu entry, the picked
      value and the extras (only string-valued extras are modelled). */
  datatype PickerConfig = PickerConfig(context: string, current: string, value: string, extras: map<string, string>)

  /** A module of a `BE_MOD` group: its `tables` entry when it is set and an
      array, in the array's order. */
  datatype BackendModule = BackendModule(tables: Option<seq<string>>)

  /** One `BE_MOD` group: module names and modules, in order. */
  type Group = seq<(string, BackendModule)>

  /** The `config` section of a loaded data container array. */
  datatype DcaConfig = DcaConfig(dataContainer: Option<string>, ptable: Option<string>, dynamicPtable: bool)

  /** The `pid` and `ptable` columns of a record. */
  datatype Row = Row(pid: string, ptable: Option<string>)

  /** A URL parameter value handed to the router. The picker entry is the
      cloned configuration; its URL encoding is not modelled. */
  datatype Param = Text(text: string) | Number(number: int) | Picker(config: PickerConfig)

  /** The `RuntimeException` of `getUrl`. */
  datatype PickerError = NotInAnyModule(table: string, context: string)

  /** The modules that list a table: module name and re-indexed table list,
      in the order of a PHP array. */
  type Modules = seq<(string, seq<string>)>

  const Prefix: string := "dc."
  const PrefixLength: nat := 3

  /** `getTableFromContext`: the context without its three-character prefix. */
  function TableFromContext(context: string): (t: string)
    ensures |context| >= PrefixLength ==> context == context[..PrefixLength] + t
    ensures |context| < PrefixLength ==> t == ""
  {
    Substr(context, PrefixLength)
  }

  /** The table named by a `dc.` context comes back unchanged. */
  lemma TableOfContext(t: string)
    ensures TableFromContext(Prefix + t) == t
  {
    assert (Prefix + t)[PrefixLength..] == t;
  }

  /** `getDcaTable`: no configuration gives the empty table name. */
  function DcaTable(config: Option<PickerConfig>): (t: string)
    ensures config.None? ==> t == ""
    ensures config.Some? && StartsWith(config.value.context, Prefix) ==> Prefix + t == config.value.context
  {
    match config
    case None => ""
    case Some(c) => TableFromContext(c.context)
  }

  /** `isCurrent`: the current menu entry belongs to this provider. */
  function IsCurrent(providerName: string, config: PickerConfig): (b: bool)
    ensures b <==> StartsWith(config.current, providerName + ".")
  {
    StrposZero(config.current, providerName + ".");
    Strpos(config.current, providerName + ".") == Some(0)
  }

  // ---------------------------------------------------------------------
  // getModulesForTable

  predicate Lists(m: BackendModule, table: string) {
    m.tables.Some? && table in m.tables.value
  }

  /** All modules of all groups, in order. */
  function Flatten(beMod: seq<Group>): seq<(string, BackendModule)> {
    if |beMod| == 0 then [] else beMod[0] + Flatten(beMod[1..])
  }

  function Keys(ms: Modules): (ks: seq<string>)
    ensures |ks| == |ms|
    ensures forall i :: 0 <= i < |ms| ==> ks[i] == ms[i].0
  {
    seq(|ms|, i requires 0 <= i < |ms| => ms[i].0)
  }

  predicate UniqueKeys(ms: Modules) {
    forall i, j :: 0 <= i < j < |ms| ==> ms[i].0 != ms[j].0
  }

  /** `$modules[$name] = $tables`: a new name is appended, an existing one
      keeps its place and gets the new value. */
  function Put(ms: Modules, name: string, tables: seq<string>): (r: Modules)
    requires UniqueKeys(ms)
    ensures UniqueKeys(r)
    ensures |r| == if name in Keys(ms) then |ms| else |ms| + 1
    ensures forall i :: 0 <= i < |ms| ==> r[i] == if ms[i].0 == name then (name, tables) else ms[i]
    ensures name !in Keys(ms) ==> r[|ms|] == (name, tables)
    ensures forall k :: k in Keys(r) <==> k in Keys(ms) || k == name
  {
    if name in Keys(ms) then
      seq(|ms|, i requires 0 <= i < |ms| => if ms[i].0 == name then (name, tables) else ms[i])
    else ms + [(name, tables)]
  }

  /** The loop over the modules: keep those listing the table, under their
      names. */
  function Collect(flat: seq<(string, BackendModule)>, table: string): (ms: Modules)
    ensures UniqueKeys(ms)
    ensures forall p :: 0 <= p < |ms| ==> table in ms[p].1
  {
    if |flat| == 0 then []
    else
      var last := flat[|flat| - 1];
      var prev := Collect(flat[..|flat| - 1], table);
      if Lists(last.1, table) then Put(prev, last.0, last.1.tables.value) else prev
  }

  /** Some module of `flat` named `k` lists the table. */
  predicate ListedAs(flat: seq<(string, BackendModule)>, table: string, k: string) {
    exists i :: 0 <= i < |flat| && flat[i].0 == k && Lists(flat[i].1, table)
  }

  /** The names kept are exactly the names of the modules listing the table. */
  lemma {:induction false} CollectKeys(flat: seq<(string, BackendModule)>, table: string, k: string)
    ensures k in Keys(Collect(flat, table)) <==> ListedAs(flat, table, k)
    decreases |flat|
  {
    if |flat| > 0 {
      var init := flat[..|flat| - 1];
      var last := flat[|flat| - 1];
      CollectKeys(init, table, k);
      assert forall i :: 0 <= i < |init| ==> flat[i] == init[i];
      if ListedAs(flat, table, k) && !ListedAs(init, table, k) {
        var i :| 0 <= i < |flat| && flat[i].0 == k && Lists(flat[i].1, table);
        assert i == |flat| - 1;
      }
    }
  }

  /** Some module lists the table exactly when the result is not empty. */
  lemma CollectEmpty(flat: seq<(string, BackendModule)>, table: string)
    ensures |Collect(flat, table)| > 0 <==> exists i :: 0 <= i < |flat| && Lists(flat[i].1, table)
  {
    var ms := Collect(flat, table);
    if |ms| > 0 {
      CollectKeys(flat, table, ms[0].0);
      assert ms[0].0 in Keys(ms);
    }
    if i :| 0 <= i < |flat| && Lists(flat[i].1, table) {
      CollectKeys(flat, table, flat[i].0);
    }
  }

  /** The first name kept is the name of the first module listing the
      table. */
  lemma {:induction false} CollectFirst(flat: seq<(string, BackendModule)>, table: string, i: nat)
    requires i < |flat| && Lists(flat[i].1, table)
    requires forall j :: 0 <= j < i ==> !Lists(flat[j].1, table)
    ensures |Collect(flat, table)| > 0 && Collect(flat, table)[0].0 == flat[i].0
    decreases |flat|
  {
    var init := flat[..|flat| - 1];
    var last := flat[|flat| - 1];
    var prev := Collect(init, table);
    if i == |flat| - 1 {
      CollectEmpty(init, table);
      assert |prev| == 0;
    } else {
      CollectFirst(init, table, i);
    }
  }

  /** A name keeps the tables of the last module of that name listing the
      table: a later module of the same name overwrites the entry. */
  lemma {:induction false} CollectLastWins(flat: seq<(string, BackendModule)>, table: string, i: nat)
    requires i < |flat| && Lists(flat[i].1, table)
    requires forall j :: i < j < |flat| && flat[j].0 == flat[i].0 ==> !Lists(flat[j].1, table)
    ensures (flat[i].0, flat[i].1.tables.value) in Collect(flat, table)
    decreases |flat|
  {
    var init := flat[..|flat| - 1];
    var last := flat[|flat| - 1];
    var prev := Collect(init, table);
    if i == |flat| - 1 {
      var r := Put(prev, last.0, last.1.tables.value);
      if last.0 in Keys(prev) {
        var p :| 0 <= p < |prev| && prev[p].0 == last.0;
        assert r[p] == (last.0, last.1.tables.value);
      } else {
        assert r[|prev|] == (last.0, last.1.tables.value);
      }
    } else {
      CollectLastWins(init, table, i);
      if Lists(last.1, table) {
        var r := Put(prev, last.0, last.1.tables.value);
        var p :| 0 <= p < |prev| && prev[p] == (flat[i].0, flat[i].1.tables.value);
        assert r[p] == prev[p];
      }
    }
  }

  /** `getModulesForTable`: one entry per module name that lists the
      table, holding that module's table list. */
  function ModulesForTable(beMod: seq<Group>, table: string): (ms: Modules)
    ensures UniqueKeys(ms)
    ensures forall p :: 0 <= p < |ms| ==> table in ms[p].1
    ensures forall k :: k in Keys(ms) <==> ListedAs(Flatten(beMod), table, k)
    ensures |ms| == 0 <==> Unlisted(beMod, table)
  {
    var flat := Flatten(beMod);
    assert forall k :: k in Keys(Collect(flat, table)) <==> ListedAs(flat, table, k) by {
      forall k ensures k in Keys(Collect(flat, table)) <==> ListedAs(flat, table, k) {
        CollectKeys(flat, table, k);
      }
    }
    CollectEmpty(flat, table);
    assert Unlisted(beMod, table) <==> forall i :: 0 <= i < |flat| ==> !Lists(flat[i].1, table);
    Collect(flat, table)
  }

  /** No module lists the table: the `getUrl` error case, and a context the
      provider does not support. */
  predicate Unlisted(beMod: seq<Group>, table: string) {
    forall i :: 0 <= i < |Flatten(beMod)| ==> !Lists(Flatten(beMod)[i].1, table)
  }

  lemma ModulesEmpty(beMod: seq<Group>, table: string)
    ensures |ModulesForTable(beMod, table)| == 0 <==> Unlisted(beMod, table)
  {
    CollectEmpty(Flatten(beMod), table);
  }

  // ---------------------------------------------------------------------
  // supportsContext

  /** `supportsContext`: a `dc.` context whose table uses this provider's
      data container and is listed by some back end module. */
  function SupportsContext(dataContainer: string, beMod: seq<Group>, dca: map<string, DcaConfig>, context: string): (b: bool)
    ensures var table := TableFromContext(context);
      b <==> (StartsWith(context, Prefix)
        && table in dca && dca[table].dataContainer == Some(dataContainer)
        && !Unlisted(beMod, table))
  {
    StrposZero(context, Prefix);
    ModulesEmpty(beMod, TableFromContext(context));
    if Strpos(context, Prefix) != Some(0) then false
    else
      var table := TableFromContext(context);
      table in dca && dca[table].dataContainer == Some(dataContainer)
        && |ModulesForTable(beMod, table)| != 0
  }

  // ---------------------------------------------------------------------
  // getDcaAttributes, convertDcaValue

  /** The attributes passed to the data container. */
  datatype DcaAttributes = DcaAttributes(fieldType: string, preserveRecord: Option<string>, value: Option<seq<int>>)

  /** `array_map('\intval', $parts)`. */
  function IntvalAll(parts: seq<string>): (r: seq<int>)
    ensures |r| == |parts|
    ensures forall i :: 0 <= i < |parts| ==> r[i] == IntCast(parts[i])
  {
    seq(|parts|, i requires 0 <= i < |parts| => IntCast(parts[i]))
  }

  /** A truthy extra, or nothing. */
  function TruthyExtra(extras: map<string, string>, key: string): Option<string> {
    if key in extras && Truthy(extras[key]) then Some(extras[key]) else None
  }

  /** `getDcaAttributes`. */
  function GetDcaAttributes(config: PickerConfig): (a: DcaAttributes)
    ensures a.fieldType != "radio" ==> "fieldType" in config.extras && a.fieldType == config.extras["fieldType"]
    ensures "fieldType" in config.extras && Truthy(config.extras["fieldType"]) ==> a.fieldType == config.extras["fieldType"]
    ensures a.preserveRecord.Some? <==> "source" in config.extras && Truthy(config.extras["source"])
    ensures a.preserveRecord.Some? ==> a.preserveRecord.value == config.extras["source"]
    ensures a.value.Some? <==> Truthy(config.value)
    ensures !("fieldType" in config.extras && Truthy(config.extras["fieldType"])) ==> a.fieldType == "radio"
    ensures a.value.Some? ==> a.value.value == IntvalAll(Explode(config.value, ','))
  {
    var fieldType := TruthyExtra(config.extras, "fieldType").GetOr("radio");
    var value := if Truthy(config.value) then Some(IntvalAll(Explode(config.value, ','))) else None;
    DcaAttributes(fieldType, TruthyExtra(config.extras, "source"), value)
  }

  /** The decimal numerals of a list of record ids. */
  function Numerals(ids: seq<nat>): (parts: seq<string>)
    ensures |parts| == |ids|
    ensures forall i :: 0 <= i < |ids| ==> parts[i] == DecimalString(ids[i])
  {
    seq(|ids|, i requires 0 <= i < |ids| => DecimalString(ids[i]))
  }

  /** The comma-separated list of record ids a picker value holds. */
  function IdList(ids: seq<nat>): string
    requires |ids| > 0
  {
    Implode(Numerals(ids), ',')
  }

  /** A value written as a list of ids is read back as exactly those ids,
      unless it is the single id 0 (the string "0" is falsy in PHP). */
  lemma AttributesReadIds(config: PickerConfig, ids: seq<nat>)
    requires |ids| > 0 && forall i :: 0 <= i < |ids| ==> ids[i] <= IntMax
    requires config.value == IdList(ids)
    requires ids != [0]
    ensures GetDcaAttributes(config).value == Some(ids)
  {
    var parts := Numerals(ids);
    IdListSplits(ids);
    IdListTruthy(ids);
    forall i | 0 <= i < |ids|
      ensures IntCast(parts[i]) == ids[i]
    {
      IntCastOfDecimal(ids[i]);
    }
    assert IntvalAll(parts) == ids;
  }

  /** Splitting an id list at its commas gives back the numerals. */
  lemma IdListSplits(ids: seq<nat>)
    requires |ids| > 0
    ensures Explode(IdList(ids), ',') == Numerals(ids)
  {
    var parts := Numerals(ids);
    forall i | 0 <= i < |parts|
      ensures ',' !in parts[i]
    {
      assert forall k :: 0 <= k < |parts[i]| ==> IsDigit(parts[i][k]);
    }
    ExplodeImplode(parts, ',');
  }

  /** An id list other than the lone id 0 is truthy. */
  lemma IdListTruthy(ids: seq<nat>)
    requires |ids| > 0 && ids != [0]
    ensures Truthy(IdList(ids))
  {
    var parts := Numerals(ids);
    if |ids| == 1 {
      assert IdList(ids) == DecimalString(ids[0]);
      assert ids[0] != 0;
      if ids[0] < 10 {
        assert DigitChar(ids[0]) != '0';
      } else {
        assert |DecimalString(ids[0])| >= 2;
      }
    } else {
      ImplodeLength(parts, ',');
    }
  }

  lemma {:induction false} ImplodeLength(parts: seq<string>, sep: char)
    requires |parts| >= 1
    requires forall i :: 0 <= i < |parts| ==> |parts[i]| >= 1
    ensures |Implode(parts, sep)| >= 2 * |parts| - 1
    decreases |parts|
  {
    if |parts| > 1 {
      ImplodeLength(parts[1..], sep);
    }
  }

  /** A PHP value handed to `convertDcaValue` (floats are not modelled). */
  datatype Scalar = IntValue(i: int) | StringValue(s: string) | BoolValue(b: bool) | NullValue

  /** `convertDcaValue`: the integer cast of the value. */
  function ConvertDcaValue(value: Scalar): (r: int)
    ensures value.IntValue? ==> r == value.i
    ensures value.StringValue? ==> r == IntCast(value.s) && IntMin <= r <= IntMax
    ensures value.BoolValue? ==> r == if value.b then 1 else 0
    ensures value.NullValue? ==> r == 0
    ensures forall n: nat :: n <= IntMax && value == StringValue(DecimalString(n)) ==> r == n
  {
    match value
    case IntValue(i) => i
    case StringValue(s) =>
      assert forall n: nat :: n <= IntMax ==> IntCast(DecimalString(n)) == n by {
        forall n: nat | n <= IntMax
          ensures IntCast(DecimalString(n)) == n
        {
          IntCastOfDecimal(n);
        }
      }
      IntCast(s)
    case BoolValue(b) => if b then 1 else 0
    case NullValue => 0
  }

  // ---------------------------------------------------------------------
  // getPtableAndPid

  /** The id the record lookup uses: the first comma-separated value. */
  function FirstId(value: string): int {
    IntCast(Explode(value, ',')[0])
  }

  /** `getPtableAndPid`: the parent table and parent id of the first picked
      record, or neither. */
  function PtableAndPid(table: string, value: string, dca: map<string, DcaConfig>, rows: map<(string, int), Row>): (r: (Option<string>, Option<int>))
    ensures r.0.Some? <==> r.1.Some?
    ensures !Truthy(value) ==> r == (None, None)
    ensures table !in dca ==> r == (None, None)
    ensures table in dca && !TruthyOpt(dca[table].ptable) && !dca[table].dynamicPtable ==> r == (None, None)
    ensures (table, FirstId(value)) !in rows ==> r == (None, None)
    ensures (Truthy(value) && table in dca && (TruthyOpt(dca[table].ptable) || dca[table].dynamicPtable)
             && (table, FirstId(value)) in rows) ==> r.1.Some?
    ensures r.1.Some? ==> r.1.value == IntCast(rows[(table, FirstId(value))].pid)
    ensures r.0.Some? ==> Truthy(r.0.value)
    ensures r.0.Some? && !dca[table].dynamicPtable ==> r.0 == dca[table].ptable
    ensures r.0.Some? && dca[table].dynamicPtable ==>
      r.0.value == (if TruthyOpt(rows[(table, FirstId(value))].ptable) then rows[(table, FirstId(value))].ptable.value
                    else if TruthyOpt(dca[table].ptable) then dca[table].ptable.value
                    else "tl_article")
  {
    var id := FirstId(value);
    if !Truthy(value) then (None, None)
    else
      var config := if table in dca then dca[table] else DcaConfig(None, None, false);
      var ptable := config.ptable;
      var dynamicPtable := config.dynamicPtable;
      if !TruthyOpt(ptable) && !dynamicPtable then (None, None)
      else if (table, id) !in rows then (None, None)
      else
        var data := rows[(table, id)];
        var pid := IntCast(data.pid);
        if dynamicPtable then
          var p := if TruthyOpt(data.ptable) then data.ptable else ptable;
          (Some(if TruthyOpt(p) then p.value else "tl_article"), Some(pid))
        else (ptable, Some(pid))
  }

  /** For a value written as a list of ids, the parent is looked up by the
      first id, and it is found exactly when that record exists in a table
      configured with a parent table. */
  lemma LookupUsesFirstId(table: string, ids: seq<nat>, dca: map<string, DcaConfig>, rows: map<(string, int), Row>)
    requires |ids| > 0 && forall i :: 0 <= i < |ids| ==> ids[i] <= IntMax
    requires ids != [0]
    ensures FirstId(IdList(ids)) == ids[0]
    ensures PtableAndPid(table, IdList(ids), dca, rows).1.Some? <==>
      table in dca && (TruthyOpt(dca[table].ptable) || dca[table].dynamicPtable) && (table, ids[0] as int) in rows
  {
    IdListSplits(ids);
    IdListTruthy(ids);
    IntCastOfDecimal(ids[0]);
  }

  // ---------------------------------------------------------------------
  // getUrl, getUrlForValue

  /** `getUrlForValue`: the parameters handed to the router. */
  function UrlForValue(providerName: string, config: PickerConfig, moduleName: string,
                       table: Option<string>, pid: Option<int>): (params: map<string, Param>)
    ensures "do" in params && "popup" in params && "picker" in params
    ensures params["do"] == Text(moduleName) && params["popup"] == Text("1")
    ensures params["picker"] == Picker(config.(current := providerName + "." + moduleName))
    ensures table.None? ==> params.Keys == {"do", "popup", "picker"}
    ensures table.Some? && pid.None? ==> params.Keys == {"do", "popup", "picker", "table"}
    ensures table.Some? && pid.Some? ==> params.Keys == {"do", "popup", "picker", "table", "id"}
    ensures table.Some? ==> params["table"] == Text(table.value)
    ensures table.Some? && pid.Some? ==> params["id"] == Number(pid.value)
  {
    var params := map["do" := Text(moduleName), "popup" := Text("1"),
                      "picker" := Picker(config.(current := providerName + "." + moduleName))];
    match table
    case None => params
    case Some(t) =>
      var withTable := params["table" := Text(t)];
      match pid
      case None => withTable
      case Some(p) => withTable["id" := Number(p)]
  }

  /** The first module whose tables contain `t`. */
  function FirstListing(ms: Modules, t: string): (r: Option<nat>)
    ensures r.Some? ==> r.value < |ms| && t in ms[r.value].1
    ensures r.Some? ==> forall p :: 0 <= p < r.value ==> t !in ms[p].1
    ensures r.None? ==> forall p :: 0 <= p < |ms| ==> t !in ms[p].1
  {
    if |ms| == 0 then None
    else if t in ms[0].1 then Some(0)
    else match FirstListing(ms[1..], t)
      case None => None
      case Some(k) => Some(k + 1)
  }

  /** The module `getUrl` opens: the first module listing the table, or,
      when a parent table is known and some of these modules lists it too,
      the first of those. */
  function ChooseModule(ms: Modules, ptable: Option<string>): (p: nat)
    requires |ms| > 0
    ensures p < |ms|
    ensures !TruthyOpt(ptable) ==> p == 0
    ensures TruthyOpt(ptable) && (forall q :: 0 <= q < |ms| ==> ptable.value !in ms[q].1) ==> p == 0
    ensures TruthyOpt(ptable) && (exists q :: 0 <= q < |ms| && ptable.value in ms[q].1) ==>
      ptable.value in ms[p].1 && forall q :: 0 <= q < p ==> ptable.value !in ms[q].1
  {
    if TruthyOpt(ptable) then
      match FirstListing(ms, ptable.value)
      case None => 0
      case Some(q) => q
    else 0
  }

  /** `array_search($t, $tables, true)`: the first index of `t`. */
  function Search(tables: seq<string>, t: string): (r: Option<nat>)
    ensures r.Some? ==> r.value < |tables| && tables[r.value] == t
    ensures r.Some? ==> forall i :: 0 <= i < r.value ==> tables[i] != t
    ensures r.None? ==> t !in tables
  {
    if |tables| == 0 then None
    else if tables[0] == t then Some(0)
    else match Search(tables[1..], t)
      case None => None
      case Some(k) => Some(k + 1)
  }

  /** `getUrl`. */
  function GetUrl(providerName: string, config: PickerConfig, beMod: seq<Group>,
                  dca: map<string, DcaConfig>, rows: map<(string, int), Row>): (r: Result<map<string, Param>, PickerError>)
    ensures r.Err? <==> Unlisted(beMod, TableFromContext(config.context))
    ensures r.Err? ==> r.error == NotInAnyModule(TableFromContext(config.context), config.context)
    ensures r.Ok? ==> r.value.Keys >= {"do", "popup", "picker"} && r.value["popup"] == Text("1")
    ensures r.Ok? ==> r.value["do"].Text? && r.value["do"].text in Keys(ModulesForTable(beMod, TableFromContext(config.context)))
    ensures r.Ok? && "table" in r.value ==> r.value["table"] == Text(TableFromContext(config.context))
    ensures r.Ok? && "id" in r.value ==> ("table" in r.value
      && PtableAndPid(TableFromContext(config.context), config.value, dca, rows).1.Some?
      && r.value["id"] == Number(PtableAndPid(TableFromContext(config.context), config.value, dca, rows).1.value))
  {
    var table := TableFromContext(config.context);
    var ms := ModulesForTable(beMod, table);
    ModulesEmpty(beMod, table);
    if |ms| == 0 then
      Err(NotInAnyModule(table, config.context))
    else
      assert ms[0].0 in Keys(ms);
      var (ptable, pid) := PtableAndPid(table, config.value, dca, rows);
      var p := ChooseModule(ms, ptable);
      assert ms[p].0 in Keys(ms);
      if Search(ms[p].1, table) == Some(0) then
        Ok(UrlForValue(providerName, config, ms[p].0, None, None))
      else
        Ok(UrlForValue(providerName, config, ms[p].0, Some(table), pid))
  }

  /** The parameters of `getUrl`: only `do`, `popup` and `picker` when the
      table comes first in the chosen module; otherwise also `table`, and
      `id` exactly when a parent id was found. */
  lemma UrlParameters(providerName: string, config: PickerConfig, beMod: seq<Group>,
                      dca: map<string, DcaConfig>, rows: map<(string, int), Row>)
    requires GetUrl(providerName, config, beMod, dca, rows).Ok?
    ensures var table := TableFromContext(config.context);
      var ms := ModulesForTable(beMod, table);
      var ptid := PtableAndPid(table, config.value, dca, rows);
      var p := ChooseModule(ms, ptid.0);
      var params := GetUrl(providerName, config, beMod, dca, rows).value;
      && params["do"] == Text(ms[p].0)
      && (ms[p].1[0] == table ==> params.Keys == {"do", "popup", "picker"})
      && (ms[p].1[0] != table && ptid.1.None? ==> params.Keys == {"do", "popup", "picker", "table"})
      && (ms[p].1[0] != table && ptid.1.Some? ==> params.Keys == {"do", "popup", "picker", "table", "id"})
  {
    var table := TableFromContext(config.context);
    var ms := ModulesForTable(beMod, table);
    var ptid := PtableAndPid(table, config.value, dca, rows);
    var p := ChooseModule(ms, ptid.0);
    assert table in ms[p].1;
  }
}
