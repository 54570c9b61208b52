/** The credential store: the `api_keys` table with its column set, and the
    operations `init_db`, `update_key`, `list_keys` and `export_env`. The
    rows are kept in storage order; the current time is a parameter. */
module Store {
  import opened Wrappers
  import opened Records
  import opened Services
  import opened Expiry

  const IdColumn: string := "id"
  const ServiceColumn: string := "service"
  const KeyColumn: string := "key"
  const ModelColumn: string := "model"
  const UpdatedAtColumn: string := "updated_at"
  const TimestampColumn: string := "timestamp"

  /** The columns CREATE TABLE gives a new table. */
  const Schema: set<string> := {IdColumn, ServiceColumn, KeyColumn, ModelColumn, UpdatedAtColumn, TimestampColumn}

  /** The columns after `init_db`: a missing table is created with the full
      schema, and an older table gains `timestamp` and `model` if it lacks
      them. No column is ever dropped, and nothing but those two is added. */
  function Migrated(columns: set<string>): (r: set<string>)
    ensures columns <= r
    ensures ModelColumn in r && TimestampColumn in r
    ensures columns == {} ==> r == Schema
    ensures columns != {} ==> r - columns <= {ModelColumn, TimestampColumn}
  {
    var created := if columns == {} then Schema else columns;
    var withTimestamp := if TimestampColumn !in created then created + {TimestampColumn} else created;
    if ModelColumn !in withTimestamp then withTimestamp + {ModelColumn} else withTimestamp
  }

  /** Migrating a second time adds nothing. */
  lemma MigratedIdempotent(columns: set<string>)
    ensures Migrated(Migrated(columns)) == Migrated(columns)
  {
  }

  /** One line of `list_keys`: the service, its key, the derived variable
      name and the status annotation. */
  datatype Listing = Listing(service: string, key: string, envName: string, annotation: string)

  /** The line `list_keys` produces for one row at time `now`. */
  function ListingOf(r: Record, now: int): Listing {
    Listing(r.service, r.key, EnvName(r.service), Annotation(r.service, r.key, r.timestamp, r.model, now))
  }

  /** `f` applied to every row, in storage order. */
  function MapRows<T>(rows: seq<Record>, f: Record -> T): (r: seq<T>)
    ensures |r| == |rows|
  {
    if rows == [] then [] else MapRows(rows[..|rows| - 1], f) + [f(rows[|rows| - 1])]
  }

  lemma {:induction false} MapRowsAt<T>(rows: seq<Record>, f: Record -> T, i: nat)
    requires i < |rows|
    ensures MapRows(rows, f)[i] == f(rows[i])
  {
    var init := rows[..|rows| - 1];
    if i < |init| {
      MapRowsAt(init, f, i);
      assert init[i] == rows[i];
    }
  }

  lemma {:induction false} MapRowsStep<T>(rows: seq<Record>, f: Record -> T, i: nat)
    requires i < |rows|
    ensures MapRows(rows[..i + 1], f) == MapRows(rows[..i], f) + [f(rows[i])]
  {
    assert rows[..i + 1][..i] == rows[..i];
  }

  function ListingAt(now: int): Record -> Listing {
    r => ListingOf(r, now)
  }

  /** The lines `list_keys` produces for the whole table, one per row (see
      ListingsAt for which line is where). */
  function Listings(rows: seq<Record>, now: int): (ls: seq<Listing>)
    ensures |ls| == |rows|
  {
    MapRows(rows, ListingAt(now))
  }

  /** The i-th line listed is the line of the i-th row: the listing keeps
      storage order. */
  lemma ListingsAt(rows: seq<Record>, now: int, i: nat)
    requires i < |rows|
    ensures Listings(rows, now)[i] == ListingOf(rows[i], now)
  {
    MapRowsAt(rows, ListingAt(now), i);
  }

  /** Listing one more row adds that row's line. */
  lemma ListingsStep(rows: seq<Record>, i: nat, now: int)
    requires i < |rows|
    ensures Listings(rows[..i + 1], now) == Listings(rows[..i], now) + [ListingOf(rows[i], now)]
  {
    MapRowsStep(rows, ListingAt(now), i);
  }

  /** The line `export_env` writes for a listed service. */
  function EnvLine(l: Listing): string {
    EnvName(l.service) + "=" + l.key
  }

  /** Where the first `c` in `s` is, or `|s|` if there is none. */
  function IndexOf(s: string, c: char): (i: nat)
    ensures i <= |s|
    ensures forall j | 0 <= j < i :: s[j] != c
    ensures i < |s| ==> s[i] == c
  {
    if s == [] || s[0] == c then 0 else 1 + IndexOf(s[1..], c)
  }

  /** An env-file line read back by splitting at its first `=` gives the
      variable name and the key, whatever the key holds, as long as the
      service name has no `=`. */
  lemma {:induction false} EnvLineParse(l: Listing)
    requires forall i | 0 <= i < |l.service| :: l.service[i] != '='
    ensures var line, n := EnvLine(l), |EnvName(l.service)|;
            IndexOf(line, '=') == n && line[..n] == EnvName(l.service) && line[n + 1..] == l.key
  {
    var name := EnvName(l.service);
    var line := EnvLine(l);
    forall j | 0 <= j < |name| ensures name[j] != '=' {
      if j >= |l.service| {
        assert name[j] == ApiKeySuffix[j - |l.service|];
      }
    }
    assert line[..|name|] == name && line[|name|] == '=' && line[|name| + 1..] == l.key;
    IndexOfFirst(line, '=', |name|);
  }

  /** An index holding `c` with no `c` before it is the first one. */
  lemma {:induction false} IndexOfFirst(s: string, c: char, k: nat)
    requires k < |s| && s[k] == c && forall j | 0 <= j < k :: s[j] != c
    ensures IndexOf(s, c) == k
  {
    if k > 0 {
      IndexOfFirst(s[1..], c, k - 1);
    }
  }

  /** The variable name `list_keys` shows for a row is the one `export_env`
      writes for it. */
  lemma {:induction false} ListedNameIsExported(r: Record, now: int)
    ensures EnvLine(ListingOf(r, now)) == ListingOf(r, now).envName + "=" + r.key
    ensures ListingOf(r, now).service == r.service && ListingOf(r, now).key == r.key
  {
  }

  /** `len([k for _, k, _, _ in keys if k])`: how many listed keys are set. */
  function KeyCount(listed: seq<Listing>): nat {
    if listed == [] then 0
    else (if listed[0].key != "" then 1 else 0) + KeyCount(listed[1..])
  }

  /** The count is at most the number of listed services; it is 0 exactly
      when no key is set, and the full length exactly when every key is. */
  lemma {:induction false} KeyCountBounds(listed: seq<Listing>)
    ensures KeyCount(listed) <= |listed|
    ensures KeyCount(listed) == 0 <==> forall i | 0 <= i < |listed| :: listed[i].key == ""
    ensures KeyCount(listed) == |listed| <==> forall i | 0 <= i < |listed| :: listed[i].key != ""
  {
    if listed != [] {
      var rest := listed[1..];
      KeyCountBounds(rest);
      assert forall i | 0 < i < |listed| :: listed[i] == rest[i - 1];
      if (forall i | 0 <= i < |rest| :: rest[i].key == "") && listed[0].key == "" {
        assert forall i | 0 <= i < |listed| :: listed[i].key == "";
      }
      if (forall i | 0 <= i < |rest| :: rest[i].key != "") && listed[0].key != "" {
        assert forall i | 0 <= i < |listed| :: listed[i].key != "";
      }
    }
  }

  /** The lines of the env file: one per listed service with a non-empty
      key, in list order; as many as KeyCount counts. */
  function ExportLines(listed: seq<Listing>): (lines: seq<string>)
    ensures |lines| == KeyCount(listed)
  {
    if listed == [] then []
    else
      var init, last := listed[..|listed| - 1], listed[|listed| - 1];
      KeyCountSnoc(init, last);
      assert listed == init + [last];
      ExportLines(init) + (if last.key != "" then [EnvLine(last)] else [])
  }

  /** Every line written comes from a listed service whose key is set. */
  lemma {:induction false} ExportLinesSound(listed: seq<Listing>, k: nat)
    requires k < |ExportLines(listed)|
    ensures exists j | 0 <= j < |listed| :: listed[j].key != "" && ExportLines(listed)[k] == EnvLine(listed[j])
  {
    var init, last := listed[..|listed| - 1], listed[|listed| - 1];
    var prev := ExportLines(init);
    if k < |prev| {
      ExportLinesSound(init, k);
      var j :| 0 <= j < |init| && init[j].key != "" && prev[k] == EnvLine(init[j]);
      assert listed[j] == init[j];
    } else {
      assert listed[|listed| - 1] == last;
    }
  }

  /** Every listed service whose key is set gets its line. */
  lemma {:induction false} ExportLinesComplete(listed: seq<Listing>, j: nat)
    requires j < |listed| && listed[j].key != ""
    ensures EnvLine(listed[j]) in ExportLines(listed)
  {
    var init, last := listed[..|listed| - 1], listed[|listed| - 1];
    if j < |listed| - 1 {
      ExportLinesComplete(init, j);
      assert init[j] == listed[j];
    }
  }

  /** Exporting one more listed service adds its line, if its key is set. */
  lemma {:induction false} ExportLinesStep(listed: seq<Listing>, i: nat)
    requires i < |listed|
    ensures ExportLines(listed[..i + 1])
         == ExportLines(listed[..i]) + (if listed[i].key != "" then [EnvLine(listed[i])] else [])
  {
    assert listed[..i + 1][..i] == listed[..i] && listed[..i + 1][i] == listed[i];
  }

  /** Counting from the back agrees with counting from the front. */
  lemma {:induction false} KeyCountSnoc(init: seq<Listing>, last: Listing)
    ensures KeyCount(init + [last]) == KeyCount(init) + (if last.key != "" then 1 else 0)
  {
    if init != [] {
      assert (init + [last])[1..] == init[1..] + [last];
      KeyCountSnoc(init[1..], last);
    }
  }

  /** Exporting two lists one after the other writes the lines of each, in
      order: the export keeps list order. */
  lemma {:induction false} ExportLinesAppend(a: seq<Listing>, b: seq<Listing>)
    ensures ExportLines(a + b) == ExportLines(a) + ExportLines(b)
  {
    if b == [] {
      assert a + b == a;
    } else {
      var init, last := b[..|b| - 1], b[|b| - 1];
      assert (a + b)[..|a + b| - 1] == a + init;
      assert (a + b)[|a + b| - 1] == last;
      ExportLinesAppend(a, init);
    }
  }

  /** The example of two services "a" (key "x") and "b" (empty key): exactly
      one line, "A_API_KEY=x", and a count of 1. */
  lemma {:induction false} ExportExample(now: int)
    ensures var rows := [Record("a", "x", None, None), Record("b", "", None, None)];
            ExportLines(Listings(rows, now)) == ["A_API_KEY=x"] && KeyCount(Listings(rows, now)) == 1
  {
    var rows := [Record("a", "x", None, None), Record("b", "", None, None)];
    var ls := Listings(rows, now);
    ListingsAt(rows, now, 0);
    ListingsAt(rows, now, 1);
    assert ls[0].service == "a" && ls[0].key == "x" && ls[1].key == "";
    ExportFirstOfTwo(ls);
    ExampleLine(ls[0]);
  }

  /** The line for service "a" with key "x". */
  lemma {:induction false} ExampleLine(l: Listing)
    requires l.service == "a" && l.key == "x"
    ensures EnvLine(l) == "A_API_KEY=x"
  {
    EnvNameOf("a", "A");
    assert "A" + ApiKeySuffix + "=" + "x" == "A_API_KEY=x";
  }

  /** Of two listed services, only the first of which has a key, only the
      first is exported. */
  lemma {:induction false} ExportFirstOfTwo(ls: seq<Listing>)
    requires |ls| == 2 && ls[0].key != "" && ls[1].key == ""
    ensures ExportLines(ls) == [EnvLine(ls[0])] && KeyCount(ls) == 1
  {
    assert ls[..1][..0] == [];
    assert ls[..1] == [ls[0]];
    assert ExportLines(ls[..1]) == [EnvLine(ls[0])];
  }

  /** A table state the vault can be in: services unique; no rows without a
      table; a table has at least `service` and `key`; rows of an older table
      hold no model or timestamp the table has no column for. */
  predicate ValidState(rows: seq<Record>, columns: set<string>) {
    && Unique(rows)
    && (columns == {} ==> rows == [])
    && (columns != {} ==> ServiceColumn in columns && KeyColumn in columns)
    && (ModelColumn !in columns ==> forall i | 0 <= i < |rows| :: rows[i].model.None?)
    && (TimestampColumn !in columns ==> forall i | 0 <= i < |rows| :: rows[i].timestamp.None?)
  }

  class CredentialStore {
    /** The rows of `api_keys`, in storage order. */
    var rows: seq<Record>
    /** The columns of `api_keys`; empty when the table does not exist. */
    var columns: set<string>

    ghost predicate Valid()
      reads this
    {
      ValidState(rows, columns)
    }

    /** The queries of `list_keys` and `update_key` need the migrated columns. */
    predicate Ready()
      reads this
    {
      ServiceColumn in columns && KeyColumn in columns && ModelColumn in columns && TimestampColumn in columns
    }

    /** The columns the INSERT OR REPLACE of `update_key` names: `service`,
        `key` and `timestamp` always, and `model` only when a model is given. */
    predicate Writable(model: Option<string>)
      reads this
    {
      ServiceColumn in columns && KeyColumn in columns && TimestampColumn in columns
      && (model.Some? ==> ModelColumn in columns)
    }

    /** Opens the database file as it is on disk. */
    constructor (rows: seq<Record>, columns: set<string>)
      requires ValidState(rows, columns)
      ensures Valid() && this.rows == rows && this.columns == columns
    {
      this.rows := rows;
      this.columns := columns;
    }

    /** `init_db`: creates or migrates the table, then inserts a blank row
        for each default service that has none. */
    method InitDb(defaults: seq<string>)
      requires Valid()
      modifies this
      ensures Valid() && Ready()
      ensures columns == Migrated(old(columns))
      ensures rows == Seed(old(rows), defaults)
    {
      if columns == {} {
        columns := Schema;
      }
      if TimestampColumn !in columns {
        columns := columns + {TimestampColumn};
      }
      if ModelColumn !in columns {
        columns := columns + {ModelColumn};
      }
      var i := 0;
      while i < |defaults|
        invariant 0 <= i <= |defaults|
        invariant columns == Migrated(old(columns))
        invariant rows == Seed(old(rows), defaults[..i])
        invariant Unique(rows)
      {
        assert defaults[..i + 1][..i] == defaults[..i];
        SeedUnique(old(rows), defaults[..i + 1]);
        if !Has(rows, defaults[i]) {
          rows := rows + [Blank(defaults[i])];
        }
        i := i + 1;
      }
      assert defaults[..i] == defaults;
    }

    /** `update_key`: INSERT OR REPLACE of the whole row. The service ends up
        with exactly the given key, the given model (NULL when none is given,
        even if the old row had one) and the given timestamp or else `now`;
        every other service keeps its entry. Where the new row lands in
        storage order is not promised. */
    method Update(service: string, key: string, timestamp: Option<int>, model: Option<string>, now: int)
      requires Valid() && Writable(model)
      modifies this
      ensures Valid() && columns == old(columns)
      ensures Table(rows) == old(Table(rows))[service := Entry(key, model, Some(timestamp.GetOr(now)))]
    {
      var ts := if timestamp.None? then now else timestamp.value;
      var rec := Record(service, key, model, Some(ts));
      UpsertUnique(rows, rec);
      UpsertTable(rows, rec);
      UpsertRows(rows, rec);
      rows := Upsert(rows, rec);
    }

    /** `list_keys`: one line per row, in storage order. */
    method ListKeys(now: int) returns (listed: seq<Listing>)
      requires Ready()
      ensures listed == Listings(rows, now)
    {
      listed := [];
      var i := 0;
      while i < |rows|
        invariant 0 <= i <= |rows|
        invariant listed == Listings(rows[..i], now)
      {
        var r := rows[i];
        var envKey := EnvName(r.service);
        var statusInfo := StatusText(ExpiryStatus(r.service, r.key, r.timestamp, now));
        var modelInfo := ModelInfo(r.model);
        ListingsStep(rows, i, now);
        listed := listed + [Listing(r.service, r.key, envKey, statusInfo + modelInfo)];
        i := i + 1;
      }
      assert rows[..i] == rows;
    }

    /** `export_env`: the env-file lines for the listed keys that are set, in
        list order, and the count it reports, which is the number of lines. */
    method ExportEnv(now: int) returns (lines: seq<string>, count: nat)
      requires Ready()
      ensures lines == ExportLines(Listings(rows, now))
      ensures count == |lines|
    {
      var keys := ListKeys(now);
      lines := [];
      var i := 0;
      while i < |keys|
        invariant 0 <= i <= |keys|
        invariant lines == ExportLines(keys[..i])
      {
        ExportLinesStep(keys, i);
        if keys[i].key != "" {
          var envKey := EnvName(keys[i].service);
          lines := lines + [envKey + "=" + keys[i].key];
        }
        i := i + 1;
      }
      assert keys[..i] == keys;
      count := KeyCount(keys);
    }
  }

  /** The front end's sequence on a fresh database: `init_db`, then
      `update_key("openai", "sk-test", model="gpt-4")`, then `init_db` again
      on the next start, then `list_keys`. The listing holds the stored key
      with its derived name and the model annotation: re-seeding did not
      reset the key. */
  method UpdateThenList(defaults: seq<string>, now: int) returns (listed: seq<Listing>)
    ensures exists i | 0 <= i < |listed| ::
              listed[i] == Listing("openai", "sk-test", EnvName("openai"), " (gpt-4)")
  {
    var store := new CredentialStore([], {});
    store.InitDb(defaults);
    store.Update("openai", "sk-test", None, Some("gpt-4"), now);
    var before := store.rows;
    store.InitDb(defaults);
    SeedKeepsEntries(before, defaults, "openai");
    listed := store.ListKeys(now);
    TableRow(store.rows, "openai");
    var i :| 0 <= i < |store.rows| && store.rows[i].service == "openai"
             && EntryOf(store.rows[i]) == Table(store.rows)["openai"];
    ListingsAt(store.rows, now, i);
    OpenAiListing(store.rows[i], now);
  }

  /** The line listed for the stored OpenAI row: no expiry status, since
      only Ollama tokens expire, and the model in parentheses. */
  lemma {:induction false} OpenAiListing(r: Record, now: int)
    requires r.service == "openai" && EntryOf(r) == Entry("sk-test", Some("gpt-4"), Some(now))
    ensures ListingOf(r, now) == Listing("openai", "sk-test", EnvName("openai"), " (gpt-4)")
  {
    assert "openai"[1] != ExpiringService[1];
    var st := ExpiryStatus(r.service, r.key, r.timestamp, now);
    assert StatusText(st) == "";
    assert r.model == Some("gpt-4");
    var m := ModelInfo(r.model);
    assert m == " (gpt-4)";
    assert Annotation(r.service, r.key, r.timestamp, r.model, now) == "" + m;
  }
}
