/** The `api_keys` table as a value: a sequence of rows in storage order,
    with `service` unique. The operations SQLite performs on it for the vault
    are INSERT OR IGNORE (seeding) and INSERT OR REPLACE (upsert). */
module Records {
  import opened Wrappers

  /** One row: `service`, `key`, `model`, `timestamp` (the `id` and
      `updated_at` columns are not modelled). */
  datatype Record = Record(service: string, key: string, model: Option<string>, timestamp: Option<int>)

  /** What the table holds for one service. */
  datatype Entry = Entry(key: string, model: Option<string>, timestamp: Option<int>)

  function EntryOf(r: Record): Entry {
    Entry(r.key, r.model, r.timestamp)
  }

  /** The UNIQUE constraint on `service`. */
  predicate Unique(rows: seq<Record>) {
    forall i, j | 0 <= i < j < |rows| :: rows[i].service != rows[j].service
  }

  /** Some row belongs to service `s`. */
  predicate Has(rows: seq<Record>, s: string) {
    exists i | 0 <= i < |rows| :: rows[i].service == s
  }

  /** The table as a map from service to what is stored for it; its keys are
      exactly the services that have a row. */
  function Table(rows: seq<Record>): (t: map<string, Entry>)
    ensures forall s :: s in t <==> Has(rows, s)
  {
    if rows == [] then map[]
    else
      assert forall s :: Has(rows, s) <==> rows[0].service == s || Has(rows[1..], s) by {
        forall s ensures Has(rows, s) ==> rows[0].service == s || Has(rows[1..], s) {
          if Has(rows, s) && rows[0].service != s {
            var i :| 0 <= i < |rows| && rows[i].service == s;
            assert rows[1..][i - 1].service == s;
          }
        }
        forall s ensures Has(rows[1..], s) ==> Has(rows, s) {
          if Has(rows[1..], s) {
            var i :| 0 <= i < |rows| - 1 && rows[1..][i].service == s;
            assert rows[i + 1].service == s;
          }
        }
      }
      Table(rows[1..])[rows[0].service := EntryOf(rows[0])]
  }

  /** With unique services, the map holds each row's own contents. */
  lemma {:induction false} TableAt(rows: seq<Record>, i: nat)
    requires Unique(rows) && i < |rows|
    ensures Table(rows)[rows[i].service] == EntryOf(rows[i])
  {
    if i > 0 {
      TableAt(rows[1..], i - 1);
    }
  }

  /** Every row with service `s` is dropped, every other row kept in order. */
  function Without(rows: seq<Record>, s: string): (r: seq<Record>)
    ensures |r| <= |rows|
    ensures forall x | x in r :: x in rows && x.service != s
    ensures forall i | 0 <= i < |rows| && rows[i].service != s :: rows[i] in r
  {
    if rows == [] then []
    else if rows[0].service == s then Without(rows[1..], s)
    else [rows[0]] + Without(rows[1..], s)
  }

  /** Dropping rows keeps services unique. */
  lemma {:induction false} WithoutUnique(rows: seq<Record>, s: string)
    requires Unique(rows)
    ensures Unique(Without(rows, s))
  {
    if rows != [] {
      WithoutUnique(rows[1..], s);
      var rest := Without(rows[1..], s);
      forall x | x in rest ensures x.service != rows[0].service {
        var j :| 0 <= j < |rows[1..]| && rows[1..][j] == x;
        assert rows[j + 1] == x;
      }
    }
  }

  /** Dropping the rows of `s` removes `s` from the map and nothing else. */
  lemma {:induction false} WithoutTable(rows: seq<Record>, s: string)
    ensures Table(Without(rows, s)) == Table(rows) - {s}
  {
    if rows != [] {
      var x, rest := rows[0], rows[1..];
      WithoutTable(rest, s);
      RemoveAfterUpdate(Table(rest), x.service, EntryOf(x), s);
      if x.service != s {
        var w := Without(rows, s);
        assert w[1..] == Without(rest, s);
      }
    }
  }

  /** Removing `s` after setting `k`: the setting survives unless `k` is `s`. */
  lemma RemoveAfterUpdate<K, V>(m: map<K, V>, k: K, v: V, s: K)
    ensures m[k := v] - {s} == if k == s then m - {s} else (m - {s})[k := v]
  {
  }

  /** Appending a row for a service the table lacks adds that one key. */
  lemma {:induction false} AppendTable(rows: seq<Record>, rec: Record)
    requires !Has(rows, rec.service)
    ensures Table(rows + [rec]) == Table(rows)[rec.service := EntryOf(rec)]
  {
    if rows != [] {
      assert (rows + [rec])[1..] == rows[1..] + [rec];
      assert rows[0].service != rec.service;
      assert !Has(rows[1..], rec.service);
      AppendTable(rows[1..], rec);
    }
  }

  /** INSERT OR REPLACE: the old row of `rec.service`, if any, is deleted
      and `rec` is inserted as a new row. */
  function Upsert(rows: seq<Record>, rec: Record): seq<Record> {
    Without(rows, rec.service) + [rec]
  }

  /** After an upsert the new row is last; every other row is an old row of
      another service, and every old row of another service is kept. */
  lemma {:induction false} UpsertRows(rows: seq<Record>, rec: Record)
    ensures var r := Upsert(rows, rec);
            && 0 < |r| <= |rows| + 1 && r[|r| - 1] == rec
            && (forall x | x in r :: x == rec || (x in rows && x.service != rec.service))
            && (forall x | x in rows && x.service != rec.service :: x in r)
  {
    var w := Without(rows, rec.service);
    forall x | x in Upsert(rows, rec) ensures x == rec || (x in rows && x.service != rec.service) {
      if x != rec {
        assert x in w;
      }
    }
  }

  /** An upsert keeps services unique. */
  lemma {:induction false} UpsertUnique(rows: seq<Record>, rec: Record)
    requires Unique(rows)
    ensures Unique(Upsert(rows, rec))
  {
    var w := Without(rows, rec.service);
    WithoutUnique(rows, rec.service);
    var u := w + [rec];
    forall i, j | 0 <= i < j < |u| ensures u[i].service != u[j].service {
      if j == |w| {
        assert u[i] == w[i] && u[i] in w;
      } else {
        assert u[i] == w[i] && u[j] == w[j];
      }
    }
  }

  /** An upsert changes the map at `rec.service` only, to exactly the new
      row's contents: every other service keeps its entry, and no other
      fields of the old row survive. */
  lemma {:induction false} UpsertTable(rows: seq<Record>, rec: Record)
    ensures Table(Upsert(rows, rec)) == Table(rows)[rec.service := EntryOf(rec)]
  {
    var w := Without(rows, rec.service);
    WithoutTable(rows, rec.service);
    assert !Has(w, rec.service) by {
      forall i | 0 <= i < |w| ensures w[i].service != rec.service {
        assert w[i] in w;
      }
    }
    AppendTable(w, rec);
  }

  /** With unique services, a service that has an entry has exactly one row,
      and that row holds the entry. */
  lemma {:induction false} TableRow(rows: seq<Record>, s: string)
    requires Unique(rows) && s in Table(rows)
    ensures exists i | 0 <= i < |rows| :: rows[i].service == s && EntryOf(rows[i]) == Table(rows)[s]
    ensures forall i, j | 0 <= i < |rows| && 0 <= j < |rows| && rows[i].service == s && rows[j].service == s :: i == j
  {
    var i :| 0 <= i < |rows| && rows[i].service == s;
    TableAt(rows, i);
  }

  /** The row seeding inserts for a default service: an empty key and no
      model or timestamp. */
  function Blank(s: string): Record {
    Record(s, "", None, None)
  }

  /** `INSERT OR IGNORE INTO api_keys (service, key) VALUES (?, '')`. */
  function InsertOrIgnore(rows: seq<Record>, s: string): seq<Record> {
    if Has(rows, s) then rows else rows + [Blank(s)]
  }

  /** After an insert-or-ignore the service has a row: the old rows if it
      had one, and otherwise one blank row appended to them. */
  lemma {:induction false} InsertOrIgnoreRows(rows: seq<Record>, s: string)
    ensures Has(InsertOrIgnore(rows, s), s)
    ensures Has(rows, s) ==> InsertOrIgnore(rows, s) == rows
    ensures !Has(rows, s) ==> InsertOrIgnore(rows, s) == rows + [Blank(s)]
  {
    if !Has(rows, s) {
      assert InsertOrIgnore(rows, s)[|rows|].service == s;
    }
  }

  /** Seeding: insert-or-ignore for each default service in order. The
      existing rows stay as they were, in front; every row added is a blank
      row for a default service. */
  function Seed(rows: seq<Record>, defaults: seq<string>): (r: seq<Record>)
    decreases |defaults|
    ensures |rows| <= |r| && r[..|rows|] == rows
    ensures forall i | |rows| <= i < |r| :: r[i] == Blank(r[i].service) && r[i].service in defaults
  {
    if defaults == [] then rows
    else
      var prev := Seed(rows, defaults[..|defaults| - 1]);
      var next := InsertOrIgnore(prev, defaults[|defaults| - 1]);
      assert forall i | |rows| <= i < |prev| :: prev[i].service in defaults by {
        forall i | |rows| <= i < |prev| ensures prev[i].service in defaults {
          var k :| 0 <= k < |defaults| - 1 && defaults[..|defaults| - 1][k] == prev[i].service;
          assert defaults[k] == prev[i].service;
        }
      }
      assert next[..|rows|] == prev[..|rows|];
      next
  }

  /** After seeding, exactly the services that had a row or are defaults
      have one. */
  lemma {:induction false} SeedHas(rows: seq<Record>, defaults: seq<string>, s: string)
    ensures Has(Seed(rows, defaults), s) <==> Has(rows, s) || s in defaults
  {
    if defaults != [] {
      var init, last := defaults[..|defaults| - 1], defaults[|defaults| - 1];
      assert defaults == init + [last];
      SeedHas(rows, init, s);
      var prev := Seed(rows, init);
      if !Has(prev, last) {
        var next := prev + [Blank(last)];
        if Has(next, s) && s != last {
          var i :| 0 <= i < |next| && next[i].service == s;
          assert prev[i].service == s;
        }
        if Has(prev, s) {
          var i :| 0 <= i < |prev| && prev[i].service == s;
          assert next[i].service == s;
        }
        assert next[|prev|].service == last;
      }
    }
  }

  /** Seeding keeps services unique, even when a default is listed twice. */
  lemma {:induction false} SeedUnique(rows: seq<Record>, defaults: seq<string>)
    requires Unique(rows)
    ensures Unique(Seed(rows, defaults))
  {
    if defaults != [] {
      var init, last := defaults[..|defaults| - 1], defaults[|defaults| - 1];
      SeedUnique(rows, init);
      var prev := Seed(rows, init);
      if !Has(prev, last) {
        var next := prev + [Blank(last)];
        forall i, j | 0 <= i < j < |next| ensures next[i].service != next[j].service {
          if j == |prev| {
            assert next[i] == prev[i];
          }
        }
      }
    }
  }

  /** Seeding never changes what is stored for a service that already had a
      row. */
  lemma {:induction false} SeedKeepsEntries(rows: seq<Record>, defaults: seq<string>, s: string)
    requires Unique(rows) && s in Table(rows)
    ensures s in Table(Seed(rows, defaults)) && Table(Seed(rows, defaults))[s] == Table(rows)[s]
  {
    var r := Seed(rows, defaults);
    SeedUnique(rows, defaults);
    var i :| 0 <= i < |rows| && rows[i].service == s;
    assert r[i] == r[..|rows|][i];
    TableAt(rows, i);
    TableAt(r, i);
  }

  /** Seeding gives every default service that had no row an empty key with
      no model and no timestamp. */
  lemma {:induction false} SeedAddsBlank(rows: seq<Record>, defaults: seq<string>, s: string)
    requires Unique(rows) && s in defaults && s !in Table(rows)
    ensures s in Table(Seed(rows, defaults)) && Table(Seed(rows, defaults))[s] == Entry("", None, None)
  {
    var r := Seed(rows, defaults);
    SeedUnique(rows, defaults);
    SeedHas(rows, defaults, s);
    forall j | 0 <= j < |rows| ensures r[j].service != s {
      assert r[j] == r[..|rows|][j];
    }
    var i :| |rows| <= i < |r| && r[i].service == s;
    TableAt(r, i);
  }

  /** Seeding a table that already has every default changes nothing. */
  lemma {:induction false} SeedPresent(rows: seq<Record>, defaults: seq<string>)
    requires forall s | s in defaults :: Has(rows, s)
    ensures Seed(rows, defaults) == rows
  {
    if defaults != [] {
      SeedPresent(rows, defaults[..|defaults| - 1]);
      assert defaults[|defaults| - 1] in defaults;
    }
  }

  /** Running the seeding twice is the same as running it once. */
  lemma {:induction false} SeedIdempotent(rows: seq<Record>, defaults: seq<string>)
    ensures Seed(Seed(rows, defaults), defaults) == Seed(rows, defaults)
  {
    forall s | s in defaults ensures Has(Seed(rows, defaults), s) {
      SeedHas(rows, defaults, s);
    }
    SeedPresent(Seed(rows, defaults), defaults);
  }
}
