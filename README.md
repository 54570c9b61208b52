# Credential vault model

A Dafny model of the local credential vault in `DR_ENV_Creator.py`. The
vault guards a single-user store of API keys with a master password. It
keeps one row per service in an SQLite table `api_keys` and writes the keys
that are set to an env file as `SERVICE_API_KEY=value` lines. For Ollama
tokens it shows how many days of their 90-day validity remain.

Modules:

- `Wrappers`: the `Option` type, standing for a NULL column, a missing
  file or an omitted argument.
- `Text`: the parts of Python's `str` the vault relies on.
  - `Strip` removes the characters `str.isspace` accepts.
  - `Upper` and `Lower` map ASCII letters.
  - `Replace` and decimal rendering.
- `Services`: how a service name becomes an environment-variable name, and
  how menu choice 4 cleans up a typed service name.
- `Expiry`: the Ollama expiry status and the annotation text `list_keys`
  shows next to each key.
- `Records`: the table as a value.
  - Rows are kept in storage order, with `service` unique.
  - `Table` gives the map view from service to stored entry.
  - `Upsert` models INSERT OR REPLACE; `Seed` models INSERT OR IGNORE over
    the default services.
- `Gate`: the class `PasswordGate` for `setup_password` and
  `verify_password`.
  - The password file is an optional string field.
  - The SHA-256 hex digest is a function the gate is built with.
- `Store`: the class `CredentialStore`. It holds the rows and the table's
  column set, with the methods `InitDb`, `Update`, `ListKeys` and
  `ExportEnv`.
  - Each method is proved against the functions and lemmas of `Records`,
    `Services` and `Expiry`.
  - The current time is a parameter: whole Unix seconds.

## Model

| member | source | states |
|---|---|---|
| Gate.PasswordGate.Setup | DR_ENV_Creator.py:48-53 | an existing password file is left untouched; otherwise the file afterwards holds the digest of the password given |
| Gate.PasswordGate.Verify | DR_ENV_Creator.py:62-71 | the outcome is exactly `Decide` on the file contents and the typed password; the file is not changed |
| Gate.Decide | DR_ENV_Creator.py:62-70 | refused with NoPasswordSet iff there is no file; granted iff the typed password's digest equals the stripped file contents; IncorrectPassword iff they differ |
| Gate.SetupThenVerify | DR_ENV_Creator.py:51-68 | after setup with p, a password q is granted iff digest(q) == digest(p), and every other password is refused as incorrect |
| Gate.OnlyTheSetupPassword | DR_ENV_Creator.py:51-68 | with a collision-free digest, the set-up password is the only one granted |
| Gate.TrailingNewlineTolerated | DR_ENV_Creator.py:67 | a password file with a newline after the digest still grants its password, because the stored text is stripped |
| Gate.StartUp | DR_ENV_Creator.py:42-71 | setup, a second setup, then verify on a fresh machine: granted iff the digests agree, otherwise IncorrectPassword; the second setup cannot replace the password |
| Store.Migrated | DR_ENV_Creator.py:80-104 | a missing table gets the full six-column schema; an old table gains `timestamp` and `model` if absent and nothing else; no column is dropped |
| Store.MigratedIdempotent | DR_ENV_Creator.py:92-104 | a second migration adds nothing |
| Store.CredentialStore.InitDb | DR_ENV_Creator.py:73-109 | the columns become `Migrated` of the old ones, the rows become `Seed` of the old rows and the defaults, and the store stays valid (services unique) |
| Records.InsertOrIgnoreRows | DR_ENV_Creator.py:106 | afterwards the service has a row; the rows are unchanged if it already had one, and otherwise one blank row is appended |
| Records.Seed | DR_ENV_Creator.py:105-107 | the existing rows are kept unchanged, in front; every added row is a blank row (empty key, no model or timestamp) for a default service |
| Records.SeedHas | DR_ENV_Creator.py:105-107 | after seeding, a service has a row iff it had one or is a default |
| Records.SeedUnique | DR_ENV_Creator.py:105-107 | seeding keeps services unique, even with a default listed twice |
| Records.SeedKeepsEntries | DR_ENV_Creator.py:106 | seeding never changes the key, model or timestamp of a service that already had a row |
| Records.SeedAddsBlank | DR_ENV_Creator.py:106 | a default service without a row gets an empty key with no model and no timestamp |
| Records.SeedPresent | DR_ENV_Creator.py:105-107 | seeding a table that already has every default changes nothing |
| Records.SeedIdempotent | DR_ENV_Creator.py:105-107 | seeding twice equals seeding once |
| Records.Table | DR_ENV_Creator.py:83 | the map view's keys are exactly the services that have a row |
| Records.TableAt | DR_ENV_Creator.py:83 | with unique services, the map holds each row's own key, model and timestamp |
| Records.TableRow | DR_ENV_Creator.py:83 | a service in the map has exactly one row, and that row holds its entry |
| Records.WithoutTable | DR_ENV_Creator.py:166-168 | deleting a service's rows removes that service from the map and nothing else |
| Records.UpsertRows | DR_ENV_Creator.py:164-168 | the new row is last; every other row is an old row of another service, and every old row of another service is kept |
| Records.UpsertUnique | DR_ENV_Creator.py:164-168 | INSERT OR REPLACE keeps services unique |
| Records.UpsertTable | DR_ENV_Creator.py:164-168 | INSERT OR REPLACE changes the map only at the service, to exactly the new row's contents; no field of the old row survives |
| Store.CredentialStore.Update | DR_ENV_Creator.py:147-171 | the service ends up with the given key, the given model (none if none is given) and the given timestamp or else `now`; every other service keeps its entry; the columns are unchanged; it needs only the columns the INSERT OR REPLACE names |
| Services.EnvName | DR_ENV_Creator.py:121 | the name is the service character by character upper-cased with `-` made `_`, followed by `_API_KEY` |
| Services.EnvNameShape | DR_ENV_Creator.py:121 | a derived name holds no `-` and no lower-case ASCII letter |
| Services.EnvNameCollides | DR_ENV_Creator.py:121 | two services get the same variable iff they agree character by character up to ASCII case and `-` versus `_` |
| Services.EnvNameExample | DR_ENV_Creator.py:121 | "together-ai" gives TOGETHER_AI_API_KEY |
| Services.EnvNameNotInjective | DR_ENV_Creator.py:121 | "together_ai" and "together-ai" export the same variable |
| Services.EnvNameIgnoresCase | DR_ENV_Creator.py:121 | lower-casing a service name never changes its variable name |
| Services.NewServiceName | DR_ENV_Creator.py:274-277 | the name is rejected iff the input is all whitespace; an accepted name is non-empty, has no surrounding whitespace and no upper-case ASCII letter |
| Services.NewServiceNameValue | DR_ENV_Creator.py:274 | the accepted name is the input with only leading and trailing whitespace removed and every character lower-cased |
| Services.NewServiceNameIdempotent | DR_ENV_Creator.py:274 | cleaning up an accepted name again gives the same name |
| Text.Strip | DR_ENV_Creator.py:67 | the result has no whitespace at either end, and is empty iff the input is all whitespace |
| Text.StripFactor | DR_ENV_Creator.py:67 | the result is the input with whitespace-only runs cut from both ends |
| Text.StripTrimmed | DR_ENV_Creator.py:67 | stripping a string with no surrounding whitespace leaves it unchanged |
| Expiry.DaysSince | DR_ENV_Creator.py:125-127 | the day count d satisfies d·86400 ≤ elapsed seconds < (d+1)·86400, so it is rounded down |
| Expiry.DaysRemaining | DR_ENV_Creator.py:128 | for r days remaining, between 90 − r and 91 − r days' worth of seconds have elapsed since the timestamp |
| Expiry.ExpiryStatus | DR_ENV_Creator.py:123-141 | only "ollama" gets a status. With a truthy timestamp the status depends on the days remaining: expired iff ≤ 0; a warning and "valid" carry exactly the days remaining, 1 to 5 and 6 to 90; unknown iff > 90. Without one, "token set" iff the key is set, and no status iff the key is empty |
| Expiry.ZeroTimestampIsMissing | DR_ENV_Creator.py:124-138 | a stored timestamp of 0 is falsy (`HasTimestamp`), so it gives the same status as no timestamp: "token set" with a key, none without |
| Expiry.ExpiryBySeconds | DR_ENV_Creator.py:124-137 | expired iff at least 90 days of seconds have elapsed; a warning iff 85 to 90 days; valid iff 0 to 85 days; unknown iff the timestamp is in the future; a warning or "valid" status with d days left means between 90 − d and 91 − d days of seconds have elapsed |
| Expiry.ExpiryMonotone | DR_ENV_Creator.py:127-137 | as time passes the remaining days never grow, and the status only moves toward expired |
| Expiry.ExpiryExamples | DR_ENV_Creator.py:128-137 | stored 90 days ago is expired; 86 days ago warns with 4 days left; 1 day ago is valid for 89; 1 day ahead is unknown |
| Expiry.StatusText | DR_ENV_Creator.py:131-141 | a status label is empty iff there is no status, and otherwise is bracketed after a space |
| Expiry.StatusTextInjective | DR_ENV_Creator.py:131-141 | different statuses print different labels, for non-negative day counts (every status `ExpiryStatus` produces has one) |
| Expiry.ModelInfo | DR_ENV_Creator.py:143 | no model text iff the model is NULL or empty; otherwise the whole model in parentheses after a space |
| Expiry.AnnotationShowsModel | DR_ENV_Creator.py:143-144 | the annotation ends in `)` iff a non-empty model is stored, and then ends in " (model)" |
| Store.Listings | DR_ENV_Creator.py:117-145 | one line per row |
| Store.ListedNameIsExported | DR_ENV_Creator.py:120-185 | the line listed for a row (`ListingOf`) carries the row's service and key, and the variable name it shows is the one the export writes for it (`EnvLine`) |
| Store.EnvLineParse | DR_ENV_Creator.py:184-185 | splitting a written line at its first `=` gives back the variable name and the whole key, for any service name without `=` |
| Store.ListingsAt | DR_ENV_Creator.py:120-144 | the i-th line holds the i-th row's service, key, variable name and annotation: the listing keeps storage order |
| Store.CredentialStore.ListKeys | DR_ENV_Creator.py:111-145 | the method's lines are exactly `Listings` of the stored rows |
| Store.KeyCountBounds | DR_ENV_Creator.py:186 | the count is at most the number of listed services; it is 0 iff no key is set, and the full length iff every key is set |
| Store.ExportLines | DR_ENV_Creator.py:182-186 | the number of lines written equals the number of listed keys that are set |
| Store.ExportLinesSound | DR_ENV_Creator.py:182-185 | every written line is `NAME=key` for a listed service whose key is set |
| Store.ExportLinesComplete | DR_ENV_Creator.py:182-185 | every listed service whose key is set gets its line |
| Store.ExportLinesAppend | DR_ENV_Creator.py:182-185 | the export keeps list order: exporting a + b writes a's lines and then b's |
| Store.ExportExample | DR_ENV_Creator.py:180-186 | rows ("a","x") and ("b","") export exactly "A_API_KEY=x" with a count of 1 |
| Store.CredentialStore.ExportEnv | DR_ENV_Creator.py:174-186 | the lines written are `ExportLines` of the listing of the stored rows, and the count reported is the number of lines |
| Store.UpdateThenList | DR_ENV_Creator.py:73-145 | init, update "openai" to "sk-test" with model "gpt-4", init again, list: the listing shows the key, its variable name and " (gpt-4)", so re-seeding did not reset the key |

## Left out

- Terminal I/O is not modelled:
  - `getpass`, `input`, `print` and the ANSI colour escapes around the status labels;
  - the labels are modelled without colour.
- The SHA-256 digest is a function parameter of `PasswordGate`. Its properties are stated as requirements where a lemma needs them: no surrounding whitespace, or no collisions.
- Gate.SetupThenVerify and Gate.OnlyTheSetupPassword: these require a digest without surrounding whitespace, which every hex digest has (`Gate.HexDigestTrimmed`).
  - Only a collision-free digest makes the set-up password the only one granted; `OnlyTheSetupPassword` states that assumption.
- The password file and the database are fields, not files.
  - `StorageUnavailable` (a file that cannot be opened or written) is not modelled.
  - Concurrent access is not modelled.
- Store.CredentialStore.Update: promises only the map view of the table, not the new row's place in storage order.
  - SQLite's INSERT OR REPLACE deletes the old row and inserts a new one with a new rowid.
  - The implementation appends.
- Store.CredentialStore.Update: accepts an empty service name, as `update_key` does. Nothing in the code rejects an empty service name passed to `update_key`; only menu choice 4 rejects an empty typed name (`Services.NewServiceName`).
- Store.CredentialStore.ListKeys and Store.CredentialStore.ExportEnv require all four columns `list_keys` selects (`Ready`); the source raises an SQLite error without them. Store.CredentialStore.Update requires only the columns its INSERT OR REPLACE names (`Writable`): `service`, `key` and `timestamp`, and `model` only when a model is given. The SQLite error paths themselves are not modelled; the front end always calls `init_db` first.
- The `id` and `updated_at` columns are not modelled: no operation of the vault reads them.
- Clocks are modelled as whole Unix seconds:
  - the current time is a parameter;
  - `datetime.fromtimestamp` local time, daylight-saving shifts and sub-second parts are not modelled.
- Expiry.ExpiryStatus: `datetime.fromtimestamp` raises for a stored timestamp outside the platform's range (beyond year 9999, say), which aborts `list_keys` and `export_env`. The model returns a status instead (UnknownStatus for a far-future timestamp). The front end only ever stores the current time.
- Services.EnvName and Services.NewServiceName: Python's `upper()` and `lower()` map every Unicode letter, but the model maps only ASCII letters. Names with non-ASCII letters get a different variable name in the model.
- The default service list and the key-documentation URLs are static data. The list is a parameter of `InitDb`; the URLs are used only for display.
- `handle_ollama_token`, the interactive menu loop and `git_setup_menu.py` are not part of this model.
- The env file is not escaped, as in the source: a key holding `=` or a newline is written as is.
- The password file and the keys are stored in clear text, as in the source. There is no encryption to model.
