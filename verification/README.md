# auth_clcdb: a verified model of the external-database user sync

`auth_plugin_clcdb` is a Moodle authentication plugin. It reads user data
from a table in an external database. It refreshes existing local accounts
from that table, and writes locally changed profile fields back to it. This
project models the plugin's own logic in Dafny and proves what that logic
guarantees:

- **Quoting values into SQL literals** (`ext_addslashes`). There are two
  modes: backslash escaping and doubled quotes ("sybase" quoting).
- **The attribute map** (`db_attributes`): which local user field is read from
  which external column.
- **Reading one user** (`get_userinfo`): a query with positional aliases whose
  first row is read back by position.
- **Listing every external username** (`get_userlist`).
- **The scheduled sync** (`sync_users`):
  - It derives the fields to refresh from the settings.
  - It looks up local accounts in chunks of 10000 names and merges the
    results.
  - It makes one update call and writes one progress line per account.
- **Writing back** (`user_update`): which `column='value'` assignments are
  sent, and whether an UPDATE is issued at all.
- **The small predicates**: the external-encoding default, `is_internal`,
  `prevent_local_passwords` and `is_configured`.

Modules, one per file:

- `Wrappers` (wrappers.dfy): `Option` and `Result`. The only error is
  `CantConnect`. It stands for the `auth_clcdbcantconnect` exception, which
  both `db_init` and `print_error` raise.
- `Php` (php.dfy): the PHP behaviour the code relies on.
  - Ordered arrays are modelled as sequences of key/value pairs.
  - `$a[$k] = $v` replaces a value in place, or appends a new key at the end.
  - `array_change_key_case` keeps the last value and the first position.
  - Also modelled: `str_replace`, `implode`, `array_chunk`, and integer
    interpolation in strings.
- `Settings` (settings.dfy):
  - Settings are a map. PHP's `empty()` is true for an unset setting, `""`
    and `"0"`. An unset setting interpolates as `""`.
  - The plugin value and its constructor default.
  - `is_internal` and `is_configured`.
- `Escaping` (escaping.dfy): `ext_addslashes`, and the decoders that read its
  output back as a backslash-escaping or a doubled-quote backend would.
- `AttributeMap` (attributes.dfy): `db_attributes`.
- `Reader` (reader.dfy): `get_userinfo` and `get_userlist`.
- `RemoteWriter` (remote_writer.dfy): `user_update`.
- `Sync` (sync.dfy): `sync_users` and the `progress_trace` it writes to. The
  trace is a class whose `Output` and `Finished` methods update its fields.

Most of the plugin object is a value. After construction, its methods only
read the settings. So the plugin is a datatype, and each operation is a
function of it, or a method that takes it.

Everything outside the plugin is an input to the model:

- **The external database** is a function from SQL text to either a failure
  or a list of rows.
- **`core_text::convert`** is a function `(text, from, to) -> text`.
- **The local user table** is a map from id to record.
- **The outcome of `update_user_record`** is a predicate on its arguments.

Each imperative routine of the source is a method with loop invariants. Each
method is proved equal to a specification function, or proved to meet a
specification predicate. The source's promises are then proved about that
function or predicate as lemmas.

Three facts about the code worth stating outright:

- `sync_users` neither creates accounts nor suspends or revives them, although
  its doc comment says that syncing removes (disables) users missing from the
  external database and creates new ones (auth.php:181-182). It only updates
  existing accounts, passing each one's current `suspended` flag through
  unchanged (auth.php:232).
- `user_update` returns false when both usernames are set and differ under
  PHP's loose `!=`, before it looks anything up (auth.php:322-324).
- `get_userinfo` always sends its query: `db_attributes` always maps
  `username`, so the map is never empty (auth.php:109, 132).

## Model

| member | source | states |
|---|---|---|
| Settings.NewPlugin | auth.php:39-49 | afterwards `extencoding` is non-empty; it becomes "utf-8" exactly when the stored value was empty; a non-empty stored encoding leaves the settings unchanged; every other setting is kept as stored |
| Settings.IsInternal | auth.php:376-381 | a set but empty (or "0") password type is not internal; an internal plugin has no password type or exactly 'internal' |
| Settings.PreventLocalPasswords | auth.php:365-367 | local passwords are prevented iff a password type other than 'internal' is set |
| Settings.IsConfigured | auth.php:388-393 | configured iff `type` is set and is neither "" nor "0" |
| Settings.ConfiguredAsStored | auth.php:39-49 | building the plugin changes neither whether it is configured nor whether it is internal |
| Settings.PasswordTypeIsStrict | auth.php:365-381 | the plugin is internal iff `passtype` is unset or exactly 'internal'; a set but empty `passtype` still counts as external; `prevent_local_passwords` is the negation |
| Escaping.ExtAddSlashes | auth.php:441-449 | in backslash mode the result is the per-character escape of the input; in sybase mode it is one character longer per quote |
| Escaping.BackslashChainIsPerChar | auth.php:442-444 | the sequential `str_replace` calls (backslash first, then quote, double quote, NUL) equal one per-character escape map |
| Escaping.EscapeEachRoundTrip | auth.php:442-444 | reading `\\`, `\'`, `\"`, `\0` back as backslash, quote, double quote and NUL recovers the input of the escape map |
| Escaping.EscapeEachQuoteSafe | auth.php:442-444 | the escaped text never holds a quote that would close the literal, nor a trailing lone backslash |
| Escaping.BackslashModeSafe | auth.php:442-444 | in backslash mode, the output of `ext_addslashes` is quote-safe and decodes back to the input |
| Escaping.SybaseRoundTrip | auth.php:446 | doubling quotes gains one character per quote, and collapsing `''` to `'` recovers the input |
| Escaping.SybaseModeSafe | auth.php:445-446 | in sybase mode, only quotes are rewritten (doubled); backslash and NUL pass through; length grows by the quote count; collapsing `''` recovers the input |
| Escaping.ExtAddSlashesRoundTrip | auth.php:441-449 | under either quoting setting, the backend reads the escaped literal back as the original value |
| AttributeMap.Attributes | auth.php:94-111 | `username` always maps to `fielduser`, so the map is never empty |
| AttributeMap.MappedNamesMember | auth.php:104-108 | a field is mapped iff it is in the walked list and its `field_map_<field>` is not empty |
| AttributeMap.MapFieldsFacts | auth.php:104-108 | the loop's array has distinct keys, the mapped fields in first-seen order, each with its configured column |
| AttributeMap.AttributesFacts | auth.php:94-111 | distinct keys; `username` always maps to `fielduser`, overriding `field_map_username`; every other key is a listed field with a non-empty `field_map_<key>`, mapped to that value; `username` is last unless it was already a mapped field |
| AttributeMap.NoUserFieldsOnlyUsername | auth.php:97-102 | with no user fields, custom fields are not merged, and only `username` is mapped |
| AttributeMap.CustomFieldsMerged | auth.php:97-106 | with user fields present, every custom field with a configured column is mapped |
| AttributeMap.DbAttributes | auth.php:94-111 | the loop builds exactly the attribute map, with distinct keys and `username` mapped to `fielduser` |
| Reader.AliasesDistinct | auth.php:133-140 | the aliases `F<i>` are pairwise different, so repeated external columns do not coalesce |
| Reader.UsernameFilterReadsBack | auth.php:142-144 | the query ends with a quoted literal holding the escaped username, and the configured backend reads that literal back as the username converted to the external encoding |
| Reader.BuildSelect | auth.php:133-141 | item i of the select list is `<column i> AS F<i>`, in map order, one per mapped field |
| Reader.ReadRow | auth.php:147-154 | the result has the map's keys in map order; key i receives the i-th row value (null as "") converted to UTF-8 |
| Reader.UserInfo | auth.php:120-161 | `get_userinfo` fails iff the plugin is not configured |
| Reader.GetUserinfo | auth.php:120-161 | the method computes `UserInfo`: a throw when unconfigured; otherwise the zipped first row, or the empty array when the query fails or returns no row |
| Reader.UserInfoFacts | auth.php:120-161 | when configured: a returned row gives exactly the positional zip of that row, with one entry per mapped field (never empty); a failed query or no row gives the empty array; a non-empty answer has the map's keys in order, key i holding the converted i-th value |
| Reader.FetchedCount | auth.php:287 | the fetch loop reads the rows before the first empty one, and stops there or at the end |
| Reader.UsernamesFacts | auth.php:287-290 | one username per fetched row: the value of the column whose lower-cased name is the lower-cased `fielduser` (the last such column), or "" when there is none |
| Reader.FetchUsernames | auth.php:286-291 | the while loop collects exactly the usernames of the fetched rows |
| Reader.UserList | auth.php:273-295 | `get_userlist` fails iff the plugin is not configured or its query fails |
| Reader.UsernamesAt | auth.php:287-290 | one username per fetched row, username i read from row i |
| Reader.UserListRows | auth.php:273-295 | `get_userlist` fails iff the plugin is unconfigured or the query fails; otherwise it returns one username per fetched row, taken from the case-insensitively matched column |
| Reader.GetUserlist | auth.php:273-295 | the method computes `UserList` |
| Php.StrReplace | auth.php:443-446 | each needle is replaced, so the length changes by `|replace| - 1` per occurrence, and a replacement free of the needle leaves no needle behind |
| Php.Implode | auth.php:141 | no items give ""; otherwise the result starts with the first item and is as long as the items plus one separator between each two |
| Php.ImplodeAppend | auth.php:141 | appending an item appends one separator and that item, so every later item follows exactly one separator |
| Php.Lower | auth.php:289 | same length; each upper-case ASCII letter becomes its lower-case letter (code point plus 32); every other character unchanged |
| Php.LowerEqualIff | auth.php:288-289 | two names lower to the same string iff they have the same length and agree character by character up to ASCII case, so the lowered-key match ignores case |
| Php.LowerIdempotent | auth.php:289 | lowering twice is lowering once |
| Php.LowerKeys | auth.php:288 | after `array_change_key_case` the keys are lower-case and pairwise different |
| Php.LooseEquals | auth.php:322 | loose `==` on strings is reflexive, compares digit-only numeric strings by value, and otherwise agrees with `===` |
| Php.LeadingZeroLooselyEqual | auth.php:322 | "0123" and "123" are different strings but loosely equal |
| Php.LowerKeysGet | auth.php:288-289 | after `array_change_key_case`, a lower-case key holds the last value whose key lower-cases to it |
| Php.PutKeys | auth.php:106-109 | assigning an existing key keeps the key order; assigning a new key appends it |
| Php.PutGet | auth.php:106-109 | after `$a[$k] = $v`, `$k` holds `$v` and every other key is unchanged |
| Php.ArrayChunk | auth.php:218 | the chunks concatenate back to the list; each is non-empty with at most 10000 names; all but the last are full |
| Sync.MatchUpdateLocal | auth.php:206-208 | a capture is a non-empty, newline-free field name, and the key is the prefix plus that name, possibly followed by one final newline |
| Sync.MatchUpdateLocalAccepts | auth.php:206-208 | every non-empty, newline-free field name is captured, with or without one final newline |
| Sync.KeysStep | auth.php:204-211 | visiting one more setting appends its field exactly when the name matches `field_updatelocal_(.+)` and the value is exactly 'onlogin' |
| Sync.UpdateKeys | auth.php:203-212 | the update keys are exactly the captured suffixes of the settings `field_updatelocal_X` whose value is `=== 'onlogin'`, one entry per such setting |
| Sync.PhpUnion | auth.php:225 | `+` on id-keyed arrays keeps every id of either side, and the left value where both have one |
| Sync.LocalAccountsUnion | auth.php:220-225 | merging the lookups of two name sets with `+` gives the lookup of their union |
| Sync.LookupChunked | auth.php:215-226 | the chunked lookup finds exactly this host's non-deleted local accounts whose username is in the external list |
| Sync.ProgressStep | auth.php:230-239 | one more loop step reports one more remaining account, once, with its own call and its skipped mark |
| Sync.UpdateAccounts | auth.php:228-241 | one trace line at depth 1 and one call `update_user_record(username, updatekeys, false, suspended)` per account, with the account's own suspended flag; the line says skipped exactly when the call failed; no account is left out or repeated |
| Sync.ReportAccounts | auth.php:227-242 | with no accounts nothing is written; otherwise a count line at depth 0, then the per-account lines |
| Sync.SyncUsers | auth.php:190-246 | a failing list query throws and writes nothing; otherwise the result is true and `finished` is called once; an empty list or an empty update-key set selects no account, makes no update call and writes no line; every selected account is updated once, with its suspended flag unchanged; nothing is created or suspended |
| RemoteWriter.Changes | auth.php:336-355 | at most one change per current field; each changed field is not `username`, has remote update requested, is set on the new user, and carries its new value |
| RemoteWriter.NumericUsernameNotRenamed | auth.php:322 | two digit-only usernames are a rename iff they denote different numbers, so "0123" to "123" is not refused |
| RemoteWriter.ChangesExactly | auth.php:336-355 | a field is written back iff it is in the current external record, is not `username`, has `field_updateremote_<field>` non-empty, is set on the new user, and its new value (or its 'text' entry) differs from the current one under loose `!=` |
| RemoteWriter.CollectUpdates | auth.php:335-355 | the loop yields one `column='escaped converted value'` assignment per changed field, in record order |
| RemoteWriter.UserUpdate | auth.php:321-363 | a rename (both usernames set and loosely different) returns false and sends nothing; an unconfigured plugin throws; an unknown user returns false; otherwise returns true, and issues one UPDATE filtered on the old username exactly when some field changed |

## Left out

- ADOdb (connecting, `Execute`, `FetchRow`, `Close`, `setupsql`, the debug
  output buffering) is not modelled. A query is a function from SQL text to
  rows or a failure. `db_init` appears only through its `is_configured` check,
  which raises `CantConnect`.
- Whitespace in the generated SQL is not modelled. Each line break and its
  indentation are written as a single space.
- `test_settings`, `user_exists`, `get_userinfo_asobj`,
  `is_synchronised_with_external` and the constant stubs are not part of this
  model. The stubs are `user_login`, `user_update_password`,
  `can_change_password`, `change_password_url` and `can_reset_password`.
  The language strings, `settings.php` and the scheduled-task wrapper are not
  part of this model either.
- `core_text::convert`, `get_string`, `$DB->get_in_or_equal` with
  `get_records_sql`, and `update_user_record` are foreign code. They are
  inputs:
  - The conversion is a function.
  - The local lookup is `LocalAccounts` over a user-table map. It uses exact
    username equality, so database collation is not modelled.
  - The update's success is a predicate.
- Reader.GetUserinfo, Reader.GetUserlist, RemoteWriter.UserUpdate: a SQL
  null is modelled as "". The rows are string-valued.
- Php.LooseEquals, RemoteWriter.UserUpdate: loose `==`, and with it the
  rename guard's `!=`, knows only numeric strings made of decimal digits. Signs, leading or trailing
  whitespace, decimal points, exponents and the float comparison of large
  numbers are not modelled, so for example "+1" and "1" count as a rename
  here, although PHP treats them as the same name.
- RemoteWriter.Changes: the same limit applies to the loose `!=` between a
  new and a current field value.
- Escaping.ExtAddSlashes: a character stands for one byte of the text after
  conversion to the external encoding. The decoders read one character at a
  time, so they model a backend whose encoding never has `\` or `'` inside a
  multibyte character, such as UTF-8 or a single-byte encoding. Under GBK,
  Big5 or Shift-JIS a trail byte 0x5C can pair with the byte before it, and
  the round trip is not promised.
- RemoteWriter.Changes: only strings and arrays with a 'text' entry are
  modelled. An editor array without a 'text' entry is not.
- Php.Put: PHP's conversion of numeric-string array keys to integers is not
  modelled.
- Sync.UpdateKeys: settings are a map, so the order of the update keys is not
  fixed; only which keys appear, and how many, is stated.
- Sync.UpdateAccounts: the id-keyed result of the local lookup is a map, so
  the order in which accounts are visited is not fixed. Each account is
  visited exactly once.
- Sync.SyncUsers: the returned update keys are stated only when the external
  list is non-empty. The source computes them only in that case.
- Sync.ProgressTrace: only the lines a sync writes and the number of
  `finished` calls are modelled, not how a trace prints them.
