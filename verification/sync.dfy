/** `sync_users`: the scheduled refresh of existing local accounts from the
    external table. */
module Sync {
  import opened Wrappers
  import opened Php
  import opened Settings
  import opened Reader

  /** `array_chunk` size for the local lookups. */
  const ChunkSize: nat := 10000

  const UpdateLocalPrefix := "field_updatelocal_"

  /** `preg_match('/^field_updatelocal_(.+)$/', $key, $match)` and `$match[1]`.
      `.` stops at a newline and `$` also matches before one final newline, so
      the captured field is the rest of the key without such a newline, and
      must be non-empty and newline-free. */
  function MatchUpdateLocal(key: string): (r: Option<string>)
    ensures r.Some? ==> |r.value| > 0 && '\n' !in r.value
    ensures r.Some? ==> key == UpdateLocalPrefix + r.value || key == UpdateLocalPrefix + r.value + "\n"
  {
    if |key| < |UpdateLocalPrefix| || key[..|UpdateLocalPrefix|] != UpdateLocalPrefix then None
    else
      var rest := key[|UpdateLocalPrefix|..];
      var field := if |rest| > 0 && rest[|rest| - 1] == '\n' then rest[..|rest| - 1] else rest;
      if |field| > 0 && '\n' !in field then Some(field) else None
  }

  /** Every non-empty field name without a newline is captured, with or
      without one final newline after it. */
  lemma MatchUpdateLocalAccepts(field: string)
    requires |field| > 0 && '\n' !in field
    ensures MatchUpdateLocal(UpdateLocalPrefix + field) == Some(field)
    ensures MatchUpdateLocal(UpdateLocalPrefix + field + "\n") == Some(field)
  {
    var k := UpdateLocalPrefix + field;
    assert k[..|UpdateLocalPrefix|] == UpdateLocalPrefix && k[|UpdateLocalPrefix|..] == field;
    var k' := k + "\n";
    assert k'[..|UpdateLocalPrefix|] == UpdateLocalPrefix && k'[|UpdateLocalPrefix|..] == field + "\n";
    assert (field + "\n")[..|field|] == field;
  }

  /** A setting that asks for a field to be refreshed: its name matches and
      its value is exactly 'onlogin'. */
  predicate RefreshSetting(cfg: Config, key: string) {
    key in cfg && MatchUpdateLocal(key).Some? && cfg[key] == "onlogin"
  }

  /** The field a matching setting names. */
  function FieldOf(key: string): string {
    match MatchUpdateLocal(key)
      case Some(field) => field
      case None => ""
  }

  /** The refresh settings among `keys`. */
  ghost function RefreshSettings(cfg: Config, keys: set<string>): set<string> {
    set key | key in keys && RefreshSetting(cfg, key)
  }

  /** The fields the refresh settings among `keys` name. */
  ghost function RefreshFields(cfg: Config, keys: set<string>): set<string> {
    set key | key in RefreshSettings(cfg, keys) :: FieldOf(key)
  }

  /** The fields a sync refreshes. */
  ghost function UpdateKeySet(cfg: Config): set<string> {
    RefreshFields(cfg, cfg.Keys)
  }

  function Elems(s: seq<string>): set<string> {
    set x | x in s
  }

  /** The update-key loop's invariant after visiting the settings `seen`:
      one entry per refresh setting among them, naming exactly their fields. */
  ghost predicate KeysSoFar(cfg: Config, seen: set<string>, updatekeys: seq<string>) {
    && Elems(updatekeys) == RefreshFields(cfg, seen)
    && |updatekeys| == |RefreshSettings(cfg, seen)|
  }

  lemma KeysStep(cfg: Config, seen: set<string>, updatekeys: seq<string>, key: string)
    requires KeysSoFar(cfg, seen, updatekeys)
    requires key !in seen
    ensures RefreshSetting(cfg, key) ==> KeysSoFar(cfg, seen + {key}, updatekeys + [FieldOf(key)])
    ensures !RefreshSetting(cfg, key) ==> KeysSoFar(cfg, seen + {key}, updatekeys)
  {
    if RefreshSetting(cfg, key) {
      assert RefreshSettings(cfg, seen + {key}) == RefreshSettings(cfg, seen) + {key};
      assert key !in RefreshSettings(cfg, seen);
      assert RefreshFields(cfg, seen + {key}) == RefreshFields(cfg, seen) + {FieldOf(key)};
      assert Elems(updatekeys + [FieldOf(key)]) == Elems(updatekeys) + {FieldOf(key)};
    } else {
      assert RefreshSettings(cfg, seen + {key}) == RefreshSettings(cfg, seen);
      assert RefreshFields(cfg, seen + {key}) == RefreshFields(cfg, seen);
    }
  }

  /** The update-key loop over the settings: one entry per setting whose name
      is `field_updatelocal_<field>` and whose value is exactly 'onlogin', and
      these entries are exactly the fields so requested. */
  method UpdateKeys(cfg: Config) returns (updatekeys: seq<string>)
    ensures Elems(updatekeys) == UpdateKeySet(cfg)
    ensures |updatekeys| == |RefreshSettings(cfg, cfg.Keys)|
  {
    updatekeys := [];
    var allkeys := cfg.Keys;
    ghost var seen: set<string> := {};
    assert RefreshSettings(cfg, seen) == {};
    while allkeys != {}
      invariant allkeys + seen == cfg.Keys && allkeys !! seen
      invariant KeysSoFar(cfg, seen, updatekeys)
      decreases allkeys
    {
      // The witness is never read; it only lets the verifier see that the
      // next `:|` has a key to choose.
      ghost var some := Pick(allkeys);
      var key :| key in allkeys;
      var m := MatchUpdateLocal(key);
      KeysStep(cfg, seen, updatekeys, key);
      if m.Some? && cfg[key] == "onlogin" {
        updatekeys := updatekeys + [m.value];
      }
      allkeys := allkeys - {key};
      seen := seen + {key};
    }
  }

  /** A row of the local `user` table. */
  datatype LocalUser = LocalUser(username: string, suspended: bool, deleted: bool, mnethostid: int)

  /** The local `user` table, by id. */
  type UserTable = map<int, LocalUser>

  /** `u.id, u.username, u.suspended` of a selected account. */
  datatype Account = Account(id: int, username: string, suspended: bool)

  /** The non-deleted accounts of this host whose username is in `names`, by
      id: the answer to the lookup query for a chunk `names`. */
  function LocalAccounts(users: UserTable, mnethostid: int, names: set<string>): map<int, Account> {
    map id | id in users && !users[id].deleted && users[id].mnethostid == mnethostid && users[id].username in names
      :: Account(id, users[id].username, users[id].suspended)
  }

  /** PHP's `$a + $b` on id-keyed arrays: every key of either, the value of
      `$a` kept where both have one. */
  function PhpUnion(a: map<int, Account>, b: map<int, Account>): (r: map<int, Account>)
    ensures r.Keys == a.Keys + b.Keys
    ensures forall id :: id in a ==> r[id] == a[id]
    ensures forall id :: id in b && id !in a ==> r[id] == b[id]
  {
    b + a
  }

  lemma LocalAccountsUnion(users: UserTable, mnethostid: int, s: set<string>, t: set<string>)
    ensures PhpUnion(LocalAccounts(users, mnethostid, s), LocalAccounts(users, mnethostid, t))
         == LocalAccounts(users, mnethostid, s + t)
  {
  }

  /** The chunked lookup: the username list cut into chunks of at most 10000,
      each chunk looked up, the answers merged with `+`. The merge is the
      answer a single lookup of the whole list would give. */
  method LookupChunked(users: UserTable, mnethostid: int, userlist: seq<string>)
    returns (updateusers: map<int, Account>)
    ensures updateusers == LocalAccounts(users, mnethostid, Elems(userlist))
  {
    var chunks := ArrayChunk(userlist, ChunkSize);
    updateusers := map[];
    for i := 0 to |chunks|
      invariant updateusers == LocalAccounts(users, mnethostid, Elems(Flatten(chunks[..i])))
    {
      assert chunks[..i + 1] == chunks[..i] + [chunks[i]];
      FlattenAppend(chunks[..i], [chunks[i]]);
      assert Flatten([chunks[i]]) == chunks[i] + Flatten([]);
      assert Elems(Flatten(chunks[..i + 1])) == Elems(Flatten(chunks[..i])) + Elems(chunks[i]);
      var found := LocalAccounts(users, mnethostid, Elems(chunks[i]));
      LocalAccountsUnion(users, mnethostid, Elems(Flatten(chunks[..i])), Elems(chunks[i]));
      updateusers := PhpUnion(updateusers, found);
    }
    assert chunks[..|chunks|] == chunks;
  }

  /** The arguments of one `update_user_record` call. */
  datatype UpdateCall = UpdateCall(username: string, updatekeys: seq<string>, triggerevent: bool, suspenduser: bool)

  /** Whether `update_user_record` succeeds for a call. */
  type UpdateRecord = UpdateCall -> bool

  /** A progress message: the number of accounts to update, or one account's
      "Updating user <name> id <id>", with " - skipped" when its update failed. */
  datatype Message = EntriesToUpdate(count: nat) | UpdatingUser(name: string, id: int, skipped: bool)

  datatype TraceLine = TraceLine(message: Message, depth: nat)

  /** The `progress_trace` a sync reports to. */
  class ProgressTrace {
    var lines: seq<TraceLine>
    var finishedCalls: nat

    constructor ()
      ensures lines == [] && finishedCalls == 0
    {
      lines := [];
      finishedCalls := 0;
    }

    method Output(message: Message, depth: nat)
      modifies this
      ensures lines == old(lines) + [TraceLine(message, depth)]
      ensures finishedCalls == old(finishedCalls)
    {
      lines := lines + [TraceLine(message, depth)];
    }

    method Finished()
      modifies this
      ensures lines == old(lines)
      ensures finishedCalls == old(finishedCalls) + 1
    {
      finishedCalls := finishedCalls + 1;
    }
  }

  /** The accounts the lines report on. */
  ghost function ReportedIds(lines: seq<TraceLine>): set<int> {
    if lines == [] then {}
    else
      var last := lines[|lines| - 1];
      ReportedIds(lines[..|lines| - 1]) + if last.message.UpdatingUser? then {last.message.id} else {}
  }

  /** Line i reports on account `id` and call i updates it. */
  ghost predicate ReportsOn(line: TraceLine, call: UpdateCall, accounts: map<int, Account>,
                            updatekeys: seq<string>, outcome: UpdateRecord)
  {
    && line.depth == 1
    && line.message.UpdatingUser?
    && line.message.id in accounts
    && line.message.name == accounts[line.message.id].username
    && call == UpdateCall(accounts[line.message.id].username, updatekeys, false, accounts[line.message.id].suspended)
    && line.message.skipped == !outcome(call)
  }

  /** The per-account report: line i names a distinct account of `accounts`,
      call i updates that account with the refresh keys and its own suspended
      flag, line i says " - skipped" exactly when call i failed, and every
      account is reported. */
  ghost predicate Reported(lines: seq<TraceLine>, calls: seq<UpdateCall>, accounts: map<int, Account>,
                           updatekeys: seq<string>, outcome: UpdateRecord)
  {
    && |lines| == |calls| == |accounts|
    && (forall i :: 0 <= i < |lines| ==> ReportsOn(lines[i], calls[i], accounts, updatekeys, outcome))
    && (forall i, j :: 0 <= i < j < |lines| ==> lines[i].message != lines[j].message)
    && ReportedIds(lines) == accounts.Keys
  }

  /** A set that is not empty has an element to pick. */
  lemma Inhabited<T>(s: set<T>)
    ensures s == {} || exists x :: x in s
  {
    if forall x :: x !in s {
      assert s == {};
    }
  }

  lemma Pick<T>(s: set<T>) returns (x: T)
    requires s != {}
    ensures x in s
  {
    Inhabited(s);
    x :| x in s;
  }

  /** The per-account loop's invariant: the accounts reported so far are those
      of `accounts` no longer `remaining`, each reported once. */
  ghost predicate Progress(added: seq<TraceLine>, calls: seq<UpdateCall>, remaining: set<int>,
                           accounts: map<int, Account>, updatekeys: seq<string>, outcome: UpdateRecord)
  {
    && remaining <= accounts.Keys
    && |added| == |calls| && |calls| + |remaining| == |accounts|
    && (forall i :: 0 <= i < |added| ==> ReportsOn(added[i], calls[i], accounts, updatekeys, outcome))
    && (forall i :: 0 <= i < |added| ==> added[i].message.UpdatingUser? && added[i].message.id !in remaining)
    && (forall i, j :: 0 <= i < j < |added| ==> added[i].message != added[j].message)
    && ReportedIds(added) + remaining == accounts.Keys
  }

  lemma ProgressStep(added: seq<TraceLine>, calls: seq<UpdateCall>, remaining: set<int>,
                     accounts: map<int, Account>, updatekeys: seq<string>, outcome: UpdateRecord, id: int)
    requires Progress(added, calls, remaining, accounts, updatekeys, outcome)
    requires id in remaining
    ensures var call := UpdateCall(accounts[id].username, updatekeys, false, accounts[id].suspended);
            var line := TraceLine(UpdatingUser(accounts[id].username, id, !outcome(call)), 1);
            Progress(added + [line], calls + [call], remaining - {id}, accounts, updatekeys, outcome)
  {
    var call := UpdateCall(accounts[id].username, updatekeys, false, accounts[id].suspended);
    var line := TraceLine(UpdatingUser(accounts[id].username, id, !outcome(call)), 1);
    var added', calls' := added + [line], calls + [call];
    assert added'[..|added|] == added;
    assert ReportedIds(added') == ReportedIds(added) + {id};
    forall i | 0 <= i < |added'|
      ensures ReportsOn(added'[i], calls'[i], accounts, updatekeys, outcome)
      ensures added'[i].message.UpdatingUser? && added'[i].message.id !in remaining - {id}
    {
      if i < |added| {
        assert added'[i] == added[i] && calls'[i] == calls[i];
      }
    }
    forall i, j | 0 <= i < j < |added'|
      ensures added'[i].message != added'[j].message
    {
      if j < |added| {
        assert added'[i] == added[i] && added'[j] == added[j];
      } else {
        assert added'[i] == added[i];
      }
    }
  }

  lemma ProgressDone(added: seq<TraceLine>, calls: seq<UpdateCall>,
                     accounts: map<int, Account>, updatekeys: seq<string>, outcome: UpdateRecord)
    requires Progress(added, calls, {}, accounts, updatekeys, outcome)
    ensures Reported(added, calls, accounts, updatekeys, outcome)
  {
  }

  /** The per-account loop: one `update_user_record` call and one trace line
      for every account; a failed update only marks its line skipped. */
  method UpdateAccounts(accounts: map<int, Account>, updatekeys: seq<string>, outcome: UpdateRecord,
                        trace: ProgressTrace)
    returns (calls: seq<UpdateCall>)
    modifies trace
    ensures trace.finishedCalls == old(trace.finishedCalls)
    ensures |trace.lines| == |old(trace.lines)| + |calls|
    ensures trace.lines[..|old(trace.lines)|] == old(trace.lines)
    ensures Reported(trace.lines[|old(trace.lines)|..], calls, accounts, updatekeys, outcome)
  {
    calls := [];
    var remaining := accounts.Keys;
    ghost var added: seq<TraceLine> := [];
    while remaining != {}
      invariant trace.finishedCalls == old(trace.finishedCalls)
      invariant trace.lines == old(trace.lines) + added
      invariant Progress(added, calls, remaining, accounts, updatekeys, outcome)
      decreases remaining
    {
      // The witness is never read; it only lets the verifier see that the
      // next `:|` has an id to choose.
      ghost var some := Pick(remaining);
      var id :| id in remaining;
      var user := accounts[id];
      var call := UpdateCall(user.username, updatekeys, false, user.suspended);
      var ok := outcome(call);
      trace.Output(UpdatingUser(user.username, id, !ok), 1);
      ProgressStep(added, calls, remaining, accounts, updatekeys, outcome, id);
      added := added + [TraceLine(UpdatingUser(user.username, id, !ok), 1)];
      calls := calls + [call];
      remaining := remaining - {id};
    }
    ProgressDone(added, calls, accounts, updatekeys, outcome);
    assert trace.lines[|old(trace.lines)|..] == added;
  }

  /** The accounts a sync refreshes: none when no field asks for a refresh,
      otherwise this host's non-deleted accounts named in the external list. */
  ghost function SyncedAccounts(cfg: Config, users: UserTable, mnethostid: int, userlist: seq<string>)
    : map<int, Account>
  {
    if UpdateKeySet(cfg) == {} then map[] else LocalAccounts(users, mnethostid, Elems(userlist))
  }

  /** What the trace gains for the accounts a sync refreshes: nothing when
      there are none; otherwise the count line, then one line per account as
      `Reported` describes. */
  ghost predicate SyncReport(before: seq<TraceLine>, after: seq<TraceLine>, calls: seq<UpdateCall>,
                             accounts: map<int, Account>, updatekeys: seq<string>, outcome: UpdateRecord)
  {
    && (accounts == map[] ==> after == before && calls == [])
    && (accounts != map[] ==>
          && |after| == |before| + 1 + |calls|
          && after[..|before| + 1] == before + [TraceLine(EntriesToUpdate(|accounts|), 0)]
          && Reported(after[|before| + 1..], calls, accounts, updatekeys, outcome))
  }

  /** The `if ($updateusers)` block: the count line and the per-account loop. */
  method ReportAccounts(accounts: map<int, Account>, updatekeys: seq<string>, outcome: UpdateRecord,
                        trace: ProgressTrace)
    returns (calls: seq<UpdateCall>)
    modifies trace
    ensures trace.finishedCalls == old(trace.finishedCalls)
    ensures SyncReport(old(trace.lines), trace.lines, calls, accounts, updatekeys, outcome)
  {
    calls := [];
    if accounts != map[] {
      trace.Output(EntriesToUpdate(|accounts|), 0);
      ghost var before := trace.lines;
      calls := UpdateAccounts(accounts, updatekeys, outcome, trace);
      assert trace.lines[..|before|] == before;
    }
  }

  /** `sync_users`: a failing list query throws before anything is reported;
      otherwise every existing, non-deleted local account of this host whose
      username the external table lists is updated once with the refresh
      fields and its own suspended flag, after a count line when there is at
      least one, and the trace is finished once. No account is created,
      suspended or revived. */
  method SyncUsers(p: Plugin, db: ExtDb, users: UserTable, mnethostid: int, outcome: UpdateRecord,
                   trace: ProgressTrace)
    returns (r: Result<bool>, calls: seq<UpdateCall>, updatekeys: seq<string>)
    modifies trace
    ensures r.Err? <==> UserList(p, db).Err?
    ensures r.Err? ==> trace.lines == old(trace.lines) && trace.finishedCalls == old(trace.finishedCalls)
                       && calls == []
    ensures r.Ok? ==> r.value && trace.finishedCalls == old(trace.finishedCalls) + 1
    ensures r.Ok? && UserList(p, db).value != [] ==> Elems(updatekeys) == UpdateKeySet(p.config)
    ensures r.Ok? ==> SyncReport(old(trace.lines), trace.lines, calls,
                                 SyncedAccounts(p.config, users, mnethostid, UserList(p, db).value),
                                 updatekeys, outcome)
  {
    calls := [];
    updatekeys := [];
    var listed := GetUserlist(p, db);
    if listed.Err? {
      return Err(listed.error), calls, updatekeys;
    }
    var userlist := listed.value;
    if |userlist| == 0 {
      assert SyncedAccounts(p.config, users, mnethostid, userlist) == map[];
      trace.Finished();
      return Ok(true), calls, updatekeys;
    }
    updatekeys := UpdateKeys(p.config);
    var updateusers: map<int, Account> := map[];
    if updatekeys != [] {
      assert updatekeys[0] in UpdateKeySet(p.config);
      updateusers := LookupChunked(users, mnethostid, userlist);
    } else {
      assert UpdateKeySet(p.config) == Elems([]) == {};
    }
    assert updateusers == SyncedAccounts(p.config, users, mnethostid, userlist);
    calls := ReportAccounts(updateusers, updatekeys, outcome, trace);
    trace.Finished();
    r := Ok(true);
  }
}
