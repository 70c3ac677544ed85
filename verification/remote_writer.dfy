/** `user_update`: pushing a user's locally changed fields back to the
    external table. */
module RemoteWriter {
  import opened Wrappers
  import opened Php
  import opened Settings
  import opened Escaping
  import opened AttributeMap
  import opened Reader

  /** A property of a user object: a plain value, or an editor field (an array
      whose 'text' entry holds the value). */
  datatype UserValue = Scalar(s: string) | TextArea(text: string)

  /** A user record as passed to `user_update`: its username, when set, and
      its other properties. */
  datatype UserObject = UserObject(username: Option<string>, fields: map<string, UserValue>)

  /** `$olduser->username`, an unset one reading as null, that is "". */
  function UsernameText(u: UserObject): string {
    if u.username.Some? then u.username.value else ""
  }

  /** The value compared and written: the 'text' entry of an editor field. */
  function NewValue(v: UserValue): string {
    match v
      case Scalar(s) => s
      case TextArea(t) => t
  }

  function UpdateRemoteKey(field: string): string {
    "field_updateremote_" + field
  }

  /** Remote update is requested for a field when its `field_updateremote_`
      setting is not empty. */
  predicate PushesRemotely(cfg: Config, field: string) {
    !Empty(cfg, UpdateRemoteKey(field))
  }

  /** Whether the loop writes `key`, currently `value` externally, back: the
      values are compared with PHP's loose `!=`. */
  predicate Pushed(cfg: Config, newuser: UserObject, key: string, value: string) {
    && key != "username"
    && PushesRemotely(cfg, key)
    && key in newuser.fields
    && !LooseEquals(NewValue(newuser.fields[key]), value)
  }

  /** The fields the loop over the current external record writes, each with
      its new value, in record order. */
  function Changes(cfg: Config, curr: Assoc, newuser: UserObject): (r: seq<(string, string)>)
    ensures |r| <= |curr|
    ensures forall c :: c in r ==>
              && c.0 != "username" && PushesRemotely(cfg, c.0) && c.0 in newuser.fields
              && c.1 == NewValue(newuser.fields[c.0])
  {
    if curr == [] then []
    else
      var last := curr[|curr| - 1];
      Changes(cfg, curr[..|curr| - 1], newuser)
      + (if Pushed(cfg, newuser, last.0, last.1) then [(last.0, NewValue(newuser.fields[last.0]))] else [])
  }

  /** `column='escaped value'` for one changed field. */
  function Assignment(p: Plugin, convert: Converter, change: (string, string)): string {
    Lookup(p.config, FieldMapKey(change.0)) + "='"
    + ExtAddSlashes(p.config, convert(change.1, Utf8, ExtEncoding(p))) + "'"
  }

  function Assignments(p: Plugin, convert: Converter, changes: seq<(string, string)>): seq<string> {
    seq(|changes|, i requires 0 <= i < |changes| => Assignment(p, convert, changes[i]))
  }

  /** The statement `user_update` issues (line breaks written as spaces). */
  function UpdateSql(cfg: Config, assignments: seq<string>, extusername: string): string {
    "UPDATE " + Lookup(cfg, "table") + " SET " + Implode(",", assignments)
    + " WHERE " + UserColumn(cfg) + "='" + ExtAddSlashes(cfg, extusername) + "'"
  }

  /** What `user_update` returns and the UPDATE it issues, if any. */
  datatype RemoteWrite = RemoteWrite(result: bool, statement: Option<string>)

  /** Both usernames are set and they differ under PHP's loose `!=`. */
  predicate RenamesUser(olduser: UserObject, newuser: UserObject) {
    olduser.username.Some? && newuser.username.Some?
    && !LooseEquals(olduser.username.value, newuser.username.value)
  }

  /** Two numeric usernames are a rename exactly when PHP reads them as
      different numbers: "0123" to "123" is not one, so such an update goes
      on to compare the fields. */
  lemma NumericUsernameNotRenamed(olduser: UserObject, newuser: UserObject)
    requires olduser.username.Some? && newuser.username.Some?
    requires DecimalDigits(olduser.username.value) && DecimalDigits(newuser.username.value)
    ensures RenamesUser(olduser, newuser)
            <==> ParseDecimal(olduser.username.value) != ParseDecimal(newuser.username.value)
  {
  }

  /** A change is written exactly for a field of the current external record,
      other than `username`, whose remote update is requested, that the new
      user object sets, and whose new value differs from the current one. */
  lemma {:induction false} ChangesExactly(cfg: Config, curr: Assoc, newuser: UserObject)
    ensures forall c :: c in Changes(cfg, curr, newuser) ==>
              exists i :: 0 <= i < |curr| && curr[i].0 == c.0 && Pushed(cfg, newuser, curr[i].0, curr[i].1)
                          && c.1 == NewValue(newuser.fields[c.0])
    ensures forall i :: 0 <= i < |curr| && Pushed(cfg, newuser, curr[i].0, curr[i].1) ==>
              (curr[i].0, NewValue(newuser.fields[curr[i].0])) in Changes(cfg, curr, newuser)
  {
    if curr != [] {
      var init := curr[..|curr| - 1];
      ChangesExactly(cfg, init, newuser);
      forall c | c in Changes(cfg, curr, newuser)
        ensures exists i :: 0 <= i < |curr| && curr[i].0 == c.0 && Pushed(cfg, newuser, curr[i].0, curr[i].1)
                            && c.1 == NewValue(newuser.fields[c.0])
      {
        if c in Changes(cfg, init, newuser) {
          var i :| 0 <= i < |init| && init[i].0 == c.0 && Pushed(cfg, newuser, init[i].0, init[i].1)
                   && c.1 == NewValue(newuser.fields[c.0]);
          assert curr[i] == init[i];
        } else {
          assert curr[|curr| - 1].0 == c.0;
        }
      }
      forall i | 0 <= i < |curr| && Pushed(cfg, newuser, curr[i].0, curr[i].1)
        ensures (curr[i].0, NewValue(newuser.fields[curr[i].0])) in Changes(cfg, curr, newuser)
      {
        if i < |init| {
          assert init[i] == curr[i];
        }
      }
    }
  }

  /** One more external field: its change, if any, comes after the earlier ones. */
  lemma ChangesStep(cfg: Config, curr: Assoc, newuser: UserObject, i: nat)
    requires i < |curr|
    ensures Changes(cfg, curr[..i + 1], newuser)
            == Changes(cfg, curr[..i], newuser)
               + (if Pushed(cfg, newuser, curr[i].0, curr[i].1) then [(curr[i].0, NewValue(newuser.fields[curr[i].0]))] else [])
  {
    assert curr[..i + 1][..i] == curr[..i];
  }

  /** Appending one change appends its assignment. */
  lemma AssignmentsAppend(p: Plugin, convert: Converter, changes: seq<(string, string)>, c: (string, string))
    ensures Assignments(p, convert, changes + [c]) == Assignments(p, convert, changes) + [Assignment(p, convert, c)]
  {
  }

  /** The `foreach ($curruser as $key => $value)` loop: one assignment per
      changed field, in the order of the current external record. */
  method CollectUpdates(p: Plugin, convert: Converter, curruser: Assoc, newuser: UserObject)
    returns (update: seq<string>)
    ensures update == Assignments(p, convert, Changes(p.config, curruser, newuser))
  {
    update := [];
    ghost var changes: seq<(string, string)> := [];
    for i := 0 to |curruser|
      invariant changes == Changes(p.config, curruser[..i], newuser)
      invariant update == Assignments(p, convert, changes)
    {
      ChangesStep(p.config, curruser, newuser, i);
      var key, value := curruser[i].0, curruser[i].1;
      if key == "username" {
        continue;
      }
      if Empty(p.config, "field_updateremote_" + key) {
        continue;
      }
      if key !in newuser.fields {
        continue;
      }
      var nuvalue := match newuser.fields[key] case Scalar(s) => s case TextArea(t) => t;
      if !LooseEquals(nuvalue, value) {
        AssignmentsAppend(p, convert, changes, (key, nuvalue));
        update := update + [Lookup(p.config, "field_map_" + key) + "='"
          + ExtAddSlashes(p.config, convert(nuvalue, Utf8, ExtEncoding(p))) + "'"];
        changes := changes + [(key, nuvalue)];
      }
    }
    assert curruser[..|curruser|] == curruser;
  }

  /** `user_update`: a rename is refused (false, nothing sent) before anything
      else; an unconfigured plugin throws; a user unknown externally gives
      false; otherwise the result is true and one UPDATE, filtered on the old
      username, carries every changed field, and none is sent when nothing
      changed. */
  method UserUpdate(p: Plugin, convert: Converter, db: ExtDb, olduser: UserObject, newuser: UserObject)
    returns (r: Result<RemoteWrite>)
    ensures RenamesUser(olduser, newuser) ==> r == Ok(RemoteWrite(false, None))
    ensures !RenamesUser(olduser, newuser) && !IsConfigured(p.config) ==> r == Err(CantConnect)
    ensures !RenamesUser(olduser, newuser) && IsConfigured(p.config) ==>
              var curr := UserInfo(p, convert, db, UsernameText(olduser)).value;
              var changes := Changes(p.config, curr, newuser);
              var extusername := convert(UsernameText(olduser), Utf8, ExtEncoding(p));
              r == if curr == [] then Ok(RemoteWrite(false, None))
                   else if changes == [] then Ok(RemoteWrite(true, None))
                   else Ok(RemoteWrite(true, Some(UpdateSql(p.config, Assignments(p, convert, changes), extusername))))
  {
    if olduser.username.Some? && newuser.username.Some?
       && !LooseEquals(olduser.username.value, newuser.username.value) {
      return Ok(RemoteWrite(false, None));
    }
    var info := GetUserinfo(p, convert, db, UsernameText(olduser));
    if info.Err? {
      return Err(info.error);
    }
    var curruser := info.value;
    if curruser == [] {
      return Ok(RemoteWrite(false, None));
    }
    var extusername := convert(UsernameText(olduser), Utf8, ExtEncoding(p));
    var update := CollectUpdates(p, convert, curruser, newuser);
    var statement: Option<string> := None;
    if update != [] {
      statement := Some("UPDATE " + Lookup(p.config, "table") + " SET " + Implode(",", update)
        + " WHERE " + Lookup(p.config, "fielduser") + "='" + ExtAddSlashes(p.config, extusername) + "'");
    }
    r := Ok(RemoteWrite(true, statement));
  }
}
