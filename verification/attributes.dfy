/** `db_attributes`: which local user fields are read from which external
    columns. */
module AttributeMap {
  import opened Wrappers
  import opened Php
  import opened Settings

  /** The fields `db_attributes` walks: the user fields, followed by the custom
      profile fields only when both lists are non-empty. */
  function FieldList(p: Plugin): seq<string> {
    if |p.customfields| > 0 && |p.userfields| > 0 then p.userfields + p.customfields else p.userfields
  }

  function FieldMapKey(field: string): string {
    "field_map_" + field
  }

  /** A field is mapped when its `field_map_<field>` setting is not empty. */
  predicate IsMapped(cfg: Config, field: string) {
    !Empty(cfg, FieldMapKey(field))
  }

  /** The mapped fields of `fields`, in order, repeats kept. */
  function MappedNames(cfg: Config, fields: seq<string>): seq<string> {
    if fields == [] then []
    else
      var last := fields[|fields| - 1];
      MappedNames(cfg, fields[..|fields| - 1]) + (if IsMapped(cfg, last) then [last] else [])
  }

  lemma {:induction false} MappedNamesMember(cfg: Config, fields: seq<string>, x: string)
    ensures x in MappedNames(cfg, fields) <==> x in fields && IsMapped(cfg, x)
  {
    if fields != [] {
      MappedNamesMember(cfg, fields[..|fields| - 1], x);
      assert fields == fields[..|fields| - 1] + [fields[|fields| - 1]];
    }
  }

  /** The array the loop over `fields` builds: each mapped field assigned its
      external column, in turn. */
  function MapFields(cfg: Config, fields: seq<string>): Assoc {
    if fields == [] then []
    else
      var a := MapFields(cfg, fields[..|fields| - 1]);
      var last := fields[|fields| - 1];
      if IsMapped(cfg, last) then Put(a, last, cfg[FieldMapKey(last)]) else a
  }

  /** The external column `username` is read from. */
  function UserColumn(cfg: Config): string {
    Lookup(cfg, "fielduser")
  }

  /** The result of `db_attributes`: the mapped fields, then `username`. It
      is never empty, since `username` is always mapped to the user column. */
  function Attributes(p: Plugin): (r: Assoc)
    ensures Get(r, "username") == Some(UserColumn(p.config))
    ensures |r| > 0
  {
    var a := MapFields(p.config, FieldList(p));
    PutGet(a, "username", UserColumn(p.config), "username");
    Put(a, "username", UserColumn(p.config))
  }

  lemma {:induction false} MapFieldsFacts(cfg: Config, fields: seq<string>)
    ensures Keys(MapFields(cfg, fields)) == Dedup(MappedNames(cfg, fields))
    ensures forall k :: Get(MapFields(cfg, fields), k)
                     == if k in fields && IsMapped(cfg, k) then Some(cfg[FieldMapKey(k)]) else None
  {
    if fields == [] {
      forall k ensures Get(MapFields(cfg, fields), k) == None {}
    } else {
      var init := fields[..|fields| - 1];
      var last := fields[|fields| - 1];
      var a := MapFields(cfg, init);
      MapFieldsFacts(cfg, init);
      assert fields == init + [last];
      var names := MappedNames(cfg, init);
      if IsMapped(cfg, last) {
        PutKeys(a, last, cfg[FieldMapKey(last)]);
        assert MappedNames(cfg, fields) == names + [last];
        assert (names + [last])[..|names + [last]| - 1] == names;
        forall k ensures Get(MapFields(cfg, fields), k)
                      == if k in fields && IsMapped(cfg, k) then Some(cfg[FieldMapKey(k)]) else None
        {
          PutGet(a, last, cfg[FieldMapKey(last)], k);
        }
      } else {
        assert MappedNames(cfg, fields) == names + [];
        assert names + [] == names;
      }
    }
  }

  /** What `db_attributes` promises: distinct local names; `username` always
      mapped to the user column, whatever `field_map_username` says; every
      other key a listed field with a non-empty `field_map_<key>`, mapped to
      it; keys in first-listed order with `username` written last, which puts
      it last unless it was already among the mapped fields. */
  lemma AttributesFacts(p: Plugin)
    ensures Distinct(Keys(Attributes(p)))
    ensures Keys(Attributes(p)) == Dedup(MappedNames(p.config, FieldList(p)) + ["username"])
    ensures Get(Attributes(p), "username") == Some(UserColumn(p.config))
    ensures forall k :: k != "username" ==>
              Get(Attributes(p), k)
              == if k in FieldList(p) && IsMapped(p.config, k) then Some(p.config[FieldMapKey(k)]) else None
    ensures !("username" in FieldList(p) && IsMapped(p.config, "username")) ==>
              Keys(Attributes(p))[|Attributes(p)| - 1] == "username"
  {
    var cfg := p.config;
    var names := MappedNames(cfg, FieldList(p));
    var a := MapFields(cfg, FieldList(p));
    MapFieldsFacts(cfg, FieldList(p));
    PutKeys(a, "username", UserColumn(cfg));
    forall k ensures Get(Attributes(p), k) == if k == "username" then Some(UserColumn(cfg)) else Get(a, k) {
      PutGet(a, "username", UserColumn(cfg), k);
    }
    assert (names + ["username"])[..|names + ["username"]| - 1] == names;
    MappedNamesMember(cfg, FieldList(p), "username");
    if "username" !in names {
      assert !Has(a, "username");
      assert Keys(Attributes(p)) == Keys(a) + ["username"];
    }
  }

  /** With no user fields the custom profile fields are not merged in, so only
      `username` is mapped. */
  lemma NoUserFieldsOnlyUsername(p: Plugin)
    requires |p.userfields| == 0
    ensures Attributes(p) == [("username", UserColumn(p.config))]
  {
    assert FieldList(p) == [];
  }

  /** When there are user fields, every custom profile field with a column
      configured is mapped. */
  lemma CustomFieldsMerged(p: Plugin, field: string)
    requires |p.userfields| > 0 && field in p.customfields && field != "username"
    requires IsMapped(p.config, field)
    ensures Get(Attributes(p), field) == Some(p.config[FieldMapKey(field)])
  {
    AttributesFacts(p);
    assert field in FieldList(p);
  }

  /** `db_attributes` as the source runs it: one pass over the fields. */
  method DbAttributes(p: Plugin) returns (attrs: Assoc)
    ensures attrs == Attributes(p)
    ensures Distinct(Keys(attrs))
    ensures Get(attrs, "username") == Some(UserColumn(p.config))
  {
    var userfields: seq<string>;
    if |p.customfields| > 0 && |p.userfields| > 0 {
      userfields := p.userfields + p.customfields;
    } else {
      userfields := p.userfields;
    }
    attrs := [];
    for i := 0 to |userfields|
      invariant attrs == MapFields(p.config, userfields[..i])
    {
      assert userfields[..i + 1][..i] == userfields[..i];
      var field := userfields[i];
      if !Empty(p.config, FieldMapKey(field)) {
        attrs := Put(attrs, field, p.config[FieldMapKey(field)]);
      }
    }
    assert userfields[..|userfields|] == userfields;
    attrs := Put(attrs, "username", Lookup(p.config, "fielduser"));
    AttributesFacts(p);
  }
}
