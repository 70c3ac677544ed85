/** The plugin's configuration and the small predicates read straight off it. */
module Settings {

  /** The plugin's stored settings (`get_config('auth_clcdb')`): option name to
      string value. */
  type Config = map<string, string>

  /** PHP's `empty()` on a setting: unset, the empty string or "0". */
  predicate Empty(cfg: Config, key: string) {
    key !in cfg || cfg[key] == "" || cfg[key] == "0"
  }

  /** A setting as PHP interpolates it into a string: an unset one reads as "". */
  function Lookup(cfg: Config, key: string): string {
    if key in cfg then cfg[key] else ""
  }

  /** The encoding every local string is kept in. */
  const Utf8 := "utf-8"

  /** The plugin instance: its settings, the standard user fields it may map
      (`$this->userfields`) and the site's custom profile fields
      (`get_custom_user_profile_fields()`). */
  datatype Plugin = Plugin(config: Config, userfields: seq<string>, customfields: seq<string>)

  /** The constructor: reads the stored settings and falls back to "utf-8"
      when the external encoding is empty. */
  function NewPlugin(stored: Config, userfields: seq<string>, customfields: seq<string>): (p: Plugin)
    ensures !Empty(p.config, "extencoding")
    ensures Empty(stored, "extencoding") ==> p.config["extencoding"] == Utf8
    ensures !Empty(stored, "extencoding") ==> p.config == stored
    ensures forall key :: key != "extencoding" ==> (key in p.config <==> key in stored)
    ensures forall key :: key != "extencoding" && key in stored ==> p.config[key] == stored[key]
    ensures p.userfields == userfields && p.customfields == customfields
  {
    var config := if Empty(stored, "extencoding") then stored["extencoding" := Utf8] else stored;
    Plugin(config, userfields, customfields)
  }

  /** The encoding of the external database. */
  function ExtEncoding(p: Plugin): string {
    Lookup(p.config, "extencoding")
  }

  /** `is_internal`: passwords are kept locally unless a password type other
      than 'internal' is set. */
  predicate IsInternal(cfg: Config)
    ensures "passtype" in cfg && Empty(cfg, "passtype") ==> !IsInternal(cfg)
    ensures IsInternal(cfg) ==> Lookup(cfg, "passtype") in {"", "internal"}
  {
    "passtype" !in cfg || cfg["passtype"] == "internal"
  }

  /** `prevent_local_passwords`: exactly when a password type other than
      'internal' is set. */
  predicate PreventLocalPasswords(cfg: Config)
    ensures PreventLocalPasswords(cfg) <==> "passtype" in cfg && cfg["passtype"] != "internal"
  {
    !IsInternal(cfg)
  }

  /** A password type is a strict comparison, not an emptiness test: a set but
      empty (or "0") password type still makes the plugin external. */
  lemma PasswordTypeIsStrict(cfg: Config)
    ensures "passtype" !in cfg ==> IsInternal(cfg) && !PreventLocalPasswords(cfg)
    ensures "passtype" in cfg ==> (IsInternal(cfg) <==> cfg["passtype"] == "internal")
    ensures "passtype" in cfg && Empty(cfg, "passtype") ==> PreventLocalPasswords(cfg)
  {
  }

  /** `is_configured`: a database driver type is set, and is neither empty
      nor "0". */
  predicate IsConfigured(cfg: Config)
    ensures IsConfigured(cfg) <==> "type" in cfg && cfg["type"] != "" && cfg["type"] != "0"
  {
    !Empty(cfg, "type")
  }

  /** Building the plugin only ever fills in the encoding, so whether it is
      configured is decided by the stored settings alone. */
  lemma ConfiguredAsStored(stored: Config, userfields: seq<string>, customfields: seq<string>)
    ensures IsConfigured(NewPlugin(stored, userfields, customfields).config) <==> IsConfigured(stored)
    ensures IsInternal(NewPlugin(stored, userfields, customfields).config) <==> IsInternal(stored)
  {
    var p := NewPlugin(stored, userfields, customfields);
    assert ("type" in p.config <==> "type" in stored) && ("passtype" in p.config <==> "passtype" in stored);
  }
}
