/** `ext_addslashes`: how a value is turned into the body of a single-quoted
    SQL literal, and the two readings of such a literal that recover it. */
module Escaping {
  import opened Wrappers
  import opened Php
  import opened Settings

  /** Doubled-quote ("sybase") quoting is on unless the setting is empty. */
  predicate SybaseQuoting(cfg: Config) {
    !Empty(cfg, "sybasequoting")
  }

  /** `ext_addslashes` as the source writes it: in backslash mode one
      `str_replace` doubling backslashes, then one whose arrays escape the
      quote, the double quote and NUL in turn over the whole string; in sybase
      mode one `str_replace` doubling single quotes. The backslash mode comes
      to one per-character escape; the sybase mode adds one character per
      quote. */
  function ExtAddSlashes(cfg: Config, text: string): (r: string)
    ensures !SybaseQuoting(cfg) ==> r == EscapeEach(text)
    ensures SybaseQuoting(cfg) ==> |r| == |text| + CountChar('\'', text)
  {
    if !SybaseQuoting(cfg) then
      BackslashChainIsPerChar(text);
      var t := StrReplace('\\', "\\\\", text);
      var t := StrReplace('\'', "\\'", t);
      var t := StrReplace('"', "\\\"", t);
      StrReplace('\0', "\\0", t)
    else
      StrReplace('\'', "''", text)
  }

  /** The backslash escape of one character. */
  function EscapeChar(c: char): string {
    if c == '\\' then "\\\\"
    else if c == '\'' then "\\'"
    else if c == '"' then "\\\""
    else if c == '\0' then "\\0"
    else [c]
  }

  /** Backslash escaping as one pass over the characters. */
  function EscapeEach(s: string): string {
    if s == [] then [] else EscapeChar(s[0]) + EscapeEach(s[1..])
  }

  /** The four replacements of the backslash-escaping sequence, applied to one
      character. */
  function BackslashChain(s: string): string {
    StrReplace('\0', "\\0", StrReplace('"', "\\\"", StrReplace('\'', "\\'", StrReplace('\\', "\\\\", s))))
  }

  lemma {:induction false} BackslashChainAppend(a: string, b: string)
    ensures BackslashChain(a + b) == BackslashChain(a) + BackslashChain(b)
  {
    StrReplaceAppend('\\', "\\\\", a, b);
    var a1, b1 := StrReplace('\\', "\\\\", a), StrReplace('\\', "\\\\", b);
    StrReplaceAppend('\'', "\\'", a1, b1);
    var a2, b2 := StrReplace('\'', "\\'", a1), StrReplace('\'', "\\'", b1);
    StrReplaceAppend('"', "\\\"", a2, b2);
    var a3, b3 := StrReplace('"', "\\\"", a2), StrReplace('"', "\\\"", b2);
    StrReplaceAppend('\0', "\\0", a3, b3);
  }

  lemma StrReplaceOne(search: char, replace: string, c: char)
    ensures StrReplace(search, replace, [c]) == if c == search then replace else [c]
  {
    assert [c][1..] == [];
  }

  lemma StrReplaceTwo(search: char, replace: string, c: char, d: char)
    ensures StrReplace(search, replace, [c, d])
         == (if c == search then replace else [c]) + (if d == search then replace else [d])
  {
    assert [c, d] == [c] + [d];
    StrReplaceAppend(search, replace, [c], [d]);
    StrReplaceOne(search, replace, c);
    StrReplaceOne(search, replace, d);
  }

  /** The chain of replacements never rewrites what an earlier one produced, so
      on a single character it is that character's escape. */
  lemma BackslashChainChar(c: char)
    ensures BackslashChain([c]) == EscapeChar(c)
  {
    StrReplaceOne('\\', "\\\\", c);
    if c == '\\' {
      StrReplaceTwo('\'', "\\'", '\\', '\\');
      StrReplaceTwo('"', "\\\"", '\\', '\\');
      StrReplaceTwo('\0', "\\0", '\\', '\\');
    } else {
      StrReplaceOne('\'', "\\'", c);
      if c == '\'' {
        StrReplaceTwo('"', "\\\"", '\\', '\'');
        StrReplaceTwo('\0', "\\0", '\\', '\'');
      } else {
        StrReplaceOne('"', "\\\"", c);
        if c == '"' {
          StrReplaceTwo('\0', "\\0", '\\', '"');
        } else {
          StrReplaceOne('\0', "\\0", c);
        }
      }
    }
  }

  /** The sequential `str_replace` calls equal a single per-character map. */
  lemma {:induction false} BackslashChainIsPerChar(s: string)
    ensures BackslashChain(s) == EscapeEach(s)
  {
    if s != [] {
      assert s == [s[0]] + s[1..];
      BackslashChainAppend([s[0]], s[1..]);
      BackslashChainChar(s[0]);
      BackslashChainIsPerChar(s[1..]);
    }
  }

  function Prepend(c: char, r: Option<string>): Option<string> {
    if r.Some? then Some([c] + r.value) else None
  }

  /** The character a backslash pair stands for in a backslash-quoted literal. */
  function Unescaped(c: char): Option<char> {
    if c == '\\' then Some('\\')
    else if c == '\'' then Some('\'')
    else if c == '"' then Some('"')
    else if c == '0' then Some('\0')
    else None
  }

  /** Reads the body of a backslash-quoted literal back into the value; None
      when a bare quote would end the literal early, when a lone trailing
      backslash would escape the closing quote, or on an unknown escape. */
  function UnescapeBackslash(t: string): Option<string>
    decreases |t|
  {
    if t == [] then Some([])
    else if t[0] == '\'' then None
    else if t[0] != '\\' then Prepend(t[0], UnescapeBackslash(t[1..]))
    else if |t| < 2 then None
    else match Unescaped(t[1])
      case None => None
      case Some(c) => Prepend(c, UnescapeBackslash(t[2..]))
  }

  /** Reads the body of a doubled-quote literal back: `''` stands for one quote,
      a lone quote would end the literal. */
  function UnescapeSybase(t: string): Option<string>
    decreases |t|
  {
    if t == [] then Some([])
    else if t[0] != '\'' then Prepend(t[0], UnescapeSybase(t[1..]))
    else if |t| >= 2 && t[1] == '\'' then Prepend('\'', UnescapeSybase(t[2..]))
    else None
  }

  /** The literal body as the configured backend reads it. */
  function UnescapeLiteral(cfg: Config, t: string): Option<string> {
    if SybaseQuoting(cfg) then UnescapeSybase(t) else UnescapeBackslash(t)
  }

  /** What a backslash-quoting backend's lexer accepts inside '...': every
      backslash takes the next character with it and no quote stands alone. */
  predicate QuoteSafe(t: string)
    decreases |t|
  {
    if t == [] then true
    else if t[0] == '\\' then |t| >= 2 && QuoteSafe(t[2..])
    else t[0] != '\'' && QuoteSafe(t[1..])
  }

  lemma {:induction false} EscapeEachRoundTrip(s: string)
    ensures UnescapeBackslash(EscapeEach(s)) == Some(s)
  {
    if s != [] {
      var e := EscapeEach(s);
      EscapeEachRoundTrip(s[1..]);
      if EscapeChar(s[0]) == [s[0]] {
        assert e[1..] == EscapeEach(s[1..]);
      } else {
        assert e[2..] == EscapeEach(s[1..]);
      }
      assert s == [s[0]] + s[1..];
    }
  }

  lemma {:induction false} EscapeEachQuoteSafe(s: string)
    ensures QuoteSafe(EscapeEach(s))
  {
    if s != [] {
      var e := EscapeEach(s);
      EscapeEachQuoteSafe(s[1..]);
      if EscapeChar(s[0]) == [s[0]] {
        assert e[1..] == EscapeEach(s[1..]);
      } else {
        assert e[2..] == EscapeEach(s[1..]);
      }
    }
  }

  lemma {:induction false} SybaseRoundTrip(s: string)
    ensures UnescapeSybase(StrReplace('\'', "''", s)) == Some(s)
    ensures |StrReplace('\'', "''", s)| == |s| + CountChar('\'', s)
  {
    if s != [] {
      var e := StrReplace('\'', "''", s);
      SybaseRoundTrip(s[1..]);
      if s[0] == '\'' {
        assert e[2..] == StrReplace('\'', "''", s[1..]);
      } else {
        assert e[1..] == StrReplace('\'', "''", s[1..]);
      }
      assert s == [s[0]] + s[1..];
    }
  }

  /** In backslash mode no quote of the output can close the literal, and
      reading the escapes back gives the input. */
  lemma BackslashModeSafe(cfg: Config, s: string)
    requires !SybaseQuoting(cfg)
    ensures QuoteSafe(ExtAddSlashes(cfg, s))
    ensures UnescapeBackslash(ExtAddSlashes(cfg, s)) == Some(s)
  {
    EscapeEachQuoteSafe(s);
    EscapeEachRoundTrip(s);
  }

  /** In sybase mode every quote is doubled and nothing else changes (a
      backslash or NUL passes through), so the output grows by the number of
      quotes and collapsing `''` gives the input back. */
  lemma SybaseModeSafe(cfg: Config, s: string)
    requires SybaseQuoting(cfg)
    ensures ExtAddSlashes(cfg, s) == StrReplace('\'', "''", s)
    ensures |ExtAddSlashes(cfg, s)| == |s| + CountChar('\'', s)
    ensures UnescapeSybase(ExtAddSlashes(cfg, s)) == Some(s)
  {
    SybaseRoundTrip(s);
  }

  /** Under either quoting style the backend reads the escaped literal back as
      the original value. */
  lemma ExtAddSlashesRoundTrip(cfg: Config, s: string)
    ensures UnescapeLiteral(cfg, ExtAddSlashes(cfg, s)) == Some(s)
  {
    if SybaseQuoting(cfg) {
      SybaseModeSafe(cfg, s);
    } else {
      BackslashModeSafe(cfg, s);
    }
  }
}
