/** The translation table (src/i18n/locale_manager.cpp): reading a locale
    file of `key="value"` lines into a map, and looking a key up with a
    fallback. Which file is opened (the requested locale, else en-US) is I/O
    and not modelled: the loader is given the lines of the file that opened,
    or nothing when neither did. */
module Locale {
  import opened Wrappers
  import opened Text
  import opened Rules

  /** `QChar::isSpace` on the characters a locale file holds: the C
      whitespace characters, NEL and NO-BREAK SPACE. */
  predicate IsSpace(c: char) {
    c == ' ' || c == '\t' || c == '\n' || c == '\U{B}' || c == '\U{C}' || c == '\r'
      || c == '\U{85}' || c == '\U{A0}'
  }

  /** `s` without its leading whitespace. */
  function TrimStart(s: string): (r: string)
    ensures |r| <= |s| && r == s[|s| - |r|..]
    ensures forall i :: 0 <= i < |s| - |r| ==> IsSpace(s[i])
    ensures r != [] ==> !IsSpace(r[0])
  {
    if s != [] && IsSpace(s[0]) then
      var r := TrimStart(s[1..]);
      assert forall i :: 1 <= i < |s| - |r| ==> s[i] == s[1..][i - 1];
      r
    else s
  }

  /** `s` without its trailing whitespace. */
  function TrimEnd(s: string): (r: string)
    ensures |r| <= |s| && r == s[..|r|]
    ensures forall i :: |r| <= i < |s| ==> IsSpace(s[i])
    ensures r != [] ==> !IsSpace(r[|r| - 1])
  {
    if s != [] && IsSpace(s[|s| - 1]) then TrimEnd(s[..|s| - 1]) else s
  }

  /** `QString::trimmed`: whitespace removed from both ends. */
  function Trim(s: string): (r: string)
    ensures r != [] ==> !IsSpace(r[0]) && !IsSpace(r[|r| - 1])
  {
    var t := TrimStart(s);
    var r := TrimEnd(t);
    assert r != [] ==> r[0] == t[0];
    r
  }

  /** Trimming leaves nothing exactly when the line is all whitespace. */
  lemma TrimEmptyIffBlank(s: string)
    ensures Trim(s) == [] <==> forall i :: 0 <= i < |s| ==> IsSpace(s[i])
  {
    var t := TrimStart(s);
    assert t != [] ==> TrimEnd(t) != [] by {
      if t != [] {
        assert !IsSpace(t[0]);
      }
    }
  }

  /** A string that neither starts nor ends with whitespace is its own
      trimmed form. */
  lemma TrimUntouched(s: string)
    requires s != [] && !IsSpace(s[0]) && !IsSpace(s[|s| - 1])
    ensures Trim(s) == s
  {
  }

  /** Every character of `t` is whitespace. */
  predicate AllSpace(t: string) {
    forall i :: 0 <= i < |t| ==> IsSpace(t[i])
  }

  /** Trimming text padded with whitespace on either side gives the text
      back. Every line that is not all whitespace is such a padding of
      exactly one such text, so with `TrimEmptyIffBlank` this pins `Trim`
      down on every input. */
  lemma TrimPadded(lead: string, text: string, trail: string)
    requires AllSpace(lead) && AllSpace(trail)
    requires text != [] && !IsSpace(text[0]) && !IsSpace(text[|text| - 1])
    ensures Trim(lead + text + trail) == text
  {
    var padded := lead + text + trail;
    assert padded == lead + (text + trail) && (text + trail)[0] == text[0];
    TrimStartPadded(lead, text + trail);
    TrimEndPadded(text, trail);
    assert Trim(padded) == TrimEnd(text + trail);
  }

  /** `TrimStart` removes exactly a whitespace prefix in front of text that
      does not start with whitespace. */
  lemma {:induction false} TrimStartPadded(lead: string, u: string)
    requires AllSpace(lead)
    requires u != [] && !IsSpace(u[0])
    ensures TrimStart(lead + u) == u
    decreases |lead|
  {
    if lead == [] {
      assert lead + u == u;
    } else {
      assert (lead + u)[1..] == lead[1..] + u;
      TrimStartPadded(lead[1..], u);
    }
  }

  /** `TrimEnd` removes exactly a whitespace suffix behind text that does
      not end with whitespace. */
  lemma {:induction false} TrimEndPadded(u: string, trail: string)
    requires AllSpace(trail)
    requires u != [] && !IsSpace(u[|u| - 1])
    ensures TrimEnd(u + trail) == u
    decreases |trail|
  {
    if trail == [] {
      assert u + trail == u;
    } else {
      var init := trail[..|trail| - 1];
      assert (u + trail)[..|u + trail| - 1] == u + init;
      TrimEndPadded(u, init);
    }
  }

  /** Trimming twice is trimming once. */
  lemma TrimIdempotent(s: string)
    ensures Trim(Trim(s)) == Trim(s)
  {
    if Trim(s) != [] {
      TrimUntouched(Trim(s));
    }
  }

  /** Removes one pair of surrounding double quotes. A lone `"` satisfies
      both tests and becomes empty, as `QString::mid(1, -1)` returns
      everything after the first character. */
  function Unquote(v: string): (r: string)
    ensures |v| >= 2 && v[0] == '"' && v[|v| - 1] == '"' ==> ['"'] + r + ['"'] == v
    ensures !(v != [] && v[0] == '"' && v[|v| - 1] == '"') ==> r == v
    ensures v == ['"'] ==> r == []
  {
    if v != [] && v[0] == '"' && v[|v| - 1] == '"' then
      (if |v| >= 2 then v[1..|v| - 1] else [])
    else v
  }

  /** Quoting a value and unquoting it gives the value back, whatever it
      holds (quotes and '=' included). */
  lemma UnquoteQuoted(value: string)
    ensures Unquote(['"'] + value + ['"']) == value
  {
    var q := ['"'] + value + ['"'];
    assert q[1..|q| - 1] == value;
  }

  /** The entry one line of the file contributes: none for a blank line, a
      comment, a line without '=' or one starting with '='; otherwise the
      trimmed text before the first '=' as key and the trimmed, unquoted
      rest as value. */
  function ParseLine(raw: string): (r: Option<(string, string)>)
    ensures r.Some? <==> (var line := Trim(raw);
      line != [] && line[0] != '#' && '=' in line && line[0] != '=')
    ensures r.Some? ==> (r.value.0 != [] && '=' !in r.value.0
                         && !IsSpace(r.value.0[0]) && !IsSpace(r.value.0[|r.value.0| - 1]))
  {
    var line := Trim(raw);
    if line == [] || line[0] == '#' then None
    else if '=' !in line then None
    else
      var equalPos := FirstIndex(line, '=');
      if equalPos == 0 then None
      else
        assert !IsSpace(line[0]) && line[..equalPos][0] == line[0];
        Some((Trim(line[..equalPos]), Unquote(Trim(line[equalPos + 1..]))))
  }

  /** The line a locale file holds for `key` and `value`: `key="value"`. */
  function EntryLine(key: string, value: string): string {
    key + ['='] + ['"'] + value + ['"']
  }

  /** Round trip: a well-formed key (non-empty, no '=', not a comment, no
      surrounding whitespace) written with any value parses back to exactly
      that key and value; the value may itself contain '='. */
  lemma ParseEntryLine(key: string, value: string)
    requires key != [] && '=' !in key && key[0] != '#'
    requires !IsSpace(key[0]) && !IsSpace(key[|key| - 1])
    ensures ParseLine(EntryLine(key, value)) == Some((key, value))
  {
    var line := EntryLine(key, value);
    TrimUntouched(line);
    assert line == key + ['='] + (['"'] + value + ['"']);
    FirstIndexAfterPrefix(key, '=', ['"'] + value + ['"']);
    assert line[..|key|] == key;
    TrimUntouched(key);
    var quoted := ['"'] + value + ['"'];
    assert line[|key| + 1..] == quoted;
    TrimUntouched(quoted);
    UnquoteQuoted(value);
  }

  /** The entries of a file, one per line. */
  function Entries(lines: seq<string>): (es: seq<Option<(string, string)>>)
    ensures |es| == |lines|
    ensures forall i :: 0 <= i < |lines| ==> es[i] == ParseLine(lines[i])
  {
    seq(|lines|, i requires 0 <= i < |lines| => ParseLine(lines[i]))
  }

  /** The table a file's lines produce: later lines overwrite earlier ones. */
  function Table(lines: seq<string>): (t: map<string, string>)
    ensures forall k :: k in t ==> exists i :: 0 <= i < |lines| && ParseLine(lines[i]) == Some((k, t[k]))
  {
    var t := Collect(Entries(lines));
    assert forall k :: k in t ==> exists i :: 0 <= i < |lines| && ParseLine(lines[i]) == Some((k, t[k])) by {
      forall k | k in t
        ensures exists i :: 0 <= i < |lines| && ParseLine(lines[i]) == Some((k, t[k]))
      {
        CollectedFromLine(lines, k);
      }
    }
    t
  }

  /** A key collected from a file's entries comes, with its text, from one of
      its lines. */
  lemma CollectedFromLine(lines: seq<string>, k: string)
    requires k in Collect(Entries(lines))
    ensures exists i :: 0 <= i < |lines| && ParseLine(lines[i]) == Some((k, Collect(Entries(lines))[k]))
  {
    var es := Entries(lines);
    var i :| HasKeyAt(es, i, k) && es[i].value.1 == Collect(es)[k];
    assert ParseLine(lines[i]) == es[i];
  }

  /** A line that parses to nothing leaves the table as it was. */
  lemma SkippedLineAddsNothing(lines: seq<string>, raw: string)
    requires ParseLine(raw) == None
    ensures Table(lines + [raw]) == Table(lines)
  {
    assert Entries(lines + [raw]) == Entries(lines) + [None];
    CollectSnoc(Entries(lines), None);
  }

  /** The line `raw` is an entry for `key`. */
  predicate Defines(raw: string, key: string) {
    ParseLine(raw).Some? && ParseLine(raw).value.0 == key
  }

  /** A key is in the table exactly when some line defines it. */
  lemma TableKeys(lines: seq<string>, key: string)
    ensures key in Table(lines) <==> exists i :: 0 <= i < |lines| && Defines(lines[i], key)
  {
    var es := Entries(lines);
    CollectKeys(es, key);
    if key in Table(lines) {
      var i :| HasKeyAt(es, i, key);
      assert Defines(lines[i], key);
    } else {
      forall i | 0 <= i < |lines| ensures !Defines(lines[i], key) {
        assert !HasKeyAt(es, i, key);
      }
    }
  }

  /** Reading one more line extends the table by that line's entry, if any. */
  lemma TableStep(lines: seq<string>, i: nat)
    requires i < |lines|
    ensures Table(lines[..i + 1]) ==
      match ParseLine(lines[i]) case None => Table(lines[..i]) case Some(kv) => Table(lines[..i])[kv.0 := kv.1]
  {
    assert Entries(lines[..i + 1]) == Entries(lines[..i]) + [ParseLine(lines[i])];
    CollectSnoc(Entries(lines[..i]), ParseLine(lines[i]));
  }

  /** The last line that defines a key decides its value. */
  lemma TableLastWins(lines: seq<string>, i: nat, key: string, value: string)
    requires i < |lines| && ParseLine(lines[i]) == Some((key, value))
    requires forall j :: i < j < |lines| ==> !Defines(lines[j], key)
    ensures key in Table(lines) && Table(lines)[key] == value
  {
    var es := Entries(lines);
    forall j | i < j < |es| ensures !HasKeyAt(es, j, key) {
      assert es[j] == ParseLine(lines[j]) && !Defines(lines[j], key);
    }
    assert es[i] == Some((key, value));
    CollectLastWins(es, i, key, value);
  }

  /** `LocaleManager`: the table of translations, replaced on each load. */
  class LocaleManager {
    var translations: map<string, string>

    /** The constructor loads the locale OBS reports (or en-US). */
    constructor (file: Option<seq<string>>)
      ensures translations == if file.None? then map[] else Table(file.value)
    {
      translations := map[];
      new;
      LoadLocale(file);
    }

    /** `loadLocale`: clears the table, then reads the file line by line.
        When no file could be opened the table stays empty, so a reload
        replaces the previous table and never merges with it. */
    method LoadLocale(file: Option<seq<string>>)
      modifies this
      ensures translations == if file.None? then map[] else Table(file.value)
    {
      translations := map[];
      if file.None? {
        return;
      }
      var lines := file.value;
      var i := 0;
      while i < |lines|
        invariant 0 <= i <= |lines|
        invariant translations == Table(lines[..i])
      {
        var line := Trim(lines[i]);
        TableStep(lines, i);
        i := i + 1;
        if line == [] || line[0] == '#' {
          continue;
        }
        if '=' in line {
          var equalPos := FirstIndex(line, '=');
          if equalPos > 0 {
            var key := Trim(line[..equalPos]);
            var value := Trim(line[equalPos + 1..]);
            if value != [] && value[0] == '"' && value[|value| - 1] == '"' {
              value := if |value| >= 2 then value[1..|value| - 1] else [];
            }
            translations := translations[key := value];
          }
        }
      }
      assert lines[..i] == lines;
    }

    /** `translate(key, fallback)`: the stored text for a known key,
        otherwise the fallback, or the key itself when the fallback is
        empty; so the result is empty only for a stored empty text or an
        empty key without fallback. */
    function Translate(key: string, fallback: string): (r: string)
      reads this
      ensures key in translations ==> r == translations[key]
      ensures key !in translations ==> r == (if fallback == [] then key else fallback)
      ensures r == [] ==> (key in translations && translations[key] == []) || (key == [] && fallback == [])
    {
      if key in translations then translations[key] else if fallback == [] then key else fallback
    }
  }

  /** After loading a file, a key some line defines translates to the value
      of the last such line; a key no line defines falls back. */
  lemma TranslateAfterLoad(m: LocaleManager, lines: seq<string>, key: string, fallback: string)
    requires m.translations == Table(lines)
    ensures (forall i :: 0 <= i < |lines| ==> !Defines(lines[i], key))
      ==> m.Translate(key, fallback) == (if fallback == [] then key else fallback)
    ensures forall i :: (0 <= i < |lines| && Defines(lines[i], key)
                         && (forall j :: i < j < |lines| ==> !Defines(lines[j], key)))
                        ==> m.Translate(key, fallback) == ParseLine(lines[i]).value.1
  {
    TableKeys(lines, key);
    forall i | 0 <= i < |lines| && Defines(lines[i], key) && (forall j :: i < j < |lines| ==> !Defines(lines[j], key))
      ensures m.Translate(key, fallback) == ParseLine(lines[i]).value.1
    {
      TableLastWins(lines, i, key, ParseLine(lines[i]).value.1);
    }
  }
}
