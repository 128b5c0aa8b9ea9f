/** What each line of a metrics text does, spelled out: which family takes a sample, what HELP and
    TYPE leave, which lines leave nothing, and what unusual samples and labels come to. */
module PromFiling {
  import opened Options
  import opened PromChars
  import opened PromParser
  import opened PromRoundTrip

  // ------------------------------------------------------- filing samples

  /** The name without one of the four known suffixes, or the name itself if it has none. */
  ghost predicate IsBase(name: string, base: string) {
    if EndsWith(name, "_bucket") || EndsWith(name, "_count") || EndsWith(name, "_sum") || EndsWith(name, "_total")
    then name in {base + "_bucket", base + "_count", base + "_sum", base + "_total"}
    else base == name
  }

  lemma EndsWithExactly(name: string, suffix: string, base: string)
    ensures name == base + suffix <==> EndsWith(name, suffix) && name[..|name| - |suffix|] == base
  {
    if EndsWith(name, suffix) {
      assert name == name[..|name| - |suffix|] + name[|name| - |suffix|..];
    }
    if name == base + suffix {
      assert name[|base|..] == suffix && name[..|base|] == base;
    }
  }

  lemma LastTwo(name: string, suffix: string)
    requires EndsWith(name, suffix) && |suffix| >= 2
    ensures name[|name| - 1] == suffix[|suffix| - 1] && name[|name| - 2] == suffix[|suffix| - 2]
  {
    assert name[|name| - |suffix|..][|suffix| - 1] == name[|name| - 1];
    assert name[|name| - |suffix|..][|suffix| - 2] == name[|name| - 2];
  }

  /** No name has two of the suffixes. */
  lemma OneSuffix(name: string)
    ensures EndsWith(name, "_bucket") ==> !EndsWith(name, "_count") && !EndsWith(name, "_sum") && !EndsWith(name, "_total")
    ensures EndsWith(name, "_count") ==> !EndsWith(name, "_sum") && !EndsWith(name, "_total")
    ensures EndsWith(name, "_sum") ==> !EndsWith(name, "_total")
  {
    if EndsWith(name, "_bucket") {
      LastTwo(name, "_bucket");
    }
    if EndsWith(name, "_count") {
      LastTwo(name, "_count");
    }
    if EndsWith(name, "_sum") {
      LastTwo(name, "_sum");
    }
    if EndsWith(name, "_total") {
      LastTwo(name, "_total");
    }
  }

  /** Stripping takes off exactly one known suffix. */
  lemma StripsExactly(name: string, base: string)
    ensures StripSuffixes(name) == base <==> IsBase(name, base)
  {
    OneSuffix(name);
    EndsWithExactly(name, "_bucket", base);
    EndsWithExactly(name, "_count", base);
    EndsWithExactly(name, "_sum", base);
    EndsWithExactly(name, "_total", base);
  }

  /** Every family is kept under its own name. */
  ghost predicate OwnNames<V>(families: map<string, Family<V>>) {
    forall name :: name in families ==> families[name].name == name
  }

  /** No family but this one is added or changed. */
  ghost predicate OnlyFamily<V>(before: map<string, Family<V>>, after: map<string, Family<V>>, name: string) {
    && after.Keys == before.Keys + {name}
    && forall other :: other in before && other != name ==> after[other] == before[other]
  }

  /** The family a sample is for: the current one, when the sample's name begins with its name; else
      the one of the name without a suffix, when there is one; else one of the sample's own name. */
  ghost predicate Takes<V>(p: Progress<V>, name: string, f: string) {
    if p.currentName != "" && p.currentName <= name then f == p.currentName
    else if exists base :: IsBase(name, base) && base in p.families then IsBase(name, f)
    else f == name
  }

  lemma TakesFamilyOf<V>(p: Progress<V>, name: string, f: string)
    requires OwnNames(p.families) && Takes(p, name, f)
    ensures FamilyOf(p, name) == f
  {
    StripsExactly(name, StripSuffixes(name));
    StripsExactly(name, f);
    forall base | IsBase(name, base) ensures base == StripSuffixes(name) {
      StripsExactly(name, base);
    }
  }

  /** The sample was appended to the family, which was made without texts when it was new. */
  ghost predicate IsFiled<V>(before: map<string, Family<V>>, after: map<string, Family<V>>, f: string, m: Metric<V>) {
    && OnlyFamily(before, after, f)
    && after[f] == if f in before then before[f].(metrics := before[f].metrics + [m]) else Family(f, "", "", [m])
  }

  lemma AddSampleFiles<V>(p: Progress<V>, name: string, m: Metric<V>, f: string)
    requires OwnNames(p.families) && FamilyOf(p, name) == f
    ensures var after := AddSample(p, name, m);
            after.currentName == p.currentName && OwnNames(after.families) && IsFiled(p.families, after.families, f, m)
  {
    var none: seq<Metric<V>> := [];
    assert none + [m] == [m];
  }

  /** A sample line appends its labels and value to the one family that takes it, and changes nothing else. */
  lemma SampleIsFiled<V>(p: Progress<V>, raw: string, parse: NumberParser<V>, name: string, m: Metric<V>, f: string)
    requires OwnNames(p.families) && Takes(p, name, f) && name != ""
    requires TrimSpace(raw) != "" && TrimSpace(raw)[0] != '#'
    requires LineMeaning(TrimSpace(raw), parse) == Sample(name, m.labels, m.value)
    ensures LineStep(p, raw, parse).Some?
    ensures var after := LineStep(p, raw, parse).value;
            after.currentName == p.currentName && OwnNames(after.families) && IsFiled(p.families, after.families, f, m)
  {
    TakesFamilyOf(p, name, f);
    SampleLineAdds(p, raw, parse, name, m);
    AddSampleFiles(p, name, m, f);
  }

  lemma SampleLineAdds<V>(p: Progress<V>, raw: string, parse: NumberParser<V>, name: string, m: Metric<V>)
    requires TrimSpace(raw) != "" && TrimSpace(raw)[0] != '#' && name != ""
    requires LineMeaning(TrimSpace(raw), parse) == Sample(name, m.labels, m.value)
    ensures LineStep(p, raw, parse) == Some(AddSample(p, name, m))
  {
  }

  lemma AddKeepsNames<V>(p: Progress<V>, name: string, m: Metric<V>)
    requires OwnNames(p.families)
    ensures OwnNames(AddSample(p, name, m).families)
  {
    AddSampleFiles(p, name, m, FamilyOf(p, name));
  }

  lemma HeadsKeepNames<V>(p: Progress<V>, name: string, text: string)
    requires OwnNames(p.families)
    ensures OwnNames(SetHelp(p, name, text).families) && OwnNames(SetType(p, name, text).families)
  {
  }

  lemma SampleKeepsNames<V>(p: Progress<V>, raw: string, parse: NumberParser<V>)
    requires OwnNames(p.families) && TrimSpace(raw) != "" && TrimSpace(raw)[0] != '#'
    ensures LineStep(p, raw, parse).Some? ==> OwnNames(LineStep(p, raw, parse).value.families)
  {
    match LineMeaning(TrimSpace(raw), parse)
    case NoSample =>
    case Crash =>
    case Sample(name, labels, value) => AddKeepsNames(p, name, Metric(labels, value));
  }

  lemma StepKeepsNames<V>(p: Progress<V>, raw: string, parse: NumberParser<V>)
    requires OwnNames(p.families)
    ensures LineStep(p, raw, parse).Some? ==> OwnNames(LineStep(p, raw, parse).value.families)
  {
    var line := TrimSpace(raw);
    if line != "" && line[0] != '#' {
      SampleKeepsNames(p, raw, parse);
    } else if "# HELP " <= line || "# TYPE " <= line {
      HeadsKeepNames(p, FirstWord(line[7..]), AfterWord(line[7..]));
    }
  }

  /** In every text every family is kept under its own name. */
  lemma {:induction false} NamesKept<V>(lines: seq<string>, parse: NumberParser<V>)
    ensures var start: Progress<V> := Progress(map[], "");
            LinesStep(start, lines, parse).Some? ==> OwnNames(LinesStep(start, lines, parse).value.families)
  {
    if lines != [] {
      var start: Progress<V> := Progress(map[], "");
      var init, last := lines[..|lines| - 1], lines[|lines| - 1];
      NamesKept(init, parse);
      if LinesStep(start, init, parse).Some? {
        StepKeepsNames(LinesStep(start, init, parse).value, last, parse);
      }
    }
  }

  // --------------------------------------------------------- HELP and TYPE

  lemma NotOther(name: string, rest: string)
    ensures !("# TYPE " <= "# HELP " + rest) && !("# HELP " <= "# TYPE " + rest)
  {
    assert ("# HELP " + rest)[2] == 'H' && ("# TYPE " + rest)[2] == 'T';
  }

  /** A HELP or TYPE line, its white space at both ends gone, with the text it brings. */
  predicate IsHead(raw: string, head: string, name: string, text: string) {
    ' ' !in name && (TrimSpace(raw) == head + (name + " " + text) || (text == "" && TrimSpace(raw) == head + name))
  }

  lemma HeadParts(raw: string, head: string, name: string, text: string)
    requires |head| == 7 && IsHead(raw, head, name, text)
    ensures var line := TrimSpace(raw); |line| >= 7 && head <= line && FirstWord(line[7..]) == name && AfterWord(line[7..]) == text
  {
    TwoParts(name, text);
    Behind(head, name + " " + text);
    Behind(head, name);
  }

  /** HELP sets the family's text, makes the family when it is new, and makes it the current one. */
  lemma HelpWrites<V>(p: Progress<V>, raw: string, parse: NumberParser<V>, name: string, text: string)
    requires IsHead(raw, "# HELP ", name, text)
    ensures LineStep(p, raw, parse).Some?
    ensures var after := LineStep(p, raw, parse).value;
            && after.currentName == name && OnlyFamily(p.families, after.families, name)
            && after.families[name] == if name in p.families then p.families[name].(help := text) else Family(name, text, "", [])
  {
    HeadParts(raw, "# HELP ", name, text);
  }

  /** TYPE sets the family's type, makes the family when it is new, and makes it the current one. */
  lemma TypeWrites<V>(p: Progress<V>, raw: string, parse: NumberParser<V>, name: string, text: string)
    requires IsHead(raw, "# TYPE ", name, text)
    ensures LineStep(p, raw, parse).Some?
    ensures var after := LineStep(p, raw, parse).value;
            && after.currentName == name && OnlyFamily(p.families, after.families, name)
            && after.families[name] == if name in p.families then p.families[name].(typ := text) else Family(name, "", text, [])
  {
    HeadParts(raw, "# TYPE ", name, text);
    assert TrimSpace(raw)[2] == 'T';
  }

  /** It makes no difference which of HELP and TYPE comes first. */
  lemma HeadsCommute<V>(p: Progress<V>, help: string, typ: string, parse: NumberParser<V>, name: string, text: string, kind: string)
    requires IsHead(help, "# HELP ", name, text) && IsHead(typ, "# TYPE ", name, kind)
    ensures LinesStep(p, [help, typ], parse) == LinesStep(p, [typ, help], parse)
  {
    HelpWrites(p, help, parse, name, text);
    TypeWrites(p, typ, parse, name, kind);
    var h, t := LineStep(p, help, parse).value, LineStep(p, typ, parse).value;
    TypeWrites(h, typ, parse, name, kind);
    HelpWrites(t, help, parse, name, text);
    TwoLines(p, help, h, typ, LineStep(h, typ, parse).value, parse);
    TwoLines(p, typ, t, help, LineStep(t, help, parse).value, parse);
    SameBothWays(p, h, t, LineStep(h, typ, parse).value, LineStep(t, help, parse).value, name);
  }

  lemma SameBothWays<V>(p: Progress<V>, h: Progress<V>, t: Progress<V>, a: Progress<V>, b: Progress<V>, name: string)
    requires OnlyFamily(p.families, h.families, name) && OnlyFamily(h.families, a.families, name)
    requires OnlyFamily(p.families, t.families, name) && OnlyFamily(t.families, b.families, name)
    requires a.currentName == b.currentName && a.families[name] == b.families[name]
    ensures a == b
  {
    assert a.families.Keys == b.families.Keys;
    forall other | other in a.families ensures a.families[other] == b.families[other] {
      if other != name {
        assert other in p.families;
      }
    }
    assert a.families == b.families;
  }

  // -------------------------------------------------------- lines of no use

  /** Blank lines and comments other than HELP and TYPE. */
  predicate IsIdle(raw: string) {
    var line := TrimSpace(raw);
    line == "" || (line[0] == '#' && !("# HELP " <= line) && !("# TYPE " <= line))
  }

  /** Blank lines and other comments may stand anywhere, between samples too: leaving one out changes nothing. */
  lemma IdleLinesDoNotMatter<V>(p: Progress<V>, before: seq<string>, idle: string, after: seq<string>, parse: NumberParser<V>)
    requires IsIdle(idle)
    ensures LinesStep(p, before + [idle] + after, parse) == LinesStep(p, before + after, parse)
  {
    LinesConcat(p, before, after, parse);
    LinesConcat(p, before + [idle], after, parse);
    LinesSnoc(p, before, idle, parse);
  }

  // ---------------------------------------------------------- sample lines

  /** A line with braces: the name before the first, the labels up to the last closing one, and the
      trimmed rest, which must be a number. */
  lemma BracedReads<V>(name: string, inner: string, after: string, parse: NumberParser<V>)
    requires '{' !in name && '}' !in after
    ensures var value := parse(TrimSpace(after));
            LineMeaning(name + ['{'] + inner + ['}'] + after, parse)
            == if value.None? then NoSample else Sample(name, LabelsFrom(inner, map[]), value.value)
  {
    BracePositions(name, inner, after, name + ['{'] + inner + ['}'] + after);
  }

  /** A line whose brace is never closed is no sample. */
  lemma UnclosedReads<V>(line: string, parse: NumberParser<V>)
    requires '{' in line && '}' !in line
    ensures LineMeaning(line, parse) == NoSample
  {
    if IndexOf(line, '{') < 0 {
      NoIndex(line, '{');
    }
  }

  /** A line without braces: its first two words are name and value, whatever follows; fewer are no sample. */
  lemma PlainReads<V>(name: string, v: string, rest: string, parse: NumberParser<V>)
    requires NoSpace(name) && name != "" && NoSpace(v) && v != ""
    requires '{' !in name && '{' !in v && '{' !in rest
    ensures LineMeaning(name, parse) == NoSample
    ensures var read := if parse(v).None? then NoSample else Sample(name, map[], parse(v).value);
            LineMeaning(name + " " + v, parse) == read && LineMeaning(name + " " + (v + " " + rest), parse) == read
  {
    NoIndex(name, '{');
    NoIndex(name + " " + v, '{');
    NoIndex(name + " " + (v + " " + rest), '{');
    OneField(name);
    OneField(v);
    FieldsCons(name, v);
    FieldsCons(v, rest);
    FieldsCons(name, v + " " + rest);
  }

  // ------------------------------------------------------ unfinished labels

  lemma {:induction false} UnquoteOpen(v: string)
    requires '"' !in v && '\\' !in v
    ensures Unquote(v, false) == (v, None)
  {
    if v != "" {
      UnquoteOpen(v[1..]);
      assert v == [v[0]] + v[1..];
    }
  }

  /** Where no label is begun, or its value is not quoted, reading stops with the labels so far; a value
      whose quote is never closed is taken to the end. */
  lemma UnfinishedLabels(key: string, rest: string, known: map<string, string>)
    requires '=' !in key
    ensures TrimSpace(key) == key ==> LabelsFrom(key, known) == known
    ensures TrimSpace(key + "=" + rest) == key + "=" + rest && (rest == "" || rest[0] != '"') ==>
              LabelsFrom(key + "=" + rest, known) == known
    ensures TrimSpace(key + "=\"" + rest) == key + "=\"" + rest && '"' !in rest && '\\' !in rest ==>
              LabelsFrom(key + "=\"" + rest, known) == known[TrimSpace(key) := rest]
  {
    NoIndex(key, '=');
    FirstIndex(key, '=', rest);
    assert key + "=" + rest == key + ['='] + rest;
    assert (key + ['='] + rest)[|key| + 1..] == rest;
    OpenValue(key, rest, known);
  }

  lemma OpenValue(key: string, rest: string, known: map<string, string>)
    requires '=' !in key
    ensures TrimSpace(key + "=\"" + rest) == key + "=\"" + rest && '"' !in rest && '\\' !in rest ==>
              LabelsFrom(key + "=\"" + rest, known) == known[TrimSpace(key) := rest]
  {
    var quoted := "\"" + rest;
    assert key + "=\"" + rest == key + ['='] + quoted && quoted[1..] == rest;
    if '"' !in rest && '\\' !in rest && TrimSpace(key + ['='] + quoted) == key + ['='] + quoted {
      UnquoteOpen(rest);
      LastLabel(key, quoted, known, rest);
    }
  }

  lemma LastLabel(key: string, quoted: string, known: map<string, string>, value: string)
    requires '=' !in key && TrimSpace(key + ['='] + quoted) == key + ['='] + quoted
    requires quoted != "" && quoted[0] == '"' && Unquote(quoted[1..], false) == (value, None)
    ensures LabelsFrom(key + ['='] + quoted, known) == known[TrimSpace(key) := value]
  {
    var s := key + ['='] + quoted;
    FirstIndex(key, '=', quoted);
    assert s[..|key|] == key && s[|key| + 1..] == quoted;
  }

  // -------------------------------------------------------------- the lines

  lemma FirstLine(line: string, rest: string)
    requires '\n' !in line
    ensures ScanLines(line + ['\n'] + rest) == [DropCR(line)] + ScanLines(rest)
  {
    var text := line + ['\n'] + rest;
    FirstIndex(line, '\n', rest);
    assert text[..|line|] == line && text[|line| + 1..] == rest;
  }

  lemma UnlinesCons(line: string, lines: seq<string>, last: string)
    ensures Unlines([line] + lines) + last == line + ['\n'] + (Unlines(lines) + last)
  {
    assert ([line] + lines)[1..] == lines;
  }

  lemma ConsAssociates(line: string, lines: seq<string>, more: seq<string>)
    ensures [line] + (lines + more) == [line] + lines + more
  {
  }

  function LastLine(last: string): seq<string> {
    if last == "" then [] else [DropCR(last)]
  }

  lemma OnlyLine(last: string)
    requires '\n' !in last
    ensures ScanLines(last) == LastLine(last)
  {
    NoIndex(last, '\n');
  }

  /** The lines of a text are what stands before each line feed, without a carriage return at its end,
      and what follows the last one, if anything does. */
  lemma {:induction false} LinesOfText(lines: seq<string>, last: string)
    requires (forall i :: 0 <= i < |lines| ==> IsLine(lines[i])) && IsLine(last)
    ensures ScanLines(Unlines(lines) + last) == Scanned(lines) + LastLine(last)
  {
    if lines == [] {
      assert "" + last == last && Scanned(lines) + LastLine(last) == LastLine(last);
      OnlyLine(last);
    } else {
      var first, rest := lines[0], lines[1..];
      assert lines == [first] + rest;
      LinesOfText(rest, last);
      UnlinesCons(first, rest, last);
      FirstLine(first, Unlines(rest) + last);
      ScannedCons(lines);
      ConsAssociates(DropCR(first), Scanned(rest), LastLine(last));
    }
  }

  /** A carriage return is taken off the end of a line, once, and nothing else is. */
  lemma DropExactly(line: string)
    ensures DropCR(line + "\r") == line
    ensures (line == "" || line[|line| - 1] != '\r') ==> DropCR(line) == line
  {
  }
}
