/** Parsing the Prometheus text exposition format, line by line into metric families. */
module PromParser {
  import opened Options
  import opened PromChars

  /** One sample: its labels and its value. The sample's own name is not kept. */
  datatype Metric<V> = Metric(labels: map<string, string>, value: V)

  datatype Family<V> = Family(name: string, help: string, typ: string, metrics: seq<Metric<V>>)

  /** The families met so far and the name of the last HELP or TYPE line. */
  datatype Progress<V> = Progress(families: map<string, Family<V>>, currentName: string)

  /** What one sample line gives: nothing, a sample, or a slice out of range, which stops the parser. */
  datatype LineResult<V> = NoSample | Sample(name: string, labels: map<string, string>, value: V) | Crash

  /** strconv.ParseFloat as the caller sees it. */
  type NumberParser<V> = string -> Option<V>

  // --------------------------------------------------------------- labels

  /** The text up to the closing quote with every backslash dropped and the character after it
      kept, and what follows the quote, or nothing when the quote never closes. */
  function Unquote(s: string, escaped: bool): (r: (string, Option<string>))
    ensures r.1.Some? ==> |r.1.value| < |s|
  {
    if s == "" then ("", None)
    else if escaped then
      var r := Unquote(s[1..], false);
      ([s[0]] + r.0, r.1)
    else if s[0] == '\\' then Unquote(s[1..], true)
    else if s[0] == '"' then ("", Some(s[1..]))
    else
      var r := Unquote(s[1..], false);
      ([s[0]] + r.0, r.1)
  }

  /** The labels read from a label string, on top of those already read. */
  function LabelsFrom(s: string, labels: map<string, string>): map<string, string>
    decreases |s|
  {
    var t := TrimSpace(s);
    var eq := IndexOf(t, '=');
    if t == "" || eq < 0 then labels
    else
      var rest := t[eq + 1..];
      if rest == "" || rest[0] != '"' then labels
      else
        var (value, after) := Unquote(rest[1..], false);
        var labels' := labels[TrimSpace(t[..eq]) := value];
        if after.None? then labels' else LabelsFrom(TrimSeparators(after.value), labels')
  }

  /** Reads the quoted part: stops at the closing quote or the end of the text. */
  method ReadValue(s: string) returns (value: string, i: nat)
    ensures i <= |s|
    ensures Unquote(s, false) == (value, if i < |s| then Some(s[i + 1..]) else None)
  {
    value := "";
    var escaped := false;
    i := 0;
    assert s[0..] == s && "" + Unquote(s, false).0 == Unquote(s, false).0;
    while i < |s|
      invariant i <= |s|
      invariant Unquote(s, false) == (value + Unquote(s[i..], escaped).0, Unquote(s[i..], escaped).1)
    {
      assert s[i..][1..] == s[i + 1..];
      ghost var more := Unquote(s[i..], escaped);
      if escaped {
        assert value + more.0 == value + [s[i]] + Unquote(s[i + 1..], false).0;
        value := value + [s[i]];
        escaped := false;
      } else if s[i] == '\\' {
        escaped := true;
      } else if s[i] == '"' {
        break;
      } else {
        assert value + more.0 == value + [s[i]] + Unquote(s[i + 1..], false).0;
        value := value + [s[i]];
      }
      i := i + 1;
    }
    assert value + "" == value;
    if i == |s| {
      assert s[i..] == "";
    }
  }

  /** The label loop; it ends because every round drops at least a key, an equals sign and a quote. */
  method ParseLabels(text: string) returns (labels: map<string, string>)
    ensures labels == LabelsFrom(text, map[])
  {
    labels := map[];
    if text == "" {
      return;
    }
    var s := text;
    while s != ""
      invariant LabelsFrom(text, map[]) == LabelsFrom(s, labels)
      decreases |s|
    {
      s := TrimSpace(s);
      if s == "" {
        break;
      }
      var eqIdx := IndexOf(s, '=');
      if eqIdx < 0 {
        break;
      }
      var key := TrimSpace(s[..eqIdx]);
      s := s[eqIdx + 1..];
      if |s| == 0 || s[0] != '"' {
        break;
      }
      s := s[1..];
      var value, i := ReadValue(s);
      labels := labels[key := value];
      if i < |s| {
        s := s[i + 1..];
      } else {
        break;
      }
      s := TrimSeparators(s);
    }
  }

  // ---------------------------------------------------------------- lines

  /** A sample line: the name and labels up to the last closing brace, then the value; without
      braces the first two fields. A last closing brace before the opening one is out of range. */
  function LineMeaning<V>(line: string, parse: NumberParser<V>): LineResult<V> {
    var braceIdx := IndexOf(line, '{');
    if braceIdx >= 0 then
      var endBrace := LastIndexOf(line, '}');
      if endBrace < 0 then NoSample
      else if endBrace < braceIdx then Crash
      else Braced(line, braceIdx, endBrace, parse)
    else Plain(line, parse)
  }

  /** The first field and the second as its value. */
  function Plain<V>(line: string, parse: NumberParser<V>): LineResult<V> {
    var parts := Fields(line);
    if |parts| < 2 then NoSample else WithValue(parts[0], map[], parse(parts[1]))
  }

  function WithValue<V>(name: string, labels: map<string, string>, value: Option<V>): LineResult<V> {
    if value.None? then NoSample else Sample(name, labels, value.value)
  }

  /** The labels between the braces and the text after them. */
  function Braced<V>(line: string, b: nat, e: nat, parse: NumberParser<V>): LineResult<V>
    requires b < e < |line|
  {
    WithValue(line[..b], LabelsFrom(line[b + 1..e], map[]), parse(TrimSpace(line[e + 1..])))
  }

  method ParseBraced<V>(line: string, braceIdx: nat, endBrace: nat, parse: NumberParser<V>) returns (r: LineResult<V>)
    requires braceIdx < endBrace < |line|
    ensures r == Braced(line, braceIdx, endBrace, parse)
  {
    var rest := TrimSpace(line[endBrace + 1..]);
    var labels := ParseLabels(line[braceIdx + 1..endBrace]);
    var value := parse(rest);
    r := if value.None? then NoSample else Sample(line[..braceIdx], labels, value.value);
  }

  method ParsePlain<V>(line: string, parse: NumberParser<V>) returns (r: LineResult<V>)
    ensures r == Plain(line, parse)
  {
    var parts := Fields(line);
    if |parts| < 2 {
      return NoSample;
    }
    var value := parse(parts[1]);
    r := if value.None? then NoSample else Sample(parts[0], map[], value.value);
  }

  method ParseMetricLine<V>(line: string, parse: NumberParser<V>) returns (r: LineResult<V>)
    ensures r == LineMeaning(line, parse)
  {
    var braceIdx := IndexOf(line, '{');
    if braceIdx >= 0 {
      var endBrace := LastIndexOf(line, '}');
      if endBrace < 0 {
        return NoSample;
      }
      if endBrace < braceIdx + 1 {
        return Crash;
      }
      r := ParseBraced(line, braceIdx, endBrace, parse);
    } else {
      r := ParsePlain(line, parse);
    }
  }

  /** The name without the first of the known suffixes it ends in. */
  function StripSuffixes(name: string): string {
    if EndsWith(name, "_bucket") then name[..|name| - 7]
    else if EndsWith(name, "_count") then name[..|name| - 6]
    else if EndsWith(name, "_sum") then name[..|name| - 4]
    else if EndsWith(name, "_total") then name[..|name| - 6]
    else name
  }

  predicate EndsWith(s: string, suffix: string) {
    |suffix| <= |s| && s[|s| - |suffix|..] == suffix
  }

  /** The family a sample goes to: the current one when its name extends it, else the one of the
      stripped name, else one of its own. */
  function FamilyOf<V>(p: Progress<V>, name: string): string {
    var base := StripSuffixes(name);
    if p.currentName != "" && p.currentName <= name then p.currentName
    else if base in p.families then p.families[base].name
    else name
  }

  function AddSample<V>(p: Progress<V>, name: string, m: Metric<V>): Progress<V> {
    var f := FamilyOf(p, name);
    var family := if f in p.families then p.families[f] else Family(f, "", "", []);
    p.(families := p.families[f := family.(metrics := family.metrics + [m])])
  }

  function SetHelp<V>(p: Progress<V>, name: string, help: string): Progress<V> {
    Progress(p.families[name := if name in p.families then p.families[name].(help := help)
                                else Family(name, help, "", [])], name)
  }

  function SetType<V>(p: Progress<V>, name: string, typ: string): Progress<V> {
    Progress(p.families[name := if name in p.families then p.families[name].(typ := typ)
                                else Family(name, "", typ, [])], name)
  }

  /** What one line of text does; None when the parser stops. */
  function LineStep<V>(p: Progress<V>, raw: string, parse: NumberParser<V>): Option<Progress<V>> {
    var line := TrimSpace(raw);
    if line == "" then Some(p)
    else if "# HELP " <= line then Some(SetHelp(p, FirstWord(line[7..]), AfterWord(line[7..])))
    else if "# TYPE " <= line then Some(SetType(p, FirstWord(line[7..]), AfterWord(line[7..])))
    else if "#" <= line then Some(p)
    else
      match LineMeaning(line, parse)
      case NoSample => Some(p)
      case Crash => None
      case Sample(name, labels, value) =>
        if name == "" then Some(p) else Some(AddSample(p, name, Metric(labels, value)))
  }

  function LinesStep<V>(p: Progress<V>, lines: seq<string>, parse: NumberParser<V>): Option<Progress<V>> {
    if lines == [] then Some(p)
    else
      var before := LinesStep(p, lines[..|lines| - 1], parse);
      if before.None? then None else LineStep(before.value, lines[|lines| - 1], parse)
  }

  /** bufio.ScanLines: the text between line feeds, a last carriage return dropped from each line,
      and no empty line after a final line feed. */
  function ScanLines(text: string): seq<string>
    decreases |text|
  {
    if text == "" then []
    else
      var i := IndexOf(text, '\n');
      if i < 0 then [DropCR(text)] else [DropCR(text[..i])] + ScanLines(text[i + 1..])
  }

  function DropCR(line: string): string {
    if line != "" && line[|line| - 1] == '\r' then line[..|line| - 1] else line
  }

  /** The families of a text, by name; None when a line stops the parser. */
  function Parsed<V>(text: string, parse: NumberParser<V>): Option<map<string, Family<V>>> {
    var p := LinesStep(Progress(map[], ""), ScanLines(text), parse);
    if p.None? then None else Some(p.value.families)
  }

  /** Appends a sample to its family, which is made when missing. */
  method FileSample<V>(known: map<string, Family<V>>, currentName: string, name: string, m: Metric<V>)
    returns (families: map<string, Family<V>>)
    ensures Progress(families, currentName) == AddSample(Progress(known, currentName), name, m)
  {
    families := known;
    var familyName := name;
    var baseName := StripSuffixes(name);
    if currentName != "" && currentName <= name {
      familyName := currentName;
    } else if baseName in families {
      familyName := families[baseName].name;
    }
    if familyName !in families {
      families := families[familyName := Family(familyName, "", "", [])];
    }
    families := families[familyName := families[familyName].(metrics := families[familyName].metrics + [m])];
  }

  /** The families of a text as a list, in no particular order. */
  method ParsePrometheusText<V>(text: string, parse: NumberParser<V>) returns (result: Option<seq<Family<V>>>)
    ensures result.Some? <==> Parsed(text, parse).Some?
    ensures result.Some? ==> IsEnumeration(result.value, Parsed(text, parse).value)
  {
    var families: map<string, Family<V>>, currentName := map[], "";
    var lines := ScanLines(text);
    for n := 0 to |lines|
      invariant LinesStep(Progress(map[], ""), lines[..n], parse) == Some(Progress(families, currentName))
    {
      assert lines[..n + 1][..n] == lines[..n];
      ghost var before := Progress(families, currentName);
      assert LinesStep(Progress(map[], ""), lines[..n + 1], parse) == LineStep(before, lines[n], parse);
      var line := TrimSpace(lines[n]);
      if line == "" {
        continue;
      }
      if "# HELP " <= line {
        var name, help := FirstWord(line[7..]), AfterWord(line[7..]);
        if name !in families {
          families := families[name := Family(name, help, "", [])];
        } else {
          families := families[name := families[name].(help := help)];
        }
        currentName := name;
        continue;
      }
      if "# TYPE " <= line {
        var name, typ := FirstWord(line[7..]), AfterWord(line[7..]);
        if name !in families {
          families := families[name := Family(name, "", typ, [])];
        } else {
          families := families[name := families[name].(typ := typ)];
        }
        currentName := name;
        continue;
      }
      if "#" <= line {
        continue;
      }
      var r := ParseMetricLine(line, parse);
      if r.Crash? {
        StopsForGood(Progress(map[], ""), lines, n + 1, parse);
        return None;
      }
      if r.NoSample? || r.name == "" {
        continue;
      }
      families := FileSample(families, currentName, r.name, Metric(r.labels, r.value));
    }
    assert lines[..|lines|] == lines;
    var list := Enumerate(families);
    result := Some(list);
  }

  /** Every family once. */
  ghost predicate IsEnumeration<V>(list: seq<Family<V>>, families: map<string, Family<V>>) {
    exists names: seq<string> ::
      && |names| == |list|
      && (forall i, j :: 0 <= i < j < |names| ==> names[i] != names[j])
      && (forall name :: name in names <==> name in families)
      && (forall i :: 0 <= i < |names| ==> names[i] in families && list[i] == families[names[i]])
  }

  method Enumerate<V>(families: map<string, Family<V>>) returns (list: seq<Family<V>>)
    ensures IsEnumeration(list, families)
  {
    list := [];
    ghost var names: seq<string> := [];
    var left := families.Keys;
    while left != {}
      invariant left <= families.Keys && |names| == |list|
      invariant forall i, j :: 0 <= i < j < |names| ==> names[i] != names[j]
      invariant forall name :: name in names <==> name in families && name !in left
      invariant forall i :: 0 <= i < |names| ==> names[i] in families && list[i] == families[names[i]]
    {
      var name :| name in left;
      assert forall i :: 0 <= i < |names| ==> names[i] in names;
      list := list + [families[name]];
      names := names + [name];
      left := left - {name};
    }
  }

  lemma {:induction false} StopsForGood<V>(p: Progress<V>, lines: seq<string>, n: nat, parse: NumberParser<V>)
    requires n <= |lines| && LinesStep(p, lines[..n], parse) == None
    ensures LinesStep(p, lines, parse) == None
    decreases |lines|
  {
    if n < |lines| {
      var init := lines[..|lines| - 1];
      assert init[..n] == lines[..n];
      StopsForGood(p, init, n, parse);
    } else {
      assert lines[..n] == lines;
    }
  }

  /** The first opening brace of a line and the last closing one. */
  predicate FirstOpening(line: string, i: int) {
    0 <= i < |line| && line[i] == '{' && '{' !in line[..i]
  }

  predicate LastClosing(line: string, j: int) {
    0 <= j < |line| && line[j] == '}' && '}' !in line[j + 1..]
  }

  lemma FirstOpeningIsIndex(line: string, i: int)
    requires FirstOpening(line, i)
    ensures IndexOf(line, '{') == i
  {
    assert line == line[..i] + ['{'] + line[i + 1..];
    FirstIndex(line[..i], '{', line[i + 1..]);
  }

  lemma LastClosingIsIndex(line: string, j: int)
    requires LastClosing(line, j)
    ensures LastIndexOf(line, '}') == j
  {
    assert line == line[..j] + ['}'] + line[j + 1..];
    LastIndex(line[..j], '}', line[j + 1..]);
  }

  /** The last closing brace of a line comes before its first opening one. */
  ghost predicate BracesCrossed(line: string) {
    exists i, j :: FirstOpening(line, i) && LastClosing(line, j) && j < i
  }

  /** A sample line is out of range exactly when its braces are crossed. */
  lemma CrashesExactly<V>(line: string, parse: NumberParser<V>)
    ensures LineMeaning(line, parse) == Crash <==> BracesCrossed(line)
  {
    var b, e := IndexOf(line, '{'), LastIndexOf(line, '}');
    assert LineMeaning(line, parse) == Crash <==> 0 <= e < b;
    if 0 <= e < b {
      assert FirstOpening(line, b) && LastClosing(line, e);
    }
    if BracesCrossed(line) {
      var i, j :| FirstOpening(line, i) && LastClosing(line, j) && j < i;
      FirstOpeningIsIndex(line, i);
      LastClosingIsIndex(line, j);
    }
  }

  /** A line of text stops the parser: a sample line, which is no comment, with crossed braces. */
  ghost predicate Stops(raw: string) {
    var line := TrimSpace(raw);
    line != "" && line[0] != '#' && BracesCrossed(line)
  }

  ghost predicate AnyStops(lines: seq<string>) {
    exists k :: 0 <= k < |lines| && Stops(lines[k])
  }

  lemma LineStopsExactly<V>(p: Progress<V>, raw: string, parse: NumberParser<V>)
    ensures LineStep(p, raw, parse) == None <==> Stops(raw)
  {
    CrashesExactly(TrimSpace(raw), parse);
  }

  lemma {:induction false} LinesStopExactly<V>(p: Progress<V>, lines: seq<string>, parse: NumberParser<V>)
    ensures LinesStep(p, lines, parse) == None <==> AnyStops(lines)
  {
    if lines != [] {
      var init, last := lines[..|lines| - 1], lines[|lines| - 1];
      LinesStopExactly(p, init, parse);
      if LinesStep(p, init, parse).Some? {
        LineStopsExactly(LinesStep(p, init, parse).value, last, parse);
      }
      assert forall k :: 0 <= k < |init| ==> init[k] == lines[k];
    }
  }

  /** The parser panics on a text exactly when some line of it, no comment, has its last closing
      brace before its first opening one. */
  lemma TextPanicsExactly<V>(text: string, parse: NumberParser<V>)
    ensures Parsed(text, parse) == None <==> AnyStops(ScanLines(text))
  {
    var start: Progress<V> := Progress(map[], "");
    LinesStopExactly(start, ScanLines(text), parse);
  }

  lemma OneLineText<V>(line: string, parse: NumberParser<V>)
    requires line != "" && '\n' !in line && line[|line| - 1] != '\r'
    ensures ScanLines(line) == [line]
    ensures var start: Progress<V> := Progress(map[], "");
            LinesStep(start, [line], parse) == LineStep(start, line, parse)
  {
    NoIndex(line, '\n');
    assert [line][..0] == [];
  }

  /** Two braces the wrong way round are enough to make the parser panic. */
  lemma CrossedBracesPanic<V>(parse: NumberParser<V>)
    ensures Parsed("}{", parse) == None
  {
    var line := "}{";
    OneLineText(line, parse);
    TrimNothing(line);
    assert FirstOpening(line, 1) && LastClosing(line, 0);
    LineStopsExactly(Progress(map[], ""), line, parse);
  }

  /** Behind a hash sign they do no harm. */
  lemma CommentsDoNotPanic<V>(parse: NumberParser<V>)
    ensures Parsed("#}{", parse) == Some(map[])
  {
    var line := "#}{";
    OneLineText(line, parse);
    TrimNothing(line);
  }
}
