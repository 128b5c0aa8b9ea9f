/** Printing metric families in the Prometheus text exposition format 0.0.4 and parsing them back. */
module PromRoundTrip {
  import opened Options
  import opened PromChars
  import opened PromParser

  type Label = (string, string)

  /** A family as an exporter writes it: HELP and TYPE first, then samples whose names extend its own. */
  datatype SampleDoc<V> = SampleDoc(name: string, labels: seq<Label>, value: V)
  datatype FamilyDoc<V> = FamilyDoc(name: string, help: string, typ: string, samples: seq<SampleDoc<V>>)

  /** How numbers are written and read. */
  datatype Numbers<!V> = Numbers(write: V -> string, parse: NumberParser<V>)

  predicate IsNameChar(c: char) {
    'a' <= c <= 'z' || 'A' <= c <= 'Z' || '0' <= c <= '9' || c == '_' || c == ':'
  }

  /** Metric and label names of the format. */
  predicate IsName(s: string) {
    s != "" && forall i :: 0 <= i < |s| ==> IsNameChar(s[i])
  }

  /** Written numbers are non-empty, free of white space and braces, and read back as themselves. */
  ghost predicate ReadsBack<V(!new)>(num: Numbers<V>) {
    forall v :: var s := num.write(v);
      s != "" && NoSpace(s) && '{' !in s && '}' !in s && num.parse(s) == Some(v)
  }

  // ------------------------------------------------------------- escaping

  /** Label values escape backslash, double quote and line feed. */
  function Escape(v: string): string {
    if v == "" then ""
    else (if v[0] == '\\' then "\\\\" else if v[0] == '"' then "\\\"" else if v[0] == '\n' then "\\n" else [v[0]])
         + Escape(v[1..])
  }

  /** HELP texts escape backslash and line feed. */
  function EscapeHelp(v: string): string {
    if v == "" then ""
    else (if v[0] == '\\' then "\\\\" else if v[0] == '\n' then "\\n" else [v[0]]) + EscapeHelp(v[1..])
  }

  /** The parser drops the backslash of an escaped line feed and keeps the letter. */
  function FeedsToLetters(v: string): (r: string)
    ensures |r| == |v| && forall i :: 0 <= i < |r| ==> r[i] == if v[i] == '\n' then 'n' else v[i]
  {
    if v == "" then "" else [if v[0] == '\n' then 'n' else v[0]] + FeedsToLetters(v[1..])
  }

  /** Reading an escaped value gives the value with its line feeds turned into letters, and stops
      at the closing quote. */
  lemma {:induction false} UnquoteOfEscape(v: string, rest: string)
    ensures Unquote(Escape(v) + "\"" + rest, false) == (FeedsToLetters(v), Some(rest))
  {
    var s := Escape(v) + "\"" + rest;
    if v == "" {
      assert s == "\"" + rest && s[1..] == rest;
    } else {
      UnquoteOfEscape(v[1..], rest);
      var tail := Escape(v[1..]) + "\"" + rest;
      if v[0] == '\\' || v[0] == '"' || v[0] == '\n' {
        var e := if v[0] == '\n' then 'n' else v[0];
        assert s == ['\\', e] + tail;
        assert s[1..] == [e] + tail && s[1..][1..] == tail;
      } else {
        assert s == [v[0]] + tail && s[1..] == tail;
      }
    }
  }

  /** A label value survives exactly when it has no line feed. */
  lemma LabelValueSurvivesExactly(v: string, rest: string)
    ensures Unquote(Escape(v) + "\"" + rest, false) == (v, Some(rest)) <==> '\n' !in v
  {
    UnquoteOfEscape(v, rest);
    var r := FeedsToLetters(v);
    if '\n' in v {
      var i :| 0 <= i < |v| && v[i] == '\n';
      assert r[i] == 'n';
    } else {
      assert r == v;
    }
  }

  /** Escaping leaves a HELP text as it is exactly when there is nothing to escape. */
  lemma {:induction false} EscapeHelpExactly(v: string)
    ensures |EscapeHelp(v)| >= |v|
    ensures EscapeHelp(v) == v <==> '\\' !in v && '\n' !in v
  {
    if v != "" {
      EscapeHelpExactly(v[1..]);
      assert v == [v[0]] + v[1..];
      if EscapeHelp(v) == v {
        assert EscapeHelp(v)[1..] == v[1..];
      }
    }
  }

  lemma EndOfConcat(a: string, b: string)
    ensures EndsInSpace(a + b) <==> if b == "" then EndsInSpace(a) else EndsInSpace(b)
  {
    assert b == "" ==> a + b == a;
  }

  /** Escaping puts no white space at the end of a text. */
  lemma {:induction false} EscapeHelpEnd(v: string)
    ensures EndsInSpace(EscapeHelp(v)) ==> EndsInSpace(v)
    ensures EscapeHelp(v) == "" <==> v == ""
  {
    if v != "" {
      EscapeHelpEnd(v[1..]);
      var head := if v[0] == '\\' then "\\\\" else if v[0] == '\n' then "\\n" else [v[0]];
      EndOfConcat(head, EscapeHelp(v[1..]));
      assert v == [v[0]] + v[1..];
      EndOfConcat([v[0]], v[1..]);
    }
  }

  /** What of a HELP text is kept is the text itself exactly when nothing was escaped and nothing
      is trimmed off its end. */
  lemma KeptHelpExactly(v: string)
    ensures TrimRightSpace(EscapeHelp(v)) == v <==> '\\' !in v && '\n' !in v && !EndsInSpace(v)
  {
    EscapeHelpExactly(v);
    EscapeHelpEnd(v);
    TrimRightStops(EscapeHelp(v));
  }

  // ------------------------------------------------------------- printing

  function PrintLabels(labels: seq<Label>): string
    decreases labels, 1
  {
    if labels == [] then ""
    else labels[0].0 + ['='] + ("\"" + (Escape(labels[0].1) + "\"" + MoreLabels(labels)))
  }

  function MoreLabels(labels: seq<Label>): string
    decreases labels, 0
  {
    if |labels| <= 1 then "" else "," + PrintLabels(labels[1..])
  }

  function SampleLine<V>(s: SampleDoc<V>, num: Numbers<V>): string {
    s.name + (if s.labels == [] then "" else "{" + PrintLabels(s.labels) + "}") + " " + num.write(s.value)
  }

  function SampleLines<V>(samples: seq<SampleDoc<V>>, num: Numbers<V>): seq<string> {
    if samples == [] then [] else SampleLines(samples[..|samples| - 1], num) + [SampleLine(samples[|samples| - 1], num)]
  }

  function HelpLine<V>(f: FamilyDoc<V>): string {
    "# HELP " + f.name + " " + EscapeHelp(f.help)
  }

  function TypeLine<V>(f: FamilyDoc<V>): string {
    "# TYPE " + f.name + " " + f.typ
  }

  function FamilyLines<V>(f: FamilyDoc<V>, num: Numbers<V>): seq<string> {
    [HelpLine(f), TypeLine(f)] + SampleLines(f.samples, num)
  }

  function DocLines<V>(doc: seq<FamilyDoc<V>>, num: Numbers<V>): seq<string> {
    if doc == [] then [] else DocLines(doc[..|doc| - 1], num) + FamilyLines(doc[|doc| - 1], num)
  }

  /** Every line followed by a line feed. */
  function Unlines(lines: seq<string>): string {
    if lines == [] then "" else lines[0] + "\n" + Unlines(lines[1..])
  }

  function Print<V>(doc: seq<FamilyDoc<V>>, num: Numbers<V>): string {
    Unlines(DocLines(doc, num))
  }

  // ------------------------------------------------------- what comes back

  /** The labels of a sample, a repeated name keeping its last value. */
  function LabelMap(labels: seq<Label>, known: map<string, string>): map<string, string> {
    if labels == [] then known
    else LabelMap(labels[1..], known[labels[0].0 := FeedsToLetters(labels[0].1)])
  }

  function Metrics<V>(samples: seq<SampleDoc<V>>): seq<Metric<V>> {
    if samples == [] then []
    else
      var last := samples[|samples| - 1];
      Metrics(samples[..|samples| - 1]) + [Metric(LabelMap(last.labels, map[]), last.value)]
  }

  function ReadFamily<V>(f: FamilyDoc<V>): Family<V> {
    Family(f.name, TrimRightSpace(EscapeHelp(f.help)), TrimRightSpace(f.typ), Metrics(f.samples))
  }

  function ReadDoc<V>(doc: seq<FamilyDoc<V>>): map<string, Family<V>> {
    if doc == [] then map[] else ReadDoc(doc[..|doc| - 1])[doc[|doc| - 1].name := ReadFamily(doc[|doc| - 1])]
  }

  // ------------------------------------------------------ documents allowed

  predicate LabelsOk(labels: seq<Label>) {
    forall i :: 0 <= i < |labels| ==> IsName(labels[i].0)
  }

  predicate FamilyOk<V>(f: FamilyDoc<V>) {
    && IsName(f.name) && '\n' !in f.typ
    && forall i :: 0 <= i < |f.samples| ==>
         IsName(f.samples[i].name) && f.name <= f.samples[i].name && LabelsOk(f.samples[i].labels)
  }

  predicate DocOk<V>(doc: seq<FamilyDoc<V>>) {
    && (forall i :: 0 <= i < |doc| ==> FamilyOk(doc[i]))
    && (forall i, j :: 0 <= i < j < |doc| ==> doc[i].name != doc[j].name)
  }

  // ---------------------------------------------------------------- labels

  lemma NameFacts(s: string)
    requires IsName(s)
    ensures NoSpace(s) && TrimSpace(s) == s
    ensures '=' !in s && '{' !in s && '}' !in s && ' ' !in s && '\n' !in s && '#' !in s && ',' !in s && '"' !in s
    ensures !IsSpace(s[0]) && s[0] != ',' && s[0] != '#'
  {
    assert IsNameChar(s[0]);
    forall i | 0 <= i < |s| ensures !IsSpace(s[i]) {
      assert IsNameChar(s[i]);
    }
  }

  lemma LabelRound(k: string, body: string, s: string, known: map<string, string>)
    requires IsName(k) && s == k + ['='] + body && body != "" && body[0] == '"' && !IsSpace(s[|s| - 1])
    ensures LabelsFrom(s, known)
            == var (value, after) := Unquote(body[1..], false);
               if after.None? then known[k := value] else LabelsFrom(TrimSeparators(after.value), known[k := value])
  {
    NameFacts(k);
    TrimNothing(s);
    FirstIndex(k, '=', body);
    assert s[..|k|] == k && s[|k| + 1..] == body;
  }

  /** One round of the label loop reads one printed label. */
  lemma OneLabel(k: string, v: string, more: string, s: string, known: map<string, string>)
    requires IsName(k) && s == k + ['='] + ("\"" + (Escape(v) + "\"" + more)) && !IsSpace(s[|s| - 1])
    ensures LabelsFrom(s, known) == LabelsFrom(TrimSeparators(more), known[k := FeedsToLetters(v)])
  {
    var body := "\"" + (Escape(v) + "\"" + more);
    assert body[1..] == Escape(v) + "\"" + more;
    UnquoteOfEscape(v, more);
    LabelRound(k, body, s, known);
  }

  lemma AfterComma(labels: seq<Label>)
    requires LabelsOk(labels) && labels != []
    ensures TrimSeparators("," + PrintLabels(labels)) == PrintLabels(labels)
  {
    var s := PrintLabels(labels);
    assert ("," + s)[1..] == s;
    assert IsName(labels[0].0);
    NameFacts(labels[0].0);
    PrintedLabelsEnd(labels);
    assert IsNameChar(s[0]);
  }

  /** Reading printed labels gives the printed labels, whatever their values contain. */
  lemma {:induction false} LabelsComeBack(labels: seq<Label>, known: map<string, string>)
    requires LabelsOk(labels)
    ensures LabelsFrom(PrintLabels(labels), known) == LabelMap(labels, known)
  {
    if labels != [] {
      var k, v := labels[0].0, labels[0].1;
      var more, s := MoreLabels(labels), PrintLabels(labels);
      PrintedLabelsEnd(labels);
      OneLabel(k, v, more, s, known);
      LabelsComeBack(labels[1..], known[k := FeedsToLetters(v)]);
      if |labels| > 1 {
        AfterComma(labels[1..]);
      }
    }
  }

  lemma {:induction false} PrintedLabelsEnd(labels: seq<Label>)
    requires LabelsOk(labels) && labels != []
    ensures var s := PrintLabels(labels); s != "" && s[|s| - 1] == '"' && s[0] == labels[0].0[0]
  {
    if |labels| > 1 {
      PrintedLabelsEnd(labels[1..]);
    }
  }

  // ----------------------------------------------------------------- lines

  lemma BracePositions(name: string, inner: string, after: string, line: string)
    requires line == name + ['{'] + inner + ['}'] + after && '{' !in name && '}' !in after
    ensures var b, e := IndexOf(line, '{'), LastIndexOf(line, '}');
            0 <= b < e && line[..b] == name && line[b + 1..e] == inner && line[e + 1..] == after
  {
    assert line == name + ['{'] + (inner + ['}'] + after);
    FirstIndex(name, '{', inner + ['}'] + after);
    LastIndex(name + ['{'] + inner, '}', after);
  }

  lemma BracedLine<V>(name: string, inner: string, v: string, parse: NumberParser<V>)
    requires IsName(name) && v != "" && !IsSpace(v[0]) && !EndsInSpace(v) && '}' !in v
    ensures LineMeaning(name + ['{'] + inner + ['}'] + (" " + v), parse)
            == WithValue(name, LabelsFrom(inner, map[]), parse(v))
  {
    NameFacts(name);
    BracePositions(name, inner, " " + v, name + ['{'] + inner + ['}'] + (" " + v));
    TrimOneLeft(v);
    TrimNothing(v);
  }

  lemma TrimOneLeft(v: string)
    ensures TrimSpace(" " + v) == TrimSpace(v)
  {
    assert (" " + v)[1..] == v;
  }

  lemma PlainLine<V>(name: string, v: string, parse: NumberParser<V>)
    requires IsName(name) && NoSpace(v) && v != "" && '{' !in v
    ensures LineMeaning(name + " " + v, parse) == WithValue(name, map[], parse(v))
  {
    NameFacts(name);
    NoIndex(name + " " + v, '{');
    FieldsCons(name, v);
    OneField(v);
  }

  /** A printed sample line reads back as its sample, with the sample's name. */
  lemma SampleComesBack<V(!new)>(s: SampleDoc<V>, num: Numbers<V>)
    requires IsName(s.name) && LabelsOk(s.labels) && ReadsBack(num)
    ensures TrimSpace(SampleLine(s, num)) == SampleLine(s, num)
    ensures LineMeaning(SampleLine(s, num), num.parse) == Sample(s.name, LabelMap(s.labels, map[]), s.value)
    ensures SampleLine(s, num) != "" && SampleLine(s, num)[0] != '#'
  {
    var line, v := SampleLine(s, num), num.write(s.value);
    NameFacts(s.name);
    assert line[0] == s.name[0] && line[|line| - 1] == v[|v| - 1];
    TrimNothing(line);
    if s.labels == [] {
      assert line == s.name + " " + v;
      PlainLine(s.name, v, num.parse);
    } else {
      var inner := PrintLabels(s.labels);
      assert line == s.name + ['{'] + inner + ['}'] + (" " + v);
      BracedLine(s.name, inner, v, num.parse);
      LabelsComeBack(s.labels, map[]);
    }
  }

  /** A number parser that takes no white space within a number. */
  ghost predicate RejectsSpaces<V>(parse: NumberParser<V>) {
    forall s :: !NoSpace(s) ==> parse(s) == None
  }

  /** A sample may have a timestamp after its value: the sample is read as without it exactly when
      it has no labels, and dropped otherwise. */
  lemma TimestampIsReadOverExactly<V(!new)>(s: SampleDoc<V>, num: Numbers<V>, at: string)
    requires IsName(s.name) && LabelsOk(s.labels) && ReadsBack(num) && RejectsSpaces(num.parse)
    requires at != "" && NoSpace(at) && '{' !in at && '}' !in at
    ensures var line := SampleLine(s, num) + " " + at;
            && TrimSpace(line) == line && line[0] != '#'
            && (LineMeaning(line, num.parse) == Sample(s.name, LabelMap(s.labels, map[]), s.value) <==> s.labels == [])
            && (s.labels != [] ==> LineMeaning(line, num.parse) == NoSample)
  {
    var line, v := SampleLine(s, num) + " " + at, num.write(s.value);
    var late := v + " " + at;
    NameFacts(s.name);
    assert line[0] == s.name[0] && line[|line| - 1] == at[|at| - 1];
    TrimNothing(line);
    if s.labels == [] {
      assert line == s.name + " " + late;
      NoIndex(line, '{');
      FieldsCons(s.name, late);
      FieldsCons(v, at);
      OneField(at);
    } else {
      var inner := PrintLabels(s.labels);
      assert line == s.name + ['{'] + inner + ['}'] + (" " + late);
      assert late[|v|] == ' ' && !NoSpace(late);
      BracedLine(s.name, inner, late, num.parse);
    }
  }

  /** A name and a text behind it, the text without the white space at its end. */
  function NameAndText(name: string, text: string): string {
    if TrimRightSpace(text) == "" then name else name + " " + TrimRightSpace(text)
  }

  lemma TrimBehind(bare: string, text: string)
    requires bare != "" && !IsSpace(bare[0]) && !EndsInSpace(bare)
    ensures TrimSpace(bare + " " + text)
            == if TrimRightSpace(text) == "" then bare else bare + " " + TrimRightSpace(text)
  {
    TrimRightConcat(bare + " ", text);
    TrimRightStops(bare);
    assert (bare + " ")[..|bare|] == bare;
    assert (bare + " " + text)[0] == bare[0];
  }

  lemma TrimHead(head: string, name: string, text: string)
    requires head == "# HELP " || head == "# TYPE "
    requires IsName(name)
    ensures TrimSpace(head + name + " " + text) == head + NameAndText(name, text)
  {
    var bare, kept := head + name, TrimRightSpace(text);
    NameFacts(name);
    assert bare[0] == '#' && bare[|bare| - 1] == name[|name| - 1];
    TrimBehind(bare, text);
    assert head + (name + " " + kept) == bare + " " + kept;
  }

  /** A HELP or TYPE line reads back as the name and the text without the white space at its end. */
  lemma HeadComesBack(head: string, name: string, text: string)
    requires head == "# HELP " || head == "# TYPE "
    requires IsName(name)
    ensures var line := TrimSpace(head + name + " " + text);
            && |line| >= 7 && head <= line && line[2] == head[2]
            && FirstWord(line[7..]) == name && AfterWord(line[7..]) == TrimRightSpace(text)
  {
    TrimHead(head, name, text);
    NameFacts(name);
    TwoParts(name, TrimRightSpace(text));
    Behind(head, NameAndText(name, text));
  }

  lemma Behind(head: string, after: string)
    requires |head| == 7
    ensures var line := head + after; head <= line && line[2] == head[2] && line[7..] == after
  {
  }

  /** A HELP text comes back from the parser exactly when it has no backslash and no line feed and
      does not end in white space. */
  lemma HelpSurvivesExactly(name: string, v: string)
    requires IsName(name)
    ensures var line := TrimSpace("# HELP " + name + " " + EscapeHelp(v));
            |line| >= 7 && (AfterWord(line[7..]) == v <==> '\\' !in v && '\n' !in v && !EndsInSpace(v))
  {
    HeadComesBack("# HELP ", name, EscapeHelp(v));
    KeptHelpExactly(v);
  }

  // ------------------------------------------------------------- documents

  lemma {:induction false} LinesConcat<V>(p: Progress<V>, a: seq<string>, b: seq<string>, parse: NumberParser<V>)
    ensures LinesStep(p, a + b, parse)
            == if LinesStep(p, a, parse).None? then None else LinesStep(LinesStep(p, a, parse).value, b, parse)
  {
    if b == [] {
      assert a + b == a;
    } else {
      LinesConcat(p, a, b[..|b| - 1], parse);
      assert (a + b)[..|a + b| - 1] == a + b[..|b| - 1];
    }
  }

  /** The current family with some samples. */
  function WithMetrics<V>(p: Progress<V>, name: string, metrics: seq<Metric<V>>): Progress<V>
    requires name in p.families
  {
    p.(families := p.families[name := p.families[name].(metrics := metrics)])
  }

  lemma SampleStep<V(!new)>(p: Progress<V>, f: FamilyDoc<V>, s: SampleDoc<V>, num: Numbers<V>)
    requires IsName(f.name) && IsName(s.name) && f.name <= s.name && LabelsOk(s.labels) && ReadsBack(num)
    requires p.currentName == f.name && f.name in p.families
    ensures LineStep(p, SampleLine(s, num), num.parse)
            == Some(WithMetrics(p, f.name, p.families[f.name].metrics + [Metric(LabelMap(s.labels, map[]), s.value)]))
  {
    SampleComesBack(s, num);
  }

  /** The samples of a family all land in it, in order. */
  lemma {:induction false} SamplesComeBack<V(!new)>(p: Progress<V>, f: FamilyDoc<V>, samples: seq<SampleDoc<V>>, num: Numbers<V>)
    requires FamilyOk(f.(samples := samples)) && ReadsBack(num)
    requires p.currentName == f.name && f.name in p.families && p.families[f.name].metrics == []
    ensures LinesStep(p, SampleLines(samples, num), num.parse) == Some(WithMetrics(p, f.name, Metrics(samples)))
  {
    if samples != [] {
      var init, last := samples[..|samples| - 1], samples[|samples| - 1];
      SamplesComeBack(p, f, init, num);
      SampleStep(WithMetrics(p, f.name, Metrics(init)), f, last, num);
      WithMetricsTwice(p, f.name, Metrics(init), Metrics(samples));
      LinesSnoc(p, SampleLines(init, num), SampleLine(last, num), num.parse);
    } else {
      assert WithMetrics(p, f.name, []).families == p.families;
    }
  }

  lemma WithMetricsTwice<V>(p: Progress<V>, name: string, a: seq<Metric<V>>, b: seq<Metric<V>>)
    requires name in p.families
    ensures WithMetrics(WithMetrics(p, name, a), name, b) == WithMetrics(p, name, b)
  {
    assert WithMetrics(WithMetrics(p, name, a), name, b).families == WithMetrics(p, name, b).families;
  }

  lemma LinesSnoc<V>(p: Progress<V>, lines: seq<string>, line: string, parse: NumberParser<V>)
    ensures LinesStep(p, lines + [line], parse)
            == if LinesStep(p, lines, parse).None? then None else LineStep(LinesStep(p, lines, parse).value, line, parse)
  {
    assert (lines + [line])[..|lines|] == lines;
  }

  lemma OneLine<V>(p: Progress<V>, line: string, parse: NumberParser<V>)
    ensures LinesStep(p, [line], parse) == LineStep(p, line, parse)
  {
    assert [line][..0] == [];
  }

  lemma HelpStep<V>(p: Progress<V>, f: FamilyDoc<V>, parse: NumberParser<V>)
    requires FamilyOk(f)
    ensures LineStep(p, HelpLine(f), parse) == Some(SetHelp(p, f.name, TrimRightSpace(EscapeHelp(f.help))))
  {
    HeadComesBack("# HELP ", f.name, EscapeHelp(f.help));
  }

  lemma TypeStep<V>(p: Progress<V>, f: FamilyDoc<V>, parse: NumberParser<V>)
    requires FamilyOk(f)
    ensures LineStep(p, TypeLine(f), parse) == Some(SetType(p, f.name, TrimRightSpace(f.typ)))
  {
    HeadComesBack("# TYPE ", f.name, f.typ);
    assert TrimSpace(TypeLine(f))[2] == 'T';
  }

  /** The family before its samples. */
  function Heading<V>(f: FamilyDoc<V>): Family<V> {
    ReadFamily(f).(metrics := [])
  }

  /** HELP and TYPE make an empty family with both texts. */
  lemma HeadsComeBack<V>(p: Progress<V>, f: FamilyDoc<V>, parse: NumberParser<V>)
    requires FamilyOk(f) && f.name !in p.families
    ensures LinesStep(p, [HelpLine(f), TypeLine(f)], parse)
            == Some(Progress(p.families[f.name := Heading(f)], f.name))
  {
    var p1 := SetHelp(p, f.name, Heading(f).help);
    HelpStep(p, f, parse);
    TypeStep(p1, f, parse);
    var p2 := SetType(p1, f.name, Heading(f).typ);
    TwoLines(p, HelpLine(f), p1, TypeLine(f), p2, parse);
    SetBoth(p, f.name, Heading(f));
  }

  lemma SetBoth<V>(p: Progress<V>, name: string, heading: Family<V>)
    requires name !in p.families && heading.name == name && heading.metrics == []
    ensures SetType(SetHelp(p, name, heading.help), name, heading.typ) == Progress(p.families[name := heading], name)
  {
    assert SetType(SetHelp(p, name, heading.help), name, heading.typ).families == p.families[name := heading];
  }

  lemma TwoLines<V>(p: Progress<V>, a: string, p1: Progress<V>, b: string, p2: Progress<V>, parse: NumberParser<V>)
    requires LineStep(p, a, parse) == Some(p1) && LineStep(p1, b, parse) == Some(p2)
    ensures LinesStep(p, [a, b], parse) == Some(p2)
  {
    OneLine(p, a, parse);
    LinesSnoc(p, [a], b, parse);
    assert [a] + [b] == [a, b];
  }

  lemma FamilyComesBack<V(!new)>(p: Progress<V>, f: FamilyDoc<V>, num: Numbers<V>)
    requires FamilyOk(f) && ReadsBack(num) && f.name !in p.families
    ensures LinesStep(p, FamilyLines(f, num), num.parse)
            == Some(Progress(p.families[f.name := ReadFamily(f)], f.name))
  {
    var heads := [HelpLine(f), TypeLine(f)];
    var p2 := Progress(p.families[f.name := Heading(f)], f.name);
    HeadsComeBack(p, f, num.parse);
    LinesConcat(p, heads, SampleLines(f.samples, num), num.parse);
    SamplesComeBack(p2, f, f.samples, num);
    Filled(p, f);
  }

  lemma Filled<V>(p: Progress<V>, f: FamilyDoc<V>)
    ensures WithMetrics(Progress(p.families[f.name := Heading(f)], f.name), f.name, Metrics(f.samples))
            == Progress(p.families[f.name := ReadFamily(f)], f.name)
  {
    assert p.families[f.name := Heading(f)][f.name := ReadFamily(f)] == p.families[f.name := ReadFamily(f)];
  }

  lemma {:induction false} ReadNames<V>(doc: seq<FamilyDoc<V>>, name: string)
    ensures name in ReadDoc(doc) ==> exists i :: 0 <= i < |doc| && doc[i].name == name
  {
    if doc != [] {
      ReadNames(doc[..|doc| - 1], name);
    }
  }

  lemma {:induction false} DocComesBack<V(!new)>(doc: seq<FamilyDoc<V>>, num: Numbers<V>)
    requires DocOk(doc) && ReadsBack(num)
    ensures var current := if doc == [] then "" else doc[|doc| - 1].name;
            LinesStep(Progress(map[], ""), DocLines(doc, num), num.parse) == Some(Progress(ReadDoc(doc), current))
  {
    if doc != [] {
      var start: Progress<V> := Progress(map[], "");
      var init, last := doc[..|doc| - 1], doc[|doc| - 1];
      DocComesBack(init, num);
      LinesConcat(start, DocLines(init, num), FamilyLines(last, num), num.parse);
      ReadNames(init, last.name);
      FamilyComesBack(LinesStep(start, DocLines(init, num), num.parse).value, last, num);
    }
  }

  // ------------------------------------------------------------------ text

  predicate IsLine(s: string) {
    '\n' !in s
  }

  /** Lines as the scanner hands them out. */
  function Scanned(lines: seq<string>): seq<string> {
    seq(|lines|, i requires 0 <= i < |lines| => DropCR(lines[i]))
  }

  lemma ScannedCons(lines: seq<string>)
    requires lines != []
    ensures Scanned(lines) == [DropCR(lines[0])] + Scanned(lines[1..])
  {
  }

  /** Lines without line feeds are scanned as they were written, but for a carriage return at their end. */
  lemma {:induction false} ScanOfUnlines(lines: seq<string>)
    requires forall i :: 0 <= i < |lines| ==> IsLine(lines[i])
    ensures ScanLines(Unlines(lines)) == Scanned(lines)
  {
    if lines != [] {
      ScanOfUnlines(lines[1..]);
      ScannedCons(lines);
      var text, rest := Unlines(lines), Unlines(lines[1..]);
      assert text == lines[0] + ['\n'] + rest;
      FirstIndex(lines[0], '\n', rest);
      assert text[..|lines[0]|] == lines[0] && text[|lines[0]| + 1..] == rest;
    }
  }

  lemma ScannedSnoc(init: seq<string>, last: string)
    ensures Scanned(init + [last]) == Scanned(init) + [DropCR(last)]
  {
  }

  lemma TrimDropped(line: string)
    ensures TrimSpace(DropCR(line)) == TrimSpace(line)
  {
    if DropCR(line) != line {
      assert line == line[..|line| - 1] + ['\r'];
      TrimSnoc(line[..|line| - 1], '\r');
    }
  }

  lemma DroppedAlike<V>(p: Progress<V>, line: string, parse: NumberParser<V>)
    ensures LineStep(p, DropCR(line), parse) == LineStep(p, line, parse)
  {
    TrimDropped(line);
  }

  /** The carriage return makes no difference: every line is trimmed. */
  lemma {:induction false} ScannedAlike<V>(p: Progress<V>, lines: seq<string>, parse: NumberParser<V>)
    ensures LinesStep(p, Scanned(lines), parse) == LinesStep(p, lines, parse)
  {
    if lines == [] {
      assert Scanned(lines) == lines;
    } else {
      var init, last := lines[..|lines| - 1], lines[|lines| - 1];
      assert lines == init + [last];
      ScannedAlike(p, init, parse);
      ScannedSnoc(init, last);
      LinesSnoc(p, init, last, parse);
      LinesSnoc(p, Scanned(init), DropCR(last), parse);
      if LinesStep(p, init, parse).Some? {
        DroppedAlike(LinesStep(p, init, parse).value, last, parse);
      }
    }
  }

  lemma {:induction false} EscapesHaveNoFeed(v: string)
    ensures '\n' !in Escape(v) && '\n' !in EscapeHelp(v)
  {
    if v != "" {
      EscapesHaveNoFeed(v[1..]);
    }
  }

  lemma {:induction false} PrintedLabelsAreOneLine(labels: seq<Label>)
    requires LabelsOk(labels)
    ensures '\n' !in PrintLabels(labels)
  {
    if labels != [] {
      PrintedLabelsAreOneLine(labels[1..]);
      EscapesHaveNoFeed(labels[0].1);
      assert IsName(labels[0].0);
      NameFacts(labels[0].0);
    }
  }

  lemma SampleIsLine<V(!new)>(s: SampleDoc<V>, num: Numbers<V>)
    requires IsName(s.name) && LabelsOk(s.labels) && ReadsBack(num)
    ensures IsLine(SampleLine(s, num))
  {
    NameFacts(s.name);
    PrintedLabelsAreOneLine(s.labels);
    assert '\n' !in num.write(s.value);
  }

  lemma {:induction false} SamplesAreLines<V(!new)>(samples: seq<SampleDoc<V>>, num: Numbers<V>)
    requires forall i :: 0 <= i < |samples| ==> IsName(samples[i].name) && LabelsOk(samples[i].labels)
    requires ReadsBack(num)
    ensures forall i :: 0 <= i < |SampleLines(samples, num)| ==> IsLine(SampleLines(samples, num)[i])
  {
    if samples != [] {
      SamplesAreLines(samples[..|samples| - 1], num);
      SampleIsLine(samples[|samples| - 1], num);
    }
  }

  lemma HeadIsLine(head: string, name: string, text: string)
    requires head == "# HELP " || head == "# TYPE "
    requires IsName(name) && '\n' !in text
    ensures IsLine(head + name + " " + text)
  {
    NameFacts(name);
  }

  lemma {:induction false} DocIsLines<V(!new)>(doc: seq<FamilyDoc<V>>, num: Numbers<V>)
    requires forall i :: 0 <= i < |doc| ==> FamilyOk(doc[i])
    requires ReadsBack(num)
    ensures forall i :: 0 <= i < |DocLines(doc, num)| ==> IsLine(DocLines(doc, num)[i])
  {
    if doc != [] {
      var last := doc[|doc| - 1];
      DocIsLines(doc[..|doc| - 1], num);
      EscapesHaveNoFeed(last.help);
      HeadIsLine("# HELP ", last.name, EscapeHelp(last.help));
      HeadIsLine("# TYPE ", last.name, last.typ);
      SamplesAreLines(last.samples, num);
    }
  }

  /** Parsing undoes printing: the parser returns exactly the printed families, each with its texts
      and its samples in order, whatever characters the label values contain; what changes is that
      line feeds in label values come back as the letter n, HELP texts stay escaped, and white space
      at the end of a HELP or TYPE text is lost. */
  lemma ParseUndoesPrint<V(!new)>(doc: seq<FamilyDoc<V>>, num: Numbers<V>)
    requires DocOk(doc) && ReadsBack(num)
    ensures Parsed(Print(doc, num), num.parse) == Some(ReadDoc(doc))
  {
    DocIsLines(doc, num);
    ScanOfUnlines(DocLines(doc, num));
    ScannedAlike(Progress(map[], ""), DocLines(doc, num), num.parse);
    DocComesBack(doc, num);
  }

  // ------------------------------------------------------ exact round trip

  /** The document as its author meant it: texts and label values as they were before escaping. */
  function MeantLabels(labels: seq<Label>, known: map<string, string>): map<string, string> {
    if labels == [] then known else MeantLabels(labels[1..], known[labels[0].0 := labels[0].1])
  }

  function MeantMetrics<V>(samples: seq<SampleDoc<V>>): (ms: seq<Metric<V>>)
    ensures |ms| == |samples|
    ensures forall i :: 0 <= i < |samples| ==> ms[i] == Metric(MeantLabels(samples[i].labels, map[]), samples[i].value)
  {
    seq(|samples|, i requires 0 <= i < |samples| => Metric(MeantLabels(samples[i].labels, map[]), samples[i].value))
  }

  function MeantFamily<V>(f: FamilyDoc<V>): Family<V> {
    Family(f.name, f.help, f.typ, MeantMetrics(f.samples))
  }

  function MeantDoc<V>(doc: seq<FamilyDoc<V>>): map<string, Family<V>> {
    if doc == [] then map[] else MeantDoc(doc[..|doc| - 1])[doc[|doc| - 1].name := MeantFamily(doc[|doc| - 1])]
  }

  predicate DistinctLabels(labels: seq<Label>) {
    forall i, j :: 0 <= i < j < |labels| ==> labels[i].0 != labels[j].0
  }

  predicate CleanLabels(labels: seq<Label>) {
    forall i :: 0 <= i < |labels| ==> '\n' !in labels[i].1
  }

  predicate CleanFamily<V>(f: FamilyDoc<V>) {
    && '\\' !in f.help && '\n' !in f.help && !EndsInSpace(f.help) && !EndsInSpace(f.typ)
    && forall i :: 0 <= i < |f.samples| ==> CleanLabels(f.samples[i].labels)
  }

  lemma FeedsExactly(v: string)
    ensures FeedsToLetters(v) == v <==> '\n' !in v
  {
    LabelValueSurvivesExactly(v, "");
    UnquoteOfEscape(v, "");
  }

  lemma {:induction false} OtherNameKept(labels: seq<Label>, known: map<string, string>, name: string)
    requires name in known && forall i :: 0 <= i < |labels| ==> labels[i].0 != name
    ensures name in LabelMap(labels, known) && LabelMap(labels, known)[name] == known[name]
    ensures name in MeantLabels(labels, known) && MeantLabels(labels, known)[name] == known[name]
    decreases |labels|
  {
    if labels != [] {
      OtherNameKept(labels[1..], known[labels[0].0 := FeedsToLetters(labels[0].1)], name);
      OtherNameKept(labels[1..], known[labels[0].0 := labels[0].1], name);
    }
  }

  lemma {:induction false} LabelsMeantExactly(labels: seq<Label>, known: map<string, string>, known': map<string, string>)
    requires DistinctLabels(labels)
    ensures CleanLabels(labels) && known == known' ==> LabelMap(labels, known) == MeantLabels(labels, known')
    ensures LabelMap(labels, known) == MeantLabels(labels, known') ==> CleanLabels(labels)
    decreases |labels|
  {
    if labels != [] {
      var k, v := labels[0].0, labels[0].1;
      FeedsExactly(v);
      var next, next' := known[k := FeedsToLetters(v)], known'[k := v];
      LabelsMeantExactly(labels[1..], next, next');
      OtherNameKept(labels[1..], next, k);
      OtherNameKept(labels[1..], next', k);
      assert labels == [labels[0]] + labels[1..];
    }
  }

  lemma {:induction false} MetricsIndex<V>(samples: seq<SampleDoc<V>>)
    ensures |Metrics(samples)| == |samples|
    ensures forall i :: 0 <= i < |samples| ==>
              Metrics(samples)[i] == Metric(LabelMap(samples[i].labels, map[]), samples[i].value)
  {
    if samples != [] {
      MetricsIndex(samples[..|samples| - 1]);
    }
  }

  lemma FamilyMeantExactly<V>(f: FamilyDoc<V>)
    requires forall i :: 0 <= i < |f.samples| ==> DistinctLabels(f.samples[i].labels)
    ensures ReadFamily(f) == MeantFamily(f) <==> CleanFamily(f)
  {
    KeptHelpExactly(f.help);
    TrimRightStops(f.typ);
    MetricsIndex(f.samples);
    forall i | 0 <= i < |f.samples|
      ensures Metrics(f.samples)[i] == MeantMetrics(f.samples)[i] <==> CleanLabels(f.samples[i].labels)
    {
      LabelsMeantExactly(f.samples[i].labels, map[], map[]);
    }
    if CleanFamily(f) {
      assert Metrics(f.samples) == MeantMetrics(f.samples);
    }
  }

  lemma {:induction false} DocIndex<V>(doc: seq<FamilyDoc<V>>, i: nat)
    requires i < |doc| && forall a, b :: 0 <= a < b < |doc| ==> doc[a].name != doc[b].name
    ensures doc[i].name in ReadDoc(doc) && ReadDoc(doc)[doc[i].name] == ReadFamily(doc[i])
    ensures doc[i].name in MeantDoc(doc) && MeantDoc(doc)[doc[i].name] == MeantFamily(doc[i])
  {
    if i < |doc| - 1 {
      DocIndex(doc[..|doc| - 1], i);
    }
  }

  lemma {:induction false} SameWhenFamiliesSame<V>(doc: seq<FamilyDoc<V>>)
    requires forall i :: 0 <= i < |doc| ==> ReadFamily(doc[i]) == MeantFamily(doc[i])
    ensures ReadDoc(doc) == MeantDoc(doc)
  {
    if doc != [] {
      SameWhenFamiliesSame(doc[..|doc| - 1]);
    }
  }

  /** The parser returns the document as it was meant exactly when no label value has a line feed,
      no HELP text has a backslash or a line feed, and no HELP or TYPE text ends in white space. */
  lemma RoundTripExactly<V(!new)>(doc: seq<FamilyDoc<V>>, num: Numbers<V>)
    requires DocOk(doc) && ReadsBack(num)
    requires forall i, j :: 0 <= i < |doc| && 0 <= j < |doc[i].samples| ==> DistinctLabels(doc[i].samples[j].labels)
    ensures Parsed(Print(doc, num), num.parse) == Some(MeantDoc(doc))
            <==> forall i :: 0 <= i < |doc| ==> CleanFamily(doc[i])
  {
    ParseUndoesPrint(doc, num);
    forall i | 0 <= i < |doc| ensures ReadFamily(doc[i]) == MeantFamily(doc[i]) <==> CleanFamily(doc[i]) {
      FamilyMeantExactly(doc[i]);
    }
    if ReadDoc(doc) == MeantDoc(doc) {
      forall i | 0 <= i < |doc| ensures CleanFamily(doc[i]) {
        DocIndex(doc, i);
      }
    } else if forall i :: 0 <= i < |doc| ==> CleanFamily(doc[i]) {
      SameWhenFamiliesSame(doc);
    }
  }
}
